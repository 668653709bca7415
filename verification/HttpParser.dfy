/** The incremental HTTP parser of httpbase.cc.

    The reference is an automaton that takes one character at a time (`Feed`).  `Process` works on
    a whole buffer, scans for line ends, hands over body bytes in blocks and may stop in the
    middle; its contract says that what it consumed took the automaton to the same place. */
module HttpParsing {
  import opened HttpText

  /** ST_LEADER .. ST_COMPLETE */
  datatype State = Leader | Headers | ChunkSize | ChunkTerm | Trailers | Data | Complete

  datatype ProcessResult = PR_CONTINUE | PR_BLOCK | PR_COMPLETE

  /** What the parser asks of its owner: the leader's verdict, and the owner's answer when the
      header block ends (an error, and the possibly replaced body size). */
  datatype Owner = Owner(
    parseLeader: string -> HttpError,
    headerComplete: (seq<Header>, bool, Size) -> (HttpError, Size))

  /** The parser's fields together with what it has handed to its owner. */
  datatype Parser = Parser(
    state: State,
    chunked: bool,
    dataSize: Size,
    leader: string,
    headers: seq<Header>,
    body: string)

  const RESET := Parser(Leader, false, SIZE_UNKNOWN, "", [], "")

  predicate InLines(p: Parser) {
    p.state != Data && p.state != Complete
  }

  datatype LineOutcome = LineOutcome(p: Parser, result: ProcessResult, error: HttpError)

  function Continue(p: Parser): LineOutcome { LineOutcome(p, PR_CONTINUE, HE_NONE) }
  function Stop(p: Parser, e: HttpError): LineOutcome { LineOutcome(p, PR_COMPLETE, e) }

  /** ST_HEADERS with a non-empty line. */
  function HeaderLine(p: Parser, line: string): (o: LineOutcome)
    requires p.state == Headers
    ensures o.p.state == Headers
    ensures o.result != PR_BLOCK && (o.result == PR_CONTINUE ==> o.error == HE_NONE)
  {
    match FindColon(line)
    case None => Stop(p, HE_PROTOCOL)
    case Some(nlen) =>
      var name := line[..nlen];
      var value := TrimLeft(line[nlen + 1..]);
      var added := p.(headers := p.headers + [Header(name, value)]);
      if SameText(name, "Content-Length") then
        match ScanUnsigned(value)
        case None => Stop(p, HE_PROTOCOL)
        case Some(n) => Continue(added.(dataSize := n))
      else if SameText(name, "Transfer-Encoding") then
        if SameText(value, "chunked") then Continue(added.(chunked := true))
        else if SameText(value, "identity") then Continue(added.(chunked := false))
        else Stop(p, HE_PROTOCOL)
      else Continue(added)
  }

  /** ProcessLine, on a line without its trailing white space. */
  function ProcessLine(owner: Owner, p: Parser, line: string): (o: LineOutcome)
    requires InLines(p)
    ensures o.p.state != Complete
    ensures o.result != PR_BLOCK && (o.result == PR_CONTINUE ==> o.error == HE_NONE)
  {
    match p.state
    case Leader =>
      var error := owner.parseLeader(line);
      var next := p.(state := Headers, leader := line);
      if error == HE_NONE then Continue(next) else Stop(next, error)
    case Headers =>
      if line != [] then HeaderLine(p, line)
      else
        var (error, size) := owner.headerComplete(p.headers, p.chunked, p.dataSize);
        var next := p.(state := if p.chunked then ChunkSize else Data, dataSize := size);
        if error == HE_NONE then Continue(next) else Stop(next, error)
    case ChunkSize =>
      if line == [] then Stop(p, HE_PROTOCOL)
      else
        var (n, whole) := ChunkSizeOf(line);
        var sized := p.(dataSize := n);
        if whole then Continue(sized.(state := if n == 0 then Trailers else Data)) else Stop(sized, HE_PROTOCOL)
    case ChunkTerm =>
      if line != [] then Stop(p, HE_PROTOCOL)
      else Continue(p.(state := if p.chunked then ChunkSize else Data))
    case Trailers =>
      if line == [] then Stop(p, HE_NONE) else Continue(p)
  }

  // ---------- What is an error, and what is passed over ----------

  /** A header line that the parser rejects: no name, a Content-Length that does not start with a number,
      or an encoding it does not know. */
  ghost predicate BadHeader(line: string) {
    || (forall k: nat :: !ColonAt(line, k))
    || (exists k: nat :: ColonAt(line, k) &&
          var value := TrimLeft(line[k + 1..]);
          || (SameText(line[..k], "Content-Length") && ScanUnsigned(value).None?)
          || (SameText(line[..k], "Transfer-Encoding") &&
              !SameText(value, "chunked") && !SameText(value, "identity")))
  }

  lemma HeaderErrorIff(p: Parser, line: string)
    requires p.state == Headers
    ensures if BadHeader(line) then HeaderLine(p, line) == Stop(p, HE_PROTOCOL)
            else
              && HeaderLine(p, line).result == PR_CONTINUE
              && HeaderLine(p, line).p.headers ==
                 p.headers + [Header(line[..FindColon(line).value], TrimLeft(line[FindColon(line).value + 1..]))]
  {
    hide FindColon, ColonAt, TrimLeft, ScanUnsigned, SameText;
    forall k: nat
      ensures ColonAt(line, k) <==> FindColon(line) == Some(k)
    {
      FindColonIff(line, k);
    }
    NotBoth(line);
  }

  /** The two places where the owner decides: the leader, and the end of the headers, where it may also
      replace the size of the body. */
  lemma OwnerDecides(owner: Owner, p: Parser, line: string)
    requires p.state == Leader || (p.state == Headers && line == "")
    ensures var o := ProcessLine(owner, p, line);
            var (error, size) := if p.state == Leader then (owner.parseLeader(line), p.dataSize)
                                 else owner.headerComplete(p.headers, p.chunked, p.dataSize);
            && o.error == error && (o.result == PR_COMPLETE <==> error != HE_NONE) && o.p.dataSize == size
            && o.p.leader == (if p.state == Leader then line else p.leader) && o.p.headers == p.headers
            && o.p.state == (if p.state == Leader then Headers else if p.chunked then ChunkSize else Data)
  {
  }

  lemma NotBoth(line: string)
    ensures forall k: nat :: k <= |line| ==>
              !(SameText(line[..k], "Content-Length") && SameText(line[..k], "Transfer-Encoding"))
  {
    forall k: nat | k <= |line|
      ensures !(SameText(line[..k], "Content-Length") && SameText(line[..k], "Transfer-Encoding"))
    {
      assert |Lower(line[..k])| == k;
    }
  }

  /** After the headers: a chunk size that is missing or not a number through to the end of the line, and
      anything between a chunk's bytes and the next size, are errors; trailers are passed over, and
      nothing else stops the parser but the blank line after them. */
  lemma BodyErrorIff(owner: Owner, p: Parser, line: string)
    requires p.state == ChunkSize || p.state == ChunkTerm || p.state == Trailers
    ensures var o := ProcessLine(owner, p, line);
            match p.state
            case ChunkSize =>
              if line == "" || !ChunkSizeOf(line).1 then o.result == PR_COMPLETE && o.error == HE_PROTOCOL
              else o == Continue(p.(dataSize := ChunkSizeOf(line).0,
                                    state := if ChunkSizeOf(line).0 == 0 then Trailers else Data))
            case ChunkTerm =>
              if line == "" then
                o.result == PR_CONTINUE && o.p.dataSize == p.dataSize && (p.chunked ==> o.p.state == ChunkSize)
              else o == Stop(p, HE_PROTOCOL)
            case _ => o == if line == "" then Stop(p, HE_NONE) else Continue(p)
  {
    hide ChunkSizeOf;
  }

  // ---------- The character-at-a-time reference ----------

  /** Either the parser wants more (and holds the start of an unfinished line), or the message
      ended with `error` and `rest` came after it. */
  datatype Machine =
    | Reading(p: Parser, line: string)
    | Done(p: Parser, error: HttpError, rest: string)

  const START := Reading(RESET, "")

  /** A body with nothing left to read ends its chunk or the whole message. */
  function Settle(p: Parser): (m: Machine) {
    if p.state == Data && p.dataSize == 0 then
      if p.chunked then Reading(p.(state := ChunkTerm), "") else Done(p, HE_NONE, "")
    else Reading(p, "")
  }

  function Deliver(p: Parser, bytes: string): (r: Parser)
    requires p.dataSize == SIZE_UNKNOWN || |bytes| <= p.dataSize
  {
    p.(body := p.body + bytes,
       dataSize := if p.dataSize == SIZE_UNKNOWN then SIZE_UNKNOWN else p.dataSize - |bytes|)
  }

  function EndLine(owner: Owner, p: Parser, line: string): (m: Machine)
    requires InLines(p)
  {
    var o := ProcessLine(owner, p, TrimRight(line));
    if o.result == PR_CONTINUE then Settle(o.p) else Done(o.p, o.error, "")
  }

  function Step(owner: Owner, m: Machine, c: char): (r: Machine) {
    match m
    case Done(p, error, rest) => Done(p, error, rest + [c])
    case Reading(p, line) =>
      if p.state == Complete then m
      else if p.state == Data then
        if p.dataSize == 0 then m else Settle(Deliver(p, [c]))
      else if c == '\n' then EndLine(owner, p, line)
      else Reading(p, line + [c])
  }

  function Feed(owner: Owner, m: Machine, s: string): (r: Machine)
    decreases |s|
  {
    if s == [] then m else Feed(owner, Step(owner, m, s[0]), s[1..])
  }

  lemma FeedNothing(owner: Owner, m: Machine)
    ensures Feed(owner, m, "") == m
  {
  }

  /** Cutting the stream anywhere does not matter to the automaton. */
  lemma {:induction false} FeedConcat(owner: Owner, m: Machine, a: string, b: string)
    ensures Feed(owner, m, a + b) == Feed(owner, Feed(owner, m, a), b)
    decreases |a|
  {
    hide Step;
    if a == [] {
      assert a + b == b;
    } else {
      FeedConcat(owner, Step(owner, m, a[0]), a[1..], b);
      assert (a + b)[1..] == a[1..] + b;
    }
  }

  lemma {:induction false} FeedDone(owner: Owner, m: Machine, s: string)
    requires m.Done?
    ensures Feed(owner, m, s) == m.(rest := m.rest + s)
    decreases |s|
  {
    if s == [] {
      assert m.rest + s == m.rest;
    } else {
      FeedDone(owner, Step(owner, m, s[0]), s[1..]);
      assert m.rest + [s[0]] + s[1..] == m.rest + s;
    }
  }

  lemma {:induction false} FeedPartialLine(owner: Owner, m: Machine, s: string)
    requires m.Reading? && InLines(m.p) && '\n' !in s
    ensures Feed(owner, m, s) == m.(line := m.line + s)
    decreases |s|
  {
    hide EndLine, Settle;
    if s == [] {
      assert m.line + s == m.line;
    } else {
      FeedPartialLine(owner, Step(owner, m, s[0]), s[1..]);
      assert m.line + [s[0]] + s[1..] == m.line + s;
    }
  }

  lemma FeedLine(owner: Owner, p: Parser, s: string)
    requires InLines(p) && '\n' !in s
    ensures Feed(owner, Reading(p, ""), s + "\n") == EndLine(owner, p, s)
  {
    hide EndLine;
    FeedConcat(owner, Reading(p, ""), s, "\n");
    FeedPartialLine(owner, Reading(p, ""), s);
    assert "" + s == s;
    assert Feed(owner, Reading(p, s), "\n") == Feed(owner, EndLine(owner, p, s), []);
  }

  lemma {:induction false} FeedBody(owner: Owner, p: Parser, s: string)
    requires p.state == Data && p.dataSize != 0
    requires p.dataSize == SIZE_UNKNOWN || |s| <= p.dataSize
    ensures Feed(owner, Reading(p, ""), s) == Settle(Deliver(p, s))
    decreases |s|
  {
    if s == [] {
      assert p.body + s == p.body;
    } else {
      var q := Deliver(p, [s[0]]);
      assert p.body + [s[0]] + s[1..] == p.body + s;
      if q.dataSize == 0 {
        assert s[1..] == [];
        assert [s[0]] == s;
      } else {
        FeedBody(owner, q, s[1..]);
      }
    }
  }

  /** One more line of a buffer. */
  lemma TakeLine(owner: Owner, m: Machine, buffer: string, from: nat, pos: nat, p: Parser)
    requires from <= pos < |buffer| && '\n' !in buffer[from..pos] && buffer[pos] == '\n'
    requires InLines(p) && Feed(owner, m, buffer[..from]) == Reading(p, "")
    ensures Feed(owner, m, buffer[..pos + 1]) == EndLine(owner, p, buffer[from..pos])
  {
    hide Feed, EndLine;
    var raw := buffer[from..pos];
    FeedConcat(owner, m, buffer[..from], raw + "\n");
    FeedLine(owner, p, raw);
    assert buffer[..from] + (raw + "\n") == buffer[..pos + 1];
  }

  /** One more block of body bytes of a buffer. */
  lemma TakeBody(owner: Owner, m: Machine, buffer: string, from: nat, read: nat, p: Parser)
    requires from + read <= |buffer|
    requires p.state == Data && p.dataSize != 0 && (p.dataSize == SIZE_UNKNOWN || read <= p.dataSize)
    requires Feed(owner, m, buffer[..from]) == Reading(p, "")
    ensures Feed(owner, m, buffer[..from + read]) == Settle(Deliver(p, buffer[from..from + read]))
  {
    hide Feed;
    FeedConcat(owner, m, buffer[..from], buffer[from..from + read]);
    FeedBody(owner, p, buffer[from..from + read]);
    assert buffer[..from] + buffer[from..from + read] == buffer[..from + read];
  }

  // ---------- The parser object ----------

  class HttpParser {
    const owner: Owner
    const hasDocument: bool   // false when the body is to be ignored
    var state: State
    var chunked: bool
    var dataSize: Size
    var leader: string
    var headers: seq<Header>
    var body: string

    function View(): Parser
      reads this
    {
      Parser(state, chunked, dataSize, leader, headers, body)
    }

    constructor (owner: Owner, hasDocument: bool)
      ensures View() == RESET && this.owner == owner && this.hasDocument == hasDocument
    {
      this.owner, this.hasDocument := owner, hasDocument;
      state, chunked, dataSize := Leader, false, SIZE_UNKNOWN;
      leader, headers, body := "", [], "";
    }

    method Assign(p: Parser)
      modifies this
      ensures View() == p
    {
      state, chunked, dataSize := p.state, p.chunked, p.dataSize;
      leader, headers, body := p.leader, p.headers, p.body;
    }

    method ScanLine(buffer: string, from: nat) returns (pos: nat)
      requires from <= |buffer|
      ensures from <= pos <= |buffer|
      ensures '\n' !in buffer[from..pos]
      ensures pos < |buffer| ==> buffer[pos] == '\n'
    {
      pos := from;
      while pos < |buffer| && buffer[pos] != '\n'
        invariant from <= pos <= |buffer|
        invariant '\n' !in buffer[from..pos]
      {
        assert buffer[from..pos + 1] == buffer[from..pos] + [buffer[pos]];
        pos := pos + 1;
      }
    }

    method TrimLine(line: string) returns (trimmed: string)
      ensures trimmed == TrimRight(line)
    {
      var len := |line|;
      while len > 0 && IsSpace(line[len - 1])
        invariant 0 <= len <= |line|
        invariant TrimRight(line[..len]) == TrimRight(line)
      {
        assert line[..len][..len - 1] == line[..len - 1];
        len := len - 1;
      }
      trimmed := line[..len];
    }

    /** ProcessData: the document takes at least one byte, or blocks, or fails. */
    method ProcessData(buffer: string, from: nat, len: nat)
      returns (result: ProcessResult, read: nat, error: HttpError)
      requires 0 < len && from + len <= |buffer|
      modifies this`body
      ensures result == PR_CONTINUE ==> 1 <= read <= len && body == old(body) + buffer[from..from + read]
      ensures result != PR_CONTINUE ==> read == 0 && body == old(body)
      ensures error == if result == PR_COMPLETE then HE_STREAM else HE_NONE
    {
      read, error := 0, HE_NONE;
      if !hasDocument {
        result, read := PR_CONTINUE, len;
        body := body + buffer[from..from + read];
        return;
      }
      var accepts: bool, blocks: bool := *, *;
      if accepts {
        result := PR_CONTINUE;
        read :| 1 <= read <= len;
        body := body + buffer[from..from + read];
      } else if blocks {
        result := PR_BLOCK;
      } else {
        result, error := PR_COMPLETE, HE_STREAM;
      }
    }

    /** One whole line of the buffer, from `from` up to the line end at `pos`. */
    method TakeNextLine(buffer: string, from: nat, pos: nat, ghost m: Machine)
      returns (result: ProcessResult, error: HttpError)
      requires from <= pos < |buffer| && '\n' !in buffer[from..pos] && buffer[pos] == '\n'
      requires InLines(View()) && Feed(owner, m, buffer[..from]) == Reading(View(), "")
      modifies this
      ensures state != Complete && result != PR_BLOCK
      ensures result == PR_CONTINUE ==> error == HE_NONE
      ensures Feed(owner, m, buffer[..pos + 1]) ==
              if result == PR_CONTINUE then Settle(View()) else Done(View(), error, "")
    {
      TakeLine(owner, m, buffer, from, pos, View());
      var line := TrimLine(buffer[from..pos]);
      var o := ProcessLine(owner, View(), line);
      Assign(o.p);
      result, error := o.result, o.error;
    }

    /** As much of the body as the buffer holds and the document takes. */
    method TakeNextBody(buffer: string, from: nat, ghost m: Machine)
      returns (result: ProcessResult, read: nat, error: HttpError)
      requires from < |buffer| && state == Data && dataSize != 0
      requires Feed(owner, m, buffer[..from]) == Reading(View(), "")
      modifies this
      ensures state == Data && from + read <= |buffer|
      ensures result == PR_CONTINUE ==> read > 0 && error == HE_NONE &&
                                        Feed(owner, m, buffer[..from + read]) == Settle(View())
      ensures result != PR_CONTINUE ==> View() == old(View())
      ensures error == if result == PR_COMPLETE then HE_STREAM else HE_NONE
    {
      ghost var before := View();
      var available := |buffer| - from;
      if dataSize != SIZE_UNKNOWN && available > dataSize {
        available := dataSize;
      }
      result, read, error := ProcessData(buffer, from, available);
      if result == PR_CONTINUE {
        TakeBody(owner, m, buffer, from, read, before);
        if dataSize != SIZE_UNKNOWN {
          dataSize := dataSize - read;
        }
        assert View() == Deliver(before, buffer[from..from + read]);
      }
    }

    /** HttpParser::Process.  Whatever way the body's consumer cuts its intake, the characters
        consumed drove the reference automaton to exactly this parser's state; PR_CONTINUE means
        nothing more can be done with what is left, PR_COMPLETE that the automaton is finished
        (or that the document refused the body). */
    method Process(buffer: string) returns (processed: nat, result: ProcessResult, error: HttpError)
      requires state != Complete
      modifies this
      ensures processed <= |buffer| && state != Complete
      ensures Reached(View(), Feed(owner, Settle(old(View())), buffer[..processed]), result, error)
      ensures result == PR_CONTINUE ==>
                if state == Data then processed == |buffer| else '\n' !in buffer[processed..]
      ensures result == PR_BLOCK ==> processed < |buffer|
    {
      ghost var start := Settle(View());
      assert Feed(owner, start, buffer[..0]) == start;
      hide Feed;
      processed, error := 0, HE_NONE;
      while true
        invariant processed <= |buffer| && error == HE_NONE && state != Complete
        invariant Feed(owner, start, buffer[..processed]) == Settle(View())
        decreases |buffer| - processed, if state == Data then 1 else 0
      {
        if state != Data {
          var pos := ScanLine(buffer, processed);
          if pos >= |buffer| {
            assert buffer[processed..pos] == buffer[processed..];
            return processed, PR_CONTINUE, HE_NONE;
          }
          result, error := TakeNextLine(buffer, processed, pos, start);
          processed := pos + 1;
          if result != PR_CONTINUE {
            return;
          }
        } else if dataSize == 0 {
          if chunked {
            state := ChunkTerm;
          } else {
            return processed, PR_COMPLETE, HE_NONE;
          }
        } else if processed == |buffer| {
          return processed, PR_CONTINUE, HE_NONE;
        } else {
          var read;
          result, read, error := TakeNextBody(buffer, processed, start);
          if result != PR_CONTINUE {
            return;
          }
          processed := processed + read;
        }
      }
    }
  }

  /** How `Process` may leave a parser `p`, when the automaton has reached `m`. */
  ghost predicate Reached(p: Parser, m: Machine, result: ProcessResult, error: HttpError) {
    match result
    case PR_CONTINUE => m == Settle(p) == Reading(p, "") && error == HE_NONE
    case PR_BLOCK => m == Settle(p) == Reading(p, "") && p.state == Data && error == HE_NONE
    case PR_COMPLETE => m == Done(p, error, "") ||
                        (m == Settle(p) == Reading(p, "") && p.state == Data && error == HE_STREAM)
  }
}
