/** Send and receive together: what `flush_data` writes, `HttpParser` reads back. */
module HttpRoundTrip {
  import opened HttpText
  import opened HttpParsing
  import opened HttpReceive
  import opened HttpSend

  // ---------- When the head goes out unharmed ----------

  function WholeHeader(h: Header): string {
    h.name + ": " + h.value + CRLF
  }

  function WholeLeader(l: FirstLine): string {
    l.before + l.text + l.after
  }

  function AllHeaders(hs: seq<Header>): string {
    if hs == [] then "" else AllHeaders(hs[..|hs| - 1]) + WholeHeader(hs[|hs| - 1])
  }

  function IntendedHead(msg: Outgoing): string {
    WholeLeader(msg.leader) + CRLF + AllHeaders(msg.headers) + CRLF
  }

  /** No NUL that would cut the header short, and room for it in the empty buffer. */
  predicate Survives(h: Header) {
    '\0' !in h.name && '\0' !in h.value && Fits(h)
  }

  predicate HeadFits(msg: Outgoing) {
    && '\0' !in msg.leader.text
    && |WholeLeader(msg.leader)| + (if msg.headers == [] then 4 else 2) < BUFFER_SIZE
    && forall h :: h in msg.headers ==> Survives(h)
  }

  lemma HeaderIntact(h: Header)
    ensures |FormatHeader(h)| <= |WholeHeader(h)|
    ensures if '\0' !in h.name && '\0' !in h.value then FormatHeader(h) == WholeHeader(h)
            else |FormatHeader(h)| < |WholeHeader(h)|
  {
    hide Cut;
  }

  lemma LeaderIntact(l: FirstLine)
    ensures |FormatLeader(l)| <= |WholeLeader(l)|
    ensures if '\0' !in l.text then FormatLeader(l) == WholeLeader(l) else |FormatLeader(l)| < |WholeLeader(l)|
  {
    hide Cut;
  }

  lemma {:induction false} HeadersIntact(hs: seq<Header>)
    ensures |HeaderBlock(hs)| <= |AllHeaders(hs)|
    ensures HeaderBlock(hs) == AllHeaders(hs) <==> forall h :: h in hs ==> Survives(h)
    ensures HeaderBlock(hs) != AllHeaders(hs) ==> |HeaderBlock(hs)| < |AllHeaders(hs)|
  {
    if hs != [] {
      var front, last := hs[..|hs| - 1], hs[|hs| - 1];
      HeadersIntact(front);
      HeaderIntact(last);
      NotEmpty(last);
      assert hs == front + [last];
      hide FormatHeader, WholeHeader;
      if !(forall h :: h in front ==> Survives(h)) {
        assert |HeaderBlock(hs)| < |AllHeaders(hs)|;
      } else if !Survives(last) {
        assert |HeaderBlock(hs)| < |AllHeaders(hs)|;
      }
    }
  }

  lemma NotEmpty(h: Header)
    ensures WholeHeader(h) != ""
  {
  }

  lemma LeaderBlockIntact(l: FirstLine)
    ensures |LeaderBlock(l)| <= |WholeLeader(l)| + 2
    ensures LeaderBlock(l) == WholeLeader(l) + CRLF <==> '\0' !in l.text && |WholeLeader(l)| + 2 < BUFFER_SIZE
    ensures LeaderBlock(l) != WholeLeader(l) + CRLF ==> |LeaderBlock(l)| < |WholeLeader(l)| + 2
  {
    LeaderIntact(l);
    hide FormatLeader, WholeLeader;
    var text := Truncate(FormatLeader(l), 0);
    assert |LeaderBlock(l)| == |text| + |Truncate(CRLF, |text|)|;
  }

  /** Nothing of the leader or the headers is cut or dropped if and only if each fits the buffer and
      none contains a NUL. */
  lemma HeadIntact(msg: Outgoing)
    ensures Head(msg) == IntendedHead(msg) <==> HeadFits(msg)
  {
    HeadersIntact(msg.headers);
    LeaderBlockIntact(msg.leader);
    hide LeaderBlock, HeaderBlock, WholeLeader, AllHeaders, Survives;
    assert |IntendedHead(msg)| == |WholeLeader(msg.leader)| + 2 + |AllHeaders(msg.headers)| + 2;
    assert |Head(msg)| == |LeaderBlock(msg.leader)| + |HeaderBlock(msg.headers)| + |Blank(msg)|;
  }

  // ---------- The head, read back ----------

  predicate CleanText(s: string) {
    && '\n' !in s
    && (s != "" ==> !IsSpace(s[0]) && !IsSpace(s[|s| - 1]))
  }

  predicate CleanHeader(h: Header) {
    && ':' !in h.name && '\n' !in h.name && '\0' !in h.name
    && CleanText(h.value)
    && (SameText(h.name, "Content-Length") ==> ScanUnsigned(h.value).Some?)
    && (SameText(h.name, "Transfer-Encoding") ==> SameText(h.value, "chunked") || SameText(h.value, "identity"))
  }

  /** What the framing headers among `hs` tell the receiver. */
  function Framing(hs: seq<Header>): (bool, Size)
    requires forall h :: h in hs ==> CleanHeader(h)
  {
    if hs == [] then (false, SIZE_UNKNOWN)
    else
      var last := hs[|hs| - 1];
      assert CleanHeader(last);
      var (chunked, size) := Framing(hs[..|hs| - 1]);
      if SameText(last.name, "Content-Length") then (chunked, ScanUnsigned(last.value).value)
      else if SameText(last.name, "Transfer-Encoding") then (SameText(last.value, "chunked"), size)
      else (chunked, size)
  }

  /** A head that survives the trip, whose headers announce the encoding the sender uses. */
  ghost predicate HeadSendable(owner: Owner, msg: Outgoing) {
    && HeadFits(msg)
    && CleanText(WholeLeader(msg.leader)) && owner.parseLeader(WholeLeader(msg.leader)) == HE_NONE
    && (forall h :: h in msg.headers ==> CleanHeader(h))
    && (var (chunked, size) := Framing(msg.headers);
        owner.headerComplete(msg.headers, chunked, size) == (HE_NONE, size) && chunked == msg.chunked)
  }

  /** ... and the body is there in the announced length. */
  ghost predicate Sendable(owner: Owner, msg: Outgoing) {
    && HeadSendable(owner, msg)
    && if msg.chunked then msg.document.Some?
       else Framing(msg.headers).1 == (if msg.document.Some? then |msg.document.value| else 0) != SIZE_UNKNOWN
  }

  /** The value of the last Transfer-Encoding header. */
  function LastEncoding(hs: seq<Header>): Option<string> {
    if hs == [] then None
    else if SameText(hs[|hs| - 1].name, "Transfer-Encoding") then Some(hs[|hs| - 1].value)
    else LastEncoding(hs[..|hs| - 1])
  }

  lemma {:induction false} FramingIsLast(hs: seq<Header>)
    requires forall h :: h in hs ==> CleanHeader(h)
    ensures Framing(hs).0 <==> LastEncoding(hs).Some? && SameText(LastEncoding(hs).value, "chunked")
  {
    if hs != [] {
      hide CleanHeader;
      FramingIsLast(hs[..|hs| - 1]);
      NamesDiffer(hs[|hs| - 1].name);
    }
  }

  /** Sender and receiver agree on the encoding if and only if the first Transfer-Encoding value is
      exactly "chunked" just when the last one is, in any spelling: the sender looks at the first
      and compares exactly, the receiver goes by the last and ignores case. */
  lemma EncodingAgrees(hs: seq<Header>)
    requires forall h :: h in hs ==> CleanHeader(h)
    ensures Framing(hs).0 == SendsChunked(hs) <==>
            ((FirstEncoding(hs) == Some("chunked")) <==>
             (LastEncoding(hs).Some? && SameText(LastEncoding(hs).value, "chunked")))
  {
    FramingIsLast(hs);
  }

  /** With at most one such header, only its spelling can make them disagree. */
  lemma OneEncodingAgrees(hs: seq<Header>)
    requires forall h :: h in hs ==> CleanHeader(h)
    requires FirstEncoding(hs) == LastEncoding(hs)
    ensures Framing(hs).0 != SendsChunked(hs) <==>
            && FirstEncoding(hs).Some? && SameText(FirstEncoding(hs).value, "chunked")
            && FirstEncoding(hs).value != "chunked"
  {
    EncodingAgrees(hs);
  }

  lemma EncodingName(name: string)
    requires name == "Transfer-Encoding"
    ensures ':' !in name && '\n' !in name && '\0' !in name
  {
  }

  lemma EncodingValue(v: string)
    requires v in {"chunked", "Chunked", "identity"}
    ensures CleanText(v) && (SameText(v, "chunked") || SameText(v, "identity"))
    ensures SameText(v, "chunked") <==> v != "identity"
  {
    assert |Lower(v)| == |v|;
    if v == "Chunked" {
      assert Lower(v) == Lower("chunked");
    }
  }

  lemma CleanEncoding(h: Header)
    requires h.name == "Transfer-Encoding" && h.value in {"chunked", "Chunked", "identity"}
    ensures CleanHeader(h) && (SameText(h.value, "chunked") <==> h.value != "identity")
    ensures SameText(h.name, "Transfer-Encoding")
  {
    NamesDiffer(h.name);
    EncodingName(h.name);
    EncodingValue(h.value);
    assert SameText(h.name, "Transfer-Encoding");
    hide SameText, CleanText;
  }

  /** Two that disagree: a capital letter, and a later header that takes the encoding back. */
  lemma EncodingDisagrees(capital: Header, plain: Header, back: Header)
    requires capital.name == plain.name == back.name == "Transfer-Encoding"
    requires capital.value == "Chunked" && plain.value == "chunked" && back.value == "identity"
    ensures CleanHeader(capital) && !SendsChunked([capital]) && Framing([capital]).0
    ensures CleanHeader(plain) && CleanHeader(back) && SendsChunked([plain, back]) && !Framing([plain, back]).0
  {
    CleanEncoding(capital);
    CleanEncoding(plain);
    CleanEncoding(back);
    hide CleanHeader, SameText;
    FramingIsLast([capital]);
    FramingIsLast([plain, back]);
    assert capital.value[0] != plain.value[0];
  }

  lemma TrimKeeps(s: string)
    requires s == "" || !IsSpace(s[|s| - 1])
    ensures TrimRight(s) == s && TrimRight(s + "\r") == s
  {
    assert (s + "\r")[..|s|] == s;
  }

  lemma FeedThen(owner: Owner, m: Machine, a: string, m1: Machine, b: string, m2: Machine)
    requires Feed(owner, m, a) == m1 && Feed(owner, m1, b) == m2
    ensures Feed(owner, m, a + b) == m2
  {
    FeedConcat(owner, m, a, b);
  }

  /** A line of the given text, ended by CRLF. */
  lemma FeedTextLine(owner: Owner, p: Parser, text: string)
    requires InLines(p) && '\n' !in text && (text == "" || !IsSpace(text[|text| - 1]))
    ensures var o := ProcessLine(owner, p, text);
            Feed(owner, Reading(p, ""), text + CRLF) ==
            if o.result == PR_CONTINUE then Settle(o.p) else Done(o.p, o.error, "")
  {
    TrimKeeps(text);
    FeedLine(owner, p, text + "\r");
    assert text + "\r" + "\n" == text + CRLF;
  }

  lemma HeaderTrims(h: Header)
    requires CleanHeader(h)
    ensures TrimRight(h.name + ": " + h.value + "\r") == if h.value == "" then h.name + ":" else h.name + ": " + h.value
  {
    if h.value == "" {
      var line := h.name + ":";
      assert h.name + ": " + h.value + "\r" == line + " " + "\r";
      assert (line + " " + "\r")[..|line| + 1] == line + " ";
      assert (line + " ")[..|line|] == line;
      TrimKeeps(line);
    } else {
      TrimKeeps(h.name + ": " + h.value);
    }
  }

  /** The two slices that ST_HEADERS takes out of the line. */
  lemma HeaderSlices(h: Header, line: string)
    requires CleanHeader(h) && line == if h.value == "" then h.name + ":" else h.name + ": " + h.value
    ensures line != "" && FindColon(line) == Some(|h.name|)
    ensures line[..|h.name|] == h.name && TrimLeft(line[|h.name| + 1..]) == h.value
  {
    hide FindColon, TrimLeft;
    var tail := if h.value == "" then "" else " " + h.value;
    assert line == h.name + ":" + tail;
    FindColonIn(h.name, tail);
    assert line[|h.name| + 1..] == tail;
    TrimLeftKeeps(h.value);
  }

  lemma TrimLeftKeeps(v: string)
    requires v == "" || !IsSpace(v[0])
    ensures TrimLeft(v) == v && TrimLeft(" " + v) == v
  {
    assert (" " + v)[1..] == v;
  }

  function AfterHeader(p: Parser, h: Header): Parser
    requires CleanHeader(h)
  {
    var size := if SameText(h.name, "Content-Length") then ScanUnsigned(h.value).value else p.dataSize;
    p.(headers := p.headers + [h], dataSize := size,
       chunked := if SameText(h.name, "Transfer-Encoding") then SameText(h.value, "chunked") else p.chunked)
  }

  lemma HeaderLineBack(owner: Owner, p: Parser, h: Header)
    requires p.state == Headers && CleanHeader(h)
    ensures EndLine(owner, p, h.name + ": " + h.value + "\r") == Reading(AfterHeader(p, h), "")
  {
    hide FindColon, TrimLeft, TrimRight, ScanUnsigned;
    HeaderTrims(h);
    var line := TrimRight(h.name + ": " + h.value + "\r");
    HeaderSlices(h, line);
    NamesDiffer(h.name);
    assert Header(h.name, h.value) == h;
    assert HeaderLine(p, line) == Continue(AfterHeader(p, h));
  }

  lemma FeedHeader(owner: Owner, m: Machine, s: string, p: Parser, h: Header)
    requires CleanHeader(h) && p.state == Headers
    requires Feed(owner, m, s) == Reading(p, "")
    ensures Feed(owner, m, s + WholeHeader(h)) == Reading(AfterHeader(p, h), "")
  {
    hide Feed, AfterHeader, EndLine;
    var line := h.name + ": " + h.value + "\r";
    HeaderLineBack(owner, p, h);
    FeedLine(owner, p, line);
    assert WholeHeader(h) == line + "\n";
    FeedThen(owner, m, s, Reading(p, ""), WholeHeader(h), Reading(AfterHeader(p, h), ""));
  }

  function HeadParser(leader: string, hs: seq<Header>): Parser
    requires forall h :: h in hs ==> CleanHeader(h)
  {
    var (chunked, size) := Framing(hs);
    Parser(Headers, chunked, size, leader, hs, "")
  }

  lemma NoFraming()
    ensures Framing([]) == (false, SIZE_UNKNOWN)
  {
  }

  lemma HeadParserStep(leader: string, front: seq<Header>, last: Header)
    requires forall h :: h in front ==> CleanHeader(h)
    requires CleanHeader(last)
    ensures forall h :: h in front + [last] ==> CleanHeader(h)
    ensures HeadParser(leader, front + [last]) == AfterHeader(HeadParser(leader, front), last)
  {
    assert (front + [last])[..|front|] == front;
    NamesDiffer(last.name);
  }

  lemma {:induction false} FeedHeaders(owner: Owner, leader: string, hs: seq<Header>)
    requires CleanText(leader) && owner.parseLeader(leader) == HE_NONE
    requires forall h :: h in hs ==> CleanHeader(h)
    ensures Feed(owner, START, leader + CRLF + AllHeaders(hs)) == Reading(HeadParser(leader, hs), "")
    decreases |hs|
  {
    hide Feed, Framing;
    if hs == [] {
      assert HeadParser(leader, []) == Parser(Headers, false, SIZE_UNKNOWN, leader, [], "") by { NoFraming(); }
      assert leader + CRLF + "" == leader + CRLF;
      FeedTextLine(owner, RESET, leader);
    } else {
      var front, last := hs[..|hs| - 1], hs[|hs| - 1];
      assert hs == front + [last];
      HeadParserStep(leader, front, last);
      FeedHeaders(owner, leader, front);
      FeedHeader(owner, START, leader + CRLF + AllHeaders(front), HeadParser(leader, front), last);
      assert leader + CRLF + AllHeaders(hs) == leader + CRLF + AllHeaders(front) + WholeHeader(last);
    }
  }

  lemma NamesDiffer(name: string)
    ensures !(SameText(name, "Content-Length") && SameText(name, "Transfer-Encoding"))
  {
    assert |Lower(name)| == |name|;
  }

  /** After the blank line. */
  lemma FeedBlank(owner: Owner, p: Parser)
    requires p.state == Headers && owner.headerComplete(p.headers, p.chunked, p.dataSize) == (HE_NONE, p.dataSize)
    ensures Feed(owner, Reading(p, ""), CRLF) == Settle(p.(state := if p.chunked then ChunkSize else Data))
  {
    FeedTextLine(owner, p, "");
    assert "" + CRLF == CRLF;
  }

  // ---------- The body, read back ----------

  lemma FeedChunkSize(owner: Owner, p: Parser, n: Size)
    requires p.state == ChunkSize
    ensures Feed(owner, Reading(p, ""), HexFixed(n, CHUNK_DIGITS) + CRLF) ==
            Settle(p.(dataSize := n, state := if n == 0 then Trailers else Data))
  {
    var digits := HexFixed(n, CHUNK_DIGITS);
    assert IsHex(digits[7]);
    assert '\n' !in digits;
    ChunkSizeRoundTrip(n);
    FeedTextLine(owner, p, digits);
  }

  lemma FeedChunkTerm(owner: Owner, p: Parser)
    requires p.state == ChunkTerm && p.chunked
    ensures Feed(owner, Reading(p, ""), CRLF) == Reading(p.(state := ChunkSize), "")
  {
    FeedTextLine(owner, p, "");
    assert "" + CRLF == CRLF;
  }

  /** One chunk of `flush_data` (section 3.6.1 of RFC 2616) adds exactly its bytes to the body. */
  lemma FeedChunk(owner: Owner, p: Parser, bytes: string)
    requires p.state == ChunkSize && p.chunked && 0 < |bytes| < SIZE_UNKNOWN
    ensures Feed(owner, Reading(p, ""), Chunk(bytes)) == Reading(p.(body := p.body + bytes, dataSize := 0), "")
  {
    var start := HexFixed(|bytes|, CHUNK_DIGITS) + CRLF;
    var inBody := p.(dataSize := |bytes|, state := Data);
    var atTerm := inBody.(body := p.body + bytes, dataSize := 0, state := ChunkTerm);
    FeedChunkSize(owner, p, |bytes|);
    FeedBody(owner, inBody, bytes);
    FeedChunkTerm(owner, atTerm);
    FeedThen(owner, Reading(p, ""), start, Reading(inBody, ""), bytes, Reading(atTerm, ""));
    FeedThen(owner, Reading(p, ""), start + bytes, Reading(atTerm, ""), CRLF,
             Reading(p.(body := p.body + bytes, dataSize := 0), ""));
  }

  function AfterPieces(p: Parser, pieces: seq<string>): Parser {
    p.(body := p.body + Joined(pieces), dataSize := if pieces == [] then p.dataSize else 0)
  }

  lemma {:induction false} FeedChunks(owner: Owner, p: Parser, pieces: seq<string>)
    requires p.state == ChunkSize && p.chunked
    requires forall r :: r in pieces ==> 0 < |r| < SIZE_UNKNOWN
    ensures Feed(owner, Reading(p, ""), Body(true, pieces)) == Reading(AfterPieces(p, pieces), "")
    decreases |pieces|
  {
    hide Feed, Chunk, Joined;
    if pieces == [] {
      NothingJoined(p);
      FeedNothing(owner, Reading(p, ""));
    } else {
      hide Body, AfterPieces;
      var front, last := pieces[..|pieces| - 1], pieces[|pieces| - 1];
      assert pieces == front + [last];
      FeedChunks(owner, p, front);
      AfterPiecesStep(p, front, last);
      BodyStep(true, front, last);
      FeedOneMoreChunk(owner, p, Body(true, front), AfterPieces(p, front), last);
    }
  }

  lemma NothingJoined(p: Parser)
    ensures AfterPieces(p, []) == p
  {
    assert p.body + "" == p.body;
  }

  lemma AfterPiecesStep(p: Parser, front: seq<string>, last: string)
    ensures var q := AfterPieces(p, front);
            q.state == p.state && q.chunked == p.chunked &&
            AfterPieces(p, front + [last]) == q.(body := q.body + last, dataSize := 0)
  {
    JoinedStep(front, last);
    assert p.body + Joined(front) + last == p.body + (Joined(front) + last);
  }

  lemma FeedOneMoreChunk(owner: Owner, p: Parser, sent: string, q: Parser, bytes: string)
    requires q.state == ChunkSize && q.chunked && 0 < |bytes| < SIZE_UNKNOWN
    requires Feed(owner, Reading(p, ""), sent) == Reading(q, "")
    ensures Feed(owner, Reading(p, ""), sent + Chunk(bytes)) == Reading(q.(body := q.body + bytes, dataSize := 0), "")
  {
    FeedChunk(owner, q, bytes);
    FeedConcat(owner, Reading(p, ""), sent, Chunk(bytes));
  }

  lemma ZeroChunk(s: string)
    requires s == "0"
    ensures ChunkSizeOf(s) == (0, true)
  {
    hide ChunkSizeOf;
    assert HexValue(s) == 0;
    PlainHex(s);
  }

  lemma FeedTwoLines(owner: Owner, p: Parser, a: string, q: Parser, b: string, end: Machine)
    requires InLines(p) && '\n' !in a && (a == "" || !IsSpace(a[|a| - 1]))
    requires InLines(q) && '\n' !in b && (b == "" || !IsSpace(b[|b| - 1]))
    requires ProcessLine(owner, p, a) == Continue(q)
    requires end.Done? && end.rest == "" && ProcessLine(owner, q, b) == Stop(end.p, end.error)
    ensures Feed(owner, Reading(p, ""), a + CRLF + (b + CRLF)) == end
  {
    FeedTextLine(owner, p, a);
    FeedTextLine(owner, q, b);
    FeedThen(owner, Reading(p, ""), a + CRLF, Reading(q, ""), b + CRLF, end);
  }

  lemma FeedLastChunk(owner: Owner, p: Parser, last: string)
    requires p.state == ChunkSize && last == LAST_CHUNK
    ensures Feed(owner, Reading(p, ""), last) == Done(p.(state := Trailers, dataSize := 0), HE_NONE, "")
  {
    hide Feed, ChunkSizeOf;
    var q := p.(state := Trailers, dataSize := 0);
    ZeroChunk("0");
    FeedTwoLines(owner, p, "0", q, "", Done(q, HE_NONE, ""));
    assert last == "0" + CRLF + ("" + CRLF);
  }

  /** For every document and every split of its reads, the chunked body is parsed back to exactly
      that document, complete and without error on the last byte. */
  lemma ChunkedBodyRoundTrip(owner: Owner, p: Parser, pieces: seq<string>)
    requires p.state == ChunkSize && p.chunked
    requires forall r :: r in pieces ==> 0 < |r| < SIZE_UNKNOWN
    ensures Feed(owner, Reading(p, ""), Body(true, pieces) + LAST_CHUNK) ==
            Done(p.(state := Trailers, dataSize := 0, body := p.body + Joined(pieces)), HE_NONE, "")
  {
    FeedChunks(owner, p, pieces);
    var q := AfterPieces(p, pieces);
    FeedLastChunk(owner, q, LAST_CHUNK);
    FeedThen(owner, Reading(p, ""), Body(true, pieces), Reading(q, ""), LAST_CHUNK,
             Done(q.(state := Trailers, dataSize := 0), HE_NONE, ""));
  }

  lemma {:induction false} PlainBody(pieces: seq<string>)
    ensures Body(false, pieces) == Joined(pieces)
  {
    if pieces != [] {
      PlainBody(pieces[..|pieces| - 1]);
    }
  }

  // ---------- The whole message ----------

  lemma MessageHead(owner: Owner, msg: Outgoing)
    requires HeadSendable(owner, msg)
    ensures var (chunked, size) := Framing(msg.headers);
            Feed(owner, START, Head(msg)) ==
            Settle(Parser(if chunked then ChunkSize else Data, chunked, size, WholeLeader(msg.leader), msg.headers, ""))
  {
    HeadIntact(msg);
    var leader := WholeLeader(msg.leader);
    FeedHeaders(owner, leader, msg.headers);
    FeedBlank(owner, HeadParser(leader, msg.headers));
    FeedConcat(owner, START, leader + CRLF + AllHeaders(msg.headers), CRLF);
  }

  /** Send, then receive: the leader, the headers and the document come back as they were, the
      message ends without error on its last byte, and nothing is left over. */
  lemma MessageRoundTrip(owner: Owner, msg: Outgoing, pieces: seq<string>)
    requires Sendable(owner, msg)
    requires msg.document.Some? ==> Joined(pieces) == msg.document.value
    requires forall r :: r in pieces ==> 0 < |r| < SIZE_UNKNOWN
    ensures var m := Feed(owner, START, Message(msg, pieces));
            m.Done? && m.error == HE_NONE && m.rest == "" &&
            m.p.leader == WholeLeader(msg.leader) && m.p.headers == msg.headers &&
            m.p.body == Document(msg)
  {
    hide Feed, HeadFits, CleanHeader, Head;
    MessageHead(owner, msg);
    var (chunked, size) := Framing(msg.headers);
    var p := Parser(if chunked then ChunkSize else Data, chunked, size, WholeLeader(msg.leader), msg.headers, "");
    if msg.document.None? {
      assert Head(msg) + "" == Head(msg);
    } else if msg.chunked {
      FeedConcat(owner, START, Head(msg), Body(true, pieces) + LAST_CHUNK);
      ChunkedBodyRoundTrip(owner, p, pieces);
      assert "" + Joined(pieces) == Joined(pieces);
    } else {
      PlainBody(pieces);
      assert Body(false, pieces) + "" == Joined(pieces);
      FeedConcat(owner, START, Head(msg), Joined(pieces));
      assert "" + Joined(pieces) == Joined(pieces);
      if size == 0 {
        FeedDone(owner, Settle(p), Joined(pieces));
      } else {
        FeedBody(owner, p, Joined(pieces));
      }
    }
  }

  /** setContent's header: the size of the document, and nothing else about the framing. */
  predicate Announces(hs: seq<Header>, i: nat, n: Size) {
    && i < |hs| && SameText(hs[i].name, "Content-Length") && hs[i].value == FormatSize(n)
    && (forall j :: 0 <= j < |hs| && j != i ==> !SameText(hs[j].name, "Content-Length"))
    && (forall j :: 0 <= j < |hs| ==> !SameText(hs[j].name, "Transfer-Encoding"))
  }

  lemma {:induction false} FramingSilent(hs: seq<Header>)
    requires forall h :: h in hs ==> CleanHeader(h)
    requires forall h :: h in hs ==> !SameText(h.name, "Content-Length") && !SameText(h.name, "Transfer-Encoding")
    ensures Framing(hs) == (false, SIZE_UNKNOWN)
  {
    hide CleanHeader, SameText;
    if hs != [] {
      FramingSilent(hs[..|hs| - 1]);
    }
  }

  lemma {:induction false} FramingAnnounced(hs: seq<Header>, i: nat, n: Size)
    requires forall h :: h in hs ==> CleanHeader(h)
    requires Announces(hs, i, n)
    ensures Framing(hs) == (false, n)
    decreases |hs|
  {
    hide CleanHeader, SameText;
    var front, last := hs[..|hs| - 1], hs[|hs| - 1];
    if i < |front| {
      FramingAnnounced(front, i, n);
    } else {
      FramingSilent(front);
      ContentLengthRoundTrip(n);
    }
  }

  lemma {:induction false} NoEncoding(hs: seq<Header>)
    requires forall h :: h in hs ==> !SameText(h.name, "Transfer-Encoding")
    ensures !SendsChunked(hs) && FirstEncoding(hs).None?
  {
    hide SameText;
    if hs != [] {
      NoEncoding(hs[1..]);
    }
  }

  lemma AnnouncingHeader(h: Header, n: Size)
    requires SameText(h.name, "Content-Length") && h.value == FormatSize(n)
    requires ':' !in h.name && '\n' !in h.name && '\0' !in h.name
    ensures CleanHeader(h)
  {
    FormatSizeClean(n);
    ContentLengthRoundTrip(n);
    NamesDiffer(h.name);
    hide FormatSize, ScanUnsigned, SameText;
  }

  /** The ordinary case: a document whose size is known goes out under the Content-Length that setContent
      writes for it, and comes back whole. */
  lemma AnnouncedRoundTrip(owner: Owner, msg: Outgoing, pieces: seq<string>, i: nat)
    requires msg.document.Some? && |msg.document.value| < SIZE_UNKNOWN && Joined(pieces) == msg.document.value
    requires forall r :: r in pieces ==> 0 < |r| < SIZE_UNKNOWN
    requires Announces(msg.headers, i, |msg.document.value|) && msg.chunked == SendsChunked(msg.headers)
    requires HeadFits(msg) && (forall h :: h in msg.headers ==> CleanHeader(h))
    requires CleanText(WholeLeader(msg.leader)) && owner.parseLeader(WholeLeader(msg.leader)) == HE_NONE
    requires owner.headerComplete(msg.headers, false, |msg.document.value|) == (HE_NONE, |msg.document.value|)
    ensures var m := Feed(owner, START, Message(msg, pieces));
            m.Done? && m.error == HE_NONE && m.rest == "" && m.p.headers == msg.headers &&
            m.p.body == msg.document.value
  {
    hide CleanHeader, HeadFits, Feed;
    FramingAnnounced(msg.headers, i, |msg.document.value|);
    NoEncoding(msg.headers);
    MessageRoundTrip(owner, msg, pieces);
  }

  /** A message that announces no length comes back whole as well; it is the end of the stream that
      completes it, and the receiver accepts that end. */
  lemma MessageUntilClose(owner: Owner, msg: Outgoing, pieces: seq<string>)
    requires HeadSendable(owner, msg) && Framing(msg.headers) == (false, SIZE_UNKNOWN)
    requires msg.document.Some? ==> Joined(pieces) == msg.document.value
    ensures var m := Feed(owner, START, Message(msg, pieces));
            m.Reading? && m.line == "" && ValidEndOfInput(m.p) &&
            m.p.leader == WholeLeader(msg.leader) && m.p.headers == msg.headers &&
            m.p.body == Document(msg)
  {
    hide Feed, HeadFits, CleanHeader, Head;
    MessageHead(owner, msg);
    var p := Parser(Data, false, SIZE_UNKNOWN, WholeLeader(msg.leader), msg.headers, "");
    if msg.document.None? {
      assert Head(msg) + "" == Head(msg);
    } else {
      PlainBody(pieces);
      assert Body(false, pieces) + "" == Joined(pieces);
      FeedConcat(owner, START, Head(msg), Joined(pieces));
      FeedBody(owner, p, Joined(pieces));
      assert "" + Joined(pieces) == Joined(pieces);
    }
  }

  lemma UnevenBody(owner: Owner, p: Parser, body: string)
    requires p.state == Data && !p.chunked && p.dataSize != SIZE_UNKNOWN && |body| != p.dataSize
    ensures var m := Feed(owner, Settle(p), body); m.Done? ==> m.rest != ""
  {
    if p.dataSize == 0 {
      FeedDone(owner, Settle(p), body);
    } else if |body| < p.dataSize {
      FeedBody(owner, p, body);
    } else {
      FeedBody(owner, p, body[..p.dataSize]);
      assert body == body[..p.dataSize] + body[p.dataSize..];
      FeedConcat(owner, Settle(p), body[..p.dataSize], body[p.dataSize..]);
      FeedDone(owner, Feed(owner, Settle(p), body[..p.dataSize]), body[p.dataSize..]);
    }
  }

  function Document(msg: Outgoing): string {
    if msg.document.Some? then msg.document.value else ""
  }

  /** A head that arrives is followed by a body that comes back, without error and without anything
      left over, if and only if the head announces exactly that body. */
  lemma RoundTripIff(owner: Owner, msg: Outgoing, pieces: seq<string>)
    requires HeadSendable(owner, msg)
    requires msg.document.Some? ==> Joined(pieces) == msg.document.value
    requires msg.document.None? ==> pieces == []
    requires forall r :: r in pieces ==> 0 < |r| < SIZE_UNKNOWN
    ensures var m := Feed(owner, START, Message(msg, pieces));
            (m.Done? && m.error == HE_NONE && m.rest == "" && m.p.body == Document(msg)) <==> Sendable(owner, msg)
  {
    var (chunked, size) := Framing(msg.headers);
    if Sendable(owner, msg) {
      MessageRoundTrip(owner, msg, pieces);
    } else if chunked {
      ChunkedWithoutDocument(owner, msg);
    } else if size == SIZE_UNKNOWN {
      MessageUntilClose(owner, msg, pieces);
    } else {
      hide HeadFits, Head, CleanHeader, Framing;
      MessageHead(owner, msg);
      PlainBody(pieces);
      assert Joined(pieces) == Document(msg);
      assert Message(msg, pieces) == Head(msg) + Document(msg);
      FeedConcat(owner, START, Head(msg), Document(msg));
      UnevenBody(owner, Parser(Data, false, size, WholeLeader(msg.leader), msg.headers, ""), Document(msg));
    }
  }

  /** A chunked message without a document goes out without its last chunk: `flush_data` reports
      success, and the receiver is left waiting for a chunk size. */
  lemma ChunkedWithoutDocument(owner: Owner, msg: Outgoing)
    requires HeadSendable(owner, msg) && msg.chunked && msg.document.None?
    ensures var m := Feed(owner, START, Message(msg, []));
            m.Reading? && m.p.state == ChunkSize && m.p.headers == msg.headers && m.p.body == "" && m.line == ""
  {
    MessageHead(owner, msg);
    assert Head(msg) + "" == Head(msg);
  }

  /** End to end over two pumps: however the sender's writes and the receiver's reads were cut, a
      receiver that has worked off everything a successful sender wrote holds the sent message. */
  lemma EndToEnd(s: HttpSender, r: HttpReceiver, error: HttpError)
    requires s.Valid() && s.left == "" && s.wire == Message(s.msg, s.pieces)
    requires Sendable(r.parser.owner, s.msg)
    requires r.received == s.wire
    requires r.Drained() || r.Finished(error)
    ensures r.Finished(HE_NONE) && r.buffer.Contents() == ""
    ensures r.parser.headers == s.msg.headers && r.parser.leader == WholeLeader(s.msg.leader)
    ensures r.parser.body == Document(s.msg)
  {
    assert Joined(s.pieces) + "" == Joined(s.pieces);
    MessageRoundTrip(r.parser.owner, s.msg, s.pieces);
  }

  /** The same for a message that the end of the stream completes.  If the stream ends cleanly while
      the receiver rests, a receiver that was not held up by its document reports success with the
      whole document; and whenever success is reported, the document is whole if and only if the
      receiver was not held up. */
  lemma EndToEndUntilClose(s: HttpSender, r: HttpReceiver)
    requires s.Valid() && s.left == "" && s.wire == Message(s.msg, s.pieces)
    requires HeadSendable(r.parser.owner, s.msg) && Framing(s.msg.headers) == (false, SIZE_UNKNOWN)
    requires r.received == s.wire && r.Resting()
    ensures var error := CloseError(HM_RECV, ValidEndOfInput(r.parser.View()), 0);
            && (!r.stalled ==> error == HE_NONE && r.parser.headers == s.msg.headers)
            && (error == HE_NONE ==> r.parser.body + r.buffer.Contents() == Document(s.msg))
            && (error == HE_NONE ==> (r.parser.body == Document(s.msg) <==> !r.stalled))
  {
    assert Joined(s.pieces) + "" == Joined(s.pieces);
    MessageUntilClose(r.parser.owner, s.msg, s.pieces);
    if ValidEndOfInput(r.parser.View()) {
      CleanEndBody(r);
    }
  }

  /** At every moment what was written and buffered is an initial part of the message that ends
      with the unread rest of the document as one last read. */
  lemma AlwaysAPrefix(s: HttpSender)
    requires s.Valid()
    ensures s.Out() <= Message(s.msg, if s.left == "" then s.pieces else s.pieces + [s.left])
  {
    EmittedIsPrefix(s.msg, s.next, s.pieces, s.ended, s.left);
  }

  lemma EmittedIsPrefix(msg: Outgoing, next: nat, pieces: seq<string>, ended: bool, left: string)
    requires next <= |msg.headers| && (ended ==> left == "")
    requires msg.document.None? ==> pieces == [] && left == "" && !ended
    ensures Emitted(msg, next, pieces, ended) <= Message(msg, if left == "" then pieces else pieces + [left])
  {
    hide HeaderBlock, LeaderBlock, Blank, Chunk;
    var all := if left == "" then pieces else pieces + [left];
    var body := Body(msg.chunked, all) + if msg.chunked then LAST_CHUNK else "";
    if next < |msg.headers| {
      HeaderBlockPrefix(msg.headers, next);
      assert LeaderBlock(msg.leader) + HeaderBlock(msg.headers[..next]) <= Head(msg);
    } else if msg.document.None? {
      assert Head(msg) + "" + "" == Head(msg) + "";
    } else {
      var now := Body(msg.chunked, pieces) + if ended && msg.chunked then LAST_CHUNK else "";
      assert now <= body by {
        if left != "" {
          BodyStep(msg.chunked, pieces, left);
        }
      }
      assert Emitted(msg, next, pieces, ended) == Head(msg) + now;
      assert Head(msg) + now <= Head(msg) + body;
    }
  }

  lemma {:induction false} HeaderBlockPrefix(hs: seq<Header>, n: nat)
    requires n <= |hs|
    ensures HeaderBlock(hs[..n]) <= HeaderBlock(hs)
    decreases |hs| - n
  {
    if n == |hs| {
      assert hs[..n] == hs;
    } else {
      HeaderBlockStep(hs, n);
      HeaderBlockPrefix(hs, n + 1);
    }
  }
}
