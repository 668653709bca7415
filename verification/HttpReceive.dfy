/** HttpBase's receive pump: `DoReceiveLoop` moves bytes from the network through a 32K carry-over
    buffer into the parser, stopping and resuming whenever the network or the document stalls. */
module HttpReceive {
  import opened HttpText
  import opened HttpParsing
  import opened CarryBuffers

  const BUFFER_SIZE := 32 * 1024
  const MAX_READ_COUNT := 20
  const SOCKET_EACCES := 13
  const SEC_E_CERT_EXPIRED := -2146893016

  datatype Mode = HM_NONE | HM_CONNECT | HM_RECV | HM_SEND

  datatype StreamRead = Success(bytes: string) | Block | Eos | Failed(code: int)

  /** Why the pump asked for completion. */
  datatype Ending = Parsed | DocumentFailed | NetworkClosed(code: int) | LineTooLong

  /** is_valid_end_of_input: only a body of unknown length may end with the stream. */
  predicate ValidEndOfInput(p: Parser) {
    p.state == Data && p.dataSize == SIZE_UNKNOWN
  }

  /** HandleStreamClose: the error reported for a closed stream. */
  function CloseError(mode: Mode, validEnd: bool, code: int): (e: HttpError)
    ensures e == HE_NONE <==> mode == HM_RECV && code == 0 && validEnd
    ensures e == HE_DISCONNECTED <==> code == 0 && !(mode == HM_RECV && validEnd)
  {
    if code == 0 then
      if mode == HM_RECV && validEnd then HE_NONE else HE_DISCONNECTED
    else if code == SOCKET_EACCES then HE_AUTH
    else if code == SEC_E_CERT_EXPIRED then HE_CERTIFICATE_EXPIRED
    else if mode == HM_CONNECT then HE_CONNECT_FAILED
    else HE_SOCKET_ERROR
  }

  /** Every other error has its own codes, and only the mode tells a failed connect from a broken one. */
  lemma CloseErrorCodes(mode: Mode, validEnd: bool, code: int)
    ensures var e := CloseError(mode, validEnd, code);
            && (e == HE_AUTH <==> code == 13)
            && (e == HE_CERTIFICATE_EXPIRED <==> code == -0x7FF6_FCD8)
            && (e == HE_CONNECT_FAILED <==> mode == HM_CONNECT && code !in {0, 13, -0x7FF6_FCD8})
            && (e == HE_SOCKET_ERROR <==> mode != HM_CONNECT && code !in {0, 13, -0x7FF6_FCD8})
  {
  }

  /** The stream fed piece by piece, and fed at once. */
  function FeedAll(owner: Owner, m: Machine, pieces: seq<string>): (r: Machine)
    decreases |pieces|
  {
    if pieces == [] then m else Feed(owner, FeedAll(owner, m, pieces[..|pieces| - 1]), pieces[|pieces| - 1])
  }

  lemma {:induction false} CutsDoNotMatter(owner: Owner, m: Machine, pieces: seq<string>)
    ensures FeedAll(owner, m, pieces) == Feed(owner, m, Joined(pieces))
    decreases |pieces|
  {
    if pieces != [] {
      var front := pieces[..|pieces| - 1];
      CutsDoNotMatter(owner, m, front);
      FeedConcat(owner, m, Joined(front), pieces[|pieces| - 1]);
    }
  }

  class HttpReceiver {
    const parser: HttpParser
    const buffer: CarryBuffer<char>
    ghost var received: string    // everything the network delivered since recv()
    ghost var stalled: bool       // the last call of Process ended in PR_BLOCK
    ghost var networkBlocks: bool // the network's last answer was SR_BLOCK
    ghost var asked: nat          // calls of Read
    ghost var rounds: nat         // calls of Process

    ghost predicate Sized()
      reads this, buffer
    {
      buffer.Valid() && buffer.data.Length == BUFFER_SIZE
    }

    ghost predicate Shape()
      reads this, buffer, parser
    {
      Sized() && parser.state != Complete
    }

    /** Conservation: the parser's state and the kept tail account for every byte received. */
    ghost predicate Active()
      reads this, buffer, buffer.data, parser
    {
      Shape() &&
      Feed(parser.owner, START, received) == Feed(parser.owner, Settle(parser.View()), buffer.Contents())
    }

    /** Nothing more can be done before new bytes arrive: the tail is an unfinished line. */
    ghost predicate Drained()
      reads this, buffer, buffer.data, parser
    {
      Shape() && Feed(parser.owner, START, received) == Reading(parser.View(), buffer.Contents())
    }

    /** Between two runs of the pump: either the document holds it up, with body bytes still in the
        buffer, or it has done all it can. */
    ghost predicate Resting()
      reads this, buffer, buffer.data, parser
    {
      Active() && if stalled then parser.state == Data && buffer.Contents() != "" else Drained()
    }

    ghost predicate Finished(error: HttpError)
      reads this, buffer, buffer.data, parser
    {
      Shape() && Feed(parser.owner, START, received) == Done(parser.View(), error, buffer.Contents())
    }

    /** What a pump that asks for completion with `error` has seen. */
    ghost predicate EndedWith(ending: Ending, error: HttpError)
      reads this, buffer, buffer.data, parser
    {
      match ending
      case Parsed => Finished(error)
      case DocumentFailed => error == HE_STREAM && Active()
      case NetworkClosed(code) => Resting() && error == CloseError(HM_RECV, ValidEndOfInput(parser.View()), code)
      case LineTooLong => error == HE_OVERFLOW && Drained() && |buffer.Contents()| == 0x8000
    }

    constructor (owner: Owner, hasDocument: bool)
      ensures Resting() && !stalled && received == "" && buffer.Contents() == "" && parser.View() == RESET
      ensures fresh(parser) && fresh(buffer) && fresh(buffer.data) && parser.owner == owner
    {
      parser := new HttpParser(owner, hasDocument);
      buffer := new CarryBuffer<char>(BUFFER_SIZE);
      received, stalled, networkBlocks, asked, rounds := "", false, false, 0, 0;
    }

    /** recv(): a new message starts with a fresh parser and an empty buffer, however the last one
        ended. */
    method Recv()
      requires Sized()
      modifies this, parser, buffer
      ensures Sized() && rounds == old(rounds)
      ensures Resting() && !stalled && received == "" && buffer.Contents() == ""
    {
      parser.Assign(RESET);
      buffer.Clear();
      received, stalled, networkBlocks := "", false, false;
    }

    /** Puts a fresh connection into the state after `head`, with `tail` still in the buffer. */
    method Place(p: Parser, head: string, tail: string)
      requires Resting() && received == "" && buffer.Contents() == "" && parser.View() == RESET
      requires Feed(parser.owner, START, head) == Reading(p, "") == Settle(p) && p.state == Data
      requires |head| + |tail| <= BUFFER_SIZE
      modifies this, parser, buffer, buffer.data
      ensures Resting() && stalled == (tail != "")
      ensures received == head + tail && parser.View() == p && buffer.Contents() == tail
    {
      hide Feed, Settle;
      Buffer(head + tail);
      assert buffer.Contents() == head + tail;
      parser.Assign(p);
      buffer.Shift(|head|);
      stalled := tail != "";
      FeedConcat(parser.owner, START, head, tail);
      FeedNothing(parser.owner, Reading(p, ""));
      assert received == head + tail && buffer.Contents() == tail;
    }

    /** `http_stream_->Read`: any number of bytes that fit, no bytes yet, the end, or an error. */
    method ReadNetwork(room: nat) returns (r: StreamRead)
      modifies this`networkBlocks, this`asked
      ensures r.Success? ==> |r.bytes| <= room
      ensures networkBlocks == r.Block? && asked == old(asked) + 1
    {
      r := *;
      if r.Success? && |r.bytes| > room {
        r := Success(r.bytes[..room]);
      }
      networkBlocks, asked := r.Block?, asked + 1;
    }

    method Buffer(bytes: string)
      requires Active() && |buffer.Contents()| + |bytes| <= BUFFER_SIZE
      modifies this`received, buffer, buffer.data
      ensures Active() && received == old(received) + bytes
      ensures buffer.Contents() == old(buffer.Contents()) + bytes
    {
      hide Feed;
      FeedConcat(parser.owner, START, received, bytes);
      FeedConcat(parser.owner, Settle(parser.View()), buffer.Contents(), bytes);
      received := received + bytes;
      buffer.Append(bytes);
    }

    /** One call of Process on the buffered bytes, and the move of the rest to the front. */
    method ProcessBuffered() returns (result: ProcessResult, error: HttpError)
      requires Active()
      modifies this`stalled, this`rounds, parser, buffer, buffer.data
      ensures Shape() && (stalled <==> result == PR_BLOCK) && rounds == old(rounds) + 1
      ensures match result
              case PR_CONTINUE => error == HE_NONE && Resting()
              case PR_BLOCK => error == HE_NONE && Resting()
              case PR_COMPLETE => Finished(error) || (error == HE_STREAM && Active())
    {
      hide Feed;
      ghost var before, contents := Settle(parser.View()), buffer.Contents();
      var processed;
      processed, result, error := parser.Process(buffer.Contents());
      buffer.Shift(processed);
      stalled, rounds := result == PR_BLOCK, rounds + 1;
      ghost var rest := buffer.Contents();
      assert contents == contents[..processed] + rest;
      FeedConcat(parser.owner, before, contents[..processed], rest);
      ghost var m := Feed(parser.owner, before, contents[..processed]);
      assert Feed(parser.owner, START, received) == Feed(parser.owner, m, rest);
      if m.Done? {
        FeedDone(parser.owner, m, rest);
        assert "" + rest == rest;
      } else if result == PR_CONTINUE {
        if parser.state == Data {
          assert rest == "";
          FeedNothing(parser.owner, m);
        } else {
          FeedPartialLine(parser.owner, m, rest);
          assert "" + rest == rest;
        }
      }
    }

    /** DoReceiveLoop.  For every behaviour of the network and the document, no byte is lost or
        read twice, and each way of ending says exactly what the stream was:
        Parsed - the automaton finished on these bytes with this error;
        LineTooLong - a line of 32K characters without an end is pending;
        NetworkClosed - success if and only if it closed cleanly and the body runs to the end; bytes
        are left in front of the document only if it was already stalling the pump before.
        It reads from the network unless the buffer is full, and pauses only for a network or a
        document that blocks, or after 21 rounds. */
    method DoReceiveLoop()
      returns (done: bool, error: HttpError, ghost ending: Ending)
      requires Resting()
      modifies this, parser, buffer, buffer.data
      ensures Shape() && old(received) <= received
      ensures !done ==> Resting()
      ensures done ==> EndedWith(ending, error)
      ensures done && ending.NetworkClosed? && stalled ==>
                old(stalled) && received == old(received) && parser.View() == old(parser.View())
      ensures |old(buffer.Contents())| < 0x8000 ==> asked > old(asked)
      ensures !done ==> rounds > old(rounds) && (stalled || networkBlocks || rounds == old(rounds) + 21)
    {
      hide Feed;
      done, error, ending := false, HE_NONE, Parsed;
      var loopCount, needsData := 0, false;
      while loopCount <= MAX_READ_COUNT
        invariant Resting() && old(received) <= received
        invariant loopCount > 0 ==> !stalled
        invariant loopCount == 0 ==> stalled == old(stalled) && received == old(received)
        invariant loopCount == 0 ==> parser.View() == old(parser.View())
        invariant (needsData <==> loopCount > 0) && loopCount <= 21
        invariant rounds == old(rounds) + loopCount && asked >= old(asked)
        invariant loopCount > 0 && |old(buffer.Contents())| < BUFFER_SIZE ==> asked > old(asked)
        invariant loopCount == 0 ==> buffer.Contents() == old(buffer.Contents())
        decreases MAX_READ_COUNT + 1 - loopCount
      {
        if buffer.len < BUFFER_SIZE {
          var read := ReadNetwork(BUFFER_SIZE - buffer.len);
          match read {
            case Success(bytes) =>
              Buffer(bytes);
            case Block =>
              if needsData {
                return false, HE_NONE, Parsed;
              }
            case Eos =>
              return true, CloseError(HM_RECV, ValidEndOfInput(parser.View()), 0), NetworkClosed(0);
            case Failed(code) =>
              return true, CloseError(HM_RECV, ValidEndOfInput(parser.View()), code), NetworkClosed(code);
          }
        } else if needsData {
          return true, HE_OVERFLOW, LineTooLong;
        }
        var result;
        result, error := ProcessBuffered();
        match result {
          case PR_CONTINUE =>
            needsData := true;
          case PR_BLOCK =>
            return false, HE_NONE, Parsed;
          case PR_COMPLETE =>
            ending := if Finished(error) then Parsed else DocumentFailed;
            return true, error, ending;
        }
        loopCount := loopCount + 1;
      }
    }
  }

  /** However two connections cut the same byte stream, once neither is held up by its document
      they agree on the parser, on everything handed to the owner, and on the kept tail; and if
      the message ended, on the error and on the bytes left behind it. */
  lemma FragmentationIndependence(a: HttpReceiver, b: HttpReceiver, ea: HttpError, eb: HttpError)
    requires a.parser.owner == b.parser.owner && a.received == b.received
    requires a.Drained() || a.Finished(ea)
    requires b.Drained() || b.Finished(eb)
    ensures a.Drained() <==> b.Drained()
    ensures a.parser.View() == b.parser.View()
    ensures a.buffer.Contents() == b.buffer.Contents()
    ensures a.Finished(ea) ==> ea == eb
  {
  }

  /** At an end of stream that counts as success, the body handed over is everything received if and
      only if the document was not stalling the pump; otherwise it is short by the buffered tail. */
  lemma CleanEndBody(r: HttpReceiver)
    requires r.Resting() && ValidEndOfInput(r.parser.View())
    ensures Feed(r.parser.owner, START, r.received).p.body == r.parser.body + r.buffer.Contents()
    ensures Feed(r.parser.owner, START, r.received).p.body == r.parser.body <==> !r.stalled
  {
    var p := r.parser.View();
    FeedBody(r.parser.owner, p, r.buffer.Contents());
    assert |p.body + r.buffer.Contents()| == |p.body| + |r.buffer.Contents()|;
  }

  /** An owner that accepts everything. */
  const ANY_OWNER := Owner(_ => HE_NONE, (_, _, size) => (HE_NONE, size))

  lemma StalledStream(p: Parser, head: string)
    requires p == Parser(Data, false, SIZE_UNKNOWN, "H", [], "a") && head == "H\n\na"
    ensures Feed(ANY_OWNER, START, head) == Reading(p, "") == Settle(p)
  {
    var q := RESET.(state := Headers, leader := "H");
    var d := q.(state := Data);
    assert TrimRight("H") == "H" && TrimRight("") == "";
    FeedLine(ANY_OWNER, RESET, "H");
    FeedLine(ANY_OWNER, q, "");
    FeedBody(ANY_OWNER, d, "a");
    assert "" + "\n" == "\n" && "H" + "\n" == "H\n" && "H\n" + "\n" == "H\n\n" && "H\n\n" + "a" == head;
    FeedConcat(ANY_OWNER, START, "H\n", "\n");
    FeedConcat(ANY_OWNER, START, "H\n\n", "a");
  }

  /** A connection whose document took the body up to `head` and refused `tail`. */
  method Stalled(owner: Owner, p: Parser, head: string, tail: string) returns (r: HttpReceiver)
    requires Feed(owner, START, head) == Reading(p, "") == Settle(p) && p.state == Data
    requires tail != "" && |head| + |tail| <= BUFFER_SIZE
    ensures fresh(r) && r.Resting() && r.stalled && r.parser.owner == owner
    ensures r.received == head + tail && r.parser.View() == p && r.buffer.Contents() == tail
  {
    r := new HttpReceiver(owner, true);
    r.Place(p, head, tail);
  }

  /** One such state: of the body "ab" the document took "a" and refused the rest.  If the stream now
      ends cleanly, HE_NONE is reported and "b" is never delivered. */
  method TailLost() returns (r: HttpReceiver)
    ensures fresh(r) && r.Resting() && r.stalled && ValidEndOfInput(r.parser.View())
    ensures CloseError(HM_RECV, ValidEndOfInput(r.parser.View()), 0) == HE_NONE
    ensures r.parser.body == "a" && r.buffer.Contents() == "b"
    ensures Feed(r.parser.owner, START, r.received).p.body == "a" + "b"
  {
    hide Feed, Settle;
    var p := Parser(Data, false, SIZE_UNKNOWN, "H", [], "a");
    var head, tail := "H\n\na", "b";
    StalledStream(p, head);
    r := Stalled(ANY_OWNER, p, head, tail);
    CleanEndBody(r);
  }
}
