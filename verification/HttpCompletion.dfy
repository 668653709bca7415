/** HttpBase's completion protocol: every operation that leaves HM_NONE is answered once, with its
    own mode, whatever the stream, the document and the user do in between; and the parser is
    never entered after it has completed.

    The user runs inside the protocol at one point that is not the end of a path: `do_complete`
    signals a pull reader before it answers, and whatever the user starts there - and even finishes
    there - comes before the answer.  All other notifications are the last act of their path, so
    what the user starts from inside them starts right after them. */
module HttpCompletion {
  import opened HttpText
  import opened HttpParsing
  import opened HttpReceive
  import opened HttpSend

  /** Operations are numbered as they start. */
  datatype Event =
    | Started(id: nat, mode: Mode)
    | Answered(id: nat, mode: Mode, error: HttpError)   // onHttpComplete
    | Closed(error: HttpError)                          // onHttpClosed

  /** How many operations have started, and which of them have not been answered. */
  datatype Account = Account(started: nat, open: map<nat, Mode>)

  /** The account after one more event; None when the event does not belong there. */
  function After(a: Option<Account>, e: Event): Option<Account> {
    if a.None? then None
    else match e
      case Started(id, m) =>
        if id == a.value.started && m != HM_NONE then Some(Account(id + 1, a.value.open[id := m])) else None
      case Answered(id, m, _) =>
        if id in a.value.open && a.value.open[id] == m
        then Some(Account(a.value.started, a.value.open - {id})) else None
      case Closed(_) => a
  }

  function Tally(log: seq<Event>): (r: Option<Account>)
    ensures r.Some? ==> forall id :: id in r.value.open ==> id < r.value.started
  {
    if log == [] then Some(Account(0, map[])) else After(Tally(log[..|log| - 1]), log[|log| - 1])
  }

  function StartsOf(log: seq<Event>, id: nat): nat {
    if log == [] then 0
    else StartsOf(log[..|log| - 1], id) + if log[|log| - 1].Started? && log[|log| - 1].id == id then 1 else 0
  }

  function AnswersOf(log: seq<Event>, id: nat): nat {
    if log == [] then 0
    else AnswersOf(log[..|log| - 1], id) + if log[|log| - 1].Answered? && log[|log| - 1].id == id then 1 else 0
  }

  /** An operation starts once, and has one answer unless it is still open. */
  lemma {:induction false} OneAnswerEach(log: seq<Event>, id: nat)
    requires Tally(log).Some?
    ensures StartsOf(log, id) == if id < Tally(log).value.started then 1 else 0
    ensures AnswersOf(log, id) == if id < Tally(log).value.started && id !in Tally(log).value.open then 1 else 0
    decreases |log|
  {
    if log != [] {
      OneAnswerEach(log[..|log| - 1], id);
    }
  }

  /** An open operation is open with the mode it was started with. */
  lemma {:induction false} OpenMode(log: seq<Event>, i: nat)
    requires Tally(log).Some? && i < |log| && log[i].Started?
    ensures log[i].id < Tally(log).value.started
    ensures log[i].id in Tally(log).value.open ==> Tally(log).value.open[log[i].id] == log[i].mode
    decreases |log|
  {
    if i < |log| - 1 {
      OpenMode(log[..|log| - 1], i);
    }
  }

  /** In every proper log a started operation is open with its own mode and unanswered, or it has
      exactly one answer, later and with its own mode - whatever other operations came between. */
  lemma {:induction false} ExactlyOneAnswer(log: seq<Event>, i: nat) returns (k: nat)
    requires Tally(log).Some? && i < |log| && log[i].Started?
    ensures var id := log[i].id; var open := Tally(log).value.open;
            if id in open then open[id] == log[i].mode && AnswersOf(log, id) == 0
            else
              && i < k < |log| && log[k].Answered? && log[k].id == id && log[k].mode == log[i].mode
              && AnswersOf(log, id) == 1
    decreases |log|
  {
    k := 0;
    OneAnswerEach(log, log[i].id);
    OpenMode(log, i);
    if i < |log| - 1 {
      var front, last := log[..|log| - 1], log[|log| - 1];
      OpenMode(front, i);
      if last.Answered? && last.id == log[i].id {
        k := |log| - 1;
      } else {
        k := ExactlyOneAnswer(front, i);
      }
    }
  }

  lemma {:induction false} OpenStarted(log: seq<Event>, id: nat) returns (i: nat)
    requires Tally(log).Some? && id in Tally(log).value.open
    ensures i < |log| && log[i] == Started(id, Tally(log).value.open[id])
    decreases |log|
  {
    var last := log[|log| - 1];
    if last.Started? && last.id == id {
      i := |log| - 1;
    } else {
      i := OpenStarted(log[..|log| - 1], id);
    }
  }

  lemma {:induction false} TallyPrefix(log: seq<Event>, n: nat)
    requires Tally(log).Some? && n <= |log|
    ensures Tally(log[..n]).Some?
    decreases |log|
  {
    if n < |log| {
      TallyPrefix(log[..|log| - 1], n);
      assert log[..|log| - 1][..n] == log[..n];
    } else {
      assert log[..n] == log;
    }
  }

  /** And nothing is answered that was not started before, with that mode. */
  lemma AnswersStarted(log: seq<Event>, k: nat) returns (i: nat)
    requires Tally(log).Some? && k < |log| && log[k].Answered?
    ensures i < k && log[i] == Started(log[k].id, log[k].mode)
  {
    TallyPrefix(log, k + 1);
    TallyPrefix(log, k);
    assert log[..k + 1][..k] == log[..k];
    i := OpenStarted(log[..k], log[k].id);
  }

  function Starts(log: seq<Event>, m: Mode): nat {
    if log == [] then 0
    else Starts(log[..|log| - 1], m) + if log[|log| - 1].Started? && log[|log| - 1].mode == m then 1 else 0
  }

  function Answers(log: seq<Event>, m: Mode): nat {
    if log == [] then 0
    else Answers(log[..|log| - 1], m) + if log[|log| - 1].Answered? && log[|log| - 1].mode == m then 1 else 0
  }

  function WithMode(open: map<nat, Mode>, m: Mode): set<nat> {
    set id | id in open && open[id] == m
  }

  lemma OneMore(open: map<nat, Mode>, id: nat, n: Mode, m: Mode)
    requires id !in open
    ensures |WithMode(open[id := n], m)| == |WithMode(open, m)| + if n == m then 1 else 0
  {
    assert WithMode(open[id := n], m) == WithMode(open, m) + if n == m then {id} else {};
  }

  lemma OneLess(open: map<nat, Mode>, id: nat, m: Mode)
    requires id in open
    ensures |WithMode(open, m)| == |WithMode(open - {id}, m)| + if open[id] == m then 1 else 0
  {
    assert (open - {id})[id := open[id]] == open;
    OneMore(open - {id}, id, open[id], m);
  }

  /** Conservation: operations started = operations answered + those that are open. */
  lemma {:induction false} AnswersMatchStarts(log: seq<Event>, m: Mode)
    requires Tally(log).Some?
    ensures Starts(log, m) == Answers(log, m) + |WithMode(Tally(log).value.open, m)|
    decreases |log|
  {
    if log == [] {
      assert WithMode(map[], m) == {};
    } else {
      hide WithMode;
      var front, last := log[..|log| - 1], log[|log| - 1];
      AnswersMatchStarts(front, m);
      var open := Tally(front).value.open;
      if last.Started? {
        OneMore(open, last.id, last.mode, m);
      } else if last.Answered? {
        OneLess(open, last.id, m);
      }
    }
  }

  class HttpBase {
    const receiver: HttpReceiver
    var sender: HttpSender?      // the message of the last send()
    var mode: Mode
    var hasStream: bool          // http_stream_ != NULL
    var docStream: bool          // doc_stream_ != NULL
    var listening: bool          // connected to the document's events
    ghost var op: nat            // the operation of the present mode
    ghost var owed: map<nat, Mode> // operations left by do_complete and not yet answered
    ghost var log: seq<Event>
    ghost var pumped: HttpError  // what the last receive pump that ended asked to report
    ghost var asserted: bool     // do_complete's ASSERT that a pull reader never meets HE_NONE has failed

    ghost function Repr(): set<object>
      reads this
    {
      {this, receiver, receiver.parser, receiver.buffer, receiver.buffer.data} +
      if sender == null then {} else {sender, sender.buffer, sender.buffer.data}
    }

    /** Everything unanswered: what is owed, and the operation of the present mode. */
    ghost function Open(): map<nat, Mode>
      reads this
    {
      if mode == HM_NONE then owed else owed[op := mode]
    }

    ghost predicate Accounted()
      reads this, receiver, receiver.buffer
    {
      && receiver.Sized()
      && (sender != null ==> sender.buffer != receiver.buffer && sender.buffer.data != receiver.buffer.data)
      && Tally(log).Some? && Tally(log).value.open == Open()
      && (mode != HM_NONE ==> hasStream && op !in owed)
      && (listening ==> mode == HM_RECV || mode == HM_SEND)
    }

    ghost predicate Valid()
      reads Repr()
    {
      && Accounted()
      && (mode == HM_RECV ==> receiver.Resting())
      && (mode == HM_SEND ==> sender != null && sender.Valid() && sender.Healthy())
    }

    /** The last event answers operation `id`. */
    ghost predicate LastAnswers(id: nat, m: Mode)
      reads this
    {
      log != [] && log[|log| - 1].Answered? && log[|log| - 1].id == id && log[|log| - 1].mode == m
    }

    constructor (owner: Owner)
      ensures Valid() && mode == HM_NONE && log == [] && owed == map[] && !hasStream && !asserted
      ensures receiver.parser.owner == owner && receiver.parser.View() == RESET
      ensures receiver.Resting() && receiver.received == "" && receiver.buffer.Contents() == ""
      ensures fresh(Repr())
    {
      receiver := new HttpReceiver(owner, true);
      sender := null;
      mode, hasStream, docStream, listening := HM_NONE, false, false, false;
      op, owed, log, asserted, pumped := 0, map[], [], false, HE_NONE;
    }

    ghost method Record(e: Event)
      modifies this`log
      ensures log == old(log) + [e] && Tally(log) == After(old(Tally(log)), e)
    {
      log := log + [e];
      assert log[..|log| - 1] == old(log);
    }

    /** A new operation; the mode must be HM_NONE. */
    method Begin(m: Mode)
      requires Accounted() && mode == HM_NONE && m != HM_NONE && hasStream
      modifies this`mode, this`op, this`log
      ensures Accounted() && mode == m
      ensures log == old(log) + [Started(op, m)]
    {
      hide Tally;
      op := Tally(log).value.started;
      mode := m;
      Record(Started(op, m));
    }

    /** Whatever the user does from inside a signal: any calls, in any order, which may again run
        into signals.  `fuel` bounds the calls of one behaviour; it is arbitrary. */
    method UserCode(fuel: nat)
      requires Valid()
      modifies Repr()
      ensures Valid() && fresh(Repr() - old(Repr()))
      ensures owed == old(owed) && old(log) <= log && (old(asserted) ==> asserted)
      ensures fuel == 0 ==> log == old(log) && mode == old(mode) && asserted == old(asserted) && pumped == old(pumped)
      decreases fuel, 0
    {
      hide Tally, HttpReceiver.Resting, HttpSender.Valid, HttpSender.Outcome, HttpSender.Healthy, Accounted,
           LastAnswers;
      if fuel == 0 {
        return;
      }
      var call: nat, a: bool, error: HttpError, code: int := *, *, *, *;
      if call == 0 {
        var leader: FirstLine, headers: seq<Header>, document: Option<string> := *, *, *;
        Send(a && hasStream, leader, headers, document, fuel - 1);
      } else if call == 1 {
        Recv(a && hasStream, fuel - 1);
      } else if call == 2 {
        var _ := Attach(a);
      } else if call == 3 {
        var _ := Detach();
      } else if call == 4 {
        Abort(error, fuel - 1);
      } else if call == 5 {
        var _ := GetDocumentStream();
      } else if call == 6 && docStream {
        ReadDocumentStream(fuel - 1);
      } else if call == 7 && docStream {
        CloseDocumentStream();
      } else if call == 8 {
        StreamClosed(code, fuel - 1);
      } else {
        return;
      }
      UserCode(fuel - 1);
    }

    /** Whether do_complete signals a pull reader. */
    ghost predicate Signals()
      reads this
    {
      mode == HM_RECV && docStream
    }

    /** do_complete: leaves the mode, lets go of the document and of a pull reader - which is signalled
        and may start anything - and then answers.  The ASSERT at the signal fails if the operation
        ends without error. */
    method DoComplete(error: HttpError, fuel: nat)
      requires Accounted() && mode != HM_NONE
      modifies Repr()
      ensures Valid() && fresh(Repr() - old(Repr()))
      ensures owed == old(owed) && old(log) < log
      ensures LastAnswers(old(op), old(mode)) && log[|log| - 1].error == error
      ensures fuel == 0 || !old(Signals()) ==> pumped == old(pumped)
      ensures !old(Signals()) ==>
                mode == HM_NONE && hasStream == old(hasStream) && docStream == old(docStream) &&
                log == old(log) + [Answered(old(op), old(mode), error)]
      ensures old(asserted) || (old(Signals()) && error == HE_NONE) ==> asserted
      ensures !old(Signals()) || fuel == 0 ==>
                (asserted <==> old(asserted) || (old(Signals()) && error == HE_NONE))
      decreases fuel, 2
    {
      hide Tally, HttpReceiver.Resting, HttpSender.Valid, HttpSender.Outcome, HttpSender.Healthy;
      if mode != HM_RECV || !docStream {
        AnswerNow(error);
        return;
      }
      SignalReader(error, fuel);
      Answer(old(op), HM_RECV, error);
      assert owed == old(owed);
    }

    /** The first half of it, up to and including the signal to the pull reader. */
    method SignalReader(error: HttpError, fuel: nat)
      requires Accounted() && Signals()
      modifies Repr()
      ensures Valid() && fresh(Repr() - old(Repr()))
      ensures owed == old(owed)[old(op) := HM_RECV] && old(log) <= log
      ensures old(asserted) || error == HE_NONE ==> asserted
      ensures fuel == 0 ==> (asserted <==> old(asserted) || error == HE_NONE) && pumped == old(pumped)
      decreases fuel, 1
    {
      hide Tally, HttpReceiver.Resting, HttpSender.Valid, HttpSender.Outcome, HttpSender.Healthy;
      mode := HM_NONE;
      listening := false;
      owed := owed[op := HM_RECV];
      assert Open() == old(Open());
      docStream := false;
      asserted := asserted || error == HE_NONE;
      UserCode(fuel);
    }

    /** do_complete when there is no pull reader to signal. */
    method AnswerNow(error: HttpError)
      requires Accounted() && mode != HM_NONE && !Signals()
      modifies this`mode, this`listening, this`log
      ensures Valid() && mode == HM_NONE && log == old(log) + [Answered(old(op), old(mode), error)]
    {
      hide Tally;
      ghost var was := mode;
      mode := HM_NONE;
      listening := false;
      Record(Answered(op, was, error));
      assert old(Open()) - {op} == owed;
    }

    /** onHttpComplete, for an operation that has left its mode. */
    ghost method Answer(id: nat, m: Mode, error: HttpError)
      requires Valid() && id in owed && owed[id] == m
      modifies this`owed, this`log
      ensures Valid() && owed == old(owed) - {id} && log == old(log) + [Answered(id, m, error)]
    {
      hide Tally, HttpReceiver.Resting, HttpSender.Valid, HttpSender.Outcome, HttpSender.Healthy;
      Record(Answered(id, m, error));
      assert old(Open()) - {id} == if mode == HM_NONE then owed - {id} else (owed - {id})[op := mode];
      owed := owed - {id};
    }

    /** HttpParser::complete. */
    method ParserCompletes(error: HttpError, fuel: nat)
      requires Accounted() && mode == HM_RECV && receiver.Shape()
      modifies Repr()
      ensures Valid() && fresh(Repr() - old(Repr()))
      ensures owed == old(owed) && old(log) < log
      ensures LastAnswers(old(op), HM_RECV) && log[|log| - 1].error == error
      ensures fuel == 0 || !old(docStream) ==> pumped == old(pumped)
      ensures !old(docStream) ==> mode == HM_NONE && log == old(log) + [Answered(old(op), HM_RECV, error)]
      ensures old(asserted) || (old(docStream) && error == HE_NONE) ==> asserted
      ensures !old(docStream) || fuel == 0 ==>
                (asserted <==> old(asserted) || (old(docStream) && error == HE_NONE))
      decreases fuel, 3
    {
      receiver.parser.state := Complete;
      DoComplete(error, fuel);
    }

    /** One run of DoReceiveLoop, whose calls of Process need an unfinished parser.  When the headers
        are complete the document is connected, and the user may ask for a pull reader: the run then
        ends there, or with the error the user returns. */
    method Pump() returns (done: bool, error: HttpError, ghost ending: Ending)
      requires Valid() && mode == HM_RECV
      modifies this`listening, this`docStream, this`pumped
      modifies receiver, receiver.parser, receiver.buffer, receiver.buffer.data
      ensures Accounted() && receiver.Shape() && (!done ==> Valid())
      ensures done ==> pumped == error && receiver.EndedWith(ending, error)
      ensures !done ==> PumpWaits(old(receiver.rounds))
      ensures (old(docStream) ==> docStream) && (done && error == HE_NONE ==> docStream == old(docStream))
    {
      hide Tally, HttpSender.Valid, HttpSender.Healthy, HttpReceiver.Resting, HttpReceiver.Active, HttpReceiver.Drained,
           HttpReceiver.Finished, HttpReceiver.EndedWith, PumpWaits;
      done, error, ending := receiver.DoReceiveLoop();
      pumped := error;
      assert !done ==> PumpWaits(old(receiver.rounds)) by { Waits(old(receiver.rounds), done); }
      var headersDone: bool, hasDocument: bool, pulled: bool := *, *, *;
      if headersDone {
        listening := listening || hasDocument;
        if !done || error != HE_NONE {
          docStream := docStream || pulled;
        }
      }
    }

    /** A receive pump that has not ended: the network or the document blocks, or it has had its turns. */
    ghost predicate PumpWaits(before: nat)
      reads receiver
    {
      receiver.rounds > before &&
      (receiver.networkBlocks || receiver.stalled || receiver.rounds == before + 21)
    }

    lemma Waits(before: nat, done: bool)
      requires !done ==> receiver.rounds > before &&
                         (receiver.stalled || receiver.networkBlocks || receiver.rounds == before + 21)
      ensures !done ==> PumpWaits(before)
    {
    }

    method ReadAndProcessData(fuel: nat)
      requires Valid() && mode == HM_RECV
      modifies Repr()
      ensures Valid() && fresh(Repr() - old(Repr()))
      ensures owed == old(owed) && old(log) <= log && (old(asserted) ==> asserted)
      ensures log == old(log) || LastAnswers(old(op), HM_RECV)
      ensures log == old(log) ==> PumpWaits(old(receiver.rounds))
      ensures fuel == 0 && log != old(log) ==> log[|log| - 1].error == pumped
      ensures fuel == 0 ==>
                (asserted <==> old(asserted) ||
                               (old(docStream) && log != old(log) && log[|log| - 1].error == HE_NONE))
      decreases fuel, 4
    {
      hide Tally, HttpReceiver.Resting, HttpReceiver.EndedWith, HttpSender.Valid, Accounted, PumpWaits;
      var done, error, _ := Pump();
      if done {
        ParserCompletes(error, fuel);
      }
    }

    /** A send pump that has not ended: what it has is blocked by the network, or it has nothing and the
        document blocks. */
    ghost predicate SenderWaits()
      reads this, sender, if sender == null then {} else {sender.buffer}
    {
      sender != null && if sender.buffer.len > 0 then sender.networkBlocks else sender.documentBlocks
    }

    /** flush_data on the message being sent: it waits, or its end is answered.  While it keeps turning,
        the call has not returned.  HE_NONE is answered only when the whole message is on the wire. */
    method FlushData(fuel: nat)
      requires Valid() && mode == HM_SEND
      modifies Repr()
      ensures Valid() && fresh(Repr() - old(Repr())) && sender == old(sender) && sender != null
      ensures owed == old(owed) && asserted == old(asserted)
      ensures log == old(log) || exists e :: log == old(log) + [Answered(old(op), HM_SEND, e)]
      ensures old(log) <= log && (log == old(log) || LastAnswers(old(op), HM_SEND))
      ensures if log == old(log) then SenderWaits() else log[|log| - 1].error == sender.Outcome()
      ensures log != old(log) && log[|log| - 1].error == HE_NONE ==>
                sender.left == "" && sender.wire == Message(sender.msg, sender.pieces)
      decreases fuel, 5
    {
      hide Tally, HttpReceiver.Resting, HttpSender.Valid, HttpSender.Outcome, HttpSender.Healthy;
      var f := sender.FlushData();
      match f
      case Waiting =>
      case Completed(error) => AnswerNow(error);
      case Spinning =>
        if fuel > 0 {
          FlushData(fuel - 1);
        }
    }

    method Attach(opening: bool) returns (ok: bool)
      requires Valid()
      modifies this
      ensures Valid() && sender == old(sender) && owed == old(owed) && asserted == old(asserted)
      ensures ok <==> old(mode) == HM_NONE && !old(hasStream)
      ensures log == if ok && opening then old(log) + [Started(op, HM_CONNECT)] else old(log)
      ensures ok ==> hasStream && docStream == old(docStream) && mode == if opening then HM_CONNECT else HM_NONE
    {
      if mode != HM_NONE || hasStream {
        return false;
      }
      hasStream := true;
      if opening {
        Begin(HM_CONNECT);
      }
      return true;
    }

    method Detach() returns (ok: bool)
      requires Valid()
      modifies this`hasStream
      ensures Valid()
      ensures ok <==> mode == HM_NONE && old(hasStream)
      ensures mode == HM_NONE ==> !hasStream
    {
      if mode != HM_NONE {
        return false;
      }
      ok := hasStream;
      hasStream := false;
    }

    method Send(connected: bool, leader: FirstLine, headers: seq<Header>, document: Option<string>, fuel: nat)
      requires Valid() && (connected ==> hasStream)
      modifies Repr()
      ensures Valid() && fresh(Repr() - old(Repr()))
      ensures owed == old(owed) && old(log) <= log && asserted == old(asserted)
      ensures old(mode) != HM_NONE ==> log == old(log)
      ensures old(mode) == HM_NONE && !connected ==> log == old(log) + [Closed(HE_SOCKET_ERROR)]
      ensures old(mode) == HM_NONE && connected ==>
                exists id :: log == old(log) + [Started(id, HM_SEND)] ||
                             exists e :: log == old(log) + [Started(id, HM_SEND)] + [Answered(id, HM_SEND, e)]
      ensures old(mode) == HM_NONE && connected && |log| == |old(log)| + 1 ==> SenderWaits()
      ensures old(mode) == HM_NONE && connected ==>
                sender != null && sender.msg == Outgoing(leader, headers, SendsChunked(headers), document)
      decreases fuel, 6
    {
      hide Tally, HttpReceiver.Resting, HttpSender.Valid, HttpSender.Outcome, HttpSender.Healthy, Accounted,
           LastAnswers;
      if mode != HM_NONE {
        return;
      } else if !connected {
        StreamClosed(HE_DISCONNECTED_CODE, fuel);
        return;
      }
      BeginSend(leader, headers, document);
      ghost var id := op;
      FlushData(fuel);
      assert log == old(log) + [Started(id, HM_SEND)] ||
             exists e :: log == old(log) + [Started(id, HM_SEND)] + [Answered(id, HM_SEND, e)];
    }

    /** send(), up to the first flush. */
    method BeginSend(leader: FirstLine, headers: seq<Header>, document: Option<string>)
      requires Valid() && mode == HM_NONE && hasStream
      modifies this
      ensures Valid() && mode == HM_SEND && sender != null && fresh(Repr() - old(Repr()))
      ensures sender.msg == Outgoing(leader, headers, SendsChunked(headers), document)
      ensures owed == old(owed) && asserted == old(asserted) && log == old(log) + [Started(op, HM_SEND)]
    {
      hide Tally, HttpReceiver.Resting, HttpSender.Valid, HttpSender.Outcome, HttpSender.Healthy;
      Begin(HM_SEND);
      sender := new HttpSender(leader, headers, document);
      listening := document.Some?;
    }

    /** recv: when the parser completes at once, the last event is this operation's answer. */
    method Recv(connected: bool, fuel: nat)
      requires Valid() && (connected ==> hasStream)
      modifies Repr()
      ensures Valid() && fresh(Repr() - old(Repr()))
      ensures owed == old(owed) && old(log) <= log && (old(asserted) ==> asserted)
      ensures old(mode) != HM_NONE ==> log == old(log)
      ensures old(mode) == HM_NONE && !connected ==> log == old(log) + [Closed(HE_SOCKET_ERROR)]
      ensures old(mode) == HM_NONE && connected ==>
                exists id :: old(log) + [Started(id, HM_RECV)] <= log &&
                             (log == old(log) + [Started(id, HM_RECV)] || LastAnswers(id, HM_RECV))
      ensures fuel == 0 ==> asserted == old(asserted)
      ensures old(mode) == HM_NONE && connected && !old(docStream) && |log| == |old(log)| + 1 ==>
                PumpWaits(old(receiver.rounds))
      decreases fuel, 6
    {
      hide Tally, HttpReceiver.Resting, HttpSender.Valid, HttpSender.Outcome, HttpSender.Healthy, LastAnswers;
      if mode != HM_NONE {
        return;
      } else if !connected {
        StreamClosed(HE_DISCONNECTED_CODE, fuel);
        return;
      }
      Begin(HM_RECV);
      ghost var id := op;
      receiver.Recv();
      if !docStream {
        ReadAndProcessData(fuel);
      }
      assert old(log) + [Started(id, HM_RECV)] <= log;
    }

    method Abort(error: HttpError, fuel: nat)
      requires Valid()
      modifies Repr()
      ensures Valid() && fresh(Repr() - old(Repr()))
      ensures owed == old(owed) && old(log) <= log && (old(asserted) ==> asserted)
      ensures old(mode) == HM_NONE ==> log == old(log)
      ensures old(mode) != HM_NONE ==> LastAnswers(old(op), old(mode)) && log[|log| - 1].error == error
      decreases fuel, 6
    {
      if mode != HM_NONE {
        DoComplete(error, fuel);
      }
    }

    /** Whether the message being received may end with the stream. */
    ghost predicate ReadsToTheEnd()
      reads this, receiver, receiver.parser
    {
      mode == HM_RECV && ValidEndOfInput(receiver.parser.View())
    }

    /** The SE_CLOSE part of OnHttpStreamEvent.  With a pull reader on a message that the clean end of
        the stream completes, do_complete's ASSERT fails. */
    method StreamClosed(code: int, fuel: nat)
      requires Valid()
      modifies Repr()
      ensures Valid() && fresh(Repr() - old(Repr()))
      ensures owed == old(owed) && old(log) <= log && (old(asserted) ==> asserted)
      ensures old(mode) == HM_NONE ==> log == old(log) + [Closed(CloseError(HM_NONE, false, code))]
      ensures old(mode) != HM_NONE ==> LastAnswers(old(op), old(mode))
      ensures old(mode) == HM_SEND || old(mode) == HM_CONNECT ==>
                log == old(log) + [Answered(old(op), old(mode), CloseError(old(mode), false, code))]
      ensures old(mode) == HM_RECV ==> log[|log| - 1].error == CloseError(HM_RECV, old(ReadsToTheEnd()), code)
      ensures old(ReadsToTheEnd()) && old(docStream) && code == 0 ==> asserted
      ensures !old(Signals()) || fuel == 0 ==>
                (asserted <==> old(asserted) || (old(ReadsToTheEnd()) && old(docStream) && code == 0))
      decreases fuel, 4
    {
      hide Tally;
      if mode == HM_RECV {
        ParserCompletes(CloseError(mode, ValidEndOfInput(receiver.parser.View()), code), fuel);
      } else if mode != HM_NONE {
        DoComplete(CloseError(mode, false, code), fuel);
      } else {
        Record(Closed(CloseError(mode, false, code)));
      }
    }

    /** One notification, and it belongs to the operation that was open. */
    ghost predicate AddsOne(before: seq<Event>, id: nat, m: Mode)
      reads this
    {
      before <= log && if m == HM_NONE then exists e :: log == before + [Closed(e)] else LastAnswers(id, m)
    }

    /** OnHttpStreamEvent: the first event that concerns the present mode is acted on, and no other. */
    method OnHttpStreamEvent(open: bool, write: bool, read: bool, close: bool, code: int, fuel: nat)
      requires Valid()
      modifies Repr()
      ensures Valid() && fresh(Repr() - old(Repr()))
      ensures owed == old(owed) && (old(asserted) ==> asserted)
      ensures log == old(log) || AddsOne(old(log), old(op), old(mode))
      ensures open && old(mode) == HM_CONNECT ==>
                mode == HM_NONE && log == old(log) + [Answered(old(op), HM_CONNECT, HE_NONE)]
      ensures write && old(mode) == HM_SEND ==>
                sender != null && if log == old(log) then SenderWaits() else log[|log| - 1].error == sender.Outcome()
      ensures read && old(mode) == HM_RECV && old(docStream) ==> log == old(log)
      ensures read && old(mode) == HM_RECV && !old(docStream) && log == old(log) ==> PumpWaits(old(receiver.rounds))
      ensures read && old(mode) == HM_RECV && !old(docStream) && fuel == 0 && log != old(log) ==>
                log[|log| - 1].error == pumped
      ensures !Concerns(old(mode), open, write, read) ==>
                if !close then log == old(log)
                else if old(mode) == HM_NONE then log == old(log) + [Closed(CloseError(HM_NONE, false, code))]
                else
                  && LastAnswers(old(op), old(mode))
                  && log[|log| - 1].error == CloseError(old(mode), old(ReadsToTheEnd()), code)
      decreases fuel, 6
    {
      hide Tally, HttpReceiver.Resting, HttpReceiver.EndedWith, HttpSender.Valid, HttpSender.Outcome,
           HttpSender.Healthy, LastAnswers, PumpWaits, SenderWaits;
      if open && mode == HM_CONNECT {
        DoComplete(HE_NONE, fuel);
      } else if write && mode == HM_SEND {
        FlushData(fuel);
      } else if read && mode == HM_RECV {
        if !docStream {
          ReadAndProcessData(fuel);
        }
      } else if close {
        StreamClosed(code, fuel);
      }
    }

    /** An event other than the close that the mode is waiting for. */
    predicate Concerns(m: Mode, open: bool, write: bool, read: bool) {
      (open && m == HM_CONNECT) || (write && m == HM_SEND) || (read && m == HM_RECV)
    }

    /** OnDocumentEvent; it can only arrive while the document is connected. */
    method OnDocumentEvent(write: bool, read: bool, close: bool, fuel: nat)
      requires Valid() && listening
      modifies Repr()
      ensures Valid() && fresh(Repr() - old(Repr()))
      ensures owed == old(owed) && (old(asserted) ==> asserted)
      ensures log == old(log) || AddsOne(old(log), old(op), old(mode))
      ensures write && old(mode) == HM_RECV && log == old(log) ==> PumpWaits(old(receiver.rounds))
      ensures write && old(mode) == HM_RECV && fuel == 0 && log != old(log) ==> log[|log| - 1].error == pumped
      ensures read && old(mode) == HM_SEND ==>
                sender != null && if log == old(log) then SenderWaits() else log[|log| - 1].error == sender.Outcome()
      ensures !(write && old(mode) == HM_RECV) && !(read && old(mode) == HM_SEND) ==>
                if close then LastAnswers(old(op), old(mode)) && log[|log| - 1].error == HE_STREAM else log == old(log)
      decreases fuel, 6
    {
      hide Tally, HttpReceiver.Resting, HttpReceiver.EndedWith, HttpSender.Valid, HttpSender.Outcome,
           HttpSender.Healthy, PumpWaits, SenderWaits;
      if write && mode == HM_RECV {
        ReadAndProcessData(fuel);
      } else if read && mode == HM_SEND {
        FlushData(fuel);
      } else if close {
        DoComplete(HE_STREAM, fuel);
      }
    }

    method GetDocumentStream() returns (ok: bool)
      requires Valid()
      modifies this`docStream
      ensures Valid() && docStream && (ok <==> !old(docStream))
    {
      hide Tally, HttpReceiver.Resting, HttpSender.Valid, HttpSender.Outcome, HttpSender.Healthy;
      ok := !docStream;
      docStream := true;
    }

    /** DocumentStream::Read: the user pumps; on the end it is disconnected before completing, so the
        ASSERT does not fail here. */
    method ReadDocumentStream(fuel: nat)
      requires Valid() && docStream
      modifies Repr()
      ensures Valid() && fresh(Repr() - old(Repr()))
      ensures owed == old(owed) && old(log) <= log && asserted == old(asserted)
      ensures log == old(log) || (old(mode) == HM_RECV && log == old(log) + [Answered(old(op), HM_RECV, pumped)])
      ensures old(mode) == HM_RECV && log == old(log) ==> PumpWaits(old(receiver.rounds))
      decreases fuel, 6
    {
      hide Tally, HttpReceiver.Resting, HttpReceiver.EndedWith, HttpSender.Valid, HttpSender.Outcome,
           HttpSender.Healthy, PumpWaits, SenderWaits;
      if mode != HM_RECV {
        return;
      }
      var done, error, _ := Pump();
      if done {
        docStream := false;
        ParserCompletes(error, fuel);
      }
    }

    method CloseDocumentStream()
      requires Valid() && docStream
      modifies this`docStream
      ensures Valid() && !docStream
    {
      hide Tally, HttpReceiver.Resting, HttpSender.Valid, HttpSender.Outcome, HttpSender.Healthy;
      docStream := false;
    }
  }

  const HE_DISCONNECTED_CODE := 2   // HE_DISCONNECTED, passed on as a socket error code

  /** Between two calls of the event loop nothing is owed: every operation but the present one has
      had exactly one answer. */
  lemma AllAnswered(b: HttpBase, i: nat) returns (k: nat)
    requires b.Valid() && b.owed == map[] && i < |b.log| && b.log[i].Started?
    ensures var id := b.log[i].id;
            if b.mode != HM_NONE && id == b.op then b.mode == b.log[i].mode && AnswersOf(b.log, id) == 0
            else
              && i < k < |b.log| && b.log[k].Answered? && b.log[k].id == id && b.log[k].mode == b.log[i].mode
              && AnswersOf(b.log, id) == 1
  {
    k := ExactlyOneAnswer(b.log, i);
  }

  /** A run in which do_complete's ASSERT fails: a pull reader, a body of unknown length, and a clean
      end of the stream. */
  method ReaderAtTheEnd() returns (b: HttpBase)
    ensures fresh(b) && b.Valid() && b.asserted
  {
    hide Tally, Feed, Settle;
    var p, head := Parser(Data, false, SIZE_UNKNOWN, "H", [], "a"), "H\n\na";
    b := new HttpBase(ANY_OWNER);
    var _ := b.Attach(false);
    StalledStream(p, head);
    b.receiver.Place(p, head, "");
    b.Begin(HM_RECV);
    var _ := b.GetDocumentStream();
    b.StreamClosed(0, 0);
  }
}
