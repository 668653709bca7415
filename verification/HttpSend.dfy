/** HttpBase's send pump: `send`, `queue_headers` and `flush_data` push a message through the same
    32K buffer onto the network, in writes and document reads of any size. */
module HttpSend {
  import opened HttpText
  import opened CarryBuffers
  import opened HttpReceive

  const CHUNK_DIGITS := 8

  /** The first line: a request's path or a response's message between fixed texts. */
  datatype FirstLine = FirstLine(before: string, text: string, after: string)

  datatype Outgoing = Outgoing(leader: FirstLine, headers: seq<Header>, chunked: bool, document: Option<string>)

  /** `hasHeader(HH_TRANSFER_ENCODING, ...)`. */
  function FirstEncoding(hs: seq<Header>): Option<string> {
    if hs == [] then None
    else if SameText(hs[0].name, "Transfer-Encoding") then Some(hs[0].value)
    else FirstEncoding(hs[1..])
  }

  /** Whether send() turns chunking on: the spelling must be exactly this one. */
  predicate SendsChunked(hs: seq<Header>) {
    FirstEncoding(hs) == Some("chunked")
  }

  /** Header `i` is the first that names the encoding. */
  predicate FirstNaming(hs: seq<Header>, i: nat) {
    && i < |hs| && SameText(hs[i].name, "Transfer-Encoding")
    && forall j :: 0 <= j < i ==> !SameText(hs[j].name, "Transfer-Encoding")
  }

  ghost predicate NamedChunked(hs: seq<Header>) {
    exists i: nat :: FirstNaming(hs, i) && hs[i].value == "chunked"
  }

  lemma NamingBehind(hs: seq<Header>, i: nat)
    requires hs != [] && !SameText(hs[0].name, "Transfer-Encoding")
    ensures FirstNaming(hs, i + 1) <==> FirstNaming(hs[1..], i)
  {
    hide SameText;
    if FirstNaming(hs, i + 1) {
      assert forall j :: 0 <= j < i ==> hs[1..][j] == hs[j + 1];
    }
  }

  /** Chunking is on if and only if the first header that names the encoding says exactly "chunked". */
  lemma {:induction false} ChunksIff(hs: seq<Header>)
    ensures SendsChunked(hs) <==> NamedChunked(hs)
  {
    hide SameText;
    if hs != [] {
      if SameText(hs[0].name, "Transfer-Encoding") {
        assert FirstNaming(hs, 0);
      } else {
        ChunksIff(hs[1..]);
        forall i: nat | FirstNaming(hs[1..], i)
          ensures FirstNaming(hs, i + 1) && hs[i + 1] == hs[1..][i]
        {
          NamingBehind(hs, i);
        }
        forall i: nat | FirstNaming(hs, i)
          ensures i > 0 && FirstNaming(hs[1..], i - 1)
        {
          NamingBehind(hs, i - 1);
        }
      }
    }
  }

  // ---------- What goes onto the wire ----------

  /** `sprintfn("%.*s: %.*s\r\n", ...)` without the truncation, which `queue_headers` never keeps. */
  function FormatHeader(h: Header): string {
    Cut(h.name) + ": " + Cut(h.value) + CRLF
  }

  /** formatLeader, without the truncation. */
  function FormatLeader(l: FirstLine): string {
    l.before + Cut(l.text) + l.after
  }

  /** A header that cannot fit the empty buffer is discarded. */
  predicate Fits(h: Header) {
    |FormatHeader(h)| < BUFFER_SIZE - 3
  }

  /** `strcpyn`/`sprintfn` at offset `len` of the buffer: one place is kept for the NUL. */
  function Truncate(s: string, len: nat): (r: string)
    requires len < BUFFER_SIZE
    ensures len + |r| < BUFFER_SIZE
    ensures r == s <==> len + |s| < BUFFER_SIZE
  {
    if len + |s| < BUFFER_SIZE then s else s[..BUFFER_SIZE - 1 - len]
  }

  function LeaderBlock(leader: FirstLine): (r: string)
    ensures |r| < BUFFER_SIZE
  {
    var text := Truncate(FormatLeader(leader), 0);
    text + Truncate(CRLF, |text|)
  }

  function HeaderBlock(hs: seq<Header>): string {
    if hs == [] then ""
    else HeaderBlock(hs[..|hs| - 1]) + if Fits(hs[|hs| - 1]) then FormatHeader(hs[|hs| - 1]) else ""
  }

  function Blank(msg: Outgoing): string {
    if msg.headers == [] then Truncate(CRLF, |LeaderBlock(msg.leader)|) else CRLF
  }

  function Head(msg: Outgoing): string {
    LeaderBlock(msg.leader) + HeaderBlock(msg.headers) + Blank(msg)
  }

  function Chunk(bytes: string): string {
    HexFixed(|bytes|, CHUNK_DIGITS) + CRLF + bytes + CRLF
  }

  const LAST_CHUNK := "0\r\n\r\n"

  /** The body as the successive document reads framed it. */
  function Body(chunked: bool, pieces: seq<string>): string {
    if pieces == [] then ""
    else
      var last := pieces[|pieces| - 1];
      Body(chunked, pieces[..|pieces| - 1]) + if chunked then Chunk(last) else last
  }

  /** Everything put into the buffer so far: `next` headers taken, `pieces` read from the document,
      and the final chunk if the end was reached (`ended`). */
  function Emitted(msg: Outgoing, next: nat, pieces: seq<string>, ended: bool): string
    requires next <= |msg.headers|
  {
    if next < |msg.headers| then LeaderBlock(msg.leader) + HeaderBlock(msg.headers[..next])
    else Head(msg) + Body(msg.chunked, pieces) + if ended && msg.chunked then LAST_CHUNK else ""
  }

  /** The whole message for a document delivered in these reads. */
  function Message(msg: Outgoing, pieces: seq<string>): string {
    Head(msg) + if msg.document.None? then "" else Body(msg.chunked, pieces) + if msg.chunked then LAST_CHUNK else ""
  }

  lemma HeaderBlockStep(hs: seq<Header>, n: nat)
    requires n < |hs|
    ensures HeaderBlock(hs[..n + 1]) == HeaderBlock(hs[..n]) + if Fits(hs[n]) then FormatHeader(hs[n]) else ""
  {
    assert hs[..n + 1][..n] == hs[..n];
  }

  lemma BodyStep(chunked: bool, pieces: seq<string>, bytes: string)
    ensures Body(chunked, pieces + [bytes]) == Body(chunked, pieces) + if chunked then Chunk(bytes) else bytes
  {
    assert (pieces + [bytes])[..|pieces|] == pieces;
  }

  // How each step of the pump extends what has been emitted.

  lemma EmitStart(msg: Outgoing)
    ensures Emitted(msg, 0, [], false) ==
            var start := LeaderBlock(msg.leader);
            if msg.headers == [] then start + Truncate(CRLF, |start|) else start
  {
    hide LeaderBlock, Truncate;
    assert HeaderBlock(msg.headers[..0]) == "";
    assert LeaderBlock(msg.leader) + "" == LeaderBlock(msg.leader);
    assert Head(msg) + "" + "" == Head(msg);
  }

  lemma EmitHeader(msg: Outgoing, next: nat)
    requires next < |msg.headers|
    ensures var text := if Fits(msg.headers[next]) then FormatHeader(msg.headers[next]) else "";
            LeaderBlock(msg.leader) + HeaderBlock(msg.headers[..next + 1]) ==
            LeaderBlock(msg.leader) + HeaderBlock(msg.headers[..next]) + text
  {
    HeaderBlockStep(msg.headers, next);
  }

  lemma EmitBlank(msg: Outgoing)
    requires msg.headers != []
    ensures Emitted(msg, |msg.headers|, [], false) ==
            LeaderBlock(msg.leader) + HeaderBlock(msg.headers[..|msg.headers|]) + CRLF
  {
    assert msg.headers[..|msg.headers|] == msg.headers;
  }

  lemma EmitPiece(msg: Outgoing, pieces: seq<string>, bytes: string)
    ensures Emitted(msg, |msg.headers|, pieces + [bytes], false) ==
            Emitted(msg, |msg.headers|, pieces, false) + if msg.chunked then Chunk(bytes) else bytes
  {
    hide Head, Body, Chunk;
    BodyStep(msg.chunked, pieces, bytes);
    var piece := if msg.chunked then Chunk(bytes) else bytes;
    assert Head(msg) + (Body(msg.chunked, pieces) + piece) == Head(msg) + Body(msg.chunked, pieces) + piece;
  }

  lemma EmitEnd(msg: Outgoing, pieces: seq<string>)
    ensures Emitted(msg, |msg.headers|, pieces, true) ==
            Emitted(msg, |msg.headers|, pieces, false) + if msg.chunked then LAST_CHUNK else ""
  {
  }

  lemma EmittedAll(msg: Outgoing, pieces: seq<string>, ended: bool)
    requires if msg.document.Some? then ended else !ended && pieces == []
    ensures Emitted(msg, |msg.headers|, pieces, ended) == Message(msg, pieces)
  {
    var last := if ended && msg.chunked then LAST_CHUNK else "";
    assert Head(msg) + Body(msg.chunked, pieces) + last == Head(msg) + (Body(msg.chunked, pieces) + last);
    assert Head(msg) + "" == Head(msg);
  }

  // ---------- The pump ----------

  /** How a call of flush_data ends: waiting for an event, finished, or turning in the loop for as
      long as the network refuses a message that has no document. */
  datatype Flush = Waiting | Completed(error: HttpError) | Spinning

  datatype DocumentStep = Queued | MustSend | DocumentDone | DocumentError

  class HttpSender {
    const msg: Outgoing
    const buffer: CarryBuffer<char>
    var next: nat                // header_
    var chunkData: bool          // chunk_data_
    ghost var wire: string       // bytes the network took
    ghost var pieces: seq<string> // what the document delivered, read by read
    var left: string             // what it still holds
    ghost var ended: bool        // it has reported its end
    ghost var networkBlocks: bool  // the network's last answer was SR_BLOCK
    ghost var documentBlocks: bool // the document's last answer was SR_BLOCK
    ghost var documentFails: bool  // ... or an error
    ghost var networkFails: Option<int>

    ghost predicate Valid()
      reads this, buffer, buffer.data
    {
      && buffer.Valid() && buffer.data.Length == BUFFER_SIZE && next <= |msg.headers|
      && Out() == Emitted(msg, next, pieces, ended)
      && (next < |msg.headers| ==> pieces == [] && !ended)
      && (chunkData <==> msg.chunked && !ended)
      && (ended ==> left == "")
      && (msg.document.None? ==> pieces == [] && left == "" && !ended && buffer.len < BUFFER_SIZE)
      && (msg.document.Some? ==> Joined(pieces) + left == msg.document.value)
      && (forall r :: r in pieces ==> 0 < |r| <= BUFFER_SIZE)
    }

    /** Neither the network nor the document has failed. */
    ghost predicate Healthy()
      reads this
    {
      !documentFails && networkFails.None?
    }

    /** The error that the operation has to end with. */
    ghost function Outcome(): HttpError
      reads this
    {
      if documentFails then HE_STREAM
      else if networkFails.Some? then CloseError(HM_SEND, false, networkFails.value)
      else HE_NONE
    }

    /** Written, then buffered. */
    ghost function Out(): string
      requires buffer.Valid()
      reads this, buffer, buffer.data
    {
      wire + buffer.Contents()
    }

    /** send(), up to the first flush. */
    constructor (leader: FirstLine, headers: seq<Header>, document: Option<string>)
      ensures msg == Outgoing(leader, headers, SendsChunked(headers), document)
      ensures msg.chunked <==> NamedChunked(headers)
      ensures Valid() && Healthy() && wire == ""
      ensures fresh(buffer) && fresh(buffer.data)
    {
      msg := Outgoing(leader, headers, SendsChunked(headers), document);
      buffer := new CarryBuffer<char>(BUFFER_SIZE);
      next, chunkData := 0, SendsChunked(headers);
      wire, pieces, ended := "", [], false;
      networkBlocks, documentBlocks := false, false;
      networkFails, documentFails := None, false;
      left := if document.Some? then document.value else "";
      new;
      hide Emitted, SendsChunked, NamedChunked;
      ChunksIff(headers);
      QueueLeader();
      assert Joined([]) + left == left;
    }

    /** The leader, and the end of the head when there are no headers. */
    method QueueLeader()
      requires buffer.Valid() && buffer.data.Length == BUFFER_SIZE && buffer.len == 0 && wire == ""
      modifies buffer, buffer.data
      ensures buffer.Valid() && buffer.len < BUFFER_SIZE && Out() == Emitted(msg, 0, [], false)
    {
      hide Emitted;
      Put(Truncate(FormatLeader(msg.leader), 0));
      Put(Truncate(CRLF, buffer.len));
      assert Out() == LeaderBlock(msg.leader);
      if msg.headers == [] {
        Put(Truncate(CRLF, buffer.len));
      }
      EmitStart(msg);
    }

    method Put(s: string)
      requires buffer.Valid() && buffer.len + |s| <= buffer.data.Length
      modifies buffer, buffer.data
      ensures buffer.Valid() && buffer.len == old(buffer.len) + |s|
      ensures Out() == old(Out()) + s
    {
      buffer.Append(s);
      assert |buffer.Contents()| == buffer.len;
    }

    method PutChunk(bytes: string)
      requires buffer.Valid() && buffer.len + |bytes| + CHUNK_DIGITS + 4 <= buffer.data.Length
      modifies buffer, buffer.data
      ensures buffer.Valid() && buffer.len > 0 && Out() == old(Out()) + Chunk(bytes)
    {
      hide HexFixed;
      Put(HexFixed(|bytes|, CHUNK_DIGITS));
      Put(CRLF);
      Put(bytes);
      Put(CRLF);
    }

    ghost function HeadersUpTo(n: nat): string
      requires n <= |msg.headers|
    {
      LeaderBlock(msg.leader) + HeaderBlock(msg.headers[..n])
    }

    method QueueHeader() returns (full: bool)
      requires buffer.Valid() && buffer.data.Length == BUFFER_SIZE
      requires next < |msg.headers| && Out() == HeadersUpTo(next)
      modifies this`next, buffer, buffer.data
      ensures buffer.Valid() && next <= |msg.headers| && Out() == HeadersUpTo(next)
      ensures full ==> next == old(next) && buffer.len == old(buffer.len) > 0
      ensures !full ==> next == old(next) + 1 && buffer.len < BUFFER_SIZE - 3
    {
      hide FormatHeader, LeaderBlock, HeaderBlock;
      EmitHeader(msg, next);
      var text := FormatHeader(msg.headers[next]);
      if buffer.len + |text| < BUFFER_SIZE - 3 {
        Put(text);
        next := next + 1;
        return false;
      } else if buffer.len == 0 {
        assert HeadersUpTo(next) + "" == HeadersUpTo(next);
        next := next + 1;
        return false;
      }
      return true;
    }

    /** queue_headers: takes headers while they fit, discards one that cannot fit even the empty
        buffer, and closes the header block after the last one. */
    method QueueHeaders() returns (full: bool)
      requires Valid() && next < |msg.headers|
      modifies this`next, buffer, buffer.data
      ensures Valid()
      ensures old(next) <= next
      ensures if full then next < |msg.headers| && buffer.len > 0 else next == |msg.headers|
      ensures next == old(next) ==> buffer.len == old(buffer.len)
    {
      while next < |msg.headers|
        invariant buffer.Valid() && old(next) <= next <= |msg.headers|
        invariant Out() == HeadersUpTo(next)
        invariant next == old(next) ==> buffer.len == old(buffer.len)
        invariant next > old(next) ==> buffer.len < BUFFER_SIZE - 3
      {
        full := QueueHeader();
        if full {
          return;
        }
      }
      EmitBlank(msg);
      Put(CRLF);
      return false;
    }

    /** `document->Read`: a non-empty piece that fits, nothing yet, the end, or an error. */
    method ReadDocument(room: nat) returns (r: StreamRead)
      requires room > 0
      modifies this`documentBlocks, this`documentFails
      ensures documentBlocks == r.Block? && documentFails == r.Failed?
      ensures r.Success? ==> 0 < |r.bytes| <= room && r.bytes <= left
      ensures r.Eos? ==> left == ""
    {
      r := *;
      if r.Success? {
        var n: nat :| n <= room && n <= |left|;
        r := if n == 0 then Block else Success(left[..n]);
      } else if r.Eos? && left != "" {
        r := Block;
      }
      documentBlocks, documentFails := r.Block?, r.Failed?;
    }

    /** The document part of flush_data: frame one read into the buffer, or learn that the buffer
        must be written first, that everything has been written, or that the document failed. */
    method QueueDocument() returns (step: DocumentStep)
      requires Valid() && msg.document.Some? && next == |msg.headers|
      requires !documentFails
      modifies this`pieces, this`left, this`ended, this`chunkData, this`documentBlocks, this`documentFails
      modifies buffer, buffer.data
      ensures Valid() && (documentFails <==> step == DocumentError)
      ensures buffer.len == 0 ==> step == DocumentDone || step == DocumentError || documentBlocks
      ensures step == Queued ==> |left| < |old(left)| && chunkData == old(chunkData)
      ensures step != Queued ==> left == old(left) && (chunkData ==> old(chunkData))
      ensures step != Queued && chunkData == old(chunkData) ==> buffer.len == old(buffer.len)
      ensures step == DocumentDone ==> ended && buffer.len == 0
    {
      hide Emitted, Joined;
      var offset := if chunkData then buffer.len + CHUNK_DIGITS + 2 else buffer.len;
      var reserve := if chunkData then offset + 2 else offset;
      if reserve >= BUFFER_SIZE {
        return MustSend;
      }
      var r := ReadDocument(BUFFER_SIZE - reserve);
      match r {
        case Success(bytes) =>
          QueueBytes(bytes);
          return Queued;
        case Block =>
          return MustSend;
        case Eos =>
          if chunkData {
            QueueLastChunk();
            return MustSend;
          }
          if !ended {
            EmitEnd(msg, pieces);
            assert Out() + "" == Out();
          }
          ended := true;
          return if buffer.len == 0 then DocumentDone else MustSend;
        case Failed(_) =>
          return DocumentError;
      }
    }

    method QueueBytes(bytes: string)
      requires Valid() && msg.document.Some? && next == |msg.headers| && !ended
      requires bytes <= left && 0 < |bytes|
      requires buffer.len + |bytes| + (if chunkData then CHUNK_DIGITS + 4 else 0) <= BUFFER_SIZE
      modifies this`pieces, this`left, buffer, buffer.data
      ensures Valid()
      ensures left == old(left)[|bytes|..] && buffer.len > 0
    {
      hide Emitted, Joined, Chunk;
      EmitPiece(msg, pieces, bytes);
      JoinedStep(pieces, bytes);
      if chunkData {
        PutChunk(bytes);
      } else {
        Put(bytes);
      }
      assert Joined(pieces) + left == Joined(pieces) + bytes + left[|bytes|..];
      pieces := pieces + [bytes];
      left := left[|bytes|..];
    }

    /** The empty chunk and the empty trailers; chunking is off from here on. */
    method QueueLastChunk()
      requires Valid() && msg.document.Some? && next == |msg.headers| && chunkData && left == ""
      requires buffer.len + |LAST_CHUNK| <= BUFFER_SIZE
      modifies this`ended, this`chunkData, buffer, buffer.data
      ensures Valid() && ended && buffer.len > 0
    {
      EmitEnd(msg, pieces);
      Put(LAST_CHUNK);
      ended, chunkData := true, false;
    }

    /** The move of the unwritten rest to the front. */
    method Advance(written: nat)
      requires buffer.Valid() && written <= buffer.len
      modifies this`wire, buffer, buffer.data
      ensures buffer.Valid() && buffer.len == old(buffer.len) - written
      ensures Out() == old(Out()) && old(wire) <= wire
    {
      ghost var all := buffer.Contents();
      wire := wire + all[..written];
      buffer.Shift(written);
      assert |buffer.Contents()| == buffer.len;
      assert all == all[..written] + buffer.Contents();
    }

    /** `http_stream_->Write`: some bytes, none for now, or an error. */
    method WriteNetwork() returns (r: StreamRead)
      requires Valid() && buffer.len > 0
      modifies this`wire, this`networkBlocks, this`networkFails, buffer, buffer.data
      ensures Valid() && networkBlocks == r.Block?
      ensures networkFails == if r.Failed? then Some(r.code) else None
      ensures if r.Success? then buffer.len < old(buffer.len) else buffer.len == old(buffer.len)
      ensures !r.Eos?
      ensures old(wire) <= wire
    {
      hide Emitted, Joined;
      r := *;
      if r.Success? {
        var written :| 1 <= written <= buffer.len;
        Advance(written);
      } else if r.Eos? {
        r := Block;
      }
      networkBlocks, networkFails := r.Block?, if r.Failed? then Some(r.code) else None;
    }

    /** The buffering half of flush_data's loop: take as many headers as fit, then one read. */
    method Fill(mustSend: bool) returns (sendRequired: bool, finished: Option<Flush>)
      requires Valid() && (mustSend ==> buffer.len > 0) && !documentFails
      modifies this`next, this`pieces, this`left, this`ended, this`chunkData, this`documentBlocks, this`documentFails
      modifies buffer, buffer.data
      ensures Valid() && (mustSend ==> sendRequired)
      ensures documentFails <==> finished == Some(Completed(HE_STREAM))
      ensures finished == Some(Waiting) ==> documentBlocks && buffer.len == 0 && msg.document.Some?
      ensures mustSend && old(next) < |msg.headers| ==> next == old(next)
      ensures finished == None && !mustSend && sendRequired && msg.document.None? ==> next < |msg.headers|
      ensures finished == None || finished == Some(Waiting) || finished == Some(Completed(HE_STREAM)) ||
              (finished == Some(Completed(HE_NONE)) && buffer.len == 0 && Whole())
      ensures finished == None ==> buffer.len > 0 && NoLater(old(next), old(left), old(chunkData))
      ensures finished == None && !sendRequired ==> next == |msg.headers|
      ensures finished == None && SameStage(old(next), old(left), old(chunkData)) ==>
                buffer.len == old(buffer.len) && (!sendRequired ==> msg.document.None?)
    {
      hide Emitted, Joined;
      sendRequired := mustSend;
      if !sendRequired && next < |msg.headers| {
        sendRequired := QueueHeaders();
      }
      if !sendRequired && msg.document.Some? {
        var step := QueueDocument();
        match step {
          case Queued =>
          case MustSend => sendRequired := true;
          case DocumentDone => return sendRequired, Some(Completed(HE_NONE));
          case DocumentError => return sendRequired, Some(Completed(HE_STREAM));
        }
      }
      finished :=
        if buffer.len > 0 then None
        else if msg.document.None? then Some(Completed(HE_NONE))
        else Some(Waiting);
    }

    /** Every header and the whole document have been put into the buffer. */
    ghost predicate Whole()
      reads this
    {
      next == |msg.headers| && left == "" && (msg.document.Some? ==> ended)
    }

    ghost predicate SameStage(n: nat, l: string, c: bool)
      reads this
    {
      next == n && |left| == |l| && chunkData == c
    }

    /** `n, |l|, c` is not below the present stage, in the order flush_data goes through them. */
    ghost predicate NoLater(n: nat, l: string, c: bool)
      reads this
    {
      next > n || (next == n && (|left| < |l| || (|left| == |l| && (chunkData ==> c))))
    }

    /** flush_data.  Whatever the network and the document do, what was written and what is still
        buffered is an initial part of the message, in order and without repetition; success is
        reported only when the whole message went out; it waits only for a network that blocks or,
        with everything else written, for a document that blocks; and the loop stops, except that it
        keeps calling Write while the network blocks, if and only if the message has no document and
        all its headers are in the buffer or written. */
    method FlushData() returns (f: Flush)
      requires Valid() && Healthy()
      modifies this, buffer, buffer.data
      ensures Valid() && old(wire) <= wire
      ensures if f.Completed? then f.error == Outcome() else Healthy()
      ensures f == Completed(HE_NONE) ==> left == "" && wire == Message(msg, pieces)
      ensures f == Waiting ==> if buffer.len > 0 then networkBlocks else documentBlocks
      ensures f == Spinning ==> networkBlocks && buffer.len > 0
      ensures !f.Completed? ==> (f == Spinning <==> msg.document.None? && next == |msg.headers|)
    {
      hide Emitted, Joined, Message, CloseError;
      var sendRequired := buffer.len >= BUFFER_SIZE;
      while true
        invariant Valid() && Healthy() && old(wire) <= wire
        invariant sendRequired ==> buffer.len > 0
        invariant sendRequired && msg.document.None? ==> next < |msg.headers|
        decreases |msg.headers| - next, |left|, chunkData, buffer.len
      {
        var finished;
        sendRequired, finished := Fill(sendRequired);
        if finished.Some? {
          f := finished.value;
          if f == Completed(HE_NONE) {
            WroteAll();
          }
          return;
        }
        var written := WriteNetwork();
        match written {
          case Success(_) =>
            sendRequired := false;
          case Block =>
            if sendRequired {
              return Waiting;
            } else if msg.document.None? {
              return Spinning;
            }
          case Failed(code) =>
            return Completed(CloseError(HM_SEND, false, code));
        }
      }
    }

    lemma WroteAll()
      requires Valid() && Whole() && buffer.len == 0
      ensures wire == Message(msg, pieces)
    {
      assert Out() == wire;
      EmittedAll(msg, pieces, ended);
    }
  }
}
