/** AsyncTCPSocket of asynctcpsocket.cc: packets with a 16-bit length prefix over a byte stream.
    The sender drops a packet it cannot start sending; the receiver reassembles. */
module TcpFraming {
  import opened CarryBuffers

  type Octet = x: nat | x < 256

  const MAX_PACKET := 64 * 1024
  const LENGTH_SIZE := 2
  const BUFFER_SIZE := MAX_PACKET + LENGTH_SIZE

  type Packet = seq<Octet>

  /** The prefix that Send writes: the length cast to uint16, in network order. */
  function LengthPrefix(n: nat): (s: seq<Octet>)
    ensures |s| == LENGTH_SIZE && (s[0] as nat) * 256 + s[1] == n % 65536
  {
    var v := n % 65536;
    [v / 256, v % 256]
  }

  /** GetBE16. */
  function LengthOf(s: seq<Octet>): (n: nat)
    requires |s| >= LENGTH_SIZE
    ensures n < 65536
  {
    (s[0] as nat) * 256 + s[1]
  }

  function Frame(p: Packet): seq<Octet> {
    LengthPrefix(|p|) + p
  }

  function Stream(ps: seq<Packet>): seq<Octet> {
    if ps == [] then [] else Stream(ps[..|ps| - 1]) + Frame(ps[|ps| - 1])
  }

  predicate Small(ps: seq<Packet>) {
    forall p :: p in ps ==> |p| < 65536
  }

  predicate HoldsPacket(s: seq<Octet>) {
    |s| >= LENGTH_SIZE && |s| >= LENGTH_SIZE + LengthOf(s)
  }

  function FirstPacket(s: seq<Octet>): Packet
    requires HoldsPacket(s)
  {
    s[LENGTH_SIZE..LENGTH_SIZE + LengthOf(s)]
  }

  function AfterPacket(s: seq<Octet>): (r: seq<Octet>)
    requires HoldsPacket(s)
    ensures |r| < |s|
  {
    s[LENGTH_SIZE + LengthOf(s)..]
  }

  // ---------- Framing is uniquely readable ----------

  /** A frame at the front of any bytes is cut off exactly. */
  lemma FrameReadable(p: Packet, rest: seq<Octet>)
    requires |p| < 65536
    ensures HoldsPacket(Frame(p) + rest)
    ensures FirstPacket(Frame(p) + rest) == p && AfterPacket(Frame(p) + rest) == rest
  {
    var s := Frame(p) + rest;
    assert s[0] == |p| / 256 && s[1] == |p| % 256;
    assert s[LENGTH_SIZE..LENGTH_SIZE + |p|] == p;
  }

  /** Whatever is cut off was a frame. */
  lemma ReadIsFrame(s: seq<Octet>)
    requires HoldsPacket(s)
    ensures |FirstPacket(s)| < 65536 && s == Frame(FirstPacket(s)) + AfterPacket(s)
  {
    var p := FirstPacket(s);
    assert |p| == LengthOf(s);
    assert LengthPrefix(|p|) == s[..LENGTH_SIZE];
  }

  lemma StreamStep(ps: seq<Packet>, p: Packet)
    ensures Stream(ps + [p]) == Stream(ps) + Frame(p)
  {
    assert (ps + [p])[..|ps|] == ps;
  }

  lemma {:induction false} StreamFront(ps: seq<Packet>)
    requires ps != []
    ensures Stream(ps) == Frame(ps[0]) + Stream(ps[1..])
  {
    hide Frame;
    if |ps| == 1 {
      assert ps[..0] == [] && ps[1..] == [];
      assert [] + Frame(ps[0]) == Frame(ps[0]) + [];
    } else {
      var front, middle, last := ps[..|ps| - 1], ps[1..|ps| - 1], ps[|ps| - 1];
      StreamFront(front);
      assert front[1..] == middle && front[0] == ps[0];
      assert ps[1..] == middle + [last];
      StreamStep(middle, last);
      assert Frame(ps[0]) + Stream(middle) + Frame(last) == Frame(ps[0]) + (Stream(middle) + Frame(last));
    }
  }

  lemma FirstOfStream(ps: seq<Packet>, tail: seq<Octet>)
    requires ps != [] && Small(ps)
    ensures HoldsPacket(Stream(ps) + tail)
    ensures FirstPacket(Stream(ps) + tail) == ps[0]
    ensures AfterPacket(Stream(ps) + tail) == Stream(ps[1..]) + tail
  {
    hide Stream, Frame, FirstPacket, AfterPacket, HoldsPacket;
    StreamFront(ps);
    FrameReadable(ps[0], Stream(ps[1..]) + tail);
    assert Frame(ps[0]) + Stream(ps[1..]) + tail == Frame(ps[0]) + (Stream(ps[1..]) + tail);
  }

  lemma MoreBytes(a: seq<Octet>, b: seq<Octet>)
    requires HoldsPacket(a) && a <= b
    ensures HoldsPacket(b) && FirstPacket(b) == FirstPacket(a) && AfterPacket(a) <= AfterPacket(b)
  {
    assert a[0] == b[0] && a[1] == b[1];
  }

  /** If one packet sequence plus an unfinished rest reads like an initial part of another, the
      packets are an initial part of the others: order and contents are forced by the bytes. */
  lemma {:induction false} PrefixDecodes(ds: seq<Packet>, tail: seq<Octet>, ps: seq<Packet>)
    requires Small(ds) && Small(ps)
    requires Stream(ds) + tail <= Stream(ps)
    ensures ds <= ps
    decreases |ds|
  {
    if ds != [] {
      FirstOfStream(ds, tail);
      MoreBytes(Stream(ds) + tail, Stream(ps));
      assert ps != [] by { assert HoldsPacket(Stream(ps)); }
      hide Stream, FirstPacket, AfterPacket, HoldsPacket;
      FirstOfStream(ps, []);
      assert Stream(ps) + [] == Stream(ps) && Stream(ps[1..]) + [] == Stream(ps[1..]);
      PrefixDecodes(ds[1..], tail, ps[1..]);
      assert ds == [ds[0]] + ds[1..] && ps == [ps[0]] + ps[1..];
    }
  }

  /** With everything received, an unfinished rest means there is nothing left over. */
  lemma {:induction false} AllDecodes(ds: seq<Packet>, tail: seq<Octet>, ps: seq<Packet>)
    requires Small(ds) && Small(ps) && !HoldsPacket(tail)
    requires Stream(ds) + tail == Stream(ps)
    ensures ds == ps && tail == []
    decreases |ds|
  {
    assert Stream(ps) + [] == Stream(ps);
    if ds == [] {
      assert [] + tail == tail;
      if ps != [] {
        FirstOfStream(ps, []);
      }
    } else {
      FirstOfStream(ds, tail);
      assert ps != [] by { assert HoldsPacket(Stream(ps)); }
      hide Stream, FirstPacket, AfterPacket, HoldsPacket;
      FirstOfStream(ps, []);
      assert Stream(ps[1..]) + [] == Stream(ps[1..]);
      AllDecodes(ds[1..], tail, ps[1..]);
      assert ds == [ds[0]] + ds[1..] && ps == [ps[0]] + ps[1..];
    }
  }

  /** For every payload that Send's size test lets through, the frame reads back as that packet
      and nothing else if and only if the length survives the cast to 16 bits. */
  lemma FrameSurvivesIff(p: Packet)
    requires |p| <= BUFFER_SIZE
    ensures (HoldsPacket(Frame(p)) && FirstPacket(Frame(p)) == p && AfterPacket(Frame(p)) == []) <==> |p| < 65536
  {
    if |p| < 65536 {
      FrameReadable(p, []);
      assert Frame(p) + [] == Frame(p);
    } else if HoldsPacket(Frame(p)) {
      assert |FirstPacket(Frame(p))| == LengthOf(Frame(p)) < 65536;
    }
  }

  // ---------- The socket ----------

  /** What a `Send` did.  `Asserted` is the failure of the ASSERT in AppendToOutBuffer: nothing is
      claimed about a program that goes on after it, and with 65537 bytes or more the copy that
      follows would leave the buffer. */
  datatype SendResult = TooBig | DroppedBusy | DroppedNoProgress(res: int) | Accepted | Asserted

  class AsyncTcpSocket {
    const outbuf: CarryBuffer<Octet>
    const inbuf: CarryBuffer<Octet>
    ghost var wire: seq<Octet>          // bytes the lower socket took from us
    ghost var accepted: seq<Packet>     // packets whose Send was not dropped
    ghost var received: seq<Octet>      // bytes the lower socket gave us
    var delivered: seq<Packet>          // SignalReadPacket, in order
    ghost var sends: nat                // calls of the lower socket's Send
    ghost var recvs: nat                // ... and of its Recv

    ghost predicate Shape()
      reads this, outbuf, inbuf
    {
      && outbuf.Valid() && outbuf.data.Length == BUFFER_SIZE
      && inbuf.Valid() && inbuf.data.Length == BUFFER_SIZE
      && outbuf != inbuf && outbuf.data != inbuf.data
    }

    /** Sent and buffered bytes are exactly the frames of the accepted packets. */
    ghost predicate Sending()
      reads this, outbuf, outbuf.data, inbuf
    {
      Shape() && Small(accepted) && wire + outbuf.Contents() == Stream(accepted)
    }

    /** Received bytes are exactly the frames of the delivered packets and an unfinished one. */
    ghost predicate Receiving()
      reads this, inbuf, inbuf.data, outbuf
    {
      Shape() && Small(delivered) && received == Stream(delivered) + inbuf.Contents()
    }

    ghost predicate Valid()
      reads this, inbuf, inbuf.data, outbuf, outbuf.data
    {
      Sending() && Receiving() && !HoldsPacket(inbuf.Contents())
    }

    constructor ()
      ensures Valid() && wire == [] && accepted == [] && received == [] && delivered == []
      ensures fresh(outbuf) && fresh(inbuf) && fresh(outbuf.data) && fresh(inbuf.data)
    {
      outbuf := new CarryBuffer<Octet>(BUFFER_SIZE);
      inbuf := new CarryBuffer<Octet>(BUFFER_SIZE);
      wire, accepted, received, delivered := [], [], [], [];
      sends, recvs := 0, 0;
    }

    /** FlushOutBuffer: the lower socket takes some bytes, none, or fails. */
    method FlushOutBuffer() returns (res: int)
      requires Shape()
      modifies this`wire, this`sends, outbuf, outbuf.data
      ensures Shape() && sends == old(sends) + 1
      ensures wire + outbuf.Contents() == old(wire + outbuf.Contents()) && old(wire) <= wire
      ensures res <= 0 ==> wire == old(wire) && outbuf.Contents() == old(outbuf.Contents())
      ensures res > 0 ==> |outbuf.Contents()| == |old(outbuf.Contents())| - res
    {
      res := *;
      sends := sends + 1;
      if res > outbuf.len {
        res := outbuf.len;
      }
      if res <= 0 {
        return;
      }
      ghost var all := outbuf.Contents();
      wire := wire + all[..res];
      outbuf.Shift(res);
      assert all == all[..res] + outbuf.Contents();
    }

    /** Send: a packet is either queued whole behind nothing else, or leaves no trace; and what is
        accepted is always short enough for its length prefix. */
    method Send(p: Packet) returns (r: SendResult)
      requires Valid()
      modifies this`wire, this`accepted, this`sends, outbuf, outbuf.data
      ensures Valid()
      ensures sends == old(sends) + (if r == Accepted || r.DroppedNoProgress? then 1 else 0)
      ensures r.DroppedNoProgress? ==> r.res <= 0
      ensures r == TooBig <==> |p| > 65538
      ensures r == DroppedBusy <==> |p| <= 65538 && old(outbuf.Contents()) != []
      ensures r == Asserted <==> 65536 <= |p| <= 65538 && old(outbuf.Contents()) == []
      ensures r == Accepted ==> accepted == old(accepted) + [p] && |wire| > |old(wire)|
      ensures r != Accepted ==>
                accepted == old(accepted) && wire == old(wire) && outbuf.Contents() == old(outbuf.Contents())
    {
      if |p| > BUFFER_SIZE {
        return TooBig;
      }
      if outbuf.len != 0 {
        return DroppedBusy;
      }
      if LENGTH_SIZE + |p| >= BUFFER_SIZE {
        return Asserted;
      }
      StreamStep(accepted, p);
      outbuf.Append(LengthPrefix(|p|));
      outbuf.Append(p);
      assert outbuf.Contents() == Frame(p);
      assert wire == Stream(accepted);
      var res := FlushOutBuffer();
      if res <= 0 {
        outbuf.Clear();
        assert wire + [] == wire;
        return DroppedNoProgress(res);
      }
      accepted := accepted + [p];
      return Accepted;
    }

    /** OnWriteEvent; `ready` is SignalReadyToSend. */
    method OnWriteEvent() returns (ready: bool)
      requires Valid()
      modifies this`wire, this`sends, outbuf, outbuf.data
      ensures Valid() && old(wire) <= wire
      ensures wire + outbuf.Contents() == old(wire + outbuf.Contents())
      ensures sends == old(sends) + (if old(outbuf.Contents()) != [] then 1 else 0)
      ensures ready <==> outbuf.Contents() == []
    {
      if outbuf.len > 0 {
        var _ := FlushOutBuffer();
      }
      ready := outbuf.len == 0;
    }

    /** ProcessInput: hands out every whole packet and keeps the unfinished rest. */
    method ProcessInput()
      requires Receiving()
      modifies this`delivered, inbuf, inbuf.data
      ensures Receiving() && !HoldsPacket(inbuf.Contents())
      ensures old(delivered) <= delivered && received == old(received)
    {
      while inbuf.len >= LENGTH_SIZE
        invariant Receiving() && old(delivered) <= delivered
        decreases inbuf.len
      {
        var data := inbuf.Contents();
        var length := LengthOf(data);
        if inbuf.len < LENGTH_SIZE + length {
          return;
        }
        var p := FirstPacket(data);
        ReadIsFrame(data);
        StreamStep(delivered, p);
        assert Stream(delivered) + (Frame(p) + AfterPacket(data)) == Stream(delivered) + Frame(p) + AfterPacket(data);
        delivered := delivered + [p];
        inbuf.Shift(LENGTH_SIZE + length);
      }
    }

    /** OnReadEvent on a connected socket.  The buffer always has room, and the "input buffer
        overflow" branch is never taken. */
    method OnReadEvent() returns (overflow: bool)
      requires Valid()
      modifies this`received, this`delivered, this`recvs, inbuf, inbuf.data
      ensures Valid() && recvs == old(recvs) + 1
      ensures old(received) <= received && old(delivered) <= delivered
      ensures !overflow
    {
      assert inbuf.len < BUFFER_SIZE;
      var bytes: seq<Octet>, failed: bool := *, *;
      recvs := recvs + 1;
      if failed {
        return false;
      }
      if |bytes| > BUFFER_SIZE - inbuf.len {
        bytes := bytes[..BUFFER_SIZE - inbuf.len];
      }
      assert Stream(delivered) + (inbuf.Contents() + bytes) == Stream(delivered) + inbuf.Contents() + bytes;
      inbuf.Append(bytes);
      received := received + bytes;
      ProcessInput();
      overflow := inbuf.len >= BUFFER_SIZE;
      if overflow {
        inbuf.Clear();
      }
    }
  }

  /** Two connected sockets: at every moment the packets delivered are an initial part of the
      packets accepted, and once all bytes have arrived they are all of them. */
  lemma InOrderAndIntact(a: AsyncTcpSocket, b: AsyncTcpSocket)
    requires a.Valid() && b.Valid() && b.received <= a.wire
    ensures b.delivered <= a.accepted
    ensures b.received == a.wire && a.outbuf.Contents() == [] ==> b.delivered == a.accepted
  {
    assert Stream(b.delivered) + b.inbuf.Contents() <= Stream(a.accepted);
    PrefixDecodes(b.delivered, b.inbuf.Contents(), a.accepted);
    if b.received == a.wire && a.outbuf.Contents() == [] {
      assert a.wire + [] == a.wire;
      AllDecodes(b.delivered, b.inbuf.Contents(), a.accepted);
    }
  }
}
