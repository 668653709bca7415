/** ByteBuffer of bytebuffer.cc: a queue of bytes with typed reads and writes in two byte orders,
    kept in one array that is compacted and reallocated, and read positions that can be restored as
    long as neither has happened. */
module ByteBuffers {
  import opened Sequences

  type Byte = x: nat | x < 256

  datatype ByteOrder = Network | Host

  datatype ReadPosition = ReadPosition(start: nat, version: nat)

  // ---------- Integers as bytes ----------

  function Pow256(n: nat): (p: nat)
    ensures p > 0
  {
    if n == 0 then 1 else 256 * Pow256(n - 1)
  }

  /** The `width` low bytes of a value, most significant first (`big`) or last. */
  function EncodeInt(v: nat, width: nat, big: bool): (s: seq<Byte>)
    ensures |s| == width
  {
    if width == 0 then []
    else if big then EncodeInt(v / 256, width - 1, big) + [v % 256]
    else [v % 256] + EncodeInt(v / 256, width - 1, big)
  }

  function DecodeInt(s: seq<Byte>, big: bool): nat {
    if s == [] then 0
    else if big then 256 * DecodeInt(s[..|s| - 1], big) + s[|s| - 1]
    else 256 * DecodeInt(s[1..], big) + s[0]
  }

  /** A value that fits comes back, in either order. */
  lemma {:induction false} IntRoundTrip(v: nat, width: nat, big: bool)
    ensures v < Pow256(width) ==> DecodeInt(EncodeInt(v, width, big), big) == v
    decreases width
  {
    if width > 0 {
      IntRoundTrip(v / 256, width - 1, big);
      var s := EncodeInt(v, width, big);
      if big {
        assert s[..width - 1] == EncodeInt(v / 256, width - 1, big);
      } else {
        assert s[1..] == EncodeInt(v / 256, width - 1, big);
      }
    }
  }

  lemma EncodeStep(v: nat, b: Byte, width: nat, big: bool)
    ensures EncodeInt(256 * v + b, width + 1, big) == Extended(EncodeInt(v, width, big), b, big)
  {
    assert (256 * v + b) / 256 == v && (256 * v + b) % 256 == b;
  }

  /** A byte added at the less significant end. */
  function Extended(s: seq<Byte>, b: Byte, big: bool): (r: seq<Byte>)
    ensures |r| == |s| + 1
  {
    if big then s + [b] else [b] + s
  }

  lemma DecodeStep(s: seq<Byte>, b: Byte, big: bool)
    ensures DecodeInt(Extended(s, b, big), big) == 256 * DecodeInt(s, big) + b
  {
    assert (s + [b])[..|s|] == s && ([b] + s)[1..] == s;
  }

  lemma Split(s: seq<Byte>, big: bool) returns (rest: seq<Byte>, b: Byte)
    requires s != []
    ensures s == Extended(rest, b, big)
  {
    rest, b := if big then s[..|s| - 1] else s[1..], if big then s[|s| - 1] else s[0];
  }

  /** ... and bytes come back from the value they stand for. */
  lemma {:induction false} BytesRoundTrip(s: seq<Byte>, big: bool)
    ensures DecodeInt(s, big) < Pow256(|s|) && EncodeInt(DecodeInt(s, big), |s|, big) == s
    decreases |s|
  {
    if s != [] {
      hide EncodeInt, DecodeInt, Extended;
      var rest, b := Split(s, big);
      BytesRoundTrip(rest, big);
      EncodeStep(DecodeInt(rest, big), b, |rest|, big);
      DecodeStep(rest, b, big);
    }
  }

  /** The i-th byte of a value: counted from the most significant one in network order, from the least
      significant one otherwise. */
  lemma {:induction false} ByteAt(v: nat, width: nat, big: bool, i: nat)
    requires i < width
    ensures EncodeInt(v, width, big)[i] == v / Pow256(if big then width - 1 - i else i) % 256
    decreases width
  {
    var place := if big then width - 1 - i else i;
    if place > 0 {
      ByteAt(v / 256, width - 1, big, if big then i else i - 1);
      DivideTwice(v, place);
    }
  }

  lemma DivideTwice(v: nat, n: nat)
    requires n > 0
    ensures v / Pow256(n) == v / 256 / Pow256(n - 1)
  {
    var p := Pow256(n - 1);
    var q, r := v / 256, v % 256;
    var a, b := q / p, q % p;
    assert v == 256 * q + r && q == p * a + b;
    Quotient(v, p, a, b, r);
  }

  lemma Quotient(v: nat, p: nat, a: nat, b: nat, r: nat)
    requires p > 0 && b < p && r < 256 && v == 256 * (p * a + b) + r
    ensures v / (256 * p) == a
  {
    var m := 256 * p;
    assert 256 * (p * a) == m * a by { Regroup(p, a); }
    assert v == m * a + (256 * b + r) && 256 * b + r < m;
    QuotientIs(v, m, a, 256 * b + r);
  }

  lemma Regroup(p: nat, a: nat)
    ensures 256 * (p * a) == 256 * p * a
  {
  }

  lemma QuotientIs(v: nat, m: nat, a: nat, r: nat)
    requires m > 0 && r < m && v == m * a + r
    ensures v / m == a
  {
    var q := v / m;
    assert v == m * q + v % m;
    if q < a {
      assert m * (q + 1) <= m * a by { Larger(m, q + 1, a); }
    } else if q > a {
      assert m * (a + 1) <= m * q by { Larger(m, a + 1, q); }
    }
  }

  lemma Larger(m: nat, x: nat, y: nat)
    requires x <= y
    ensures m * x <= m * y
  {
  }

  // The host's memory: an integer variable of `width` bytes holds EncodeInt(v, width, hostIsBig).

  /** HostToNetwork16/32/64 and NetworkToHost16/32/64: swap the bytes on a little-endian host. */
  function SwapOrder(v: nat, width: nat, hostIsBig: bool): (r: nat)
    ensures v < Pow256(width) ==> r < Pow256(width)
  {
    BytesRoundTrip(EncodeInt(v, width, true), false);
    if hostIsBig then v else DecodeInt(EncodeInt(v, width, true), false)
  }

  /** A converted value lies in memory most significant byte first, whatever the host. */
  lemma SwapLaysOut(v: nat, width: nat, hostIsBig: bool)
    ensures EncodeInt(SwapOrder(v, width, hostIsBig), width, hostIsBig) == EncodeInt(v, width, true)
  {
    BytesRoundTrip(EncodeInt(v, width, true), false);
  }

  /** Converting what was read into memory gives the value in network order. */
  lemma SwapReads(s: seq<Byte>, hostIsBig: bool)
    ensures SwapOrder(DecodeInt(s, hostIsBig), |s|, hostIsBig) == DecodeInt(s, true)
  {
    if !hostIsBig {
      var v := DecodeInt(s, false);
      BytesRoundTrip(s, false);
      SwapEnds(v, |s|);
      Reversal(s);
    }
  }

  function Reversed(s: seq<Byte>): (r: seq<Byte>)
    ensures |r| == |s|
  {
    if s == [] then [] else Reversed(s[1..]) + [s[0]]
  }

  /** The two orders are each other's reversal. */
  lemma {:induction false} SwapEnds(v: nat, width: nat)
    ensures EncodeInt(v, width, true) == Reversed(EncodeInt(v, width, false))
    decreases width
  {
    if width > 0 {
      SwapEnds(v / 256, width - 1);
      var s := EncodeInt(v, width, false);
      assert s[1..] == EncodeInt(v / 256, width - 1, false);
    }
  }

  lemma {:induction false} Reversal(s: seq<Byte>)
    ensures DecodeInt(Reversed(s), false) == DecodeInt(s, true)
    decreases |s|
  {
    if s != [] {
      var front, last := s[..|s| - 1], s[|s| - 1];
      Reversal(front);
      assert s == front + [last];
      ReversedLast(front, last);
      assert ([last] + Reversed(front))[1..] == Reversed(front);
    }
  }

  lemma {:induction false} ReversedLast(s: seq<Byte>, b: Byte)
    ensures Reversed(s + [b]) == [b] + Reversed(s)
    decreases |s|
  {
    if s == [] {
      assert s + [b] == [b] && [b][1..] == [];
    } else {
      ReversedLast(s[1..], b);
      assert (s + [b])[1..] == s[1..] + [b];
    }
  }

  /** Three of the four bytes of a variable: without the most significant one. */
  lemma LowThree(v: nat)
    ensures EncodeInt(v, 4, true)[1..] == EncodeInt(v, 3, true)
    ensures EncodeInt(v, 4, false)[..3] == EncodeInt(v, 3, false)
  {
    DropTop(v, 3);
  }

  lemma {:induction false} DropTop(v: nat, width: nat)
    ensures EncodeInt(v, width + 1, true)[1..] == EncodeInt(v, width, true)
    ensures EncodeInt(v, width + 1, false)[..width] == EncodeInt(v, width, false)
    decreases width
  {
    if width > 0 {
      DropTop(v / 256, width - 1);
      assert EncodeInt(v, width + 1, true)[1..] == EncodeInt(v / 256, width, true)[1..] + [v % 256];
      assert EncodeInt(v, width + 1, false)[..width] == [v % 256] + EncodeInt(v / 256, width, false)[..width - 1];
    }
  }

  lemma {:induction false} ZeroFirst(s: seq<Byte>)
    ensures DecodeInt([0] + s, true) == DecodeInt(s, true)
    decreases |s|
  {
    if s == [] {
      assert [0] + s == [0] && [0][..0] == [];
    } else {
      ZeroFirst(s[..|s| - 1]);
      assert ([0] + s)[..|s|] == [0] + s[..|s| - 1];
    }
  }

  lemma {:induction false} ZeroLast(s: seq<Byte>)
    ensures DecodeInt(s + [0], false) == DecodeInt(s, false)
    decreases |s|
  {
    if s == [] {
      assert s + [0] == [0] && [0][1..] == [];
    } else {
      ZeroLast(s[1..]);
      assert (s + [0])[1..] == s[1..] + [0];
    }
  }

  // ---------- A queue of typed values ----------

  datatype Item = Item(value: nat, width: nat)

  predicate Fits(i: Item) {
    i.value < Pow256(i.width)
  }

  function EncodeAll(items: seq<Item>, big: bool): seq<Byte> {
    if items == [] then [] else EncodeInt(items[0].value, items[0].width, big) + EncodeAll(items[1..], big)
  }

  lemma {:induction false} EncodeAllAppend(items: seq<Item>, i: Item, big: bool)
    ensures EncodeAll(items + [i], big) == EncodeAll(items, big) + EncodeInt(i.value, i.width, big)
    decreases |items|
  {
    hide EncodeInt;
    if items == [] {
      assert items + [i] == [i] && [i][1..] == [];
      assert EncodeAll([i], big) == EncodeInt(i.value, i.width, big) + [];
    } else {
      EncodeAllAppend(items[1..], i, big);
      assert (items + [i])[1..] == items[1..] + [i];
    }
  }

  /** Reading with the width that was written takes exactly the oldest value. */
  lemma OldestFirst(items: seq<Item>, s: seq<Byte>, big: bool)
    requires items != [] && Fits(items[0]) && s == EncodeAll(items, big)
    ensures |s| >= items[0].width
    ensures DecodeInt(s[..items[0].width], big) == items[0].value
    ensures s[items[0].width..] == EncodeAll(items[1..], big)
  {
    var i := items[0];
    IntRoundTrip(i.value, i.width, big);
    assert s[..i.width] == EncodeInt(i.value, i.width, big);
  }

  // ---------- Read positions ----------

  /** Nothing but writing (and reading) happened between two moments, or the version has moved on.
      `epoch` is everything in the array up to the write position. */
  predicate Later(v0: nat, e0: seq<Byte>, v1: nat, e1: seq<Byte>) {
    v0 < v1 || (v0 == v1 && e0 <= e1)
  }

  lemma LaterChains(v0: nat, e0: seq<Byte>, v1: nat, e1: seq<Byte>, v2: nat, e2: seq<Byte>)
    requires Later(v0, e0, v1, e1) && Later(v1, e1, v2, e2)
    ensures Later(v0, e0, v2, e2)
  {
  }

  /** A call of the buffer. */
  datatype Call = Put(val: seq<Byte>) | Take(len: nat) | Skip(size: nat) | Refit(size: nat) | Wipe

  predicate Moves(u: Call) {
    u.Refit? || u.Wipe?
  }

  function WrittenIn(u: Call): seq<Byte> {
    if u.Put? then u.val else []
  }

  function WrittenBy(uses: seq<Call>): seq<Byte> {
    if uses == [] then [] else WrittenBy(uses[..|uses| - 1]) + WrittenIn(uses[|uses| - 1])
  }

  /** None of these calls moves the bytes of an array of this size, written up to `end`. */
  predicate InPlace(uses: seq<Call>, end: nat, size: nat) {
    (forall u :: u in uses ==> !Moves(u)) && end + |WrittenBy(uses)| <= size
  }

  lemma InPlaceStep(uses: seq<Call>, i: nat, end: nat, size: nat)
    requires i < |uses|
    ensures WrittenBy(uses[..i + 1]) == WrittenBy(uses[..i]) + WrittenIn(uses[i])
    ensures InPlace(uses[..i + 1], end, size) <==>
            && InPlace(uses[..i], end, size) && !Moves(uses[i])
            && end + |WrittenBy(uses[..i])| + |WrittenIn(uses[i])| <= size
  {
    assert uses[..i + 1][..i] == uses[..i];
    assert uses[..i + 1] == uses[..i] + [uses[i]];
  }

  /** The version never comes back to an earlier value. */
  lemma NotBack(v0: nat, e0: seq<Byte>, v1: nat, e1: seq<Byte>, v2: nat, e2: seq<Byte>)
    requires Later(v0, e0, v1, e1) && Later(v1, e1, v2, e2) && v2 == v0
    ensures v1 == v0
  {
  }

  class ByteBuffer {
    const order: ByteOrder
    const hostIsBig: bool
    var bytes: array<Byte>
    var start: nat
    var end: nat
    var version: nat

    ghost predicate Valid()
      reads this
    {
      start <= end <= bytes.Length
    }

    function Contents(): seq<Byte>
      requires Valid()
      reads this, bytes
    {
      bytes[start..end]
    }

    /** All bytes written since the array was last compacted, reallocated or cleared. */
    function Epoch(): seq<Byte>
      requires Valid()
      reads this, bytes
    {
      bytes[..end]
    }

    /** Whether integers are stored most significant byte first. */
    function Big(): bool {
      order == Network || hostIsBig
    }

    constructor (initial: seq<Byte>, capacity: nat, order: ByteOrder, hostIsBig: bool)
      requires |initial| <= capacity
      ensures Valid() && Contents() == initial && fresh(bytes)
      ensures this.order == order && this.hostIsBig == hostIsBig
    {
      this.order, this.hostIsBig := order, hostIsBig;
      version, start, end := 0, 0, |initial|;
      var b := new Byte[capacity];
      bytes := b;
      new;
      for i := 0 to |initial|
        invariant bytes == b && start == 0 && end == |initial|
        invariant b[..i] == initial[..i]
      {
        b[i] := initial[i];
      }
    }

    /** Resize: keeps the readable bytes (as many as fit), moved to the front. */
    method Resize(size: nat)
      requires Valid()
      modifies this, bytes
      ensures Valid() && version == old(version) + 1 && start == 0
      ensures bytes == old(bytes) || fresh(bytes)
      ensures Contents() == old(Contents())[..if size < |old(Contents())| then size else |old(Contents())|]
      ensures bytes.Length == if size <= old(bytes.Length) then old(bytes.Length)
                              else if size > 3 * old(bytes.Length) / 2 then size else 3 * old(bytes.Length) / 2
    {
      var len := if end - start < size then end - start else size;
      ghost var kept := Contents()[..len];
      if size <= bytes.Length {
        MoveDown(len);
      } else {
        var grown := 3 * bytes.Length / 2;
        var larger := new Byte[if size > grown then size else grown];
        forall i | 0 <= i < len {
          larger[i] := bytes[start + i];
        }
        bytes := larger;
      }
      start, end, version := 0, len, version + 1;
      assert Contents() == kept;
    }

    method MoveDown(len: nat)
      requires Valid() && len <= end - start
      modifies bytes
      ensures bytes[..len] == old(bytes[start..start + len])
    {
      for i := 0 to len
        invariant forall j :: 0 <= j < i ==> bytes[j] == old(bytes[start + j])
        invariant forall j :: i <= j < bytes.Length ==> bytes[j] == old(bytes[j])
      {
        bytes[i] := bytes[start + i];
      }
    }

    /** WriteBytes, through ReserveWriteBuffer: appends, whatever the array has to go through. */
    method WriteBytes(val: seq<Byte>)
      requires Valid()
      modifies this, bytes
      ensures Valid() && Contents() == old(Contents()) + val
      ensures bytes == old(bytes) || fresh(bytes)
      ensures Later(old(version), old(Epoch()), version, Epoch())
      ensures version == old(version) <==> old(end) + |val| <= old(bytes.Length)
      ensures version == old(version) ==> Epoch() == old(Epoch()) + val && start == old(start) && bytes == old(bytes)
    {
      ghost var before := Contents();
      if end - start + |val| > bytes.Length - start {
        Resize(end - start + |val|);
        assert before[..|before|] == before;
        assert Contents() == before;
        CopyIn(val);
      } else {
        CopyIn(val);
      }
    }

    method CopyIn(val: seq<Byte>)
      requires Valid() && end + |val| <= bytes.Length
      modifies this`end, bytes
      ensures Valid() && Contents() == old(Contents()) + val && Epoch() == old(Epoch()) + val
    {
      for i := 0 to |val|
        invariant end == old(end)
        invariant bytes[..end] == old(bytes[..end])
        invariant bytes[end..end + i] == val[..i]
      {
        bytes[end + i] := val[i];
      }
      end := end + |val|;
      assert bytes[..end] == old(bytes[..end]) + val;
      assert bytes[start..end] == bytes[..end][start..];
    }

    /** WriteUInt8 .. WriteUInt64: a variable in host memory, converted and copied.  A 24-bit write
        takes three bytes of a 32-bit variable. */
    method WriteUInt(val: nat, width: nat)
      requires Valid() && width in {1, 2, 3, 4, 8}
      modifies this, bytes
      ensures Valid() && Contents() == old(Contents()) + EncodeInt(val, width, Big())
      ensures bytes == old(bytes) || fresh(bytes)
      ensures Later(old(version), old(Epoch()), version, Epoch())
    {
      hide EncodeInt, SwapOrder;
      var size := if width == 3 then 4 else width;
      var v := if order == Network then SwapOrder(val, size, hostIsBig) else val;
      SwapLaysOut(val, size, hostIsBig);
      var memory := EncodeInt(v, size, hostIsBig);
      assert memory == EncodeInt(val, size, Big());
      if width == 3 {
        LowThree(val);
        memory := if order == Network || hostIsBig then memory[1..] else memory[..3];
      }
      WriteBytes(memory);
    }

    /** ReadBytes and ReadString. */
    method ReadBytes(len: nat) returns (ok: bool, val: seq<Byte>)
      requires Valid()
      modifies this`start
      ensures Valid() && Epoch() == old(Epoch()) && version == old(version)
      ensures ok <==> len <= |old(Contents())|
      ensures ok ==> val == old(Contents())[..len] && Contents() == old(Contents())[len..]
      ensures !ok ==> Contents() == old(Contents())
    {
      if len > end - start {
        return false, [];
      }
      val := bytes[start..start + len];
      start := start + len;
      return true, val;
    }

    /** ReadUInt8 .. ReadUInt64: bytes copied into a variable in host memory and converted.  A
        24-bit read fills three bytes of a zeroed 32-bit variable. */
    method ReadUInt(width: nat) returns (ok: bool, val: nat)
      requires Valid() && width in {1, 2, 3, 4, 8}
      modifies this`start
      ensures Valid() && Epoch() == old(Epoch()) && version == old(version)
      ensures ok <==> width <= |old(Contents())|
      ensures ok ==> val == DecodeInt(old(Contents())[..width], Big()) && Contents() == old(Contents())[width..]
      ensures !ok ==> Contents() == old(Contents())
    {
      hide DecodeInt, SwapOrder;
      var s;
      ok, s := ReadBytes(width);
      if !ok {
        return false, 0;
      }
      ZeroFirst(s);
      ZeroLast(s);
      var memory := if width != 3 then s else if order == Network || hostIsBig then [0] + s else s + [0];
      SwapReads(memory, hostIsBig);
      val := DecodeInt(memory, hostIsBig);
      if order == Network {
        val := SwapOrder(val, |memory|, hostIsBig);
      }
    }

    method Consume(size: nat) returns (ok: bool)
      requires Valid()
      modifies this`start
      ensures Valid() && Epoch() == old(Epoch()) && version == old(version)
      ensures ok <==> size <= |old(Contents())|
      ensures Contents() == if ok then old(Contents())[size..] else old(Contents())
    {
      if size > end - start {
        return false;
      }
      start := start + size;
      return true;
    }

    method Clear()
      requires Valid()
      modifies this, bytes
      ensures Valid() && Contents() == [] && version == old(version) + 1 && bytes == old(bytes)
      ensures forall i :: 0 <= i < bytes.Length ==> bytes[i] == 0
    {
      forall i | 0 <= i < bytes.Length {
        bytes[i] := 0;
      }
      start, end, version := 0, 0, version + 1;
    }

    method GetReadPosition() returns (p: ReadPosition)
      requires Valid()
      ensures p == ReadPosition(start, version) && Contents() == Epoch()[p.start..]
    {
      p := ReadPosition(start, version);
    }

    /** SetReadPosition.  `seen` is the epoch at the moment the position was taken; any operations
        may have come since.  Success is exactly that the version has not moved, and then the bytes
        readable at that moment are readable again, followed by everything written since. */
    method SetReadPosition(p: ReadPosition, ghost seen: seq<Byte>) returns (ok: bool)
      requires Valid() && p.start <= |seen| && Later(p.version, seen, version, Epoch())
      modifies this`start
      ensures Valid() && Epoch() == old(Epoch()) && version == old(version)
      ensures ok <==> p.version == version
      ensures ok ==> Contents() == seen[p.start..] + Epoch()[|seen|..]
      ensures !ok ==> Contents() == old(Contents())
    {
      if p.version != version {
        return false;
      }
      assert Epoch() == seen + Epoch()[|seen|..];
      start := p.start;
      assert Contents() == Epoch()[p.start..];
      return true;
    }

    /** Any calls between taking a read position and going back to it.  Going back works if and only
        if none of them was a Resize or a Clear and everything written still fitted behind the write
        position; and then what was readable is readable again, followed by what was written. */
    method Revisit(uses: seq<Call>) returns (ok: bool)
      requires Valid()
      modifies this, bytes
      ensures Valid()
      ensures ok <==> (forall u :: u in uses ==> !Moves(u)) && old(end) + |WrittenBy(uses)| <= old(bytes.Length)
      ensures ok ==> Contents() == old(Contents()) + WrittenBy(uses)
    {
      var p := GetReadPosition();
      ghost var seen := Epoch();
      PerformAll(uses);
      ok := SetReadPosition(p, seen);
      assert ok ==> (seen + WrittenBy(uses))[|seen|..] == WrittenBy(uses);
    }

    method PerformAll(uses: seq<Call>)
      requires Valid()
      modifies this, bytes
      ensures Valid() && Later(old(version), old(Epoch()), version, Epoch())
      ensures version == old(version) <==> InPlace(uses, old(end), old(bytes.Length))
      ensures version == old(version) ==> Epoch() == old(Epoch()) + WrittenBy(uses)
    {
      assert Later(version, Epoch(), version, Epoch());
      assert uses[..0] == [] && Epoch() + [] == Epoch();
      assert InPlace([], end, bytes.Length);
      ghost var v0, seen, n := version, Epoch(), bytes.Length;
      hide Later, InPlace, Moves, WrittenIn;
      for i := 0 to |uses|
        invariant Valid() && (bytes == old(bytes) || fresh(bytes))
        invariant Later(v0, seen, version, Epoch())
        invariant version == v0 <==> InPlace(uses[..i], |seen|, n)
        invariant version == v0 ==> bytes == old(bytes) && Epoch() == seen + WrittenBy(uses[..i])
      {
        ghost var v, e := version, Epoch();
        InPlaceStep(uses, i, |seen|, n);
        Perform(uses[i]);
        LaterChains(v0, seen, v, e, version, Epoch());
        if version == v0 {
          NotBack(v0, seen, v, e, version, Epoch());
        }
        Regrouped(seen, WrittenBy(uses[..i]), WrittenIn(uses[i]));
      }
      assert uses[..|uses|] == uses;
    }

    method Perform(u: Call)
      requires Valid()
      modifies this, bytes
      ensures Valid() && (bytes == old(bytes) || fresh(bytes))
      ensures Later(old(version), old(Epoch()), version, Epoch())
      ensures version == old(version) <==> !Moves(u) && old(end) + |WrittenIn(u)| <= old(bytes.Length)
      ensures version == old(version) ==> bytes == old(bytes) && Epoch() == old(Epoch()) + WrittenIn(u)
    {
      match u
      case Put(val) => WriteBytes(val);
      case Take(len) => var _, _ := ReadBytes(len);
      case Skip(size) => var _ := Consume(size);
      case Refit(size) => Resize(size);
      case Wipe => Clear();
    }

    /** Any interleaving of typed calls on an empty buffer: the values read are the values written,
        in order, across every compaction and reallocation. */
    method Replay(ops: seq<Op>) returns (got: seq<nat>, ghost use: Use)
      requires Valid() && Contents() == []
      requires Matching(Use([], [], []), ops, Big()) && forall op :: op in ops ==> TypedOp(op)
      modifies this, bytes
      ensures Valid() && use == ApplyAll(Use([], [], []), ops, Big())
      ensures got == use.got && Contents() == use.bytes && InOrder(use, Big())
    {
      FirstInFirstOut(ops, Big());
      got, use := [], Use([], [], []);
      assert ops[..0] == [];
      hide Matching, InOrder, Apply;
      for i := 0 to |ops|
        invariant Valid() && (bytes == old(bytes) || fresh(bytes))
        invariant use == ApplyAll(Use([], [], []), ops[..i], Big()) && got == use.got && Contents() == use.bytes
      {
        assert ops[..i + 1][..i] == ops[..i] && ops[i] in ops;
        got := TypedCall(ops[i], got, use);
        use := Apply(use, ops[i], Big());
      }
      assert ops[..|ops|] == ops;
    }

    method TypedCall(op: Op, got: seq<nat>, ghost use: Use) returns (more: seq<nat>)
      requires Valid() && TypedOp(op) && got == use.got && Contents() == use.bytes
      modifies this, bytes
      ensures Valid() && (bytes == old(bytes) || fresh(bytes))
      ensures var u := Apply(use, op, Big()); more == u.got && Contents() == u.bytes
    {
      hide EncodeInt, DecodeInt;
      more := got;
      match op
      case Write(item) => WriteUInt(item.value, item.width);
      case Read(width) =>
        var ok, val := ReadUInt(width);
        if ok {
          more := more + [val];
        }
    }
  }

  // ---------- Any interleaving of writes and matching reads ----------

  datatype Op = Write(item: Item) | Read(width: nat)

  /** A call that exists. */
  predicate TypedOp(op: Op) {
    (if op.Write? then op.item.width else op.width) in {1, 2, 3, 4, 8}
  }

  /** The readable bytes, the values written so far, and the values read so far. */
  datatype Use = Use(bytes: seq<Byte>, written: seq<Item>, got: seq<nat>)

  /** One call, as the contracts of WriteUInt and ReadUInt describe it. */
  function Apply(u: Use, op: Op, big: bool): Use {
    match op
    case Write(i) => Use(u.bytes + EncodeInt(i.value, i.width, big), u.written + [i], u.got)
    case Read(w) =>
      if w > |u.bytes| then u
      else Use(u.bytes[w..], u.written, u.got + [DecodeInt(u.bytes[..w], big)])
  }

  function ApplyAll(u: Use, ops: seq<Op>, big: bool): Use {
    if ops == [] then u else Apply(ApplyAll(u, ops[..|ops| - 1], big), ops[|ops| - 1], big)
  }

  /** Each value fits its width, and each read asks for the width of the value whose turn it is. */
  predicate Matching(u: Use, ops: seq<Op>, big: bool) {
    ops == [] ||
    (Matching(u, ops[..|ops| - 1], big) &&
     var before := ApplyAll(u, ops[..|ops| - 1], big);
     match ops[|ops| - 1]
     case Write(i) => Fits(i)
     case Read(w) => |before.got| < |before.written| && w == before.written[|before.got|].width)
  }

  predicate InOrder(u: Use, big: bool) {
    && |u.got| <= |u.written|
    && (forall i :: i in u.written ==> Fits(i))
    && (forall k :: 0 <= k < |u.got| ==> u.got[k] == u.written[k].value)
    && u.bytes == EncodeAll(u.written[|u.got|..], big)
  }

  lemma ApplyInOrder(u: Use, op: Op, big: bool)
    requires InOrder(u, big)
    requires op.Write? ==> Fits(op.item)
    requires op.Read? ==> |u.got| < |u.written| && op.width == u.written[|u.got|].width
    ensures InOrder(Apply(u, op, big), big)
  {
    hide EncodeAll, EncodeInt, DecodeInt, Fits;
    var queue := u.written[|u.got|..];
    match op {
      case Write(i) =>
        EncodeAllAppend(queue, i, big);
        assert (u.written + [i])[|u.got|..] == queue + [i];
      case Read(w) =>
        assert queue[0] in u.written;
        OldestFirst(queue, u.bytes, big);
        assert queue[1..] == u.written[|u.got| + 1..];
    }
  }

  /** Values come out exactly as they went in, in order, in either byte order. */
  lemma {:induction false} FirstInFirstOut(ops: seq<Op>, big: bool)
    requires Matching(Use([], [], []), ops, big)
    ensures InOrder(ApplyAll(Use([], [], []), ops, big), big)
  {
    if ops != [] {
      FirstInFirstOut(ops[..|ops| - 1], big);
      ApplyInOrder(ApplyAll(Use([], [], []), ops[..|ops| - 1], big), ops[|ops| - 1], big);
    }
  }
}
