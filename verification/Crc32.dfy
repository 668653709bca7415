/** CRC-32 of crc32.cc (section 8 of RFC 1952): the lazily built table, the byte-at-a-time update,
    and why it detects every error burst of up to four bytes. */
module Crc32 {

  const POLYNOMIAL: bv32 := 0xEDB88320
  const ONES: bv32 := 0xFFFFFFFF

  function Xor(a: bv32, b: bv32): bv32 {
    a ^ b
  }

  function Half(c: bv32): bv32 {
    c >> 1
  }

  predicate Odd(c: bv32) {
    c & 1 == 1
  }

  /** One step of the shift register: divide by x, reducing by the reversed polynomial. */
  function Shift(c: bv32): bv32 {
    if Odd(c) then Xor(POLYNOMIAL, Half(c)) else Half(c)
  }

  function Shifts(c: bv32, n: nat): bv32
    decreases n
  {
    if n == 0 then c else Shifts(Shift(c), n - 1)
  }

  // ---------- The reference: one message bit at a time ----------

  /** The register after the `n` low bits of `w`, least significant first. */
  function BitSerial(c: bv32, w: bv32, n: nat): bv32
    decreases n
  {
    if n == 0 then c else BitSerial(Shift(Xor(c, w & 1)), Half(w), n - 1)
  }

  function Register(c: bv32, message: seq<bv8>): bv32
    decreases |message|
  {
    if message == [] then c else Register(BitSerial(c, message[0] as bv32, 8), message[1..])
  }

  /** The bit-serial CRC: complement, divide, complement. */
  function Crc(start: bv32, message: seq<bv8>): bv32 {
    Xor(Register(Xor(start, ONES), message), ONES)
  }

  // ---------- Facts about words ----------

  lemma XorCommutes(x: bv32, y: bv32)
    ensures Xor(x, y) == Xor(y, x)
  {
  }

  lemma XorAssociates(x: bv32, y: bv32, z: bv32)
    ensures Xor(Xor(x, y), z) == Xor(x, Xor(y, z))
  {
  }

  lemma XorZero(x: bv32)
    ensures Xor(x, 0) == x && Xor(0, x) == x
  {
  }

  lemma XorUndoes(x: bv32, k: bv32)
    ensures Xor(Xor(x, k), k) == x && Xor(k, Xor(k, x)) == x
  {
  }

  lemma XorCancels(a: bv32, b: bv32, k: bv32)
    requires Xor(a, k) == Xor(b, k)
    ensures a == b
  {
    hide *;
    XorUndoes(a, k);
    XorUndoes(b, k);
  }

  lemma HalfLinear(a: bv32, b: bv32)
    ensures Half(Xor(a, b)) == Xor(Half(a), Half(b))
  {
  }

  lemma OddLinear(a: bv32, b: bv32)
    ensures Odd(Xor(a, b)) <==> Odd(a) != Odd(b)
  {
  }

  lemma SplitLow(w: bv32)
    ensures w == Xor(w & 1, Half(w) << 1)
  {
  }

  lemma SplitByte(c: bv32, u: bv32)
    requires u <= 0xFF
    ensures Xor(c, u) == Xor(Xor(c, u) & 0xFF, (c >> 8) << 8)
    ensures c >> 8 <= 0xFFFFFF
  {
  }

  // ---------- Linearity ----------

  lemma ShiftLinear(a: bv32, b: bv32)
    ensures Shift(Xor(a, b)) == Xor(Shift(a), Shift(b))
  {
    hide Xor, Half, Odd;
    var x, y := Half(a), Half(b);
    HalfLinear(a, b);
    OddLinear(a, b);
    XorAssociates(POLYNOMIAL, x, y);
    if Odd(b) {
      XorCommutes(POLYNOMIAL, y);
      XorAssociates(x, y, POLYNOMIAL);
      XorCommutes(Xor(x, y), POLYNOMIAL);
      if Odd(a) {
        XorAssociates(POLYNOMIAL, x, Xor(POLYNOMIAL, y));
        XorUndoes(Xor(x, y), POLYNOMIAL);
      }
    }
  }

  lemma {:induction false} ShiftsLinear(a: bv32, b: bv32, n: nat)
    ensures Shifts(Xor(a, b), n) == Xor(Shifts(a, n), Shifts(b, n))
    decreases n
  {
    hide Shift, Xor;
    if n > 0 {
      ShiftLinear(a, b);
      ShiftsLinear(Shift(a), Shift(b), n - 1);
    }
  }

  lemma {:induction false} ShiftsCompose(c: bv32, m: nat, n: nat)
    ensures Shifts(Shifts(c, m), n) == Shifts(c, m + n)
    decreases m
  {
    hide Shift;
    if m > 0 {
      ShiftsCompose(Shift(c), m - 1, n);
    }
  }

  // ---------- Injectivity ----------

  predicate Top(c: bv32) {
    c >> 31 == 1
  }

  function Grown(c: bv32, low: bv32): bv32 {
    (c << 1) | low
  }

  /** The polynomial's top bit tells whether a one was shifted out, so the step can be undone. */
  function Unshift(c: bv32): bv32 {
    if Top(c) then Grown(Xor(POLYNOMIAL, c), 1) else Grown(c, 0)
  }

  lemma TopBit(c: bv32)
    ensures !Top(Half(c)) && Top(Xor(POLYNOMIAL, Half(c)))
    ensures Odd(c) ==> Grown(Half(c), 1) == c
    ensures !Odd(c) ==> Grown(Half(c), 0) == c
  {
  }

  lemma UnshiftShift(c: bv32)
    ensures Unshift(Shift(c)) == c
  {
    hide Xor, Half, Odd, Top, Grown;
    TopBit(c);
    XorUndoes(Half(c), POLYNOMIAL);
  }

  lemma {:induction false} ShiftsInjective(a: bv32, b: bv32, n: nat)
    requires Shifts(a, n) == Shifts(b, n)
    ensures a == b
    decreases n
  {
    hide Shift, Unshift;
    if n > 0 {
      ShiftsInjective(Shift(a), Shift(b), n - 1);
      UnshiftShift(a);
      UnshiftShift(b);
    }
  }

  // ---------- A byte at once ----------

  function Drop(w: bv32, n: nat): bv32
    decreases n
  {
    if n == 0 then w else Drop(Half(w), n - 1)
  }

  lemma ShiftSplits(c: bv32, w: bv32)
    ensures Shift(Xor(c, w)) == Xor(Shift(Xor(c, w & 1)), Half(w))
  {
    hide *;
    var low, even := w & 1, Half(w) << 1;
    SplitLow(w);
    HalfSmall(w);
    ShiftOut(Half(w));
    XorAssociates(c, low, even);
    ShiftLinear(Xor(c, low), even);
  }

  lemma HalfSmall(w: bv32)
    ensures Half(w) <= 0x7FFFFFFF
  {
  }

  lemma ShiftOut(v: bv32)
    requires v <= 0x7FFFFFFF
    ensures Shift(v << 1) == v
  {
    assert !Odd(v << 1) && Half(v << 1) == v;
  }

  /** Feeding bits one by one and folding them all in first come to the same. */
  lemma {:induction false} SerialIsShifts(c: bv32, w: bv32, n: nat)
    ensures Shifts(Xor(c, w), n) == Xor(BitSerial(c, w, n), Drop(w, n))
    decreases n
  {
    hide Shift, Xor, Half;
    if n > 0 {
      ShiftSplits(c, w);
      SerialIsShifts(Shift(Xor(c, w & 1)), Half(w), n - 1);
    }
  }

  lemma DropByte(w: bv32)
    requires w <= 0xFF
    ensures Drop(w, 8) == 0
  {
    assert Drop(w, 8) == w >> 1 >> 1 >> 1 >> 1 >> 1 >> 1 >> 1 >> 1;
  }

  lemma ByteIsShifts(c: bv32, b: bv8)
    ensures BitSerial(c, b as bv32, 8) == Shifts(Xor(c, b as bv32), 8)
  {
    var w := b as bv32;
    assert w <= 0xFF;
    ByteIsShiftsWord(c, w);
  }

  lemma ByteIsShiftsWord(c: bv32, w: bv32)
    requires w <= 0xFF
    ensures BitSerial(c, w, 8) == Shifts(Xor(c, w), 8)
  {
    hide *;
    SerialIsShifts(c, w, 8);
    DropByte(w);
    XorZero(BitSerial(c, w, 8));
  }

  function Up(v: bv32, n: nat): bv32
    decreases n
  {
    if n == 0 then v else Up(v, n - 1) << 1
  }

  lemma UpByte(v: bv32)
    requires v <= 0xFFFFFF
    ensures Up(v, 8) == v << 8
    ensures Up(v, 7) <= 0x7FFFFFFF && Up(v, 6) <= 0x7FFFFFFF && Up(v, 5) <= 0x7FFFFFFF && Up(v, 4) <= 0x7FFFFFFF
    ensures Up(v, 3) <= 0x7FFFFFFF && Up(v, 2) <= 0x7FFFFFFF && Up(v, 1) <= 0x7FFFFFFF && Up(v, 0) <= 0x7FFFFFFF
  {
  }

  lemma {:induction false} ShiftsUp(v: bv32, n: nat)
    requires forall i :: 0 <= i < n ==> Up(v, i) <= 0x7FFFFFFF
    ensures Shifts(Up(v, n), n) == v
  {
    hide Shift;
    if n > 0 {
      assert Up(v, n - 1) <= 0x7FFFFFFF;
      ShiftOut(Up(v, n - 1));
      ShiftsUp(v, n - 1);
    }
  }

  lemma ShiftOutByte(v: bv32)
    requires v <= 0xFFFFFF
    ensures Shifts(v << 8, 8) == v
  {
    hide *;
    UpByte(v);
    ShiftsUp(v, 8);
  }

  /** The table step of UpdateCrc32 is eight steps of the register. */
  lemma TableStep(c: bv32, u: bv32)
    requires u <= 0xFF
    ensures Xor(Shifts(Xor(c, u) & 0xFF, 8), c >> 8) == Shifts(Xor(c, u), 8)
  {
    hide *;
    SplitByte(c, u);
    ShiftsLinear(Xor(c, u) & 0xFF, (c >> 8) << 8, 8);
    ShiftOutByte(c >> 8);
  }

  // ---------- Whole messages ----------

  lemma {:induction false} RegisterConcat(c: bv32, a: seq<bv8>, b: seq<bv8>)
    ensures Register(c, a + b) == Register(Register(c, a), b)
    decreases |a|
  {
    hide BitSerial;
    if a == [] {
      assert a + b == b;
    } else {
      RegisterConcat(BitSerial(c, a[0] as bv32, 8), a[1..], b);
      assert (a + b)[1..] == a[1..] + b;
    }
  }

  lemma {:induction false} RegisterInjective(c: bv32, d: bv32, message: seq<bv8>)
    requires Register(c, message) == Register(d, message)
    ensures c == d
    decreases |message|
  {
    hide BitSerial, Xor, Shifts;
    if message != [] {
      var b := message[0];
      RegisterInjective(BitSerial(c, b as bv32, 8), BitSerial(d, b as bv32, 8), message[1..]);
      ByteIsShifts(c, b);
      ByteIsShifts(d, b);
      ShiftsInjective(Xor(c, b as bv32), Xor(d, b as bv32), 8);
      XorCancels(c, d, b as bv32);
    }
  }

  /** Updating with `a` and then with `b` is updating once with `a` followed by `b`. */
  lemma CrcConcat(start: bv32, a: seq<bv8>, b: seq<bv8>)
    ensures Crc(Crc(start, a), b) == Crc(start, a + b)
  {
    hide Xor, Register;
    var c := Register(Xor(start, ONES), a);
    XorUndoes(c, ONES);
    RegisterConcat(Xor(start, ONES), a, b);
  }

  // ---------- Bursts of up to four bytes ----------

  /** Four bytes as the little-endian word they form. */
  function Word(a: bv8, b: bv8, c: bv8, d: bv8): bv32 {
    Xor(Xor(Xor(a as bv32, b as bv32 << 8), c as bv32 << 16), d as bv32 << 24)
  }

  lemma WordBytes(a: bv8, b: bv8, c: bv8, d: bv8)
    ensures var x := Word(a, b, c, d);
            && x & 0xFF == a as bv32 && (x >> 8) & 0xFF == b as bv32
            && (x >> 16) & 0xFF == c as bv32 && x >> 24 == d as bv32
  {
  }

  lemma WordInjective(v: seq<bv8>, w: seq<bv8>)
    requires |v| == |w| == 4 && Word(v[0], v[1], v[2], v[3]) == Word(w[0], w[1], w[2], w[3])
    ensures v == w
  {
    hide Word;
    WordBytes(v[0], v[1], v[2], v[3]);
    WordBytes(w[0], w[1], w[2], w[3]);
  }

  /** A byte entering after `8 * k` steps might as well have entered at the start, `k` bytes up. */
  lemma FoldByte(x: bv32, up: bv32, b: bv32, n: nat)
    requires Shifts(up, n) == b
    ensures Shifts(Xor(Shifts(x, n), b), 8) == Shifts(Xor(x, up), n + 8)
  {
    hide *;
    ShiftsLinear(x, up, n);
    ShiftsCompose(Xor(x, up), n, 8);
  }

  lemma PlacedBytes(b: bv32)
    requires b <= 0xFF
    ensures b << 8 <= 0xFFFFFF && b << 16 <= 0xFFFFFF && (b << 8) << 8 == b << 16 && (b << 16) << 8 == b << 24
    ensures b <= 0xFFFFFF
  {
  }

  lemma ShiftOutMore(b: bv32)
    requires b <= 0xFF
    ensures Shifts(b << 8, 8) == b && Shifts(b << 16, 16) == b && Shifts(b << 24, 24) == b
  {
    hide *;
    PlacedBytes(b);
    ShiftOutByte(b);
    ShiftOutByte(b << 8);
    ShiftOutByte(b << 16);
    ShiftsCompose(b << 16, 8, 8);
    ShiftsCompose(b << 24, 8, 16);
  }

  lemma RegisterFour(c: bv32, w: seq<bv8>)
    requires |w| == 4
    ensures Register(c, w) ==
            BitSerial(BitSerial(BitSerial(BitSerial(c, w[0] as bv32, 8), w[1] as bv32, 8), w[2] as bv32, 8),
                      w[3] as bv32, 8)
  {
    hide BitSerial, Register;
    var s1 := BitSerial(c, w[0] as bv32, 8);
    var s2 := BitSerial(s1, w[1] as bv32, 8);
    var s3 := BitSerial(s2, w[2] as bv32, 8);
    assert w[1..][1..] == w[2..] && w[2..][1..] == w[3..] && w[3..][1..] == [];
    RegisterStep(c, w);
    RegisterStep(s1, w[1..]);
    RegisterStep(s2, w[2..]);
    RegisterStep(s3, w[3..]);
    RegisterStep(BitSerial(s3, w[3] as bv32, 8), []);
  }

  lemma RegisterStep(c: bv32, w: seq<bv8>)
    ensures Register(c, w) == if w == [] then c else Register(BitSerial(c, w[0] as bv32, 8), w[1..])
  {
    hide BitSerial;
  }

  /** Four bytes act on the register through their word alone. */
  lemma FourBytes(c: bv32, w: seq<bv8>)
    requires |w| == 4
    ensures Register(c, w) == Shifts(Xor(c, Word(w[0], w[1], w[2], w[3])), 32)
  {
    hide *;
    RegisterFour(c, w);
    FourWords(c, w[0], w[1], w[2], w[3]);
  }

  lemma XorRegroup(c: bv32, p: bv32, q: bv32, r: bv32, t: bv32)
    ensures Xor(Xor(Xor(Xor(c, p), q), r), t) == Xor(c, Xor(Xor(Xor(p, q), r), t))
  {
    hide *;
    XorAssociates(c, p, q);
    XorAssociates(c, Xor(p, q), r);
    XorAssociates(c, Xor(Xor(p, q), r), t);
  }

  lemma FourWords(c: bv32, a0: bv8, a1: bv8, a2: bv8, a3: bv8)
    ensures BitSerial(BitSerial(BitSerial(BitSerial(c, a0 as bv32, 8), a1 as bv32, 8), a2 as bv32, 8), a3 as bv32, 8) ==
            Shifts(Xor(c, Word(a0, a1, a2, a3)), 32)
  {
    hide Xor, Shifts, Shift, BitSerial;
    XorRegroup(c, a0 as bv32, a1 as bv32 << 8, a2 as bv32 << 16, a3 as bv32 << 24);
    var b0, b1, b2, b3 := a0 as bv32, a1 as bv32, a2 as bv32, a3 as bv32;
    var x0 := Xor(c, b0);
    var x1 := Xor(x0, b1 << 8);
    var x2 := Xor(x1, b2 << 16);
    ByteIsShifts(c, a0);
    ByteIsShifts(Shifts(x0, 8), a1);
    ByteIsShifts(Shifts(x1, 16), a2);
    ByteIsShifts(Shifts(x2, 24), a3);
    ShiftOutMore(b1);
    ShiftOutMore(b2);
    ShiftOutMore(b3);
    FoldByte(x0, b1 << 8, b1, 8);
    FoldByte(x1, b2 << 16, b2, 16);
    FoldByte(x2, b3 << 24, b3, 24);
  }

  lemma BurstOfFour(c: bv32, v: seq<bv8>, w: seq<bv8>)
    requires |v| == |w| == 4 && Register(c, v) == Register(c, w)
    ensures v == w
  {
    hide *;
    FourBytes(c, v);
    FourBytes(c, w);
    var x, y := Word(v[0], v[1], v[2], v[3]), Word(w[0], w[1], w[2], w[3]);
    ShiftsInjective(Xor(c, x), Xor(c, y), 32);
    XorCommutes(c, x);
    XorCommutes(c, y);
    XorCancels(x, y, c);
    WordInjective(v, w);
  }

  lemma BurstRegister(c: bv32, v: seq<bv8>, w: seq<bv8>)
    requires |v| == |w| <= 4 && Register(c, v) == Register(c, w)
    ensures v == w
  {
    hide *;
    var pad := seq(4 - |v|, _ => 0 as bv8);
    RegisterConcat(c, v, pad);
    RegisterConcat(c, w, pad);
    BurstOfFour(c, v + pad, w + pad);
    assert v == (v + pad)[..|v|] && w == (w + pad)[..|w|];
  }

  /** Two messages that differ, and differ only within four consecutive bytes, have different
      checksums - whatever surrounds the difference and whatever the start value. */
  lemma BurstDetected(start: bv32, before: seq<bv8>, v: seq<bv8>, w: seq<bv8>, after: seq<bv8>)
    requires |v| == |w| <= 4 && v != w
    ensures Crc(start, before + v + after) != Crc(start, before + w + after)
  {
    hide Xor, Register;
    var c := Xor(start, ONES);
    var r := Register(c, before);
    RegisterConcat(c, before + v, after);
    RegisterConcat(c, before, v);
    RegisterConcat(c, before + w, after);
    RegisterConcat(c, before, w);
    if Crc(start, before + v + after) == Crc(start, before + w + after) {
      XorCancels(Register(c, before + v + after), Register(c, before + w + after), ONES);
      RegisterInjective(Register(r, v), Register(r, w), after);
      BurstRegister(r, v, w);
    }
  }

  // ---------- Division of polynomials ----------

  /** The exponents of x^32+x^26+x^23+x^22+x^16+x^12+x^11+x^10+x^8+x^7+x^5+x^4+x^2+x+1 below 32. */
  const GENERATOR: set<nat> := {0, 1, 2, 4, 5, 7, 8, 10, 11, 12, 16, 22, 23, 26}

  /** A remainder: the coefficient of x^k at index k. */
  type Remainder = r: seq<bool> | |r| == 32 witness seq(32, _ => false)

  /** One more coefficient of the dividend: multiply by x, bring it in at x^32, and reduce. */
  function DivideBit(r: Remainder, bit: bool): Remainder {
    var top := r[31] != bit;
    seq(32, k requires 0 <= k < 32 => (k > 0 && r[k - 1]) != (top && k in GENERATOR))
  }

  function Divide(r: Remainder, bits: seq<bool>): Remainder
    decreases |bits|
  {
    if bits == [] then r else Divide(DivideBit(r, bits[0]), bits[1..])
  }

  function Flip(r: Remainder): Remainder {
    seq(32, k requires 0 <= k < 32 => !r[k])
  }

  /** A register holds the coefficients in reverse, and a message gives its low bits first. */
  predicate Bit(c: bv32, i: nat)
    decreases i
  {
    if i == 0 then Odd(c) else Bit(Half(c), i - 1)
  }

  function Coefficients(c: bv32): Remainder {
    seq(32, k requires 0 <= k < 32 => Bit(c, 31 - k))
  }

  function LowBits(w: bv32, n: nat): (r: seq<bool>)
    ensures |r| == n
    decreases n
  {
    if n == 0 then [] else [Odd(w)] + LowBits(Half(w), n - 1)
  }

  function MessageBits(message: seq<bv8>): seq<bool> {
    if message == [] then [] else LowBits(message[0] as bv32, 8) + MessageBits(message[1..])
  }

  lemma {:induction false} BitXor(a: bv32, b: bv32, i: nat)
    ensures Bit(Xor(a, b), i) <==> Bit(a, i) != Bit(b, i)
    decreases i
  {
    hide Xor, Half, Odd;
    OddLinear(a, b);
    HalfLinear(a, b);
    if i > 0 {
      BitXor(Half(a), Half(b), i - 1);
    }
  }

  lemma {:induction false} BitOfDrop(c: bv32, i: nat)
    ensures Bit(c, i) <==> Odd(Drop(c, i))
    decreases i
  {
    hide Odd, Half;
    if i > 0 {
      BitOfDrop(Half(c), i - 1);
    }
  }

  lemma {:induction false} DropCompose(w: bv32, m: nat, n: nat)
    ensures Drop(Drop(w, m), n) == Drop(w, m + n)
    decreases m
  {
    hide Half;
    if m > 0 {
      DropCompose(Half(w), m - 1, n);
    }
  }

  /** Without the low byte. */
  function Down(w: bv32): bv32 {
    w >> 8
  }

  lemma DownDrops(w: bv32)
    ensures Drop(w, 8) == Down(w)
  {
    assert Drop(w, 8) == w >> 1 >> 1 >> 1 >> 1 >> 1 >> 1 >> 1 >> 1;
  }

  lemma DownBit(w: bv32, i: nat)
    ensures Bit(w, 8 + i) <==> Bit(Down(w), i)
  {
    hide Odd, Half, Drop, Down, Bit;
    BitOfDrop(w, 8 + i);
    DropCompose(w, 8, i);
    DownDrops(w);
    BitOfDrop(Down(w), i);
  }

  lemma AllDown(w: bv32)
    ensures Down(Down(Down(Down(w)))) == 0 && !Bit(0, 0)
  {
  }

  /** There is nothing above the 32 bits. */
  lemma NoBitAbove(c: bv32)
    ensures !Bit(c, 32)
  {
    hide Down, Bit;
    DownBit(c, 24);
    DownBit(Down(c), 16);
    DownBit(Down(Down(c)), 8);
    DownBit(Down(Down(Down(c))), 0);
    AllDown(c);
  }

  lemma PolynomialBytes()
    ensures POLYNOMIAL == 0xEDB88320 && Down(POLYNOMIAL) == 0xEDB883
    ensures Down(0xEDB883) == 0xEDB8 && Down(0xEDB8) == 0xED
    ensures !Bit(0xedb88320, 0) && !Bit(0xedb88320, 1) && !Bit(0xedb88320, 2) && !Bit(0xedb88320, 3)
    ensures !Bit(0xedb88320, 4) && Bit(0xedb88320, 5) && !Bit(0xedb88320, 6) && !Bit(0xedb88320, 7)
    ensures Bit(0xedb883, 0) && Bit(0xedb883, 1) && !Bit(0xedb883, 2) && !Bit(0xedb883, 3)
    ensures !Bit(0xedb883, 4) && !Bit(0xedb883, 5) && !Bit(0xedb883, 6) && Bit(0xedb883, 7)
    ensures !Bit(0xedb8, 0) && !Bit(0xedb8, 1) && !Bit(0xedb8, 2) && Bit(0xedb8, 3)
    ensures Bit(0xedb8, 4) && Bit(0xedb8, 5) && !Bit(0xedb8, 6) && Bit(0xedb8, 7)
    ensures Bit(0xed, 0) && !Bit(0xed, 1) && Bit(0xed, 2) && Bit(0xed, 3)
    ensures !Bit(0xed, 4) && Bit(0xed, 5) && Bit(0xed, 6) && Bit(0xed, 7)
  {
  }

  lemma GeneratorBits()
    ensures forall i :: 0 <= i < 32 ==> (Bit(POLYNOMIAL, i) <==> (31 - i) in GENERATOR)
  {
    PolynomialBytes();
    hide Bit, Down;
    forall i | 0 <= i < 32
      ensures Bit(POLYNOMIAL, i) <==> (31 - i) in GENERATOR
    {
      if i >= 8 {
        DownBit(POLYNOMIAL, i - 8);
        if i >= 16 {
          DownBit(Down(POLYNOMIAL), i - 16);
          if i >= 24 {
            DownBit(Down(Down(POLYNOMIAL)), i - 24);
          }
        }
      }
    }
  }

  lemma NoBits(i: nat)
    ensures !Bit(0, i)
    decreases i
  {
    assert Half(0) == 0 && !Odd(0);
    if i > 0 {
      NoBits(i - 1);
    }
  }

  lemma OnesBytes()
    ensures ONES == 0xFFFFFFFF && Down(ONES) == 0xFFFFFF && Down(0xFFFFFF) == 0xFFFF && Down(0xFFFF) == 0xFF
    ensures Bit(0xffffffff, 0) && Bit(0xffffffff, 1) && Bit(0xffffffff, 2) && Bit(0xffffffff, 3)
    ensures Bit(0xffffffff, 4) && Bit(0xffffffff, 5) && Bit(0xffffffff, 6) && Bit(0xffffffff, 7)
    ensures Bit(0xffffff, 0) && Bit(0xffffff, 1) && Bit(0xffffff, 2) && Bit(0xffffff, 3)
    ensures Bit(0xffffff, 4) && Bit(0xffffff, 5) && Bit(0xffffff, 6) && Bit(0xffffff, 7)
    ensures Bit(0xffff, 0) && Bit(0xffff, 1) && Bit(0xffff, 2) && Bit(0xffff, 3)
    ensures Bit(0xffff, 4) && Bit(0xffff, 5) && Bit(0xffff, 6) && Bit(0xffff, 7)
    ensures Bit(0xff, 0) && Bit(0xff, 1) && Bit(0xff, 2) && Bit(0xff, 3)
    ensures Bit(0xff, 4) && Bit(0xff, 5) && Bit(0xff, 6) && Bit(0xff, 7)
  {
  }

  lemma AllBits()
    ensures forall i :: 0 <= i < 32 ==> Bit(ONES, i)
  {
    OnesBytes();
    hide Bit, Down;
    forall i | 0 <= i < 32
      ensures Bit(ONES, i)
    {
      if i >= 8 {
        DownBit(ONES, i - 8);
        if i >= 16 {
          DownBit(Down(ONES), i - 16);
          if i >= 24 {
            DownBit(Down(Down(ONES)), i - 24);
          }
        }
      }
    }
  }

  /** The register step is the step of the division. */
  lemma ShiftDivides(c: bv32)
    ensures Coefficients(Shift(c)) == DivideBit(Coefficients(c), false)
  {
    hide Xor, Half, Odd, Bit;
    GeneratorBits();
    NoBitAbove(c);
    var r, d := Coefficients(Shift(c)), DivideBit(Coefficients(c), false);
    LowestBit(c);
    forall k | 0 <= k < 32
      ensures r[k] == d[k]
    {
      ShiftBit(c, 31 - k);
    }
  }

  lemma LowestBit(c: bv32)
    ensures Bit(c, 0) <==> Odd(c)
  {
  }

  lemma ShiftBit(c: bv32, i: nat)
    ensures Bit(Shift(c), i) <==> Bit(c, i + 1) != (Odd(c) && Bit(POLYNOMIAL, i))
  {
    hide Xor, Odd;
    assert Bit(c, i + 1) == Bit(Half(c), i);
    hide Half, Bit;
    BitXor(POLYNOMIAL, Half(c), i);
  }

  lemma LowOnly(w: bv32, i: nat)
    ensures Bit(w & 1, i) <==> i == 0 && Odd(w)
  {
    assert Half(w & 1) == 0 && (Odd(w & 1) <==> Odd(w));
    if i > 0 {
      NoBits(i - 1);
    }
  }

  /** A message bit comes in at the top of the remainder. */
  lemma FeedDivides(c: bv32, w: bv32)
    ensures Coefficients(Shift(Xor(c, w & 1))) == DivideBit(Coefficients(c), Odd(w))
  {
    hide Xor, Half, Odd, Bit, Shift;
    ShiftDivides(Xor(c, w & 1));
    var r, d := Coefficients(Xor(c, w & 1)), Coefficients(c);
    forall k | 0 <= k < 32
      ensures r[k] == (d[k] != (k == 31 && Odd(w)))
    {
      BitXor(c, w & 1, 31 - k);
      LowOnly(w, 31 - k);
    }
  }

  lemma {:induction false} SerialDivides(c: bv32, w: bv32, n: nat)
    ensures Coefficients(BitSerial(c, w, n)) == Divide(Coefficients(c), LowBits(w, n))
    decreases n
  {
    hide Xor, Half, Odd, Bit, Shift, Coefficients, DivideBit;
    if n > 0 {
      FeedDivides(c, w);
      SerialDivides(Shift(Xor(c, w & 1)), Half(w), n - 1);
      assert LowBits(w, n)[1..] == LowBits(Half(w), n - 1);
    }
  }

  lemma {:induction false} DivideConcat(r: Remainder, a: seq<bool>, b: seq<bool>)
    ensures Divide(r, a + b) == Divide(Divide(r, a), b)
    decreases |a|
  {
    hide DivideBit;
    if a == [] {
      assert a + b == b;
    } else {
      DivideConcat(DivideBit(r, a[0]), a[1..], b);
      assert (a + b)[1..] == a[1..] + b;
    }
  }

  lemma {:induction false} RegisterDivides(c: bv32, message: seq<bv8>)
    ensures Coefficients(Register(c, message)) == Divide(Coefficients(c), MessageBits(message))
    decreases |message|
  {
    hide BitSerial, Coefficients, DivideBit, LowBits;
    if message != [] {
      var w := message[0] as bv32;
      SerialDivides(c, w, 8);
      RegisterDivides(BitSerial(c, w, 8), message[1..]);
      DivideConcat(Coefficients(c), LowBits(w, 8), MessageBits(message[1..]));
    }
  }

  lemma OnesFlip(c: bv32)
    ensures Coefficients(Xor(c, ONES)) == Flip(Coefficients(c))
  {
    hide Xor, Bit;
    AllBits();
    var r, d := Coefficients(Xor(c, ONES)), Flip(Coefficients(c));
    forall k | 0 <= k < 32
      ensures r[k] == d[k]
    {
      BitXor(c, ONES, 31 - k);
    }
  }

  /** The CRC is the remainder of dividing the message by the generator, with the start value and the
      result complemented (section 8 of RFC 1952). */
  lemma CrcDivides(start: bv32, message: seq<bv8>)
    ensures Coefficients(Crc(start, message)) ==
            Flip(Divide(Flip(Coefficients(start)), MessageBits(message)))
  {
    hide Xor, Coefficients, Flip, Register, Divide;
    OnesFlip(start);
    RegisterDivides(Xor(start, ONES), message);
    OnesFlip(Register(Xor(start, ONES), message));
  }

  lemma RegisterFront(c: bv32, b: bv8, rest: seq<bv8>)
    ensures Register(c, [b] + rest) == Register(BitSerial(c, b as bv32, 8), rest)
  {
    hide BitSerial;
    assert ([b] + rest)[1..] == rest;
  }

  lemma CheckRegisters1()
    ensures BitSerial(0xffffffff, 0x31, 8) == 0x7c231048
    ensures BitSerial(0x7c231048, 0x32, 8) == 0xb0acbb32
    ensures BitSerial(0xb0acbb32, 0x33, 8) == 0x77b79c2d
  {
  }

  lemma CheckRegisters2()
    ensures BitSerial(0x77b79c2d, 0x34, 8) == 0x641c1f5c
    ensures BitSerial(0x641c1f5c, 0x35, 8) == 0x340ac5e3
    ensures BitSerial(0x340ac5e3, 0x36, 8) == 0xf68d2c9e
  {
  }

  lemma CheckRegisters3()
    ensures BitSerial(0xf68d2c9e, 0x37, 8) == 0xaffc9660
    ensures BitSerial(0xaffc9660, 0x38, 8) == 0x651f2550
    ensures BitSerial(0x651f2550, 0x39, 8) == 0x340bc6d9
  {
  }

  lemma CheckComplement()
    ensures Xor(0, ONES) == 0xFFFFFFFF && Xor(0x340bc6d9, ONES) == 0xCBF43926
  {
  }

  lemma RegisterNothing(c: bv32)
    ensures Register(c, []) == c
  {
  }

  /** The well-known check value: "123456789" in ASCII. */
  lemma CheckValue()
    ensures Crc(0, [0x31, 0x32, 0x33, 0x34, 0x35, 0x36, 0x37, 0x38, 0x39]) == 0xCBF43926
  {
    hide Register, BitSerial, Xor;
    CheckRegisters1();
    CheckRegisters2();
    CheckRegisters3();
    CheckComplement();
    RegisterNothing(0x340bc6d9);
    var m: seq<bv8> := [];
    RegisterFront(0x651f2550, 0x39, m);
    m := [0x39] + m;
    RegisterFront(0xaffc9660, 0x38, m);
    m := [0x38] + m;
    RegisterFront(0xf68d2c9e, 0x37, m);
    m := [0x37] + m;
    RegisterFront(0x340ac5e3, 0x36, m);
    m := [0x36] + m;
    RegisterFront(0x641c1f5c, 0x35, m);
    m := [0x35] + m;
    RegisterFront(0x77b79c2d, 0x34, m);
    m := [0x34] + m;
    RegisterFront(0xb0acbb32, 0x33, m);
    m := [0x33] + m;
    RegisterFront(0x7c231048, 0x32, m);
    m := [0x32] + m;
    RegisterFront(0xffffffff, 0x31, m);
    m := [0x31] + m;
    assert m == [0x31, 0x32, 0x33, 0x34, 0x35, 0x36, 0x37, 0x38, 0x39];
  }

  // ---------- The code ----------

  function TableEntry(i: nat): bv32
    requires i < 256
  {
    Shifts(i as bv32, 8)
  }

  class Crc32 {
    const table: array<bv32>   // kCrc32Table

    ghost predicate Untouched()
      reads table
    {
      forall i :: 0 <= i < table.Length ==> table[i] == 0
    }

    ghost predicate Filled()
      reads table
    {
      table.Length == 256 && forall i :: 0 <= i < 256 ==> table[i] == TableEntry(i)
    }

    /** The table is always either all zero or fully correct. */
    ghost predicate Valid()
      reads table
    {
      table.Length == 256 && (Untouched() || Filled())
    }

    constructor ()
      ensures Valid() && Untouched() && fresh(table)
    {
      table := new bv32[256](_ => 0);
      new;
      hide TableEntry;
    }

    /** EnsureCrc32TableInited: the last entry tells whether the table has been built. */
    method EnsureTableInited()
      requires Valid()
      modifies table
      ensures Valid() && Filled()
      ensures old(Filled()) ==> table[..] == old(table[..])
    {
      hide TableEntry;
      LastEntryNonZero();
      if table[255] != 0 {
        return;
      }
      for i := 0 to 256
        invariant forall k :: 0 <= k < i ==> table[k] == TableEntry(k)
        invariant old(Untouched())
      {
        var c := MakeEntry(i);
        table[i] := c;
      }
    }

    method MakeEntry(i: nat) returns (c: bv32)
      requires i < 256
      ensures c == TableEntry(i)
    {
      hide Shift;
      c := i as bv32;
      for j := 0 to 8
        invariant Shifts(c, 8 - j) == TableEntry(i)
      {
        c := DivideStep(c);
      }
    }

    method DivideStep(c: bv32) returns (r: bv32)
      ensures r == Shift(c)
    {
      if c & 1 != 0 {
        r := POLYNOMIAL ^ (c >> 1);
      } else {
        r := c >> 1;
      }
      LowBit(c);
    }

    /** UpdateCrc32 computes the bit-serial CRC of the buffer, on every input. */
    method UpdateCrc32(start: bv32, buf: seq<bv8>) returns (crc: bv32)
      requires Valid()
      modifies table
      ensures Valid() && Filled()
      ensures crc == Crc(start, buf)
      ensures Coefficients(crc) == Flip(Divide(Flip(Coefficients(start)), MessageBits(buf)))
    {
      hide Xor, BitSerial, TableEntry, Coefficients, Flip, Divide, MessageBits;
      EnsureTableInited();
      var c := Xor(start, ONES);
      for i := 0 to |buf|
        invariant Filled()
        invariant Register(c, buf[i..]) == Register(Xor(start, ONES), buf)
      {
        c := Update(c, buf[i]);
        assert buf[i..][1..] == buf[i + 1..];
      }
      crc := Xor(c, ONES);
      CrcDivides(start, buf);
    }

    /** One table look-up, `kCrc32Table[(c ^ u) & 0xFF] ^ (c >> 8)`. */
    method Update(c: bv32, u: bv8) returns (r: bv32)
      requires Filled()
      ensures r == BitSerial(c, u as bv32, 8)
    {
      hide Xor, BitSerial, Shifts;
      var index := Xor(c, u as bv32) & 0xFF;
      ByteIndex(index);
      r := Xor(table[index as int], c >> 8);
      assert table[index as int] == TableEntry(index as int) == Shifts(index, 8);
      ByteIsShifts(c, u);
      TableStep(c, u as bv32);
    }
  }

  lemma LowBit(c: bv32)
    ensures c & 1 == 0 || c & 1 == 1
  {
  }

  lemma ByteIndex(x: bv32)
    requires x <= 0xFF
    ensures x as int < 256 && (x as int) as bv32 == x
  {
  }

  lemma LastEntryNonZero()
    ensures TableEntry(255) != 0
  {
    assert Shift(0) == 0;
    assert Shifts(0, 8) == 0;
    if TableEntry(255) == 0 {
      ShiftsInjective(255 as bv32, 0, 8);
    }
  }
}
