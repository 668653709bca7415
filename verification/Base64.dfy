/** Base64 of base64.cc (section 4 of RFC 4648): the encoder and the flag-driven decoder. */
module Base64 {
  import opened Sequences

  type Byte = x: nat | x < 256
  type Sextet = x: nat | x < 64

  const PAD := '='

  datatype Parse = ParseStrict | ParseWhite | ParseAny
  datatype Padding = PadYes | PadAny | PadNo
  datatype Term = TermBuffer | TermChar | TermAny

  // ---------- The two tables ----------

  /** Base64Table */
  function Letter(v: Sextet): char {
    if v < 26 then 'A' + v as char
    else if v < 52 then 'a' + (v - 26) as char
    else if v < 62 then '0' + (v - 52) as char
    else if v == 62 then '+' else '/'
  }

  datatype Class = Value(v: Sextet) | Pad | Space | Illegal

  /** DecodeTable */
  function Classify(c: char): Class {
    if 'A' <= c <= 'Z' then Value((c - 'A') as int)
    else if 'a' <= c <= 'z' then Value((c - 'a') as int + 26)
    else if '0' <= c <= '9' then Value((c - '0') as int + 52)
    else if c == '+' then Value(62)
    else if c == '/' then Value(63)
    else if c == PAD then Pad
    else if c == ' ' || '\t' <= c <= '\r' then Space
    else Illegal
  }

  const UPPER := "ABCDEFGHIJKLMNOPQRSTUVWXYZ"
  const LOWER := "abcdefghijklmnopqrstuvwxyz"
  const OTHERS := "0123456789+/"

  /** The alphabet of section 4 of RFC 4648. */
  function Alphabet(): string {
    UPPER + LOWER + OTHERS
  }

  lemma Lengths()
    ensures |UPPER| == |LOWER| == 26 && |OTHERS| == 12
  {
  }

  lemma UpperIs(i: nat)
    requires i < 26
    ensures UPPER[i] == 'A' + i as char
  {
  }

  lemma LowerIs(i: nat)
    requires i < 26
    ensures LOWER[i] == 'a' + i as char
  {
  }

  lemma OthersAre(i: nat)
    requires i < 12
    ensures OTHERS[i] == if i < 10 then '0' + i as char else if i == 10 then '+' else '/'
  {
  }

  lemma LetterIs(v: Sextet)
    ensures |Alphabet()| == 64 && Letter(v) == Alphabet()[v]
  {
    Lengths();
    if v < 26 {
      UpperIs(v);
    } else if v < 52 {
      LowerIs(v - 26);
    } else {
      OthersAre(v - 52);
    }
    hide *;
    assert v < 52 ==> (UPPER + LOWER + OTHERS)[v] == (UPPER + LOWER)[v];
  }

  /** What the decoder makes of each character: the place in the alphabet, the pad, the blank and the
      control characters 9 to 13, and nothing else. */
  lemma ClassifyIs(c: char)
    ensures match Classify(c)
            case Value(v) => |Alphabet()| == 64 && Alphabet()[v] == c
            case Pad => c == '='
            case Space => c == ' ' || 9 <= c as int <= 13
            case Illegal => c !in Alphabet() && c != '=' && c != ' ' && !(9 <= c as int <= 13)
  {
    if Classify(c).Value? {
      ClassBack(c);
      LetterIs(Classify(c).v);
    } else {
      NotInAlphabet(c);
    }
    hide Alphabet;
  }

  lemma NotInAlphabet(c: char)
    requires !Classify(c).Value?
    ensures c !in Alphabet()
  {
    hide Classify, Letter, Alphabet;
    LetterIs(0);
    if c in Alphabet() {
      var v :| 0 <= v < |Alphabet()| && Alphabet()[v] == c;
      LetterIs(v);
      LetterBack(v);
    }
  }

  lemma LetterBack(v: Sextet)
    ensures Classify(Letter(v)) == Value(v)
  {
  }

  lemma ClassBack(c: char)
    requires Classify(c).Value?
    ensures Letter(Classify(c).v) == c
  {
  }

  // ---------- Groups of 24 bits ----------

  function Word3(a: Byte, b: Byte, c: Byte): (w: nat)
    ensures w < 16777216
  {
    65536 * a + 256 * b + c
  }

  function Word4(p: Sextet, q: Sextet, r: Sextet, s: Sextet): (w: nat)
    ensures w < 16777216
  {
    262144 * p + 4096 * q + 64 * r + s
  }

  function Sextets(w: nat): (r: seq<Sextet>)
    requires w < 16777216
  {
    [w / 262144, w / 4096 % 64, w / 64 % 64, w % 64]
  }

  function Octets(w: nat): (r: seq<Byte>)
    requires w < 16777216
  {
    [w / 65536, w / 256 % 256, w % 256]
  }

  /** The encoding as section 4 of RFC 4648 has it: 24-bit groups as four 6-bit digits, the last
      group filled up with zero bits and pads. */
  function Encode(b: seq<Byte>): (s: string) {
    if b == [] then ""
    else if |b| == 1 then
      var q := Sextets(Word3(b[0], 0, 0));
      [Letter(q[0]), Letter(q[1]), PAD, PAD]
    else if |b| == 2 then
      var q := Sextets(Word3(b[0], b[1], 0));
      [Letter(q[0]), Letter(q[1]), Letter(q[2]), PAD]
    else
      var q := Sextets(Word3(b[0], b[1], b[2]));
      [Letter(q[0]), Letter(q[1]), Letter(q[2]), Letter(q[3])] + Encode(b[3..])
  }

  lemma DivMod(w: nat, d: nat, q: nat, r: nat)
    requires 0 < d && r < d && w == d * q + r
    ensures w / d == q && w % d == r
  {
    var e := w / d - q;
    assert d * (w / d) + w % d == w;
    Scale(d, w / d, q);
  }

  lemma Scale(d: nat, x: int, y: int)
    ensures d * x - d * y == d * (x - y)
    ensures x - y >= 1 ==> d * (x - y) >= d
    ensures x - y <= -1 ==> d * (x - y) <= 0 - d
  {
  }

  /** Shifts and masks of the encoder, as arithmetic. */
  lemma EncoderDigits(a: Byte, b: Byte, c: Byte)
    ensures Sextets(Word3(a, b, c)) == [a / 4, a % 4 * 16 + b / 16, b % 16 * 4 + c / 64, c % 64]
  {
    var w := Word3(a, b, c);
    DivMod(w, 262144, a / 4, 65536 * (a % 4) + 256 * b + c);
    DivMod(w, 4096, 16 * a + b / 16, 256 * (b % 16) + c);
    DivMod(16 * a + b / 16, 64, a / 4, a % 4 * 16 + b / 16);
    DivMod(w, 64, 1024 * a + 4 * b + c / 64, c % 64);
    DivMod(1024 * a + 4 * b + c / 64, 64, 16 * a + b / 16, b % 16 * 4 + c / 64);
  }

  lemma EncodeStep(b: seq<Byte>, i: nat)
    requires i + 3 <= |b|
    ensures Encode(b[i..]) ==
            [Letter(b[i] / 4), Letter(b[i] % 4 * 16 + b[i + 1] / 16),
             Letter(b[i + 1] % 16 * 4 + b[i + 2] / 64), Letter(b[i + 2] % 64)] + Encode(b[i + 3..])
  {
    EncoderDigits(b[i], b[i + 1], b[i + 2]);
    assert b[i..][3..] == b[i + 3..];
  }

  lemma EncodeTail(b: seq<Byte>, i: nat)
    requires i < |b| <= i + 2
    ensures Encode(b[i..]) ==
            if |b| == i + 1 then [Letter(b[i] / 4), Letter(b[i] % 4 * 16), PAD, PAD]
            else [Letter(b[i] / 4), Letter(b[i] % 4 * 16 + b[i + 1] / 16), Letter(b[i + 1] % 16 * 4), PAD]
  {
    EncoderDigits(b[i], if |b| == i + 1 then 0 else b[i + 1], 0);
  }

  lemma LowBits(x: Byte)
    ensures (x as nat) * 16 % 64 == x % 4 * 16 && (x as nat) * 4 % 64 == x % 16 * 4
  {
    DivMod((x as nat) * 16, 64, x / 4, x % 4 * 16);
    DivMod((x as nat) * 4, 64, x / 16, x % 16 * 4);
  }

  /** One round of the encoder's loop. */
  method EncodeQuantum(data: seq<Byte>, from: nat) returns (quad: string, i: nat)
    requires from < |data|
    ensures from < i <= |data|
    ensures quad + Encode(data[i..]) == Encode(data[from..])
  {
    EncodeNothing();
    LowBits(data[from]);
    if from + 1 < |data| {
      LowBits(data[from + 1]);
    }
    hide Encode, Letter;
    i := from;
    var c: nat := data[i] / 4;
    quad := [Letter(c)];
    c := (data[i] as nat) * 16 % 64;
    i := i + 1;
    if i < |data| {
      c := c + data[i] / 16;
    }
    quad := quad + [Letter(c)];
    if i < |data| {
      c := (data[i] as nat) * 4 % 64;
      i := i + 1;
      if i < |data| {
        c := c + data[i] / 64;
      }
      quad := quad + [Letter(c)];
    } else {
      quad := quad + [PAD];
    }
    if i < |data| {
      c := data[i] % 64;
      quad := quad + [Letter(c)];
      i := i + 1;
    } else {
      quad := quad + [PAD];
    }
    if from + 3 <= |data| {
      EncodeStep(data, from);
      assert quad == [Letter(data[from] / 4), Letter(data[from] % 4 * 16 + data[from + 1] / 16),
                      Letter(data[from + 1] % 16 * 4 + data[from + 2] / 64), Letter(data[from + 2] % 64)];
    } else {
      EncodeTail(data, from);
      assert data[i..] == [] && quad + "" == quad;
    }
  }

  /** EncodeFromArray computes the encoding. */
  method EncodeFromArray(data: seq<Byte>) returns (result: string)
    ensures result == Encode(data)
  {
    result := "";
    var i := 0;
    while i < |data|
      invariant 0 <= i <= |data|
      invariant result + Encode(data[i..]) == Encode(data)
    {
      var quad, next := EncodeQuantum(data, i);
      assert result + (quad + Encode(data[next..])) == result + quad + Encode(data[next..]);
      result := result + quad;
      i := next;
    }
    assert data[i..] == [];
  }

  // ---------- What decoding means ----------

  /** The sextets of the alphabet characters of a text, everything else left out. */
  function Values(s: string): (q: seq<Sextet>)
    ensures |q| <= |s|
  {
    if s == "" then []
    else
      var front, c := Values(s[..|s| - 1]), Classify(s[|s| - 1]);
      if c.Value? then front + [c.v] else front
  }

  /** Sextets regrouped into bytes; what is left of the last byte is dropped. */
  function Regroup(q: seq<Sextet>): (b: seq<Byte>) {
    if |q| >= 4 then Octets(Word4(q[0], q[1], q[2], q[3])) + Regroup(q[4..])
    else if |q| == 3 then Octets(Word4(q[0], q[1], q[2], 0))[..2]
    else if |q| == 2 then Octets(Word4(q[0], q[1], 0, 0))[..1]
    else []
  }

  /** A text that `Encode` can produce: whole groups, then perhaps one padded group whose unused
      bits are zero. */
  predicate Canonical(s: string)
    decreases |s|
  {
    s == "" ||
    (FullGroup(s) && Canonical(s[4..])) ||
    (|s| == 4 && PaddedGroup(s) && UnusedBits(s) == 0)
  }

  predicate FullGroup(s: string) {
    |s| >= 4 && Classify(s[0]).Value? && Classify(s[1]).Value? && Classify(s[2]).Value? && Classify(s[3]).Value?
  }

  predicate PaddedGroup(s: string) {
    |s| >= 4 && Classify(s[0]).Value? && Classify(s[1]).Value? && s[3] == PAD && (Classify(s[2]).Value? || s[2] == PAD)
  }

  function UnusedBits(s: string): nat
    requires PaddedGroup(s)
  {
    if s[2] == PAD then Classify(s[1]).v % 16 else Classify(s[2]).v % 4
  }

  /** What regrouping drops: the bits of the last, unfinished byte, in their place. */
  function LeftOver(q: seq<Sextet>): nat {
    if |q| >= 4 then LeftOver(q[4..])
    else if |q| == 3 then (q[2] as nat) % 4 * 64
    else if |q| == 2 then (q[1] as nat) % 16 * 16
    else if |q| == 1 then (q[0] as nat) * 4
    else 0
  }

  /** The decoder's shifts and masks, as arithmetic. */
  lemma DecoderBytes(p: Sextet, q: Sextet, r: Sextet, s: Sextet)
    ensures Octets(Word4(p, q, r, s)) == [p * 4 + q / 16, q % 16 * 16 + r / 4, r % 4 * 64 + s]
  {
    var w := Word4(p, q, r, s);
    DivMod(w, 65536, 4 * p + q / 16, 4096 * (q % 16) + 64 * r + s);
    DivMod(w, 256, 1024 * p + 16 * q + r / 4, 64 * (r % 4) + s);
    DivMod(1024 * p + 16 * q + r / 4, 256, 4 * p + q / 16, q % 16 * 16 + r / 4);
  }

  /** Regrouping undoes grouping, both ways. */
  lemma GroupsInverse(a: Byte, b: Byte, c: Byte)
    ensures Word4(a / 4, a % 4 * 16 + b / 16, b % 16 * 4 + c / 64, c % 64) == Word3(a, b, c)
    ensures Octets(Word3(a, b, c)) == [a, b, c]
  {
    assert a == 4 * (a / 4) + a % 4 && b == 16 * (b / 16) + b % 16 && c == 64 * (c / 64) + c % 64;
    OctetsBack(a, b, c);
  }

  lemma OctetsBack(a: Byte, b: Byte, c: Byte)
    ensures Octets(Word3(a, b, c)) == [a, b, c]
  {
    var w := Word3(a, b, c);
    DivMod(w, 65536, a, 256 * b + c);
    DivMod(w, 256, 256 * a + b, c);
    DivMod(256 * a + b, 256, a, b);
  }

  lemma SextetsBack(p: Sextet, q: Sextet, r: Sextet, s: Sextet)
    ensures Word3(p * 4 + q / 16, q % 16 * 16 + r / 4, r % 4 * 64 + s) == Word4(p, q, r, s)
    ensures Sextets(Word4(p, q, r, s)) == [p, q, r, s]
  {
    var w := Word4(p, q, r, s);
    DivMod(w, 262144, p, 4096 * q + 64 * r + s);
    DivMod(w, 4096, 64 * p + q, 64 * r + s);
    DivMod(64 * p + q, 64, p, q);
    DivMod(w, 64, 4096 * p + 64 * q + r, s);
    DivMod(4096 * p + 64 * q + r, 64, 64 * p + q, r);
  }

  // ---------- Encoded texts are exactly the canonical ones ----------

  lemma ValuesSnoc(s: string, c: char)
    ensures Values(s + [c]) == Values(s) + One(c)
  {
    hide Classify;
    assert (s + [c])[..|s|] == s;
  }

  lemma {:induction false} ValuesConcat(s: string, t: string)
    ensures Values(s + t) == Values(s) + Values(t)
    decreases |t|
  {
    if t == "" {
      assert s + t == s;
    } else {
      var front, c := t[..|t| - 1], t[|t| - 1];
      hide Values;
      ValuesConcat(s, front);
      assert t == front + [c];
      assert s + t == (s + front) + [c];
      ValuesSnoc(s + front, c);
      ValuesSnoc(front, c);
      Regrouped(Values(s), Values(front), One(c));
    }
  }

  function Group(a: Byte, b: Byte, c: Byte): string {
    var q := Sextets(Word3(a, b, c));
    [Letter(q[0]), Letter(q[1]), Letter(q[2]), Letter(q[3])]
  }

  lemma EncodeUnfold(b: seq<Byte>)
    requires |b| >= 3
    ensures Encode(b) == Group(b[0], b[1], b[2]) + Encode(b[3..])
  {
    hide Letter, Sextets, Word3;
  }

  lemma {:induction false} EncodeConcat(a: seq<Byte>, b: seq<Byte>)
    requires |a| % 3 == 0
    ensures Encode(a + b) == Encode(a) + Encode(b)
    decreases |a|
  {
    EncodeNothing();
    hide Encode, Group;
    if a == [] {
      assert a + b == b;
    } else {
      EncodeConcat(a[3..], b);
      EncodeUnfold(a);
      EncodeUnfold(a + b);
      assert (a + b)[3..] == a[3..] + b;
      Regrouped(Group(a[0], a[1], a[2]), Encode(a[3..]), Encode(b));
    }
  }

  lemma EncodeNothing()
    ensures Encode([]) == ""
  {
  }

  /** The sextets of a text that begins with four given characters. */
  lemma ValuesFour(s: string)
    requires |s| >= 4
    ensures Values(s) == One(s[0]) + One(s[1]) + One(s[2]) + One(s[3]) + Values(s[4..])
  {
    hide Values, One;
    ValuesTwo(s[0], s[1]);
    ValuesTwo(s[2], s[3]);
    ValuesConcat([s[0], s[1]], [s[2], s[3]]);
    ValuesConcat(s[..4], s[4..]);
    FirstFour(s);
    Regrouped(One(s[0]) + One(s[1]), One(s[2]), One(s[3]));
  }

  lemma FirstFour(s: string)
    requires |s| >= 4
    ensures s[..4] == [s[0], s[1]] + [s[2], s[3]] && s == s[..4] + s[4..]
  {
  }

  lemma ValuesTwo(a: char, b: char)
    ensures Values([a, b]) == One(a) + One(b)
  {
    assert Values("") == [];
    hide Values, One;
    ValuesSnoc("", a);
    ValuesSnoc([a], b);
    assert "" + [a] == [a] && [a] + [b] == [a, b];
  }

  function One(c: char): seq<Sextet> {
    if Classify(c).Value? then [Classify(c).v] else []
  }

  lemma FullGroupValues(s: string)
    requires FullGroup(s)
    ensures Values(s) == [Classify(s[0]).v, Classify(s[1]).v, Classify(s[2]).v, Classify(s[3]).v] + Values(s[4..])
  {
    hide Classify, Values;
    ValuesFour(s);
  }

  /** Four characters for three bytes, and back. */
  lemma GroupEncodes(s: string, b: seq<Byte>)
    requires FullGroup(s) && |b| == 3
    requires b == Octets(Word4(Classify(s[0]).v, Classify(s[1]).v, Classify(s[2]).v, Classify(s[3]).v))
    ensures Encode(b) == s[..4]
  {
    var p, q, r, t := Classify(s[0]).v, Classify(s[1]).v, Classify(s[2]).v, Classify(s[3]).v;
    ClassBack(s[0]); ClassBack(s[1]); ClassBack(s[2]); ClassBack(s[3]);
    hide Classify, Letter;
    DecoderBytes(p, q, r, t);
    SextetsBack(p, q, r, t);
    assert b[3..] == [];
  }

  /** A padded group without stray bits is the encoding of its one or two bytes. */
  lemma PaddedEncodes(s: string)
    requires |s| == 4 && PaddedGroup(s) && UnusedBits(s) == 0
    ensures Encode(Regroup(Values(s))) == s
  {
    ValuesFour(s);
    assert Values(s[4..]) == [];
    var p, q := Classify(s[0]).v, Classify(s[1]).v;
    ClassBack(s[0]); ClassBack(s[1]);
    if s[2] == PAD {
      assert Values(s) == [p, q];
      DecoderBytes(p, q, 0, 0);
      PaddedOne(s, p, q);
    } else {
      var r := Classify(s[2]).v;
      ClassBack(s[2]);
      assert Values(s) == [p, q, r];
      DecoderBytes(p, q, r, 0);
      PaddedTwo(s, p, q, r);
    }
  }

  lemma PaddedOne(s: string, p: Sextet, q: Sextet)
    requires q % 16 == 0 && s == [Letter(p), Letter(q), PAD, PAD]
    ensures Encode([p * 4 + q / 16]) == s
  {
    hide Letter;
    DivMod(p * 4 + q / 16, 4, p, q / 16);
    EncoderDigits(p * 4 + q / 16, 0, 0);
  }

  lemma PaddedTwo(s: string, p: Sextet, q: Sextet, r: Sextet)
    requires r % 4 == 0 && s == [Letter(p), Letter(q), Letter(r), PAD]
    ensures Encode([p * 4 + q / 16, q % 16 * 16 + r / 4]) == s
  {
    hide Letter;
    DivMod(p * 4 + q / 16, 4, p, q / 16);
    DivMod(q % 16 * 16 + r / 4, 16, q % 16, r / 4);
    EncoderDigits(p * 4 + q / 16, q % 16 * 16 + r / 4, 0);
  }

  /** A canonical text is the encoding of what it decodes to. */
  lemma {:induction false} CanonicalEncodes(s: string)
    requires Canonical(s)
    ensures Encode(Regroup(Values(s))) == s
    decreases |s|
  {
    if s == "" {
    } else if FullGroup(s) && Canonical(s[4..]) {
      CanonicalEncodes(s[4..]);
      FullGroupValues(s);
      var q := Values(s);
      var b := Octets(Word4(q[0], q[1], q[2], q[3]));
      GroupEncodes(s, b);
      assert q[4..] == Values(s[4..]);
      hide Encode, Values, Classify, Octets, Canonical;
      EncodeConcat(b, Regroup(q[4..]));
      assert s == s[..4] + s[4..];
    } else {
      PaddedEncodes(s);
    }
  }

  /** Every encoding is canonical and decodes to what was encoded. */
  lemma {:induction false} EncodeIsCanonical(b: seq<Byte>)
    ensures Canonical(Encode(b)) && Regroup(Values(Encode(b))) == b
    decreases |b|
  {
    if b == [] {
    } else if |b| >= 3 {
      EncodeIsCanonical(b[3..]);
      EncodeGroupBack(b);
    } else {
      EncodeTailBack(b);
    }
  }

  lemma LettersFull(s: string, p: Sextet, q: Sextet, r: Sextet, t: Sextet, rest: string)
    requires s == [Letter(p), Letter(q), Letter(r), Letter(t)] + rest
    ensures FullGroup(s) && s[4..] == rest && Values(s) == [p, q, r, t] + Values(rest)
  {
    LetterBack(p); LetterBack(q); LetterBack(r); LetterBack(t);
    hide Letter, Classify, Values;
    FullGroupValues(s);
  }

  lemma LettersPadded(s: string, p: Sextet, q: Sextet, r: Sextet, two: bool)
    requires s == if two then [Letter(p), Letter(q), Letter(r), PAD] else [Letter(p), Letter(q), PAD, PAD]
    ensures PaddedGroup(s) && Values(s) == (if two then [p, q, r] else [p, q])
    ensures UnusedBits(s) == if two then r % 4 else q % 16
  {
    LetterBack(p); LetterBack(q); LetterBack(r);
    assert Classify(PAD) == Pad;
    assert Values(s[4..]) == [];
    hide Letter, Classify, Values;
    ValuesFour(s);
  }

  lemma EncodeGroupValues(b: seq<Byte>)
    requires |b| >= 3
    ensures var s := Encode(b);
            FullGroup(s) && s[4..] == Encode(b[3..]) &&
            Values(s) ==
            [b[0] / 4, b[0] % 4 * 16 + b[1] / 16, b[1] % 16 * 4 + b[2] / 64, b[2] % 64] + Values(Encode(b[3..]))
  {
    hide Encode, Letter, Classify, Values, Sextets;
    EncodeUnfold(b);
    EncoderDigits(b[0], b[1], b[2]);
    LettersFull(Encode(b), b[0] / 4, b[0] % 4 * 16 + b[1] / 16, b[1] % 16 * 4 + b[2] / 64, b[2] % 64, Encode(b[3..]));
  }

  lemma EncodeGroupBack(b: seq<Byte>)
    requires |b| >= 3 && Canonical(Encode(b[3..])) && Regroup(Values(Encode(b[3..]))) == b[3..]
    ensures Canonical(Encode(b)) && Regroup(Values(Encode(b))) == b
  {
    hide Encode, Values, Classify, FullGroup, Octets, Word3, Word4;
    EncodeGroupValues(b);
    GroupsInverse(b[0], b[1], b[2]);
    var q := Values(Encode(b));
    assert q[4..] == Values(Encode(b[3..]));
    assert b == [b[0], b[1], b[2]] + b[3..];
  }

  lemma EncodeTailBack(b: seq<Byte>)
    requires 1 <= |b| <= 2
    ensures Canonical(Encode(b)) && Regroup(Values(Encode(b))) == b
  {
    EncodeTail(b, 0);
    assert b[0..] == b;
    hide Letter, Encode, Values, Canonical, Regroup;
    if |b| == 1 {
      OneByteBack(b, Encode(b));
    } else {
      TwoBytesBack(b, Encode(b));
    }
  }

  lemma OneByteBack(b: seq<Byte>, s: string)
    requires |b| == 1 && s == [Letter(b[0] / 4), Letter(b[0] % 4 * 16), PAD, PAD]
    ensures Canonical(s) && Regroup(Values(s)) == b
  {
    var p, q := b[0] / 4, b[0] % 4 * 16;
    DivMod(q, 16, b[0] % 4, 0);
    hide Letter, Values, Classify, FullGroup, PaddedGroup, UnusedBits, Octets, Word4, Word3;
    LettersPadded(s, p, q, 0, false);
    GroupsInverse(b[0], 0, 0);
  }

  lemma TwoBytesBack(b: seq<Byte>, s: string)
    requires |b| == 2
    requires s == [Letter(b[0] / 4), Letter(b[0] % 4 * 16 + b[1] / 16), Letter(b[1] % 16 * 4), PAD]
    ensures Canonical(s) && Regroup(Values(s)) == b
  {
    var p, q, r := b[0] / 4, b[0] % 4 * 16 + b[1] / 16, b[1] % 16 * 4;
    DivMod(r, 4, b[1] % 16, 0);
    hide Letter, Values, Classify, FullGroup, PaddedGroup, UnusedBits, Octets, Word4, Word3;
    LettersPadded(s, p, q, r, true);
    GroupsInverse(b[0], b[1], 0);
  }

  /** Encode and strict decoding are mutually inverse between byte sequences and canonical texts. */
  lemma EncodedIffCanonical(s: string)
    ensures Canonical(s) <==> exists b :: Encode(b) == s
    ensures forall b :: Encode(b) == s ==> b == Regroup(Values(s))
  {
    if Canonical(s) {
      CanonicalEncodes(s);
    }
    forall b | Encode(b) == s
      ensures Canonical(s) && b == Regroup(Values(s))
    {
      EncodeIsCanonical(b);
    }
  }

  // ---------- The decoder's scan for one quantum ----------

  /** GetNextQuantum's loop variables. */
  datatype Scan = Scan(pos: nat, q: seq<Sextet>, padLen: nat, padStart: nat)

  /** One character of a scan; the same state again when the scan stops in front of it. */
  function NextScan(parse: Parse, illegalPads: bool, c: char, s: Scan): (r: Scan)
    ensures r.pos == s.pos + 1 || r == s
    ensures parse == ParseAny ==> r.pos == s.pos + 1
    ensures |s.q| <= |r.q| <= |s.q| + (r.pos - s.pos)
  {
    var skip := s.(pos := s.pos + 1);
    match Classify(c)
    case Illegal => if parse == ParseAny then skip else s
    case Space => if parse != ParseStrict then skip else s
    case Pad =>
      if illegalPads || |s.q| < 2 || |s.q| + s.padLen >= 4 then
        if parse == ParseAny then skip else s
      else
        skip.(padLen := s.padLen + 1, padStart := if s.padLen == 0 then s.pos else s.padStart)
    case Value(v) =>
      if s.padLen > 0 && parse != ParseAny then s
      else skip.(q := s.q + [v], padLen := 0)
  }

  /** Where the scan stops, and with what. */
  function ScanFrom(parse: Parse, illegalPads: bool, data: string, s: Scan): (r: Scan)
    requires s.pos <= |data| && |s.q| <= 4
    ensures s.pos <= r.pos <= |data| && |r.q| <= 4
    decreases |data| - s.pos
  {
    if |s.q| == 4 || s.pos == |data| then s
    else
      var next := NextScan(parse, illegalPads, data[s.pos], s);
      if next.pos == s.pos then s else ScanFrom(parse, illegalPads, data, next)
  }

  /** The pads after the last alphabet character of a text. */
  function PadsAfter(s: string): nat {
    if s == "" then 0
    else
      match Classify(s[|s| - 1])
      case Value(_) => 0
      case Pad => PadsAfter(s[..|s| - 1]) + 1
      case _ => PadsAfter(s[..|s| - 1])
  }

  lemma PadsAfterSnoc(s: string, c: char)
    ensures PadsAfter(s + [c]) ==
            match Classify(c)
            case Value(_) => 0
            case Pad => PadsAfter(s) + 1
            case _ => PadsAfter(s)
  {
    assert (s + [c])[..|s|] == s;
  }

  /** How many of `pads` pads count behind `n` values of a group. */
  function Counted(illegalPads: bool, n: nat, pads: nat): nat {
    if illegalPads || n < 2 || n >= 4 then 0 else if pads < 4 - n then pads else 4 - n
  }

  /** The state of a lenient scan that has seen `t`, which starts at `from`. */
  predicate Seen(illegalPads: bool, t: string, s: Scan, from: nat) {
    && from <= s.pos && Values(t) == s.q && |s.q| <= 4
    && s.padLen == Counted(illegalPads, |s.q|, PadsAfter(t)) && (s.padLen > 0 ==> from <= s.padStart < s.pos)
  }

  lemma NextScanKeeps(illegalPads: bool, t: string, c: char, s: Scan, from: nat)
    requires Seen(illegalPads, t, s, from) && |s.q| < 4
    ensures var r := NextScan(ParseAny, illegalPads, c, s);
            r.pos == s.pos + 1 && Seen(illegalPads, t + [c], r, from)
  {
    hide Classify, Values, PadsAfter;
    ValuesSnoc(t, c);
    PadsAfterSnoc(t, c);
  }

  /** Parsing any characters, the scan collects alphabet characters until it has four or the text
      ends, whatever comes in between, and counts the pads after the last of them. */
  lemma {:induction false} ScanAny(illegalPads: bool, data: string, s: Scan, from: nat)
    requires from <= s.pos <= |data| && Seen(illegalPads, data[from..s.pos], s, from)
    ensures var r := ScanFrom(ParseAny, illegalPads, data, s);
            && Seen(illegalPads, data[from..r.pos], r, from) && (|r.q| < 4 ==> r.pos == |data|)
            && (|s.q| < |r.q| == 4 ==> 0 < r.pos && Classify(data[r.pos - 1]).Value?)
    decreases |data| - s.pos
  {
    hide Values, Classify, NextScan, PadsAfter, Counted;
    if |s.q| < 4 && s.pos < |data| {
      var c := data[s.pos];
      NextScanKeeps(illegalPads, data[from..s.pos], c, s, from);
      FourthIsValue(illegalPads, c, s);
      assert data[from..s.pos] + [c] == data[from..s.pos + 1];
      ScanAny(illegalPads, data, NextScan(ParseAny, illegalPads, c, s), from);
    }
  }

  lemma FourthIsValue(illegalPads: bool, c: char, s: Scan)
    requires |s.q| < 4
    ensures |NextScan(ParseAny, illegalPads, c, s).q| == 4 ==> Classify(c).Value?
  {
    hide Classify;
  }

  /** What a strict scan has passed: values, then pads. */
  predicate Passed(t: string, q: seq<Sextet>, padLen: nat) {
    && |t| == |q| + padLen <= 4 && (padLen > 0 ==> |q| >= 2)
    && (forall i :: 0 <= i < |q| ==> Classify(t[i]) == Value(q[i]))
    && (forall i :: |q| <= i < |t| ==> t[i] == PAD)
  }

  /** A character in front of which a strict scan stops. */
  predicate Stops(illegalPads: bool, c: char, s: Scan) {
    match Classify(c)
    case Value(_) => s.padLen > 0
    case Pad => illegalPads || |s.q| < 2
    case _ => true
  }

  /** A strict scan passes values and then pads, and stops where neither can go on. */
  lemma {:induction false} ScanStrict(illegalPads: bool, data: string, s: Scan, from: nat)
    requires from <= s.pos <= |data| && |s.q| <= 4 && Passed(data[from..s.pos], s.q, s.padLen)
    requires s.padLen > 0 ==> s.padStart == from + |s.q|
    ensures var r := ScanFrom(ParseStrict, illegalPads, data, s);
            && Passed(data[from..r.pos], r.q, r.padLen) && (r.padLen > 0 ==> r.padStart == from + |r.q|)
            && (illegalPads && s.padLen == 0 ==> r.padLen == 0)
            && (r.pos < |data| && |r.q| + r.padLen < 4 ==> Stops(illegalPads, data[r.pos], r))
    decreases |data| - s.pos
  {
    hide Classify, Passed, NextScan, Stops;
    PassedBounds(data[from..s.pos], s.q, s.padLen);
    if |s.q| < 4 && s.pos < |data| {
      var c := data[s.pos];
      assert data[from..s.pos] + [c] == data[from..s.pos + 1];
      NextStrict(illegalPads, data[from..s.pos], c, s, from);
      var next := NextScan(ParseStrict, illegalPads, c, s);
      if next.pos > s.pos {
        ScanStrict(illegalPads, data, next, from);
      }
    }
  }

  /** One character of a strict scan. */
  lemma NextStrict(illegalPads: bool, t: string, c: char, s: Scan, from: nat)
    requires |s.q| < 4 && Passed(t, s.q, s.padLen) && s.pos == from + |t|
    requires s.padLen > 0 ==> s.padStart == from + |s.q|
    ensures var r := NextScan(ParseStrict, illegalPads, c, s);
            if r.pos > s.pos then
              && Passed(t + [c], r.q, r.padLen) && (r.padLen > 0 ==> r.padStart == from + |r.q|)
              && (illegalPads && s.padLen == 0 ==> r.padLen == 0)
            else |s.q| + s.padLen < 4 ==> Stops(illegalPads, c, s)
  {
    hide Classify, Passed;
    PassedBounds(t, s.q, s.padLen);
    if |t| < 4 {
      PassOne(t, s.q, s.padLen, c);
    }
  }

  lemma PassedBounds(t: string, q: seq<Sextet>, padLen: nat)
    requires Passed(t, q, padLen)
    ensures |t| == |q| + padLen <= 4 && (padLen > 0 ==> |q| >= 2)
  {
  }

  lemma PassOne(t: string, q: seq<Sextet>, padLen: nat, c: char)
    requires Passed(t, q, padLen) && |t| < 4
    ensures Classify(c).Value? && padLen == 0 ==> Passed(t + [c], q + [Classify(c).v], 0)
    ensures Classify(c) == Pad && |q| >= 2 ==> Passed(t + [c], q, padLen + 1)
  {
  }

  // ---------- White space between the characters ----------

  /** The text without its white space. */
  function Strip(s: string): string {
    if s == "" then ""
    else Strip(s[..|s| - 1]) + if Classify(s[|s| - 1]) == Space then "" else [s[|s| - 1]]
  }

  lemma StripSnoc(s: string, c: char)
    ensures Strip(s + [c]) == Strip(s) + if Classify(c) == Space then "" else [c]
  {
    assert (s + [c])[..|s|] == s;
  }

  lemma {:induction false} StripConcat(s: string, t: string)
    ensures Strip(s + t) == Strip(s) + Strip(t)
    decreases |t|
  {
    hide Classify;
    if t == "" {
      assert s + t == s;
    } else {
      var front, last := t[..|t| - 1], [t[|t| - 1]];
      StripConcat(s, front);
      StripSnoc(s + front, t[|t| - 1]);
      assert s + t == s + front + last;
    }
  }

  /** Where position `pos` of a text stands in the stripped text. */
  function Stripped(data: string, pos: nat): (n: nat)
    requires pos <= |data|
    ensures n <= |Strip(data)| && (pos == |data| ==> n == |Strip(data)|) && (pos == 0 ==> n == 0)
  {
    assert data[..pos] + data[pos..] == data;
    assert pos == |data| ==> data[..pos] == data;
    StripConcat(data[..pos], data[pos..]);
    |Strip(data[..pos])|
  }

  /** A position in front of white space, and one in front of anything else. */
  lemma StrippedStep(data: string, pos: nat)
    requires pos < |data|
    ensures if Classify(data[pos]) == Space then Stripped(data, pos + 1) == Stripped(data, pos)
            else
              && Stripped(data, pos + 1) == Stripped(data, pos) + 1
              && Stripped(data, pos) < |Strip(data)| && Strip(data)[Stripped(data, pos)] == data[pos]
  {
    hide Classify;
    var before, c, after := data[..pos], data[pos], data[pos + 1..];
    assert data[..pos + 1] == before + [c];
    StripSnoc(before, c);
    assert data == data[..pos + 1] + after;
    StripConcat(data[..pos + 1], after);
  }

  /** Scans at corresponding places of a text and the stripped text. */
  predicate Alike(data: string, a: Scan, b: Scan) {
    a.pos <= |data| && b.pos == Stripped(data, a.pos) && a.q == b.q && a.padLen == b.padLen
  }

  lemma NextAlike(illegalPads: bool, data: string, a: Scan, b: Scan)
    requires Alike(data, a, b) && a.pos < |data| && |a.q| < 4
    ensures var r := NextScan(ParseWhite, illegalPads, data[a.pos], a);
            if Classify(data[a.pos]) == Space then r.pos == a.pos + 1 && Alike(data, r, b) && |r.q| < 4
            else b.pos < |Strip(data)| &&
                 var w := NextScan(ParseStrict, illegalPads, Strip(data)[b.pos], b);
                 (r.pos > a.pos <==> w.pos > b.pos) && Alike(data, r, w) &&
                 (|r.q| == 4 ==> Classify(data[a.pos]).Value?)
  {
    StrippedStep(data, a.pos);
    hide Classify, Stripped, Strip;
  }

  /** Skipping white space is scanning the stripped text strictly. */
  lemma {:induction false} WhiteScan(illegalPads: bool, data: string, a: Scan, b: Scan)
    requires Alike(data, a, b) && |a.q| <= 4
    ensures var r, w := ScanFrom(ParseWhite, illegalPads, data, a), ScanFrom(ParseStrict, illegalPads, Strip(data), b);
            && Alike(data, r, w)
            && (|r.q| < 4 && r.pos < |data| ==> Classify(data[r.pos]) != Space)
            && (|a.q| < |r.q| == 4 ==> 0 < r.pos && Classify(data[r.pos - 1]).Value?)
    decreases |data| - a.pos
  {
    if |a.q| < 4 && a.pos < |data| {
      NextAlike(illegalPads, data, a, b);
      hide Classify, Stripped, Strip, NextScan, Alike;
      var r := NextScan(ParseWhite, illegalPads, data[a.pos], a);
      if Classify(data[a.pos]) == Space {
        WhiteScan(illegalPads, data, r, b);
      } else if r.pos > a.pos {
        WhiteScan(illegalPads, data, r, NextScan(ParseStrict, illegalPads, Strip(data)[b.pos], b));
      }
    }
  }

  /** What DO_PARSE_WHITE accepts with padding required: a canonical text with white space anywhere,
      except that none may follow a last group that has no pad. */
  predicate WhiteCanonical(data: string) {
    && Canonical(Strip(data))
    && (EndsInSpace(data) ==> Strip(data) != "" && Strip(data)[|Strip(data)| - 1] == PAD)
  }

  /** In front of a character that is not white space, the stripped text has not ended. */
  lemma WhiteEnd(data: string, pos: nat)
    requires pos <= |data| && (pos < |data| ==> Classify(data[pos]) != Space)
    ensures pos == |data| <==> Stripped(data, pos) == |Strip(data)|
  {
    hide Classify, Stripped, Strip;
    if pos < |data| {
      StrippedStep(data, pos);
    } else {
      assert Stripped(data, pos) == |Strip(data)|;
    }
  }

  // ---------- What a text holds, for every combination of flags ----------

  /** The values of a text; the pads that count behind them; whether the last group was looked for and
      not found whole; whether the text is used up. */
  datatype Reading = Reading(values: seq<Sextet>, pads: nat, partial: bool, whole: bool)

  predicate Padded(r: Reading) {
    |r.values| % 4 + r.pads == 4
  }

  /** The alphabet characters, and the pads, that a text starts with. */
  function Run(t: string): (n: nat)
    ensures n <= |t| && forall i :: 0 <= i < n ==> Classify(t[i]).Value?
    ensures n < |t| ==> !Classify(t[n]).Value?
  {
    if t != "" && Classify(t[0]).Value? then 1 + Run(t[1..]) else 0
  }

  function PadRun(t: string): (n: nat)
    ensures n <= |t| && forall i :: 0 <= i < n ==> t[i] == PAD
    ensures n < |t| ==> t[n] != PAD
  {
    if t != "" && t[0] == PAD then 1 + PadRun(t[1..]) else 0
  }

  /** A text parsed strictly; `trailing` says that something to be skipped comes after it. */
  function ReadStrict(illegalPads: bool, t: string, trailing: bool): Reading {
    var n := Run(t);
    var pads := Counted(illegalPads, n % 4, PadRun(t[n..]));
    Reading(Values(t[..n]), pads, n % 4 != 0 || n < |t| || trailing,
            n + (if n % 4 + pads == 4 then pads else 0) == |t|)
  }

  function ReadAny(illegalPads: bool, s: string): Reading {
    var q := Values(s);
    var pads := Counted(illegalPads, |q| % 4, PadsAfter(s));
    Reading(q, pads, |q| % 4 != 0 || (s != "" && !Classify(s[|s| - 1]).Value?), pads == 0 || |q| % 4 + pads == 4)
  }

  predicate EndsInSpace(s: string) {
    s != "" && Classify(s[|s| - 1]) == Space
  }

  function ReadText(parse: Parse, illegalPads: bool, s: string): Reading {
    match parse
    case ParseStrict => ReadStrict(illegalPads, s, false)
    case ParseWhite => ReadStrict(illegalPads, Strip(s), EndsInSpace(s))
    case ParseAny => ReadAny(illegalPads, s)
  }

  /** The decoder's verdict. */
  predicate Accepted(r: Reading, pad: Padding, term: Term) {
    && (r.partial ==> (term == TermAny || LeftOver(r.values) == 0) && (pad == PadYes ==> Padded(r)))
    && (term == TermBuffer ==> r.whole)
  }

  function Behind(q: seq<Sextet>, r: Reading): Reading {
    r.(values := q + r.values)
  }

  /** Where the decoder goes on after a scan: pads that do not complete the group are given back. */
  function Resume(s: Scan): nat {
    if |s.q| + s.padLen != 4 && s.padLen > 0 then s.padStart else s.pos
  }

  // Strictly.

  lemma {:induction false} ValuesOf(t: string, q: seq<Sextet>)
    requires |t| == |q| && forall i :: 0 <= i < |q| ==> Classify(t[i]) == Value(q[i])
    ensures Values(t) == q
    decreases |t|
  {
    hide Classify;
    if t != "" {
      ValuesOf(t[..|t| - 1], q[..|q| - 1]);
    }
  }

  lemma {:induction false} RunIs(t: string, n: nat)
    requires n <= |t| && (forall i :: 0 <= i < n ==> Classify(t[i]).Value?) && (n < |t| ==> !Classify(t[n]).Value?)
    ensures Run(t) == n
    decreases n
  {
    hide Classify;
    if n > 0 {
      RunIs(t[1..], n - 1);
    }
  }

  lemma {:induction false} PadRunIs(t: string, n: nat)
    requires n <= |t| && (forall i :: 0 <= i < n ==> t[i] == PAD)
    ensures PadRun(t) >= n && (n == |t| || t[n] != PAD ==> PadRun(t) == n)
    decreases n
  {
    if n > 0 {
      PadRunIs(t[1..], n - 1);
    }
  }

  /** A whole group in front of a text. */
  lemma PeelStrict(illegalPads: bool, t: string, q: seq<Sextet>, trailing: bool)
    requires |q| == 4 <= |t| && forall i :: 0 <= i < 4 ==> Classify(t[i]) == Value(q[i])
    ensures ReadStrict(illegalPads, t, trailing) == Behind(q, ReadStrict(illegalPads, t[4..], trailing))
  {
    hide Classify, Values, PadRun, Run;
    var m, n := Run(t[4..]), Run(t[4..]) + 4;
    RunBehind(t, m);
    assert t[n..] == t[4..][m..];
    assert t[..n] == t[..4] + t[4..][..m];
    ValuesConcat(t[..4], t[4..][..m]);
    ValuesOf(t[..4], q);
  }

  lemma RunBehind(t: string, m: nat)
    requires |t| >= 4 && (forall i :: 0 <= i < 4 ==> Classify(t[i]).Value?) && m == Run(t[4..])
    ensures Run(t) == m + 4
  {
    hide Classify;
    forall i | 0 <= i < m + 4
      ensures Classify(t[i]).Value?
    {
      if i >= 4 {
        assert t[i] == t[4..][i - 4];
      }
    }
    if m + 4 < |t| {
      assert t[m + 4] == t[4..][m];
    }
    RunIs(t, m + 4);
  }

  lemma PadIsPad(c: char)
    ensures Classify(c) == Pad <==> c == PAD
  {
  }

  /** The values that a strict scan took are all that the text starts with. */
  lemma StrictValues(illegalPads: bool, u: string, r: Scan)
    requires |r.q| + r.padLen <= |u| && |r.q| < 4 && Passed(u[..|r.q| + r.padLen], r.q, r.padLen)
    requires |r.q| + r.padLen < |u| && |r.q| + r.padLen < 4 ==> Stops(illegalPads, u[|r.q| + r.padLen], r)
    ensures Run(u) == |r.q| && Values(u[..|r.q|]) == r.q
  {
    hide Classify, Values, Run, Passed, Stops;
    PassedChars(u, r.q, r.padLen);
    if |r.q| < |u| {
      NotValue(illegalPads, u[|r.q|], r);
    }
    ValuesOf(u[..|r.q|], r.q);
    RunIs(u, |r.q|);
  }

  lemma PassedChars(u: string, q: seq<Sextet>, k: nat)
    requires |q| + k <= |u| && Passed(u[..|q| + k], q, k)
    ensures forall i :: 0 <= i < |q| ==> Classify(u[i]) == Value(q[i])
    ensures forall i :: |q| <= i < |q| + k ==> u[i] == PAD
  {
    hide Classify;
    assert forall i :: 0 <= i < |q| + k ==> u[..|q| + k][i] == u[i];
  }

  lemma NotValue(illegalPads: bool, c: char, r: Scan)
    requires |r.q| < 4 && if r.padLen > 0 then c == PAD else Stops(illegalPads, c, r)
    ensures !Classify(c).Value?
  {
  }

  /** The pads that it took are those that count. */
  lemma StrictPads(illegalPads: bool, u: string, r: Scan)
    requires |r.q| + r.padLen <= |u| && |r.q| < 4 && Passed(u[..|r.q| + r.padLen], r.q, r.padLen)
    requires illegalPads ==> r.padLen == 0
    requires |r.q| + r.padLen < |u| && |r.q| + r.padLen < 4 ==> Stops(illegalPads, u[|r.q| + r.padLen], r)
    ensures Counted(illegalPads, |r.q|, PadRun(u[|r.q|..])) == r.padLen
  {
    var n, k := |r.q|, r.padLen;
    var v := u[n..];
    if n + k < |u| {
      PadIsPad(u[n + k]);
      assert v[k] == u[n + k];
    }
    hide Classify, PadRun;
    forall i | 0 <= i < k
      ensures v[i] == PAD
    {
      assert u[..n + k][n + i] == u[n + i] == v[i];
    }
    PadRunIs(v, k);
  }

  lemma StrictEnd(illegalPads: bool, u: string, r: Scan, trailing: bool)
    requires |r.q| + r.padLen <= |u| && |r.q| < 4 && Passed(u[..|r.q| + r.padLen], r.q, r.padLen)
    requires (illegalPads ==> r.padLen == 0) && (u != "" || trailing)
    requires |r.q| + r.padLen < |u| && |r.q| + r.padLen < 4 ==> Stops(illegalPads, u[|r.q| + r.padLen], r)
    ensures ReadStrict(illegalPads, u, trailing) ==
            Reading(r.q, r.padLen, true, |r.q| + (if |r.q| + r.padLen == 4 then r.padLen else 0) == |u|)
  {
    hide Classify, Values, PadRun, Run, Passed, Counted, Stops;
    StrictValues(illegalPads, u, r);
    StrictPads(illegalPads, u, r);
  }

  /** The scan in front of a whole group of a strict text, or at its end. */
  lemma StrictRead(illegalPads: bool, text: string, from: nat, trailing: bool)
    requires from <= |text| && (from < |text| || trailing)
    ensures var r, u := ScanFrom(ParseStrict, illegalPads, text, Scan(from, [], 0, 0)), text[from..];
            if |r.q| == 4 then
              ReadStrict(illegalPads, u, trailing) == Behind(r.q, ReadStrict(illegalPads, text[r.pos..], trailing))
            else ReadStrict(illegalPads, u, trailing) == Reading(r.q, r.padLen, true, Resume(r) == |text|)
  {
    hide Classify, ScanFrom, Passed, Stops, ReadStrict;
    var start, u := Scan(from, [], 0, 0), text[from..];
    assert text[from..from] == "";
    NothingPassed(text[from..from]);
    ScanStrict(illegalPads, text, start, from);
    var r := ScanFrom(ParseStrict, illegalPads, text, start);
    PassedBounds(text[from..r.pos], r.q, r.padLen);
    var k := r.pos - from;
    assert text[from..r.pos] == u[..k] && |u[..k]| == k;
    if |r.q| == 4 {
      AllValues(u[..k], r.q);
      assert forall i :: 0 <= i < 4 ==> u[..k][i] == u[i];
      assert text[r.pos..] == u[4..];
      PeelStrict(illegalPads, u, r.q, trailing);
    } else {
      if k < |u| {
        assert u[k] == text[r.pos];
      }
      StrictEnd(illegalPads, u, r, trailing);
    }
  }

  lemma NothingPassed(t: string)
    requires t == ""
    ensures Passed(t, [], 0)
  {
  }

  lemma AllValues(t: string, q: seq<Sextet>)
    requires Passed(t, q, 0) && |q| == 4
    ensures forall i :: 0 <= i < 4 ==> Classify(t[i]) == Value(q[i])
  {
  }

  // Skipping white space.

  lemma StripSuffix(data: string, from: nat)
    requires from <= |data|
    ensures Strip(data[from..]) == Strip(data)[Stripped(data, from)..]
  {
    hide Strip;
    StripConcat(data[..from], data[from..]);
    assert data[..from] + data[from..] == data;
  }

  lemma {:induction false} OnlySpace(data: string, from: nat)
    requires from < |data| && Stripped(data, from) == |Strip(data)|
    ensures Classify(data[|data| - 1]) == Space
    decreases |data| - from
  {
    hide Classify, Stripped, Strip;
    StrippedStep(data, from);
    if from < |data| - 1 {
      OnlySpace(data, from + 1);
    }
  }

  lemma WhiteRead(illegalPads: bool, data: string, from: nat)
    requires from < |data|
    ensures var r, s := ScanFrom(ParseWhite, illegalPads, data, Scan(from, [], 0, 0)), data[from..];
            if |r.q| == 4 then
              ReadText(ParseWhite, illegalPads, s) == Behind(r.q, ReadText(ParseWhite, illegalPads, data[r.pos..]))
            else ReadText(ParseWhite, illegalPads, s) == Reading(r.q, r.padLen, true, Resume(r) == |data|)
  {
    hide Classify, Strip, Stripped, ReadStrict, ScanFrom;
    var t, at, trailing := Strip(data), Stripped(data, from), EndsInSpace(data);
    var a, b := Scan(from, [], 0, 0), Scan(at, [], 0, 0);
    if at == |t| {
      OnlySpace(data, from);
    }
    WhiteScan(illegalPads, data, a, b);
    StrictRead(illegalPads, t, at, trailing);
    ScanBounds(ParseWhite, illegalPads, data, a);
    ScanBounds(ParseStrict, illegalPads, t, b);
    StripSuffix(data, from);
    var r := ScanFrom(ParseWhite, illegalPads, data, a);
    StripSuffix(data, r.pos);
    assert data[from..][|data| - from - 1] == data[|data| - 1];
    if |r.q| == 4 {
      SameEnd(data, r.pos);
    } else {
      WhiteEnd(data, r.pos);
    }
  }

  lemma SameEnd(data: string, pos: nat)
    requires 0 < pos <= |data| && Classify(data[pos - 1]).Value?
    ensures EndsInSpace(data[pos..]) <==> EndsInSpace(data)
  {
    hide Classify;
    if pos < |data| {
      assert data[pos..][|data| - pos - 1] == data[|data| - 1];
    }
  }

  // Leniently.

  lemma {:induction false} PadsAfterConcat(s: string, t: string)
    requires Values(t) != []
    ensures PadsAfter(s + t) == PadsAfter(t)
    decreases |t|
  {
    hide Classify;
    var front, c := t[..|t| - 1], t[|t| - 1];
    assert t == front + [c] && s + t == s + front + [c];
    hide Values, PadsAfter;
    ValuesSnoc(front, c);
    PadsAfterSnoc(front, c);
    PadsAfterSnoc(s + front, c);
    if !Classify(c).Value? {
      PadsAfterConcat(s, front);
    }
  }

  lemma NoValue(s: string)
    requires s != "" && Values(s) == []
    ensures !Classify(s[|s| - 1]).Value?
  {
  }

  lemma AnyRead(illegalPads: bool, data: string, from: nat)
    requires from < |data|
    ensures var r, s := ScanFrom(ParseAny, illegalPads, data, Scan(from, [], 0, 0)), data[from..];
            if |r.q| == 4 then ReadAny(illegalPads, s) == Behind(r.q, ReadAny(illegalPads, data[r.pos..]))
            else ReadAny(illegalPads, s) == Reading(r.q, r.padLen, true, Resume(r) == |data|)
  {
    hide Classify, Values, PadsAfter, ScanFrom;
    var start, s := Scan(from, [], 0, 0), data[from..];
    NothingSeen(illegalPads, data[from..from], start, from);
    ScanAny(illegalPads, data, start, from);
    var r := ScanFrom(ParseAny, illegalPads, data, start);
    if |r.q| == 4 {
      AnyPeel(illegalPads, data[from..r.pos], data[r.pos..], r.q, data[r.pos - 1]);
      assert data[from..r.pos] + data[r.pos..] == s;
    } else {
      assert data[from..r.pos] == s;
      if r.q == [] {
        NoValue(s);
      }
    }
  }

  lemma NothingSeen(illegalPads: bool, t: string, s: Scan, from: nat)
    requires t == "" && s == Scan(from, [], 0, 0)
    ensures Seen(illegalPads, t, s, from)
  {
  }

  lemma AnyPeel(illegalPads: bool, group: string, rest: string, q: seq<Sextet>, last: char)
    requires Values(group) == q && |q| == 4 && group != "" && last == group[|group| - 1] && Classify(last).Value?
    ensures ReadAny(illegalPads, group + rest) == Behind(q, ReadAny(illegalPads, rest))
  {
    hide Classify, Values, PadsAfter;
    ValuesConcat(group, rest);
    if Values(rest) != [] {
      PadsAfterConcat(group, rest);
    }
    if rest == "" {
      assert group + rest == group;
    } else {
      assert (group + rest)[|group + rest| - 1] == rest[|rest| - 1];
    }
    NothingIn(rest);
  }

  lemma NothingIn(s: string)
    ensures s == "" ==> Values(s) == []
  {
  }

  /** One scan, under every way of parsing. */
  lemma ReadRound(parse: Parse, illegalPads: bool, data: string, from: nat)
    requires from < |data|
    ensures var r, s := ScanFrom(parse, illegalPads, data, Scan(from, [], 0, 0)), data[from..];
            if |r.q| == 4 then
              ReadText(parse, illegalPads, s) == Behind(r.q, ReadText(parse, illegalPads, data[r.pos..]))
            else ReadText(parse, illegalPads, s) == Reading(r.q, r.padLen, true, Resume(r) == |data|)
  {
    hide ScanFrom, Classify, Strip, ReadStrict, ReadAny;
    match parse {
      case ParseStrict => StrictRead(illegalPads, data, from, false);
      case ParseWhite => WhiteRead(illegalPads, data, from);
      case ParseAny => AnyRead(illegalPads, data, from);
    }
  }

  lemma {:induction false} Groups(p: seq<Sextet>, q: seq<Sextet>)
    requires |p| % 4 == 0
    ensures Regroup(p + q) == Regroup(p) + Regroup(q) && LeftOver(p + q) == LeftOver(q)
    decreases |p|
  {
    hide Octets, Word4;
    if p == [] {
      assert p + q == q && Regroup([]) == [];
    } else {
      var head, rest := p[..4], p[4..];
      Groups(rest, q);
      assert p + q == head + (rest + q) && p == head + rest;
      RegroupFour(head, rest + q);
      RegroupFour(head, rest);
      LeftOverFour(head, rest + q);
    }
  }

  /** Groups in front of the rest of a text change neither the verdict nor what the rest stands for. */
  lemma BehindGroups(p: seq<Sextet>, r: Reading, pad: Padding, term: Term)
    requires |p| % 4 == 0
    ensures Accepted(Behind(p, r), pad, term) <==> Accepted(r, pad, term)
    ensures Regroup(Behind(p, r).values) == Regroup(p) + Regroup(r.values)
  {
    hide Regroup, LeftOver;
    Groups(p, r.values);
    ModFour(|p|, |r.values|);
  }

  lemma ModFour(m: nat, n: nat)
    requires m % 4 == 0
    ensures (m + n) % 4 == n % 4
  {
  }

  // ---------- The named combinations ----------

  /** DO_STRICT accepts exactly the canonical texts. */
  lemma {:induction false} StrictVerdict(t: string)
    ensures Accepted(ReadStrict(false, t, false), PadYes, TermBuffer) <==> Canonical(t)
    ensures Canonical(t) ==> ReadStrict(false, t, false).values == Values(t)
    decreases |t|
  {
    hide Values, Run, PadRun, LeftOver;
    if t == "" {
      NothingRead(ParseStrict, false, PadYes, TermBuffer);
      assert Values("") == [] by { NothingIn(""); }
    } else if FullGroup(t) {
      FullVerdict(t);
      StrictVerdict(t[4..]);
    } else {
      LastVerdict(t);
    }
  }

  lemma FullVerdict(t: string)
    requires FullGroup(t)
    ensures Accepted(ReadStrict(false, t, false), PadYes, TermBuffer) <==>
            Accepted(ReadStrict(false, t[4..], false), PadYes, TermBuffer)
    ensures Canonical(t) <==> Canonical(t[4..])
    ensures ReadStrict(false, t[4..], false).values == Values(t[4..]) ==>
              ReadStrict(false, t, false).values == Values(t)
  {
    PadIsPad(t[3]);
    hide Classify, Values, ReadStrict, Accepted;
    var q := [Classify(t[0]).v, Classify(t[1]).v, Classify(t[2]).v, Classify(t[3]).v];
    PeelStrict(false, t, q, false);
    BehindGroups(q, ReadStrict(false, t[4..], false), PadYes, TermBuffer);
    FullGroupValues(t);
  }

  lemma RunValues(t: string) returns (q: seq<Sextet>)
    ensures |q| == Run(t) && Values(t[..|q|]) == q && forall i :: 0 <= i < |q| ==> Classify(t[i]) == Value(q[i])
  {
    hide Classify, Values;
    var n := Run(t);
    q := seq(n, i requires 0 <= i < n => Classify(t[i]).v);
    ValuesOf(t[..n], q);
  }

  lemma LastVerdict(t: string)
    requires t != "" && !FullGroup(t)
    ensures Accepted(ReadStrict(false, t, false), PadYes, TermBuffer) <==> Canonical(t)
    ensures Canonical(t) ==> ReadStrict(false, t, false).values == Values(t)
  {
    var q := RunValues(t);
    PadIsPad(PAD);
    hide Values, Classify;
    FullRun(t);
    if Accepted(ReadStrict(false, t, false), PadYes, TermBuffer) {
      AcceptedIsPadded(t, q);
    }
    if Canonical(t) {
      PaddedIsAccepted(t, q);
    }
  }

  lemma FullRun(t: string)
    ensures Run(t) >= 4 ==> FullGroup(t)
  {
    hide Classify;
  }

  lemma AcceptedIsPadded(t: string, q: seq<Sextet>)
    requires t != "" && |q| == Run(t) < 4 && Values(t[..|q|]) == q
    requires forall i :: 0 <= i < |q| ==> Classify(t[i]) == Value(q[i])
    requires Accepted(ReadStrict(false, t, false), PadYes, TermBuffer)
    ensures Canonical(t)
  {
    PadIsPad(PAD);
    hide Values, Classify;
    var v := t[|q|..];
    assert 2 <= |q| && PadRun(v) >= 4 - |q| && |t| == 4;
    assert v[0] == t[|q|] && v[3 - |q|] == t[3];
  }

  lemma PaddedIsAccepted(t: string, q: seq<Sextet>)
    requires |q| == Run(t) < 4 && Values(t[..|q|]) == q && !FullGroup(t) && t != ""
    requires forall i :: 0 <= i < |q| ==> Classify(t[i]) == Value(q[i])
    requires Canonical(t)
    ensures Accepted(ReadStrict(false, t, false), PadYes, TermBuffer) && Values(t) == q
  {
    PadIsPad(PAD);
    hide Values, Classify;
    assert |t| == 4 && PaddedGroup(t) && UnusedBits(t) == 0;
    RunIs(t, if t[2] == PAD then 2 else 3);
    var v := t[|q|..];
    assert v == if |q| == 2 then [PAD, PAD] else [PAD];
    PaddedValues(t, q);
  }

  lemma PaddedValues(t: string, q: seq<Sextet>)
    requires PaddedGroup(t) && !FullGroup(t) && 2 <= |q| <= 3 && (|q| == 2 <==> t[2] == PAD)
    requires Classify(t[0]) == Value(q[0]) && Classify(t[1]) == Value(q[1])
    requires |q| == 3 ==> Classify(t[2]) == Value(q[2])
    ensures |t| == 4 ==> Values(t) == q
  {
    if |t| == 4 {
      assert Classify(PAD) == Pad;
      assert Values(t[4..]) == [];
      hide Classify, Values;
      ValuesFour(t);
    }
  }

  /** With white space allowed, exactly the texts that are canonical but for it. */
  lemma WhiteVerdict(data: string)
    ensures Accepted(ReadText(ParseWhite, false, data), PadYes, TermBuffer) <==> WhiteCanonical(data)
    ensures WhiteCanonical(data) ==> ReadText(ParseWhite, false, data).values == Values(Strip(data))
  {
    var t := Strip(data);
    StrictVerdict(t);
    hide Strip, Values, LeftOver, Canonical, PadRun;
    var n := Run(t);
    PadIsPad(PAD);
    hide Classify;
    if n < |t| {
      assert t[n..][|t| - n - 1] == t[|t| - 1];
    }
    RunLength(t);
  }

  lemma RunLength(t: string)
    ensures |Values(t[..Run(t)])| == Run(t)
  {
    var q := RunValues(t);
  }

  /** DO_LAX asks only that no bits are left over. */
  lemma LaxVerdict(illegalPads: bool, s: string, pad: Padding)
    requires pad != PadYes
    ensures Accepted(ReadAny(illegalPads, s), pad, TermChar) <==> LeftOver(Values(s)) == 0
  {
    hide Values, Classify, PadsAfter;
    var q := Values(s);
    if |q| % 4 == 0 {
      Groups(q, []);
      assert q + [] == q && LeftOver([]) == 0;
    }
  }

  // ---------- The decoder ----------

  /** GetNextQuantum: the four values (filled up with zeros), how many there are, and the position
      after rolling back pads that do not complete the group. */
  method GetNextQuantum(parse: Parse, illegalPads: bool, data: string, from: nat)
    returns (qlen: nat, qbuf: seq<Sextet>, dpos: nat, padded: bool)
    requires from <= |data|
    ensures var r := ScanFrom(parse, illegalPads, data, Scan(from, [], 0, 0));
            && qlen == |r.q| && qbuf == r.q + seq(4 - |r.q|, _ => 0)
            && (padded <==> |r.q| + r.padLen == 4)
            && dpos == if !padded && r.padLen > 0 then r.padStart else r.pos
  {
    hide Classify;
    var s := Scan(from, [], 0, 0);
    while |s.q| < 4 && s.pos < |data|
      invariant s.pos <= |data| && |s.q| <= 4
      invariant ScanFrom(parse, illegalPads, data, s) == ScanFrom(parse, illegalPads, data, Scan(from, [], 0, 0))
      decreases |data| - s.pos
    {
      ghost var next := NextScan(parse, illegalPads, data[s.pos], s);
      var c := Classify(data[s.pos]);
      if c == Illegal || (illegalPads && c == Pad) {
        if parse != ParseAny {
          break;
        }
        s := s.(pos := s.pos + 1);
      } else if c == Space {
        if parse == ParseStrict {
          break;
        }
        s := s.(pos := s.pos + 1);
      } else if c == Pad {
        if |s.q| < 2 || |s.q| + s.padLen >= 4 {
          if parse != ParseAny {
            break;
          }
          s := s.(pos := s.pos + 1);
        } else {
          s := Scan(s.pos + 1, s.q, s.padLen + 1, if s.padLen == 0 then s.pos else s.padStart);
        }
      } else {
        if s.padLen > 0 && parse != ParseAny {
          break;
        }
        s := Scan(s.pos + 1, s.q + [c.v], 0, s.padStart);
      }
      assert s == next;
    }
    qlen, qbuf := |s.q|, s.q + seq(4 - |s.q|, _ => 0);
    padded := |s.q| + s.padLen == 4;
    dpos := if !padded && s.padLen > 0 then s.padStart else s.pos;
  }

  /** What one quantum adds to the result, and its left-over bits. */
  method DecodeQuantum(qlen: nat, qbuf: seq<Sextet>) returns (bytes: seq<Byte>, c: nat)
    requires qlen <= 4 == |qbuf| && forall i :: qlen <= i < 4 ==> qbuf[i] == 0
    ensures bytes == Regroup(qbuf[..qlen])
    ensures c == LeftOver(qbuf[..qlen])
    ensures qlen == 2 ==> c == (qbuf[1] as nat) % 16 * 16
    ensures qlen == 3 ==> c == (qbuf[2] as nat) % 4 * 64
    ensures qlen == 4 ==> c == 0
  {
    DecoderBytes(qbuf[0], qbuf[1], qbuf[2], qbuf[3]);
    bytes := [];
    var q0: nat, q1: nat, q2: nat, q3: nat := qbuf[0], qbuf[1], qbuf[2], qbuf[3];
    c := q0 * 4 + q1 / 16;
    if qlen >= 2 {
      bytes := bytes + [c];
      c := q1 % 16 * 16 + q2 / 4;
      if qlen >= 3 {
        bytes := bytes + [c];
        c := q2 % 4 * 64 + q3;
        if qlen >= 4 {
          bytes := bytes + [c];
          c := 0;
        }
      }
    }
  }

  predicate Bounded(s: Scan) {
    |s.q| + s.padLen <= 4 && (s.padLen > 0 ==> s.padStart < s.pos)
  }

  lemma NextScanBounds(parse: Parse, illegalPads: bool, c: char, s: Scan)
    requires Bounded(s) && |s.q| < 4
    ensures Bounded(NextScan(parse, illegalPads, c, s))
  {
    hide Classify;
  }

  lemma {:induction false} ScanBounds(parse: Parse, illegalPads: bool, data: string, s: Scan)
    requires s.pos <= |data| && |s.q| <= 4 && Bounded(s)
    ensures var r := ScanFrom(parse, illegalPads, data, s);
            Bounded(r) && |r.q| - |s.q| <= r.pos - s.pos
    decreases |data| - s.pos
  {
    hide NextScan, Bounded;
    if |s.q| < 4 && s.pos < |data| {
      var next := NextScan(parse, illegalPads, data[s.pos], s);
      NextScanBounds(parse, illegalPads, data[s.pos], s);
      if next.pos > s.pos {
        ScanBounds(parse, illegalPads, data, next);
      }
    }
  }

  lemma RegroupFour(q: seq<Sextet>, rest: seq<Sextet>)
    requires |q| == 4
    ensures Regroup(q + rest) == Regroup(q) + Regroup(rest)
  {
    hide Octets, Word4;
    assert (q + rest)[4..] == rest && q[4..] == [];
    assert Regroup([]) == [];
  }

  lemma LeftOverFour(q: seq<Sextet>, rest: seq<Sextet>)
    requires |q| == 4
    ensures LeftOver(q + rest) == LeftOver(rest)
  {
    assert (q + rest)[4..] == rest;
  }

  /** DecodeFromArray.  For every combination of flags: the bytes are the values read from the text,
      regrouped; the verdict is that of `Accepted`; and the position is the end of the text exactly
      when all of it was used.  In particular DO_STRICT succeeds exactly on the encodings, and then
      returns what was encoded; so it does with DO_PARSE_WHITE instead, apart from white space, which
      may not follow a last group that has no pad; and DO_LAX succeeds exactly when no bits are left
      over. */
  method DecodeFromArray(data: string, parse: Parse, pad: Padding, term: Term)
    returns (success: bool, result: seq<Byte>, used: nat)
    ensures var r := ReadText(parse, pad == PadNo, data);
            && (success <==> Accepted(r, pad, term)) && result == Regroup(r.values)
            && used <= |data| && (used == |data| <==> r.whole)
    ensures parse == ParseStrict && pad == PadYes && term == TermBuffer ==>
              (success <==> Canonical(data)) && (success ==> Encode(result) == data)
    ensures parse == ParseWhite && pad == PadYes && term == TermBuffer ==>
              (success <==> WhiteCanonical(data)) && (success ==> Encode(result) == Strip(data))
    ensures parse == ParseAny ==> result == Regroup(Values(data))
    ensures parse == ParseAny && pad != PadYes && term == TermChar ==> (success <==> LeftOver(Values(data)) == 0)
  {
    hide *;
    success, result, used := Decode(data, parse, pad, term);
    NamedVerdicts(data, parse, pad, term);
  }

  lemma NamedVerdicts(data: string, parse: Parse, pad: Padding, term: Term)
    ensures var r := ReadText(parse, pad == PadNo, data);
            && (parse == ParseStrict && pad == PadYes && term == TermBuffer ==>
                  && (Accepted(r, pad, term) <==> Canonical(data))
                  && (Canonical(data) ==> Encode(Regroup(r.values)) == data))
            && (parse == ParseWhite && pad == PadYes && term == TermBuffer ==>
                  && (Accepted(r, pad, term) <==> WhiteCanonical(data))
                  && (WhiteCanonical(data) ==> Encode(Regroup(r.values)) == Strip(data)))
            && (parse == ParseAny ==> r.values == Values(data))
            && (parse == ParseAny && pad != PadYes && term == TermChar ==>
                  (Accepted(r, pad, term) <==> LeftOver(Values(data)) == 0))
  {
    hide Accepted, Regroup, Encode, Values, LeftOver, Strip, Canonical, ReadStrict;
    match parse {
      case ParseStrict =>
        StrictVerdict(data);
        if Canonical(data) {
          CanonicalEncodes(data);
        }
      case ParseWhite =>
        WhiteVerdict(data);
        if Canonical(Strip(data)) {
          CanonicalEncodes(Strip(data));
        }
      case ParseAny =>
        if pad != PadYes {
          LaxVerdict(pad == PadNo, data, pad);
        }
    }
  }

  /** The decoder's loop. */
  method Decode(data: string, parse: Parse, pad: Padding, term: Term)
    returns (success: bool, result: seq<Byte>, used: nat)
    ensures var r := ReadText(parse, pad == PadNo, data);
            && (success <==> Accepted(r, pad, term)) && result == Regroup(r.values)
            && used <= |data| && (used == |data| <==> r.whole)
  {
    hide ReadText, Accepted, Regroup, LeftOver;
    ghost var prior: seq<Sextet>, rest: Reading := [], ReadText(parse, pad == PadNo, data);
    result, used, success := [], 0, true;
    NothingRead(parse, pad == PadNo, pad, term);
    assert data[0..] == data && [] + rest.values == rest.values;
    while used < |data|
      invariant used <= |data| && success && |prior| % 4 == 0 && result == Regroup(prior)
      invariant rest == ReadText(parse, pad == PadNo, data[used..])
      invariant ReadText(parse, pad == PadNo, data) == Behind(prior, rest)
      decreases |data| - used
    {
      var qlen, padded, c;
      ghost var q;
      qlen, result, used, padded, c, q := DecodeRound(data, parse, pad, used, result);
      if qlen < 4 {
        BehindGroups(prior, rest, pad, term);
        if term != TermAny && c != 0 {
          success := false;
        }
        if pad == PadYes && !padded {
          success := false;
        }
        if term == TermBuffer && used != |data| {
          success := false;
        }
        LastRound(rest, pad, term);
        return;
      }
      Groups(prior, q);
      rest := ReadText(parse, pad == PadNo, data[used..]);
      Appended(prior, q, rest);
      prior := prior + q;
    }
    assert data[used..] == "";
    BehindGroups(prior, rest, pad, term);
    Nothing(Regroup(prior));
  }

  lemma NothingRead(parse: Parse, illegalPads: bool, pad: Padding, term: Term)
    ensures ReadText(parse, illegalPads, "") == Reading([], 0, false, true)
    ensures Accepted(Reading([], 0, false, true), pad, term) && Regroup([]) == []
  {
    assert Values("") == [] && Run("") == 0 && PadRun("") == 0 && PadsAfter("") == 0 && Strip("") == "";
  }

  lemma LastRound(r: Reading, pad: Padding, term: Term)
    requires r.partial
    ensures Accepted(r, pad, term) <==>
            && (term == TermAny || LeftOver(r.values) == 0) && (pad == PadYes ==> Padded(r))
            && (term == TermBuffer ==> r.whole)
  {
  }

  lemma Appended(p: seq<Sextet>, q: seq<Sextet>, r: Reading)
    ensures Behind(p, Behind(q, r)) == Behind(p + q, r)
  {
    assert p + (q + r.values) == p + q + r.values;
  }

  lemma Nothing(x: seq<Byte>)
    ensures x + [] == x
  {
  }

  /** One round of the decoder's loop: `q` are the values of the group. */
  method DecodeRound(data: string, parse: Parse, pad: Padding, from: nat, before: seq<Byte>)
    returns (qlen: nat, result: seq<Byte>, next: nat, padded: bool, c: nat, ghost q: seq<Sextet>)
    requires from < |data|
    ensures qlen == |q| <= 4 && next <= |data| && (qlen == 4 ==> from < next)
    ensures result == before + Regroup(q) && c == LeftOver(q)
    ensures var r := ReadText(parse, pad == PadNo, data[from..]);
            if qlen == 4 then r == Behind(q, ReadText(parse, pad == PadNo, data[next..]))
            else r.values == q && r.partial && (r.whole <==> next == |data|) && (padded <==> Padded(r))
  {
    hide Classify, Regroup, ReadText, ScanFrom, LeftOver;
    ScanBounds(parse, pad == PadNo, data, Scan(from, [], 0, 0));
    ReadRound(parse, pad == PadNo, data, from);
    q := ScanFrom(parse, pad == PadNo, data, Scan(from, [], 0, 0)).q;
    var qbuf, bytes;
    qlen, qbuf, next, padded := GetNextQuantum(parse, pad == PadNo, data, from);
    bytes, c := DecodeQuantum(qlen, qbuf);
    assert qbuf[..qlen] == q;
    result := before + bytes;
  }

  // ---------- Regrouping, bit by bit ----------

  function Pow2(n: nat): (p: nat)
    ensures p > 0
  {
    if n == 0 then 1 else 2 * Pow2(n - 1)
  }

  /** The `n` low bits of a number, most significant first. */
  function Bits(v: nat, n: nat): (r: seq<bool>)
    ensures |r| == n
  {
    if n == 0 then [] else Bits(v / 2, n - 1) + [v % 2 == 1]
  }

  lemma {:induction false} BitsSplit(h: nat, l: nat, m: nat, n: nat)
    requires l < Pow2(n)
    ensures Bits(h * Pow2(n) + l, m + n) == Bits(h, m) + Bits(l, n)
    decreases n
  {
    if n == 0 {
      assert h * Pow2(n) + l == h && Bits(h, m) + [] == Bits(h, m);
    } else {
      var x := h * Pow2(n - 1);
      assert h * Pow2(n) == 2 * x by { Doubled(h, Pow2(n - 1)); }
      assert (2 * x + l) / 2 == x + l / 2 && (2 * x + l) % 2 == l % 2;
      hide Pow2;
      HalfBelow(l, n);
      BitsSplit(h, l / 2, m, n - 1);
    }
  }

  lemma Doubled(h: nat, p: nat)
    ensures h * (2 * p) == 2 * (h * p)
  {
  }

  lemma HalfBelow(l: nat, n: nat)
    requires n > 0 && l < Pow2(n)
    ensures l / 2 < Pow2(n - 1)
  {
  }

  lemma Powers()
    ensures Pow2(2) == 4 && Pow2(4) == 16 && Pow2(6) == 64 && Pow2(8) == 256 && Pow2(10) == 1024 && Pow2(12) == 4096
    ensures Pow2(16) == 65536 && Pow2(18) == 262144
  {
    assert Pow2(4) == 16;
    assert Pow2(8) == 16 * Pow2(4);
    assert Pow2(12) == 16 * Pow2(8);
    assert Pow2(16) == 16 * Pow2(12);
  }

  function SextetBits(q: seq<Sextet>): (r: seq<bool>)
    ensures |r| == 6 * |q|
  {
    if q == [] then [] else Bits(q[0], 6) + SextetBits(q[1..])
  }

  function OctetBits(b: seq<Byte>): (r: seq<bool>)
    ensures |r| == 8 * |b|
  {
    if b == [] then [] else Bits(b[0], 8) + OctetBits(b[1..])
  }

  /** 24 bits, in sixes and in eights. */
  lemma WordBits(p: Sextet, q: Sextet, r: Sextet, s: Sextet)
    ensures Bits(p, 6) + (Bits(q, 6) + (Bits(r, 6) + Bits(s, 6))) == Bits(Word4(p, q, r, s), 24)
  {
    Powers();
    hide Bits, Pow2;
    BitsSplit(r, s, 6, 6);
    BitsSplit(q, 64 * r + s, 6, 12);
    BitsSplit(p, 4096 * q + 64 * r + s, 6, 18);
  }

  lemma WordOctetBits(w: nat)
    requires w < 16777216
    ensures Bits(w, 24) == Bits(w / 65536, 8) + (Bits(w / 256 % 256, 8) + Bits(w % 256, 8))
  {
    Powers();
    hide Bits, Pow2;
    var a, b, c := w / 65536, w / 256 % 256, w % 256;
    DivMod(w / 256, 256, a, b) by { assert w / 256 == 256 * a + b; }
    BitsSplit(b, c, 8, 8);
    BitsSplit(a, 256 * b + c, 8, 16);
  }

  lemma FourBits(q: seq<Sextet>)
    requires |q| == 4
    ensures SextetBits(q) == Bits(Word4(q[0], q[1], q[2], q[3]), 24)
  {
    WordBits(q[0], q[1], q[2], q[3]);
    hide Bits, Word4;
    assert q[1..][1..] == q[2..] && q[2..][1..] == q[3..] && q[3..][1..] == [];
    assert SextetBits(q[3..]) == Bits(q[3], 6) + [];
    assert SextetBits(q[2..]) == Bits(q[2], 6) + SextetBits(q[3..]);
    assert SextetBits(q[1..]) == Bits(q[1], 6) + SextetBits(q[2..]);
  }

  lemma ThreeBits(w: nat)
    requires w < 16777216
    ensures OctetBits(Octets(w)) == Bits(w, 24)
  {
    WordOctetBits(w);
    hide Bits;
    var b := Octets(w);
    assert b[1..][1..] == b[2..] && b[2..][1..] == [];
    assert OctetBits(b[2..]) == Bits(b[2], 8) + [];
    assert OctetBits(b[1..]) == Bits(b[1], 8) + OctetBits(b[2..]);
  }

  lemma {:induction false} OctetBitsConcat(a: seq<Byte>, b: seq<Byte>)
    ensures OctetBits(a + b) == OctetBits(a) + OctetBits(b)
    decreases |a|
  {
    hide Bits;
    if a == [] {
      assert a + b == b && [] + OctetBits(b) == OctetBits(b);
    } else {
      OctetBitsConcat(a[1..], b);
      assert (a + b)[1..] == a[1..] + b;
      Regrouped(Bits(a[0], 8), OctetBits(a[1..]), OctetBits(b));
    }
  }

  lemma {:induction false} SextetBitsConcat(a: seq<Sextet>, b: seq<Sextet>)
    ensures SextetBits(a + b) == SextetBits(a) + SextetBits(b)
    decreases |a|
  {
    hide Bits;
    if a == [] {
      assert a + b == b && [] + SextetBits(b) == SextetBits(b);
    } else {
      SextetBitsConcat(a[1..], b);
      assert (a + b)[1..] == a[1..] + b;
      Regrouped(Bits(a[0], 6), SextetBits(a[1..]), SextetBits(b));
    }
  }

  /** Up to three left-over sextets, filled up with zeros and regrouped. */
  lemma TailBits(q: seq<Sextet>)
    requires |q| < 4
    ensures |Regroup(q)| == 6 * |q| / 8 && OctetBits(Regroup(q)) == SextetBits(q)[..8 * |Regroup(q)|]
  {
    hide Bits, SextetBits, OctetBits, Regroup;
    var fill: seq<Sextet> := seq(4 - |q|, _ => 0);
    FilledBits(q, fill, 6 * |q| / 8);
  }

  lemma FilledBits(q: seq<Sextet>, fill: seq<Sextet>, n: nat)
    requires |q| + |fill| == 4 && |q| < 4 && n == 6 * |q| / 8 && forall i :: 0 <= i < |fill| ==> fill[i] == 0
    ensures |Regroup(q)| == n && OctetBits(Regroup(q)) == SextetBits(q)[..8 * n]
  {
    var full := q + fill;
    hide Bits, SextetBits, OctetBits, Regroup, Octets, Word4;
    var w := Word4(full[0], full[1], full[2], full[3]);
    var b := Octets(w);
    RegroupTail(q, full);
    FourBits(full);
    ThreeBits(w);
    SextetBitsConcat(q, fill);
    OctetBitsConcat(b[..n], b[n..]);
    assert b == b[..n] + b[n..];
    PrefixOf(OctetBits(b[..n]), OctetBits(b[n..]), 8 * n);
    PrefixOf(SextetBits(q), SextetBits(fill), 8 * n);
  }

  lemma PrefixOf(x: seq<bool>, y: seq<bool>, n: nat)
    requires n <= |x|
    ensures (x + y)[..n] == x[..n] && (n == |x| ==> x[..n] == x)
  {
  }

  lemma RegroupTail(q: seq<Sextet>, full: seq<Sextet>)
    requires |q| < 4 == |full| && q == full[..|q|] && forall i :: |q| <= i < 4 ==> full[i] == 0
    ensures |Octets(Word4(full[0], full[1], full[2], full[3]))| == 3
    ensures Regroup(q) == Octets(Word4(full[0], full[1], full[2], full[3]))[..6 * |q| / 8]
  {
    hide Octets, Word4, Regroup;
    OctetsThree(Word4(full[0], full[1], full[2], full[3]));
    RegroupShort(q);
  }

  lemma RegroupShort(q: seq<Sextet>)
    requires |q| < 4
    ensures Regroup(q) == if |q| == 3 then Octets(Word4(q[0], q[1], q[2], 0))[..2]
                          else if |q| == 2 then Octets(Word4(q[0], q[1], 0, 0))[..1] else []
  {
  }

  lemma OctetsThree(w: nat)
    requires w < 16777216
    ensures |Octets(w)| == 3
  {
  }

  /** The decoded bytes are the bits of the alphabet characters, six each, cut down to whole bytes:
      floor(6n / 8) of them. */
  lemma {:induction false} RegroupIsBits(q: seq<Sextet>)
    ensures |Regroup(q)| == 6 * |q| / 8
    ensures OctetBits(Regroup(q)) == SextetBits(q)[..8 * |Regroup(q)|]
    decreases |q|
  {
    if |q| < 4 {
      TailBits(q);
    } else {
      var head, rest := q[..4], q[4..];
      RegroupIsBits(rest);
      FourBits(head);
      ThreeBits(Word4(q[0], q[1], q[2], q[3]));
      var b := Octets(Word4(q[0], q[1], q[2], q[3]));
      assert |b| == 3 && Regroup(q) == b + Regroup(rest);
      hide Bits, SextetBits, OctetBits, Regroup, Octets, Word4;
      assert q == head + rest;
      SextetBitsConcat(head, rest);
      OctetBitsConcat(b, Regroup(rest));
      PrefixJoin(OctetBits(b), SextetBits(rest), 8 * |Regroup(rest)|);
    }
  }

  lemma PrefixJoin(x: seq<bool>, y: seq<bool>, n: nat)
    requires n <= |y|
    ensures (x + y)[..|x| + n] == x + y[..n]
  {
  }
}
