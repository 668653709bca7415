/** Characters, lines and numbers as the HTTP code reads and writes them. */
module HttpText {

  datatype Option<+T> = None | Some(value: T)

  datatype HttpError =
    | HE_NONE
    | HE_PROTOCOL
    | HE_DISCONNECTED
    | HE_OVERFLOW
    | HE_CONNECT_FAILED
    | HE_SOCKET_ERROR
    | HE_SHUTDOWN
    | HE_OPERATION_CANCELLED
    | HE_AUTH
    | HE_CERTIFICATE_EXPIRED
    | HE_STREAM
    | HE_CACHE
    | HE_DEFAULT

  datatype Header = Header(name: string, value: string)

  // size_t is taken as 32 bits wide.
  const SIZE_LIMIT := 0x1_0000_0000
  type Size = x: nat | x < SIZE_LIMIT
  const SIZE_UNKNOWN: Size := 0xFFFF_FFFF

  const CRLF := "\r\n"

  predicate IsSpace(c: char) {
    c == ' ' || '\t' <= c <= '\r'
  }

  /** isspace: blank, tab, line feed, vertical tab, form feed, carriage return. */
  lemma SpaceIs(c: char)
    ensures IsSpace(c) <==> c in [' ', '\t', '\n', 11 as char, 12 as char, '\r']
  {
  }

  const UPPER := "ABCDEFGHIJKLMNOPQRSTUVWXYZ"
  const LOWER := "abcdefghijklmnopqrstuvwxyz"

  lemma Letters(i: nat)
    requires i < 26
    ensures UPPER[i] == 'A' + i as char && LOWER[i] == 'a' + i as char
  {
  }

  lemma ToLowerIs(c: char)
    ensures if c in UPPER then exists i :: 0 <= i < 26 && UPPER[i] == c && ToLower(c) == LOWER[i] else ToLower(c) == c
  {
    if 'A' <= c <= 'Z' {
      Letters((c - 'A') as int);
    }
  }

  function ToLower(c: char): char {
    if 'A' <= c <= 'Z' then c + 32 as char else c
  }

  function Lower(s: string): (r: string)
    ensures |r| == |s|
  {
    seq(|s|, i requires 0 <= i < |s| => ToLower(s[i]))
  }

  /** `_strnicmp` over two texts of the same length. */
  predicate SameText(a: string, b: string) {
    Lower(a) == Lower(b)
  }

  function TrimRight(s: string): (r: string)
    ensures r <= s
    ensures r == [] || !IsSpace(r[|r| - 1])
    ensures forall i :: |r| <= i < |s| ==> IsSpace(s[i])
  {
    if s != [] && IsSpace(s[|s| - 1]) then TrimRight(s[..|s| - 1]) else s
  }

  function TrimLeft(s: string): (r: string)
    ensures |r| <= |s| && r == s[|s| - |r|..]
    ensures r == [] || !IsSpace(r[0])
  {
    if s != [] && IsSpace(s[0]) then TrimLeft(s[1..]) else s
  }

  /** `strchrn(line, len, ':')`: the first colon, unless a NUL comes first. */
  function FindColon(s: string): (r: Option<nat>)
    ensures r.Some? ==> r.value < |s| && s[r.value] == ':' && ':' !in s[..r.value]
  {
    if s == [] || s[0] == '\0' then None
    else if s[0] == ':' then Some(0)
    else match FindColon(s[1..])
      case None => None
      case Some(i) => Some(i + 1)
  }

  predicate ColonAt(s: string, k: nat) {
    k < |s| && s[k] == ':' && ':' !in s[..k] && '\0' !in s[..k]
  }

  lemma {:induction false} FindColonIff(s: string, k: nat)
    ensures FindColon(s) == Some(k) <==> ColonAt(s, k)
    decreases |s|
  {
    if s != [] {
      if k > 0 {
        FindColonIff(s[1..], k - 1);
        assert k <= |s| ==> s[..k] == [s[0]] + s[1..][..k - 1];
      }
    }
  }

  lemma {:induction false} FindColonIn(name: string, tail: string)
    requires ':' !in name && '\0' !in name
    ensures FindColon(name + ":" + tail) == Some(|name|)
  {
    if name == [] {
      assert (name + ":" + tail)[0] == ':';
    } else {
      FindColonIn(name[1..], tail);
      assert (name + ":" + tail)[1..] == name[1..] + ":" + tail;
    }
  }

  /** What `%.*s` takes of a text: everything before the first NUL. */
  function Cut(s: string): (r: string)
    ensures r <= s && (r == s <==> '\0' !in s)
  {
    if s == [] || s[0] == '\0' then [] else [s[0]] + Cut(s[1..])
  }

  /** Pieces of a text, put together. */
  function Joined(pieces: seq<string>): string {
    if pieces == [] then "" else Joined(pieces[..|pieces| - 1]) + pieces[|pieces| - 1]
  }

  lemma JoinedStep(pieces: seq<string>, bytes: string)
    ensures Joined(pieces + [bytes]) == Joined(pieces) + bytes
  {
    assert (pieces + [bytes])[..|pieces|] == pieces;
  }

  // Hexadecimal

  const DIGITS := "0123456789abcdef"

  predicate IsHex(c: char) {
    '0' <= c <= '9' || 'a' <= c <= 'f' || 'A' <= c <= 'F'
  }

  function HexDigit(c: char): (d: nat)
    requires IsHex(c)
    ensures d < 16 && DIGITS[d] == ToLower(c)
  {
    if c <= '9' then (c - '0') as int
    else if c <= 'F' then (c - 'A') as int + 10
    else (c - 'a') as int + 10
  }

  function HexChar(d: nat): (c: char)
    requires d < 16
    ensures IsHex(c) && HexDigit(c) == d && c == DIGITS[d]
  {
    if d < 10 then '0' + d as char else 'a' + (d - 10) as char
  }

  predicate AllHex(s: string) {
    forall c :: c in s ==> IsHex(c)
  }

  function HexValue(s: string): (n: nat)
    requires AllHex(s)
  {
    if s == [] then 0 else 16 * HexValue(s[..|s| - 1]) + HexDigit(s[|s| - 1])
  }

  /** `sprintf("%.*x", width, n)` for an `n` that needs at most `width` digits. */
  function HexFixed(n: nat, width: nat): (s: string)
    ensures |s| == width && AllHex(s)
  {
    if width == 0 then [] else HexFixed(n / 16, width - 1) + [HexChar(n % 16)]
  }

  function Pow16(k: nat): (p: nat)
    ensures p > 0
  {
    if k == 0 then 1 else 16 * Pow16(k - 1)
  }

  lemma {:induction false} HexFixedValue(n: nat, width: nat)
    requires n < Pow16(width)
    ensures HexValue(HexFixed(n, width)) == n
  {
    if width > 0 {
      HexFixedValue(n / 16, width - 1);
      assert HexFixed(n, width)[..width - 1] == HexFixed(n / 16, width - 1);
    }
  }

  function HexRun(s: string): (n: nat)
    ensures n <= |s| && AllHex(s[..n])
    ensures n < |s| ==> !IsHex(s[n])
  {
    if s != [] && IsHex(s[0]) then
      var n := HexRun(s[1..]);
      assert s[..n + 1] == [s[0]] + s[1..][..n];
      n + 1
    else 0
  }

  lemma HexRunAll(s: string)
    ensures HexRun(s) == |s| <==> AllHex(s)
  {
    assert s[..|s|] == s;
    if HexRun(s) < |s| {
      assert s[HexRun(s)] in s;
    }
  }

  /** What C's conversions make of a magnitude and a sign: values out of range saturate, a minus
      sign negates modulo the word size. */
  function Saturate(v: nat, negative: bool): Size {
    if v >= SIZE_LIMIT then SIZE_UNKNOWN else if negative then (SIZE_LIMIT - v) % SIZE_LIMIT else v
  }

  /** A leading "0x" in front of a digit is passed over. */
  function SkipPrefix(s: string): string {
    if |s| > 2 && s[0] == '0' && (s[1] == 'x' || s[1] == 'X') && IsHex(s[2]) then s[2..] else s
  }

  /** A sign in front, and what follows it. */
  function Signed(s: string): (bool, string) {
    var negative := s != [] && s[0] == '-';
    (negative, if negative || (s != [] && s[0] == '+') then s[1..] else s)
  }

  /** `strtoul(line, &end, 16)`: the value read, and whether the conversion used the whole line.
      Without a digit the value is 0 and nothing is used. */
  function ChunkSizeOf(line: string): (r: (Size, bool))
  {
    var (negative, unsigned) := Signed(TrimLeft(line));
    var digits := SkipPrefix(unsigned);
    var n := HexRun(digits);
    (Saturate(HexValue(digits[..n]), negative), 0 < n == |digits|)
  }

  lemma HexAt(s: string, i: nat)
    requires AllHex(s) && i < |s|
    ensures IsHex(s[i])
  {
    assert s[i] in s;
  }

  lemma HexStart(s: string)
    requires s != [] && AllHex(s)
    ensures s[0] != '-' && s[0] != '+' && TrimLeft(s) == s && SkipPrefix(s) == s
  {
    hide AllHex;
    HexAt(s, 0);
    if |s| > 1 {
      HexAt(s, 1);
    }
  }

  /** A line of nothing but digits. */
  lemma PlainHex(s: string)
    requires s != [] && AllHex(s) && HexValue(s) < SIZE_LIMIT
    ensures ChunkSizeOf(s) == (HexValue(s), true)
  {
    HexRunAll(s);
    HexStart(s);
    hide HexValue, HexRun, AllHex, IsHex, TrimLeft, SkipPrefix;
    assert s[..|s|] == s;
  }

  /** The line that `flush_data` writes before a chunk reads back as the chunk's size. */
  lemma ChunkSizeRoundTrip(n: Size)
    ensures ChunkSizeOf(HexFixed(n, 8)) == (n, true)
  {
    hide ChunkSizeOf, HexValue;
    assert Pow16(8) == SIZE_LIMIT by {
      assert Pow16(2) == 256;
      assert Pow16(4) == 65536;
      assert Pow16(6) == 16777216;
    }
    HexFixedValue(n, 8);
    PlainHex(HexFixed(n, 8));
  }

  lemma TrimNothing(t: string)
    requires t != "" && !IsSpace(t[0])
    ensures TrimLeft(t) == t
  {
  }

  lemma SignMark(c: char, t: string)
    requires c == '+' || c == '-'
    ensures Signed([c] + t) == (c == '-', t)
  {
    assert ([c] + t)[1..] == t;
  }

  lemma SignNone(t: string)
    requires t != "" && t[0] != '+' && t[0] != '-'
    ensures Signed(t) == (false, t)
  {
  }

  lemma PrefixSkipped(x: char, s: string)
    requires (x == 'x' || x == 'X') && s != "" && IsHex(s[0])
    ensures SkipPrefix(['0', x] + s) == s
  {
    assert (['0', x] + s)[2..] == s && (['0', x] + s)[2] == s[0];
  }

  lemma ChunkIs(line: string, negative: bool, unsigned: string, s: string)
    requires Signed(TrimLeft(line)) == (negative, unsigned) && SkipPrefix(unsigned) == s && s != "" && AllHex(s)
    ensures ChunkSizeOf(line) == (Saturate(HexValue(s), negative), true)
  {
    HexRunAll(s);
    hide Signed, TrimLeft, SkipPrefix, HexRun, AllHex, HexValue;
    assert s[..|s|] == s;
  }

  lemma SignedForm(c: char, s: string)
    requires s != "" && AllHex(s) && (c == '+' || c == '-')
    ensures ChunkSizeOf([c] + s) == (Saturate(HexValue(s), c == '-'), true)
  {
    hide HexValue, AllHex, SkipPrefix, TrimLeft, Signed, ChunkSizeOf, Saturate, IsHex;
    HexStart(s);
    SignMark(c, s);
    TrimNothing([c] + s);
    ChunkIs([c] + s, c == '-', s, s);
  }

  lemma PrefixForm(x: char, s: string)
    requires s != "" && AllHex(s) && (x == 'x' || x == 'X')
    ensures ChunkSizeOf(['0', x] + s) == (Saturate(HexValue(s), false), true)
  {
    hide HexValue, AllHex, SkipPrefix, TrimLeft, Signed, ChunkSizeOf, Saturate, IsHex;
    HexAt(s, 0);
    PrefixSkipped(x, s);
    TrimNothing(['0', x] + s);
    SignNone(['0', x] + s);
    ChunkIs(['0', x] + s, false, ['0', x] + s, s);
  }

  lemma SpaceForm(c: char, s: string)
    requires s != "" && AllHex(s) && IsSpace(c)
    ensures ChunkSizeOf([c] + s) == ChunkSizeOf(s) == (Saturate(HexValue(s), false), true)
  {
    hide HexValue, AllHex, SkipPrefix, TrimLeft, Signed, ChunkSizeOf, Saturate, IsHex, IsSpace;
    HexStart(s);
    SignNone(s);
    TrimOne(c, s);
    ChunkIs(s, false, s, s);
    ChunkIs([c] + s, false, s, s);
  }

  /** What may come before the digits: a blank, a sign, "0x".  Values of 33 bits and more saturate, and
      a minus sign negates in 32 bits. */
  lemma ChunkForms(s: string, x: char, c: char)
    requires s != "" && AllHex(s) && (x == 'x' || x == 'X') && IsSpace(c)
    ensures var v := HexValue(s);
            && ChunkSizeOf(s) == (if v < 0x1_0000_0000 then v else 0xFFFF_FFFF, true)
            && ChunkSizeOf(['+'] + s) == ChunkSizeOf(['0', x] + s) == ChunkSizeOf([c] + s) == ChunkSizeOf(s)
            && ChunkSizeOf(['-'] + s) ==
               (if v == 0 then 0 else if v < 0x1_0000_0000 then 0x1_0000_0000 - v else 0xFFFF_FFFF, true)
  {
    hide HexValue, AllHex, ChunkSizeOf, IsHex, IsSpace;
    SignedForm('+', s);
    SignedForm('-', s);
    PrefixForm(x, s);
    SpaceForm(c, s);
  }

  lemma TrimOne(c: char, s: string)
    requires IsSpace(c)
    ensures TrimLeft([c] + s) == TrimLeft(s)
  {
    assert ([c] + s)[1..] == s;
  }

  lemma {:induction false} HexRunStops(s: string, c: char, more: string)
    requires AllHex(s) && !IsHex(c)
    ensures HexRun(s + [c] + more) == |s|
    decreases |s|
  {
    if s == [] {
      assert (s + [c] + more)[0] == c;
    } else {
      HexAt(s, 0);
      HexTail(s);
      HexRunStops(s[1..], c, more);
      assert (s + [c] + more)[1..] == s[1..] + [c] + more;
    }
  }

  lemma HexTail(s: string)
    requires AllHex(s) && s != []
    ensures AllHex(s[1..])
  {
    assert s == [s[0]] + s[1..];
  }

  /** Anything behind the digits is noticed. */
  lemma ChunkGarbage(s: string, c: char, more: string)
    requires s != "" && AllHex(s) && !IsHex(c) && c != 'x' && c != 'X'
    ensures !ChunkSizeOf(s + [c] + more).1
  {
    HexRunStops(s, c, more);
    HexAt(s, 0);
    var t := s + [c] + more;
    NoPrefix(s, c, more);
    hide HexValue, HexRun, AllHex, SkipPrefix, TrimLeft, Signed;
    TrimNothing(t);
    SignNone(t);
  }

  lemma NoPrefix(s: string, c: char, more: string)
    requires s != "" && AllHex(s) && !IsHex(c) && c != 'x' && c != 'X'
    ensures SkipPrefix(s + [c] + more) == s + [c] + more
  {
    hide AllHex;
    if |s| > 1 {
      HexAt(s, 1);
    }
  }

  // Decimal, for Content-Length

  predicate IsDigit(c: char) {
    '0' <= c <= '9'
  }

  function DigitRun(s: string): (n: nat)
    ensures n <= |s|
    ensures forall i :: 0 <= i < n ==> IsDigit(s[i])
    ensures n < |s| ==> !IsDigit(s[n])
  {
    if s != [] && IsDigit(s[0]) then 1 + DigitRun(s[1..]) else 0
  }

  function DecValue(s: string): (n: nat)
    requires forall i :: 0 <= i < |s| ==> IsDigit(s[i])
  {
    if s == [] then 0 else
      assert IsDigit(s[|s| - 1]);
      10 * DecValue(s[..|s| - 1]) + (s[|s| - 1] - '0') as int
  }

  /** `sscanf(value, "%u", ...)` on a value that starts with a non-space: an optional sign and
      the longest run of digits, saturating; None when there is no digit. */
  function ScanUnsigned(value: string): (r: Option<Size>)
  {
    var (negative, digits) := Signed(value);
    var n := DigitRun(digits);
    if n == 0 then None else Some(Saturate(DecValue(digits[..n]), negative))
  }

  /** A number in decimal, by repeated division. */
  function Decimal(n: nat): (s: string)
    ensures s != "" && forall i :: 0 <= i < |s| ==> IsDigit(s[i])
  {
    if n < 10 then [DIGITS[n]] else Decimal(n / 10) + [DIGITS[n % 10]]
  }

  lemma DigitIs(d: nat)
    requires d < 10
    ensures IsDigit(DIGITS[d]) && (DIGITS[d] - '0') as int == d
  {
  }

  lemma {:induction false} DecimalValue(n: nat)
    ensures DecValue(Decimal(n)) == n
  {
    if n < 10 {
      DigitIs(n);
      assert Decimal(n)[..0] == "";
    } else {
      DecimalValue(n / 10);
      DigitIs(n % 10);
      assert Decimal(n)[..|Decimal(n)| - 1] == Decimal(n / 10);
    }
  }

  lemma {:induction false} DigitRunStops(s: string, more: string)
    requires (forall i :: 0 <= i < |s| ==> IsDigit(s[i])) && (more == "" || !IsDigit(more[0]))
    ensures DigitRun(s + more) == |s|
    decreases |s|
  {
    if s == "" {
      assert s + more == more;
    } else {
      DigitRunStops(s[1..], more);
      assert (s + more)[1..] == s[1..] + more;
    }
  }

  lemma ScanIs(value: string, negative: bool, n: nat, more: string)
    requires Signed(value) == (negative, Decimal(n) + more) && (more == "" || !IsDigit(more[0]))
    ensures ScanUnsigned(value) == Some(Saturate(n, negative))
  {
    DecimalValue(n);
    DigitRunStops(Decimal(n), more);
    hide Signed, DecValue, DigitRun, Decimal;
    assert (Decimal(n) + more)[..|Decimal(n)|] == Decimal(n);
  }

  /** A sign and digits, whatever comes after them. */
  lemma ScanForms(n: nat, more: string)
    requires more == "" || !IsDigit(more[0])
    ensures ScanUnsigned(Decimal(n) + more) == Some(if n < 0x1_0000_0000 then n else 0xFFFF_FFFF)
    ensures ScanUnsigned(['+'] + (Decimal(n) + more)) == ScanUnsigned(Decimal(n) + more)
    ensures ScanUnsigned(['-'] + (Decimal(n) + more)) ==
            Some(if n == 0 then 0 else if n < 0x1_0000_0000 then 0x1_0000_0000 - n else 0xFFFF_FFFF)
  {
    hide Signed, DecValue, DigitRun, Decimal, ScanUnsigned;
    var s := Decimal(n) + more;
    assert s[0] == Decimal(n)[0];
    SignNone(s);
    SignMark('+', s);
    SignMark('-', s);
    ScanIs(s, false, n, more);
    ScanIs(['+'] + s, false, n, more);
    ScanIs(['-'] + s, true, n, more);
  }

  /** There must be a digit, at once or after one sign. */
  lemma ScanNothing(value: string)
    ensures ScanUnsigned(value).None? <==>
            value == "" || !(IsDigit(value[0]) ||
                             ((value[0] == '+' || value[0] == '-') && |value| > 1 && IsDigit(value[1])))
  {
    hide DecValue;
    var d := Signed(value).1;
    assert d != "" ==> d[0] == value[0] || (|value| > 1 && d[0] == value[1]);
  }

  /** `sprintfn("%d", ...)` on a 32-bit size: from 2^31 on it comes out negative. */
  function FormatSize(n: Size): string {
    if n < 0x8000_0000 then Decimal(n) else ['-'] + Decimal(0x1_0000_0000 - n)
  }

  /** Every size that is announced is read back, even those that are written as negative numbers. */
  lemma ContentLengthRoundTrip(n: Size)
    ensures ScanUnsigned(FormatSize(n)) == Some(n)
  {
    hide Decimal, ScanUnsigned;
    var m := if n < 0x8000_0000 then n else 0x1_0000_0000 - n;
    ScanForms(m, "");
    assert Decimal(m) + "" == Decimal(m);
  }

  lemma FormatSizeClean(n: Size)
    ensures var s := FormatSize(n);
            s != "" && forall i :: 0 <= i < |s| ==> IsDigit(s[i]) || s[i] == '-'
  {
    hide Decimal;
  }
}
