/** `quote` and `HttpParseAttributes` of httpcommon.cc: writing and reading the attribute lists of
    authentication headers, with quoted strings (section 2.2 of RFC 2616). */
module HttpAttributes {
  import opened HttpText
  import opened Sequences

  datatype Attribute = Attribute(name: string, value: string)

  /** A piece read from the front of a text, and the rest of the text. */
  datatype Piece = Piece(text: string, rest: string)

  // ---------- Writing ----------

  function EscapeChar(c: char): string {
    if c == '"' || c == '\\' then ['\\', c] else [c]
  }

  function Escape(v: string): string {
    if v == "" then "" else Escape(v[..|v| - 1]) + EscapeChar(v[|v| - 1])
  }

  function Quote(v: string): string {
    "\"" + Escape(v) + "\""
  }

  /** quote */
  method QuoteString(str: string) returns (result: string)
    ensures result == Quote(str)
  {
    result := "\"";
    for i := 0 to |str|
      invariant result == "\"" + Escape(str[..i])
    {
      assert str[..i + 1][..i] == str[..i];
      Regrouped("\"", Escape(str[..i]), EscapeChar(str[i]));
      if str[i] == '"' || str[i] == '\\' {
        result := result + "\\";
      }
      result := result + [str[i]];
    }
    assert str[..|str|] == str;
    result := result + "\"";
  }

  function Pairs(attributes: seq<Attribute>): string
    decreases |attributes|, 1
  {
    if attributes == [] then "" else attributes[0].name + ("=" + Quote(attributes[0].value) + After(attributes))
  }

  /** What comes after the first pair. */
  function After(attributes: seq<Attribute>): string
    requires attributes != []
    decreases |attributes|, 0
  {
    if |attributes| == 1 then "" else ", " + Pairs(attributes[1..])
  }

  /** A challenge or response: the scheme, a space, and comma-separated name=quoted-value pairs. */
  function Compose(scheme: string, attributes: seq<Attribute>): string {
    scheme + " " + Pairs(attributes)
  }

  // ---------- Reading ----------

  /** IsEndOfAttributeName at the front of `s`. */
  predicate EndOfName(s: string) {
    s == "" || IsSpace(s[0]) || (|s| > 1 && s[0] == '=' && !IsSpace(s[1]) && s[1] != '=')
  }

  function NameOf(s: string): (p: Piece)
    ensures |p.text| + |p.rest| == |s|
    ensures p.text == "" <==> EndOfName(s)
    ensures p.text == "" ==> p.rest == s
  {
    if EndOfName(s) then Piece("", s)
    else
      var p := NameOf(s[1..]);
      Piece([s[0]] + p.text, p.rest)
  }

  /** The inside of a quoted string, up to and including the closing quote. */
  function QuotedOf(s: string): (p: Piece)
    ensures |p.rest| <= |s|
    decreases |s|
  {
    if s == "" then Piece("", "")
    else if s[0] == '"' then Piece("", s[1..])
    else if s[0] == '\\' && |s| > 1 then
      var p := QuotedOf(s[2..]);
      Piece([s[1]] + p.text, p.rest)
    else
      var p := QuotedOf(s[1..]);
      Piece([s[0]] + p.text, p.rest)
  }

  function TokenOf(s: string): (p: Piece)
    ensures |p.rest| <= |s|
  {
    if s == "" || IsSpace(s[0]) || s[0] == ',' then Piece("", s)
    else
      var p := TokenOf(s[1..]);
      Piece([s[0]] + p.text, p.rest)
  }

  function ValueOf(s: string): (p: Piece)
    ensures |p.rest| <= |s| && (s != "" && s[0] == '=' ==> |p.rest| < |s|)
  {
    if s == "" || s[0] != '=' then Piece("", s)
    else if |s| > 1 && s[1] == '"' then QuotedOf(s[2..])
    else TokenOf(s[1..])
  }

  function SkipComma(s: string): (r: string)
    ensures |r| <= |s|
  {
    if s != "" && s[0] == ',' then s[1..] else s
  }

  /** One attribute makes progress, so reading always comes to an end. */
  lemma Progress(s: string)
    requires s != "" && !IsSpace(s[0])
    ensures |SkipComma(ValueOf(NameOf(s).rest).rest)| < |s|
  {
  }

  function ParseText(s: string): (r: seq<Attribute>)
    decreases |s|
  {
    var t := TrimLeft(s);
    if t == "" then []
    else
      Progress(t);
      var name := NameOf(t);
      var value := ValueOf(name.rest);
      [Attribute(name.text, value.text)] + ParseText(SkipComma(value.rest))
  }

  // ---------- Round trip ----------

  predicate Token(s: string) {
    s != "" && forall i :: 0 <= i < |s| ==> !IsSpace(s[i]) && s[i] != '='
  }

  lemma {:induction false} NameBack(name: string, rest: string)
    requires (forall i :: 0 <= i < |name| ==> !IsSpace(name[i]) && name[i] != '=') && EndOfName(rest)
    ensures NameOf(name + rest) == Piece(name, rest)
    decreases |name|
  {
    if name == "" {
      assert name + rest == rest;
    } else {
      NameBack(name[1..], rest);
      assert (name + rest)[1..] == name[1..] + rest;
      assert [name[0]] + name[1..] == name;
    }
  }

  lemma {:induction false} EscapeStep(v: string)
    requires v != ""
    ensures Escape(v) == EscapeChar(v[0]) + Escape(v[1..])
    decreases |v|
  {
    if |v| == 1 {
      assert v[..0] == "" && v[1..] == "";
    } else {
      var front, last := v[..|v| - 1], v[|v| - 1];
      hide EscapeChar;
      EscapeStep(front);
      assert v[1..][..|v| - 2] == front[1..];
      Regrouped(EscapeChar(v[0]), Escape(front[1..]), EscapeChar(last));
    }
  }

  /** Whatever the value, reading its quoted form gives it back. */
  lemma {:induction false} QuotedBack(v: string, rest: string)
    ensures QuotedOf(Escape(v) + "\"" + rest) == Piece(v, rest)
    decreases |v|
  {
    if v == "" {
      assert "" + "\"" + rest == "\"" + rest;
      QuotedClose(rest);
    } else {
      hide QuotedOf, Escape, EscapeChar;
      EscapeStep(v);
      QuotedBack(v[1..], rest);
      QuotedStep(v[0], Escape(v[1..]) + "\"" + rest, v[1..], rest);
      Regrouped(EscapeChar(v[0]), Escape(v[1..]), "\"");
      Regrouped(EscapeChar(v[0]), Escape(v[1..]) + "\"", rest);
      assert [v[0]] + v[1..] == v;
    }
  }

  lemma QuotedClose(rest: string)
    ensures QuotedOf("\"" + rest) == Piece("", rest)
  {
    assert ("\"" + rest)[1..] == rest;
  }

  lemma QuotedStep(c: char, s: string, v: string, rest: string)
    requires QuotedOf(s) == Piece(v, rest)
    ensures QuotedOf(EscapeChar(c) + s) == Piece([c] + v, rest)
  {
    var t := EscapeChar(c) + s;
    if c == '"' || c == '\\' {
      assert t[2..] == s;
    } else {
      assert t[1..] == s;
    }
  }

  lemma ValueBack(v: string, rest: string)
    ensures ValueOf("=" + Quote(v) + rest) == Piece(v, rest) && EndOfName("=" + Quote(v) + rest)
  {
    hide QuotedOf, Escape;
    var tail := "=" + Quote(v) + rest;
    assert tail == "=\"" + (Escape(v) + "\"" + rest);
    assert tail[2..] == Escape(v) + "\"" + rest;
    QuotedBack(v, rest);
  }

  /** One pair, read off the front. */
  lemma PairBack(a: Attribute, tail: string, rest: string)
    requires Token(a.name) && tail == "=" + Quote(a.value) + rest
    ensures ParseText(a.name + tail) == [a] + ParseText(SkipComma(rest))
  {
    var t := a.name + tail;
    assert TrimLeft(t) == t;
    hide TrimLeft, NameOf, ValueOf, Quote, EndOfName, SkipComma;
    ValueBack(a.value, rest);
    NameBack(a.name, tail);
    OneAttribute(t, a, rest, SkipComma(rest));
  }

  lemma AfterComma(attributes: seq<Attribute>)
    requires attributes != []
    ensures SkipComma(After(attributes)) == if |attributes| == 1 then "" else " " + Pairs(attributes[1..])
  {
    hide Pairs;
  }

  lemma {:induction false} PairsBack(attributes: seq<Attribute>)
    requires forall a :: a in attributes ==> Token(a.name)
    ensures ParseText(Pairs(attributes)) == attributes && ParseText(" " + Pairs(attributes)) == attributes
    decreases |attributes|
  {
    hide Token, ParseText, Quote, SkipComma, After;
    SpaceSkipped(Pairs(attributes));
    NothingLeft();
    if attributes != [] {
      var a, more := attributes[0], attributes[1..];
      assert a in attributes && attributes == [a] + more;
      PairBack(a, "=" + Quote(a.value) + After(attributes), After(attributes));
      hide Pairs;
      AfterComma(attributes);
      if |attributes| > 1 {
        PairsBack(more);
      }
    }
  }

  lemma SpaceSkipped(s: string)
    ensures ParseText(" " + s) == ParseText(s)
  {
    assert (" " + s)[1..] == s;
    assert TrimLeft(" " + s) == TrimLeft(s);
  }

  lemma OneAttribute(t: string, a: Attribute, rest: string, next: string)
    requires t != "" && TrimLeft(t) == t && NameOf(t).text == a.name && ValueOf(NameOf(t).rest) == Piece(a.value, rest)
    requires next == SkipComma(rest)
    ensures ParseText(t) == [a] + ParseText(next)
  {
    hide TrimLeft, NameOf, ValueOf;
  }

  /** The parser undoes the printer, for all values. */
  lemma ComposeRoundTrip(scheme: string, attributes: seq<Attribute>)
    requires Token(scheme) && forall a :: a in attributes ==> Token(a.name)
    ensures ParseText(Compose(scheme, attributes)) == [Attribute(scheme, "")] + attributes
  {
    var rest := " " + Pairs(attributes);
    var t := Compose(scheme, attributes);
    assert t == scheme + rest && rest[0] == ' ';
    NameBack(scheme, rest);
    PairsBack(attributes);
    assert TrimLeft(t) == t;
    OneAttribute(t, Attribute(scheme, ""), rest, rest);
  }

  // ---------- Unquoted values ----------

  /** A value that needs no quotes: no white space, no comma, and a first character that does not change
      the meaning of the equals sign in front of it. */
  predicate Plain(v: string) {
    v != "" && v[0] != '"' && v[0] != '=' && forall i :: 0 <= i < |v| ==> !IsSpace(v[i]) && v[i] != ','
  }

  lemma {:induction false} TokenBack(v: string, rest: string)
    requires forall i :: 0 <= i < |v| ==> !IsSpace(v[i]) && v[i] != ','
    requires rest == "" || IsSpace(rest[0]) || rest[0] == ','
    ensures TokenOf(v + rest) == Piece(v, rest)
    decreases |v|
  {
    if v == "" {
      assert v + rest == rest;
    } else {
      TokenBack(v[1..], rest);
      assert (v + rest)[1..] == v[1..] + rest && [v[0]] + v[1..] == v;
    }
  }

  /** One name=token pair, read off the front of a list. */
  lemma PlainPairBack(a: Attribute, rest: string)
    requires Token(a.name) && Plain(a.value) && (rest == "" || rest[0] == ',')
    ensures ParseText(a.name + ("=" + a.value + rest)) == [a] + ParseText(SkipComma(rest))
  {
    var tail := "=" + a.value + rest;
    var t := a.name + tail;
    assert tail[1..] == a.value + rest && tail[1] == a.value[0];
    TokenBack(a.value, rest);
    assert ValueOf(tail) == Piece(a.value, rest) && EndOfName(tail);
    NameBack(a.name, tail);
    assert TrimLeft(t) == t;
    hide TrimLeft, NameOf, ValueOf, EndOfName, SkipComma;
    OneAttribute(t, a, rest, SkipComma(rest));
  }

  function PlainPairs(attributes: seq<Attribute>): string
    decreases |attributes|, 1
  {
    if attributes == [] then ""
    else attributes[0].name + ("=" + attributes[0].value + PlainRest(attributes))
  }

  function PlainRest(attributes: seq<Attribute>): string
    requires attributes != []
    decreases |attributes|, 0
  {
    if |attributes| == 1 then "" else ", " + PlainPairs(attributes[1..])
  }

  /** A list of name=token pairs is read back in order: a value ends at its comma. */
  lemma {:induction false} PlainPairsBack(attributes: seq<Attribute>)
    requires forall a :: a in attributes ==> Token(a.name) && Plain(a.value)
    ensures ParseText(PlainPairs(attributes)) == attributes
    decreases |attributes|
  {
    hide Token, Plain, ParseText, SkipComma;
    NothingLeft();
    if attributes != [] {
      var a, more := attributes[0], attributes[1..];
      assert a in attributes && attributes == [a] + more;
      PlainPairBack(a, PlainRest(attributes));
      CommaSkipped(PlainPairs(more));
      SpaceSkipped(PlainPairs(more));
      if |attributes| > 1 {
        PlainPairsBack(more);
      }
    }
  }

  lemma CommaSkipped(s: string)
    ensures SkipComma(", " + s) == " " + s && SkipComma("") == ""
  {
    assert (", " + s)[1..] == " " + s;
  }

  // ---------- Quoted strings of section 2.2 of RFC 2616 ----------

  /** A text without quotes and backslashes is quoted as it is; a quote or a backslash gets a backslash. */
  lemma {:induction false} QuotePlain(v: string)
    requires forall i :: 0 <= i < |v| ==> v[i] != '"' && v[i] != '\\'
    ensures Quote(v) == "\"" + v + "\""
  {
    EscapePlain(v);
  }

  lemma {:induction false} EscapePlain(v: string)
    requires forall i :: 0 <= i < |v| ==> v[i] != '"' && v[i] != '\\'
    ensures Escape(v) == v
  {
    if v != "" {
      EscapePlain(v[..|v| - 1]);
    }
  }

  lemma {:induction false} EscapeJoins(v: string, c: char)
    ensures Escape(v + [c]) == Escape(v) + if c == '"' then "\\\"" else if c == '\\' then "\\\\" else [c]
  {
    assert (v + [c])[..|v|] == v;
  }

  // ---------- The parser's loops ----------

  method SkipSpaces(data: string, from: nat) returns (pos: nat)
    requires from <= |data|
    ensures from <= pos <= |data| && data[pos..] == TrimLeft(data[from..])
  {
    pos := from;
    while pos < |data| && IsSpace(data[pos])
      invariant from <= pos <= |data|
      invariant TrimLeft(data[pos..]) == TrimLeft(data[from..])
    {
      assert data[pos..][1..] == data[pos + 1..];
      pos := pos + 1;
    }
  }

  method IsEndOfAttributeName(data: string, pos: nat) returns (r: bool)
    requires pos <= |data|
    ensures r <==> EndOfName(data[pos..])
  {
    if pos >= |data| {
      return true;
    }
    if IsSpace(data[pos]) {
      return true;
    }
    r := pos + 1 < |data| && data[pos] == '=' && !IsSpace(data[pos + 1]) && data[pos + 1] != '=';
  }

  lemma NameAt(data: string, pos: nat)
    requires pos < |data| && !EndOfName(data[pos..])
    ensures var p := NameOf(data[pos + 1..]); NameOf(data[pos..]) == Piece([data[pos]] + p.text, p.rest)
  {
    assert data[pos..][1..] == data[pos + 1..];
  }

  method FindNameEnd(data: string, from: nat) returns (pos: nat)
    requires from <= |data|
    ensures from <= pos <= |data|
    ensures NameOf(data[from..]) == Piece(data[from..pos], data[pos..])
  {
    hide NameOf, EndOfName;
    pos := from;
    var end := IsEndOfAttributeName(data, pos);
    assert data[from..from] == "" && "" + NameOf(data[from..]).text == NameOf(data[from..]).text;
    while !end
      invariant from <= pos <= |data| && (end <==> EndOfName(data[pos..]))
      invariant NameOf(data[from..]).text == data[from..pos] + NameOf(data[pos..]).text
      invariant NameOf(data[from..]).rest == NameOf(data[pos..]).rest
      decreases |data| - pos
    {
      NotAtEnd(data, pos);
      NameAt(data, pos);
      ghost var p := NameOf(data[pos + 1..]);
      Extend(data, from, pos, p.text);
      pos := pos + 1;
      end := IsEndOfAttributeName(data, pos);
    }
    NameDone(data[pos..]);
    assert data[from..pos] + "" == data[from..pos];
  }

  lemma NameDone(s: string)
    requires EndOfName(s)
    ensures NameOf(s) == Piece("", s)
  {
  }

  lemma NotAtEnd(data: string, pos: nat)
    requires pos <= |data| && !EndOfName(data[pos..])
    ensures pos < |data|
  {
  }

  lemma Extend(data: string, from: nat, pos: nat, text: string)
    requires from <= pos < |data|
    ensures data[from..pos] + ([data[pos]] + text) == data[from..pos + 1] + text
  {
  }

  lemma Append(value: string, c: char, text: string)
    ensures value + ([c] + text) == value + [c] + text && value + "" == value
  {
  }

  /** The three ways to go on inside a quoted string. */
  lemma QuotedAt(data: string, pos: nat)
    requires pos < |data|
    ensures QuotedOf(data[pos..]) ==
            if data[pos] == '"' then Piece("", data[pos + 1..])
            else if data[pos] == '\\' && pos + 1 < |data| then
              Piece([data[pos + 1]] + QuotedOf(data[pos + 2..]).text, QuotedOf(data[pos + 2..]).rest)
            else Piece([data[pos]] + QuotedOf(data[pos + 1..]).text, QuotedOf(data[pos + 1..]).rest)
  {
    assert data[pos..][1..] == data[pos + 1..];
    assert pos + 1 < |data| ==> data[pos..][2..] == data[pos + 2..];
  }

  /** A character of a quoted string, with its escape. */
  method ReadQuotedChar(data: string, pos: nat) returns (c: char, next: nat)
    requires pos < |data| && data[pos] != '"'
    ensures pos < next <= |data|
    ensures var p := QuotedOf(data[next..]); QuotedOf(data[pos..]) == Piece([c] + p.text, p.rest)
  {
    hide QuotedOf;
    QuotedAt(data, pos);
    next := pos;
    if data[pos] == '\\' && pos + 1 < |data| {
      next := next + 1;
    }
    c := data[next];
    next := next + 1;
  }

  method ReadQuoted(data: string, from: nat) returns (value: string, pos: nat)
    requires from <= |data|
    ensures from <= pos <= |data| && QuotedOf(data[from..]) == Piece(value, data[pos..])
  {
    value, pos := "", from;
    assert QuotedOf("") == Piece("", "");
    hide QuotedOf;
    while pos < |data|
      invariant from <= pos <= |data|
      invariant QuotedOf(data[from..]).text == value + QuotedOf(data[pos..]).text
      invariant QuotedOf(data[from..]).rest == QuotedOf(data[pos..]).rest
      decreases |data| - pos
    {
      QuotedAt(data, pos);
      if data[pos] == '"' {
        Append(value, '"', "");
        pos := pos + 1;
        return;
      }
      var c;
      c, pos := ReadQuotedChar(data, pos);
      Append(value, c, QuotedOf(data[pos..]).text);
      value := value + [c];
    }
    assert data[pos..] == "";
    Append(value, '"', "");
  }

  /** A token that goes on, and one that ends. */
  lemma TokenAt(data: string, pos: nat)
    requires pos <= |data|
    ensures if pos < |data| && !IsSpace(data[pos]) && data[pos] != ',' then
              var p := TokenOf(data[pos + 1..]); TokenOf(data[pos..]) == Piece([data[pos]] + p.text, p.rest)
            else TokenOf(data[pos..]) == Piece("", data[pos..])
  {
    if pos < |data| {
      assert data[pos..][1..] == data[pos + 1..];
    }
  }

  method ReadToken(data: string, from: nat) returns (value: string, pos: nat)
    requires from <= |data|
    ensures from <= pos <= |data| && TokenOf(data[from..]) == Piece(value, data[pos..])
  {
    hide TokenOf, IsSpace;
    value, pos := "", from;
    assert "" + TokenOf(data[from..]).text == TokenOf(data[from..]).text;
    while pos < |data| && !IsSpace(data[pos]) && data[pos] != ','
      invariant from <= pos <= |data|
      invariant TokenOf(data[from..]).text == value + TokenOf(data[pos..]).text
      invariant TokenOf(data[from..]).rest == TokenOf(data[pos..]).rest
    {
      TokenAt(data, pos);
      Append(value, data[pos], TokenOf(data[pos + 1..]).text);
      value := value + [data[pos]];
      pos := pos + 1;
    }
    TokenAt(data, pos);
    assert value + "" == value;
  }

  method ReadValue(data: string, from: nat) returns (value: string, pos: nat)
    requires from <= |data|
    ensures from <= pos <= |data| && ValueOf(data[from..]) == Piece(value, data[pos..])
  {
    if from < |data| && data[from] == '=' {
      if from + 1 < |data| && data[from + 1] == '"' {
        assert data[from..][2..] == data[from + 2..];
        value, pos := ReadQuoted(data, from + 2);
      } else {
        assert data[from..][1..] == data[from + 1..];
        value, pos := ReadToken(data, from + 1);
      }
    } else {
      value, pos := "", from;
    }
  }

  /** One round of the parser's loop, from the first character of an attribute. */
  method ReadAttribute(data: string, start: nat) returns (attribute: Attribute, pos: nat)
    requires start < |data| && !IsSpace(data[start])
    ensures start < pos <= |data|
    ensures ParseText(data[start..]) == [attribute] + ParseText(data[pos..])
  {
    var t := data[start..];
    assert t[0] == data[start];
    assert TrimLeft(t) == t;
    hide TrimLeft, NameOf, ValueOf;
    Progress(t);
    var end := FindNameEnd(data, start);
    var value;
    value, pos := ReadValue(data, end);
    attribute := Attribute(data[start..end], value);
    ghost var rest := data[pos..];
    if pos < |data| && data[pos] == ',' {
      pos := pos + 1;
    }
    assert data[pos..] == SkipComma(rest);
    OneAttribute(t, attribute, rest, data[pos..]);
  }

  /** HttpParseAttributes; it comes to an end on every input. */
  method HttpParseAttributes(data: string) returns (attributes: seq<Attribute>)
    ensures attributes == ParseText(data)
  {
    attributes := [];
    var pos := 0;
    assert data[0..] == data;
    while true
      invariant 0 <= pos <= |data|
      invariant attributes + ParseText(data[pos..]) == ParseText(data)
      decreases |data| - pos
    {
      var start := SkipSpaces(data, pos);
      SameAfterSpaces(data, pos, start);
      hide ParseText, TrimLeft;
      if start >= |data| {
        assert data[start..] == "" && attributes + [] == attributes;
        NothingLeft();
        return;
      }
      FirstNotSpace(data, pos, start);
      var attribute;
      attribute, pos := ReadAttribute(data, start);
      Collected(attributes, attribute, ParseText(data[pos..]));
      attributes := attributes + [attribute];
    }
  }

  lemma NothingLeft()
    ensures ParseText("") == []
  {
  }

  lemma Collected(x: seq<Attribute>, a: Attribute, y: seq<Attribute>)
    ensures x + ([a] + y) == x + [a] + y
  {
  }

  lemma SameAfterSpaces(data: string, pos: nat, start: nat)
    requires pos <= start <= |data| && data[start..] == TrimLeft(data[pos..])
    ensures ParseText(data[start..]) == ParseText(data[pos..])
  {
    TrimTwice(data[pos..]);
  }

  lemma TrimTwice(s: string)
    ensures TrimLeft(TrimLeft(s)) == TrimLeft(s)
  {
  }

  lemma FirstNotSpace(data: string, pos: nat, start: nat)
    requires pos <= start < |data| && data[start..] == TrimLeft(data[pos..])
    ensures !IsSpace(data[start])
  {
    assert data[start..][0] == data[start];
  }
}
