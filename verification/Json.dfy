/** JSON values, `JSON.stringify` on them, and a parser after section 2 of RFC 8259. */
module Json {
  import opened PolicyTypes
  import opened Text

  /** A member order is an object's own enumeration order. A big integer has no JSON form of its own. */
  datatype Json =
    | Null
    | Bool(b: bool)
    | Num(numeral: string)
    | Str(s: string)
    | Big(n: int)
    | Arr(items: seq<Json>)
    | Obj(fields: seq<Field>)

  datatype Field = Field(key: string, value: Json)

  // --- numerals: section 6 of RFC 8259 --------------------------------------------------------------

  predicate IsNumeralChar(c: char) {
    IsDigit(c) || c == '-' || c == '+' || c == '.' || c == 'e' || c == 'E'
  }

  function DigitSpan(t: string): (n: nat)
    ensures n <= |t|
  {
    if t != "" && IsDigit(t[0]) then 1 + DigitSpan(t[1..]) else 0
  }

  predicate IsExponent(t: string) {
    t == "" ||
    ((t[0] == 'e' || t[0] == 'E') &&
     var u := if |t| > 1 && (t[1] == '+' || t[1] == '-') then t[2..] else t[1..];
     u != "" && DigitSpan(u) == |u|)
  }

  predicate IsFraction(t: string) {
    if t != "" && t[0] == '.' then
      var n := DigitSpan(t[1..]);
      n > 0 && IsExponent(t[1 + n..])
    else IsExponent(t)
  }

  predicate IsNumeral(t: string) {
    && t != "" && (forall i | 0 <= i < |t| :: IsNumeralChar(t[i]))
    && var u := if t[0] == '-' then t[1..] else t;
       var n := DigitSpan(u);
       n > 0 && (u[0] == '0' ==> n == 1) && IsFraction(u[n..])
  }

  // --- printing -------------------------------------------------------------------------------------

  function EscapeChar(c: char): string {
    if c == '"' then "\\\""
    else if c == '\\' then "\\\\"
    else if c as int == 8 then "\\b"
    else if c as int == 9 then "\\t"
    else if c as int == 10 then "\\n"
    else if c as int == 12 then "\\f"
    else if c as int == 13 then "\\r"
    else if c as int < 0x20 then "\\u00" + [HexDigit(c as int / 16), HexDigit(c as int % 16)]
    else [c]
  }

  function Escape(s: string): string {
    if s == "" then "" else EscapeChar(s[0]) + Escape(s[1..])
  }

  function PrintString(s: string): string {
    "\"" + Escape(s) + "\""
  }

  /** `JSON.stringify`; it throws on a big integer, which is not modelled further. */
  function Print(v: Json): string
    decreases v, 1
  {
    match v
    case Null => "null"
    case Bool(b) => if b then "true" else "false"
    case Num(t) => t
    case Str(s) => PrintString(s)
    case Big(_) => ""
    case Arr(items) => "[" + (if items == [] then "]" else PrintItems(items))
    case Obj(fields) => "{" + (if fields == [] then "}" else PrintFields(fields))
  }

  function PrintItems(items: seq<Json>): string
    requires items != []
    decreases items, 0
  {
    Print(items[0]) + if |items| == 1 then "]" else "," + PrintItems(items[1..])
  }

  function PrintFields(fields: seq<Field>): string
    requires fields != []
    decreases fields, 0
  {
    PrintString(fields[0].key) + ":" + Print(fields[0].value)
    + if |fields| == 1 then "}" else "," + PrintFields(fields[1..])
  }

  // --- parsing --------------------------------------------------------------------------------------

  /** A value read off the front of a text, and the text left. */
  type Parsed<T> = Option<(T, string)>

  function SkipSpace(t: string): (r: string)
    ensures |r| <= |t|
  {
    if t != "" && (t[0] == ' ' || t[0] == '\t' || t[0] == '\n' || t[0] == '\r') then SkipSpace(t[1..]) else t
  }

  function Starts(t: string, prefix: string): bool {
    |prefix| <= |t| && t[..|prefix|] == prefix
  }

  function NumeralSpan(t: string): (n: nat)
    ensures n <= |t|
  {
    if t != "" && IsNumeralChar(t[0]) then 1 + NumeralSpan(t[1..]) else 0
  }

  /** What a backslash and the text after it stand for. Escaped surrogates are not modelled. */
  function Unescape(t: string): (r: Parsed<char>)
    ensures r.Some? ==> |r.value.1| < |t|
  {
    if t == "" then None
    else if t[0] == '"' || t[0] == '\\' || t[0] == '/' then Some((t[0], t[1..]))
    else if t[0] == 'b' then Some((8 as char, t[1..]))
    else if t[0] == 't' then Some((9 as char, t[1..]))
    else if t[0] == 'n' then Some((10 as char, t[1..]))
    else if t[0] == 'f' then Some((12 as char, t[1..]))
    else if t[0] == 'r' then Some((13 as char, t[1..]))
    else if t[0] == 'u' && |t| >= 5 && AllHex(t[1..5]) then
      var code := ((HexValue(t[1]) * 16 + HexValue(t[2])) * 16 + HexValue(t[3])) * 16 + HexValue(t[4]);
      if 0xD800 <= code < 0xE000 then None else Some((code as char, t[5..]))
    else None
  }

  /** The characters up to the closing quotation mark. */
  function ParseChars(t: string): (r: Parsed<string>)
    ensures r.Some? ==> |r.value.1| < |t|
    decreases |t|
  {
    if t == "" || t[0] as int < 0x20 then None
    else if t[0] == '"' then Some(("", t[1..]))
    else
      var first := if t[0] == '\\' then Unescape(t[1..]) else Some((t[0], t[1..]));
      if first.None? then None
      else
        var rest := ParseChars(first.value.1);
        if rest.None? then None else Some(([first.value.0] + rest.value.0, rest.value.1))
  }

  function ParseString(t: string): (r: Parsed<string>)
    ensures r.Some? ==> |r.value.1| < |t|
  {
    if t != "" && t[0] == '"' then ParseChars(t[1..]) else None
  }

  function ParseValue(text: string): (r: Parsed<Json>)
    ensures r.Some? ==> |r.value.1| < |text|
    decreases |text|, 1
  {
    var t := SkipSpace(text);
    if t == "" then None
    else if t[0] == '"' then
      var s := ParseString(t);
      if s.None? then None else Some((Str(s.value.0), s.value.1))
    else if t[0] == '[' then
      var u := SkipSpace(t[1..]);
      if Starts(u, "]") then Some((Arr([]), u[1..]))
      else
        var xs := ParseItems(t[1..]);
        if xs.None? then None else Some((Arr(xs.value.0), xs.value.1))
    else if t[0] == '{' then
      var u := SkipSpace(t[1..]);
      if Starts(u, "}") then Some((Obj([]), u[1..]))
      else
        var fs := ParseFields(t[1..]);
        if fs.None? then None else Some((Obj(fs.value.0), fs.value.1))
    else if Starts(t, "null") then Some((Null, t[4..]))
    else if Starts(t, "true") then Some((Bool(true), t[4..]))
    else if Starts(t, "false") then Some((Bool(false), t[5..]))
    else
      var n := NumeralSpan(t);
      if IsNumeral(t[..n]) then Some((Num(t[..n]), t[n..])) else None
  }

  function ParseItems(t: string): (r: Parsed<seq<Json>>)
    ensures r.Some? ==> |r.value.1| < |t|
    decreases |t|, 2
  {
    var first := ParseValue(t);
    if first.None? then None
    else
      var u := SkipSpace(first.value.1);
      if Starts(u, "]") then Some(([first.value.0], u[1..]))
      else if Starts(u, ",") then
        var rest := ParseItems(u[1..]);
        if rest.None? then None else Some(([first.value.0] + rest.value.0, rest.value.1))
      else None
  }

  function ParseFields(t: string): (r: Parsed<seq<Field>>)
    ensures r.Some? ==> |r.value.1| < |t|
    decreases |t|, 2
  {
    var key := ParseString(SkipSpace(t));
    if key.None? then None
    else
      var colon := SkipSpace(key.value.1);
      if !Starts(colon, ":") then None
      else
        var value := ParseValue(colon[1..]);
        if value.None? then None
        else
          var field := Field(key.value.0, value.value.0);
          var u := SkipSpace(value.value.1);
          if Starts(u, "}") then Some(([field], u[1..]))
          else if Starts(u, ",") then
            var rest := ParseFields(u[1..]);
            if rest.None? then None else Some(([field] + rest.value.0, rest.value.1))
          else None
  }

  /** `JSON.parse`: one value and nothing but white space after it. */
  function Parse(text: string): Option<Json> {
    var r := ParseValue(text);
    if r.Some? && SkipSpace(r.value.1) == "" then Some(r.value.0) else None
  }

  // --- printing and parsing are inverse ---------------------------------------------------------------

  /** Every number is a numeral and no big integer is left: what `JSON.stringify` can render. */
  ghost predicate Printable(v: Json) {
    match v
    case Num(t) => IsNumeral(t)
    case Big(_) => false
    case Arr(items) => forall x | x in items :: Printable(x)
    case Obj(fields) => forall f | f in fields :: Printable(f.value)
    case _ => true
  }

  lemma UnescapesChar(c: char, rest: string)
    requires EscapeChar(c) != [c]
    ensures EscapeChar(c)[0] == '\\'
    ensures Unescape(EscapeChar(c)[1..] + rest) == Some((c, rest))
  {
    var t := EscapeChar(c)[1..] + rest;
    if |EscapeChar(c)| == 2 {
      assert t[1..] == rest;
    } else {
      assert t[1..5] == ['0', '0', HexDigit(c as int / 16), HexDigit(c as int % 16)];
      assert t[5..] == rest;
    }
  }

  /** One turn of the character loop. */
  lemma CharsStep(c: char, tail: string)
    requires ParseChars(tail).Some?
    ensures ParseChars(EscapeChar(c) + tail) == Some(([c] + ParseChars(tail).value.0, ParseChars(tail).value.1))
  {
    var t := EscapeChar(c) + tail;
    if EscapeChar(c) == [c] {
      assert t[1..] == tail;
    } else {
      UnescapesChar(c, tail);
      assert t[1..] == EscapeChar(c)[1..] + tail;
    }
  }

  lemma {:induction false} ParsesChars(s: string, rest: string)
    ensures ParseChars(Escape(s) + "\"" + rest) == Some((s, rest))
  {
    if s == "" {
      assert (Escape(s) + "\"" + rest)[1..] == rest;
    } else {
      var tail := Escape(s[1..]) + "\"" + rest;
      ParsesChars(s[1..], rest);
      Associates(EscapeChar(s[0]), Escape(s[1..]), "\"");
      Associates(EscapeChar(s[0]), Escape(s[1..]) + "\"", rest);
      CharsStep(s[0], tail);
      assert [s[0]] + s[1..] == s;
    }
  }

  lemma ParsesString(s: string, rest: string)
    ensures ParseString(PrintString(s) + rest) == Some((s, rest))
  {
    ParsesChars(s, rest);
    assert (PrintString(s) + rest)[1..] == Escape(s) + "\"" + rest;
  }

  lemma {:induction false} NumeralSpanStops(t: string, rest: string)
    requires forall i | 0 <= i < |t| :: IsNumeralChar(t[i])
    requires rest == "" || !IsNumeralChar(rest[0])
    ensures NumeralSpan(t + rest) == |t|
  {
    if t == "" {
      assert t + rest == rest;
    } else {
      NumeralSpanStops(t[1..], rest);
      assert (t + rest)[1..] == t[1..] + rest;
    }
  }

  lemma ParsesNumeral(t: string, rest: string)
    requires IsNumeral(t) && (rest == "" || !IsNumeralChar(rest[0]))
    ensures ParseValue(t + rest) == Some((Num(t), rest))
  {
    NumeralSpanStops(t, rest);
    var u := t + rest;
    assert IsNumeralChar(u[0]);
    assert u[..|t|] == t && u[|t|..] == rest;
    assert !Starts(u, "null") && !Starts(u, "true") && !Starts(u, "false") by {
      assert |u| >= 4 ==> u[..4][0] == u[0];
      assert |u| >= 5 ==> u[..5][0] == u[0];
    }
  }

  /** A printed value starts with a character that is neither white space nor a closing bracket. */
  lemma PrintStarts(v: Json)
    requires Printable(v)
    ensures Print(v) != "" && Print(v)[0] !in " \t\n\r]}"
  {
  }

  lemma Punctuation(c: char, rest: string)
    requires c == ']' || c == '}' || c == ',' || c == ':'
    ensures var t := [c] + rest; t != "" && t[0] == c && SkipSpace(t) == t && t[1..] == rest && Starts(t, [c])
    ensures c == ',' ==> !Starts([c] + rest, "]") && !Starts([c] + rest, "}")
  {
    var t := [c] + rest;
    assert t[..1] == [c];
    assert t[..1][0] == c;
  }

  lemma ParsesWord(v: Json, rest: string)
    requires v.Null? || v.Bool?
    ensures ParseValue(Print(v) + rest) == Some((v, rest))
  {
    var t := Print(v) + rest;
    assert SkipSpace(t) == t;
    assert t[..4] == Print(v)[..4];
    if v == Bool(false) {
      assert t[..5] == "false" && t[5..] == rest;
      assert t[..4][0] == 'f';
    } else {
      assert t[4..] == rest;
      assert t[..4][0] == t[0];
    }
  }

  /** Reading a printed value gives the value back and leaves what followed it. */
  lemma {:induction false} ParsesValue(v: Json, rest: string)
    requires Printable(v) && (v.Num? ==> rest == "" || !IsNumeralChar(rest[0]))
    ensures ParseValue(Print(v) + rest) == Some((v, rest))
    decreases v, 1
  {
    match v {
      case Null => ParsesWord(v, rest);
      case Bool(b) => ParsesWord(v, rest);
      case Num(numeral) => ParsesNumeral(numeral, rest);
      case Str(s) =>
        ParsesString(s, rest);
        assert SkipSpace(Print(v) + rest) == Print(v) + rest;
      case Arr(items) => ParsesArray(items, rest);
      case Obj(fields) => ParsesObject(fields, rest);
    }
  }

  lemma {:induction false} ParsesArray(items: seq<Json>, rest: string)
    requires forall x | x in items :: Printable(x)
    ensures ParseValue(Print(Arr(items)) + rest) == Some((Arr(items), rest))
    decreases items, 1
  {
    var t := Print(Arr(items)) + rest;
    assert SkipSpace(t) == t && t[0] == '[';
    if items == [] {
      assert t[1..] == "]" + rest;
      Punctuation(']', rest);
    } else {
      var u := PrintItems(items) + rest;
      assert t[1..] == u;
      ParsesItems(items, rest);
      PrintStarts(items[0]);
      assert u[0] == Print(items[0])[0];
      assert SkipSpace(u) == u && !Starts(u, "]") by {
        assert u[..1][0] == u[0];
      }
    }
  }

  lemma {:induction false} ParsesObject(fields: seq<Field>, rest: string)
    requires forall f | f in fields :: Printable(f.value)
    ensures ParseValue(Print(Obj(fields)) + rest) == Some((Obj(fields), rest))
    decreases fields, 1
  {
    var t := Print(Obj(fields)) + rest;
    assert SkipSpace(t) == t && t[0] == '{';
    if fields == [] {
      assert t[1..] == "}" + rest;
      Punctuation('}', rest);
    } else {
      var u := PrintFields(fields) + rest;
      assert t[1..] == u;
      ParsesFields(fields, rest);
      assert u[0] == '"';
      assert SkipSpace(u) == u && !Starts(u, "}") by {
        assert u[..1][0] == u[0];
      }
    }
  }

  lemma {:induction false} ParsesItems(items: seq<Json>, rest: string)
    requires items != [] && forall x | x in items :: Printable(x)
    ensures ParseItems(PrintItems(items) + rest) == Some((items, rest))
    decreases items, 0
  {
    var first, tail := Print(items[0]), items[1..];
    if |items| == 1 {
      var end := "]" + rest;
      Associates(first, "]", rest);
      Punctuation(']', rest);
      ParsesValue(items[0], end);
      assert [items[0]] == items;
    } else {
      var end := "," + (PrintItems(tail) + rest);
      Associates(first, "," + PrintItems(tail), rest);
      Associates(",", PrintItems(tail), rest);
      Punctuation(',', PrintItems(tail) + rest);
      ParsesValue(items[0], end);
      ParsesItems(tail, rest);
      assert [items[0]] + tail == items;
    }
  }

  /** One turn of the member loop. */
  lemma FieldsStep(t: string, key: string, colon: string, value: Json, u: string)
    requires ParseString(SkipSpace(t)) == Some((key, colon)) && SkipSpace(colon) == colon && Starts(colon, ":")
    requires ParseValue(colon[1..]) == Some((value, u)) && SkipSpace(u) == u
    ensures Starts(u, "}") ==> ParseFields(t) == Some(([Field(key, value)], u[1..]))
    ensures !Starts(u, "}") && Starts(u, ",") && ParseFields(u[1..]).Some? ==>
      ParseFields(t) == Some(([Field(key, value)] + ParseFields(u[1..]).value.0, ParseFields(u[1..]).value.1))
  {
  }

  lemma {:induction false} ParsesFields(fields: seq<Field>, rest: string)
    requires fields != [] && forall f | f in fields :: Printable(f.value)
    ensures ParseFields(PrintFields(fields) + rest) == Some((fields, rest))
    decreases fields, 0
  {
    var f, end := fields[0], AfterFirst(fields, rest);
    var t, colon := PrintFields(fields) + rest, ":" + (Print(f.value) + end);
    FieldsText(fields, rest);
    if |fields| == 1 {
      Punctuation('}', rest);
      ParsesMember(f, end);
      FieldsStep(t, f.key, colon, f.value, end);
      assert [f] == fields;
    } else {
      var tail := fields[1..];
      Punctuation(',', PrintFields(tail) + rest);
      ParsesMember(f, end);
      ParsesFields(tail, rest);
      FieldsStep(t, f.key, colon, f.value, end);
      assert [f] + tail == fields;
    }
  }

  function AfterFirst(fields: seq<Field>, rest: string): string
    requires fields != []
  {
    if |fields| == 1 then "}" + rest else "," + (PrintFields(fields[1..]) + rest)
  }

  lemma Associates(a: string, b: string, c: string)
    ensures a + b + c == a + (b + c)
  {
  }

  /** The text of a member, then whatever comes after it. */
  lemma MemberText(key: string, value: string, tail: string, rest: string)
    ensures key + ":" + value + tail + rest == key + (":" + (value + (tail + rest)))
  {
    Associates(key + ":" + value, tail, rest);
    Associates(key + ":", value, tail + rest);
    Associates(key, ":", value + (tail + rest));
  }

  lemma FieldsText(fields: seq<Field>, rest: string)
    requires fields != []
    ensures PrintFields(fields) + rest
         == PrintString(fields[0].key) + (":" + (Print(fields[0].value) + AfterFirst(fields, rest)))
  {
    if |fields| == 1 {
      MemberText(PrintString(fields[0].key), Print(fields[0].value), "}", rest);
    } else {
      MemberText(PrintString(fields[0].key), Print(fields[0].value), "," + PrintFields(fields[1..]), rest);
      Associates(",", PrintFields(fields[1..]), rest);
    }
  }

  /** One member up to the punctuation after it. */
  lemma {:induction false} ParsesMember(f: Field, end: string)
    requires Printable(f.value) && (end == "" || !IsNumeralChar(end[0]))
    ensures var t := PrintString(f.key) + (":" + (Print(f.value) + end));
            SkipSpace(t) == t && ParseString(t) == Some((f.key, ":" + (Print(f.value) + end)))
    ensures var colon := ":" + (Print(f.value) + end);
            SkipSpace(colon) == colon && Starts(colon, ":") && colon[1..] == Print(f.value) + end
    ensures ParseValue(Print(f.value) + end) == Some((f.value, end))
    decreases f, 2
  {
    var colon := ":" + (Print(f.value) + end);
    ParsesString(f.key, colon);
    Punctuation(':', Print(f.value) + end);
    ParsesValue(f.value, end);
  }

  lemma ParseUndoesPrint(v: Json)
    requires Printable(v)
    ensures Parse(Print(v)) == Some(v)
  {
    ParsesValue(v, "");
    assert Print(v) + "" == Print(v);
  }

  /** So printing is injective on what it can render. */
  lemma PrintInjective(v: Json, w: Json)
    requires Printable(v) && Printable(w) && Print(v) == Print(w)
    ensures v == w
  {
    ParseUndoesPrint(v);
    ParseUndoesPrint(w);
  }

  // --- around a value -----------------------------------------------------------------------------------------

  predicate IsSpace(t: string) {
    forall i | 0 <= i < |t| :: t[i] == ' ' || t[i] == '\t' || t[i] == '\n' || t[i] == '\r'
  }

  lemma {:induction false} SkipsSpace(w: string, t: string)
    requires IsSpace(w)
    ensures SkipSpace(w + t) == SkipSpace(t)
  {
    if w == "" {
      assert w + t == t;
    } else {
      SkipsSpace(w[1..], t);
      assert (w + t)[1..] == w[1..] + t;
    }
  }

  lemma {:induction false} SkipsToEnd(t: string)
    ensures SkipSpace(t) == "" <==> IsSpace(t)
  {
    if t != "" {
      SkipsToEnd(t[1..]);
    }
  }

  /** White space may stand before a text, and nothing else may stand after a value. */
  lemma OnlySpaceAround(before: string, text: string, v: Json, after: string)
    requires IsSpace(before) && Printable(v) && (v.Num? ==> after == "" || !IsNumeralChar(after[0]))
    ensures Parse(before + text) == Parse(text)
    ensures Parse(Print(v) + after) == if IsSpace(after) then Some(v) else None
  {
    SkipsSpace(before, text);
    SkipsToEnd(after);
    ParsesValue(v, after);
  }
}
