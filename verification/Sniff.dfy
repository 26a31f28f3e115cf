/**
 Byte fields that may arrive as hex or as base64 (section 4 of RFC 4648), told apart by a pattern.
 */
module Sniff {
  import opened ByteStrings
  import opened PolicyTypes
  import opened Text
  import opened Encoding
  import Json

  // --- base64 -----------------------------------------------------------------------------------------

  function Symbol(v: nat): char
    requires v < 64
  {
    if v < 26 then (v + 65) as char
    else if v < 52 then (v + 71) as char
    else if v < 62 then (v - 4) as char
    else if v == 62 then '+'
    else '/'
  }

  /** The decoder also knows the URL alphabet. */
  function SymbolValue(c: char): (v: Option<nat>)
    ensures v.Some? ==> v.value < 64
  {
    if 'A' <= c <= 'Z' then Some(c as int - 65)
    else if 'a' <= c <= 'z' then Some(c as int - 71)
    else if '0' <= c <= '9' then Some(c as int + 4)
    else if c == '+' || c == '-' then Some(62)
    else if c == '/' || c == '_' then Some(63)
    else None
  }

  function Encode64(b: Bytes): string {
    if b == [] then ""
    else if |b| == 1 then [Symbol(b[0] / 4), Symbol(b[0] % 4 * 16), '=', '=']
    else if |b| == 2 then [Symbol(b[0] / 4), Symbol(b[0] % 4 * 16 + b[1] / 16), Symbol(b[1] % 16 * 4), '=']
    else Quad(b[0], b[1], b[2]) + Encode64(b[3..])
  }

  function Quad(a: Byte, b: Byte, c: Byte): string {
    [Symbol(a / 4), Symbol(a % 4 * 16 + b / 16), Symbol(b % 16 * 4 + c / 64), Symbol(c % 64)]
  }

  type Sextet = x: int | 0 <= x < 64

  /** The lenient reader: stops at padding and ignores what is not in the alphabet. */
  function Sextets(t: string): seq<Sextet> {
    if t == "" || t[0] == '=' then []
    else if SymbolValue(t[0]).Some? then [SymbolValue(t[0]).value] + Sextets(t[1..])
    else Sextets(t[1..])
  }

  function Regroup(x: seq<Sextet>): Bytes {
    if |x| < 2 then []
    else
      var p: int, q: int := x[0], x[1];
      var first := p * 4 + q / 16;
      if |x| == 2 then [first]
      else
        var r: int := x[2];
        var second := q % 16 * 16 + r / 4;
        if |x| == 3 then [first, second] else [first, second, r % 4 * 64 + x[3]] + Regroup(x[4..])
  }

  function Decode64(t: string): Bytes {
    Regroup(Sextets(t))
  }

  lemma SymbolIsCapital(v: nat)
    requires v < 26
    ensures Symbol(v) == "ABCDEFGHIJKLMNOPQRSTUVWXYZ"[v]
  {
  }

  lemma SymbolIsSmall(v: nat)
    requires v < 26
    ensures Symbol(26 + v) == "abcdefghijklmnopqrstuvwxyz"[v]
  {
  }

  lemma SymbolIsDigit(v: nat)
    requires 52 <= v < 64
    ensures Symbol(v) == "0123456789+/"[v - 52]
  {
  }

  /** The alphabet of the encoder, and what the decoder knows beside it: the URL forms of the last two symbols. */
  lemma Alphabet(v: nat, c: char)
    requires v < 64
    ensures Symbol(v) == if v < 26 then "ABCDEFGHIJKLMNOPQRSTUVWXYZ"[v]
                         else if v < 52 then "abcdefghijklmnopqrstuvwxyz"[v - 26]
                         else "0123456789+/"[v - 52]
    ensures SymbolValue(c) == Some(v) <==> c == Symbol(v) || (v == 62 && c == '-') || (v == 63 && c == '_')
  {
    if v < 26 {
      SymbolIsCapital(v);
    } else if v < 52 {
      SymbolIsSmall(v - 26);
    } else {
      SymbolIsDigit(v);
    }
  }

  lemma SextetStep(v: Sextet, t: string)
    ensures Sextets([Symbol(v)] + t) == [v] + Sextets(t)
  {
    assert ([Symbol(v)] + t)[1..] == t;
  }

  lemma SextetsOfTwo(a: Sextet, b: Sextet, t: string)
    ensures Sextets([Symbol(a), Symbol(b)] + t) == [a, b] + Sextets(t)
  {
    SextetStep(b, t);
    SextetStep(a, [Symbol(b)] + t);
    assert [Symbol(a), Symbol(b)] + t == [Symbol(a)] + ([Symbol(b)] + t);
  }

  lemma SextetsOfFour(a: Sextet, b: Sextet, c: Sextet, d: Sextet, t: string)
    ensures Sextets([Symbol(a), Symbol(b), Symbol(c), Symbol(d)] + t) == [a, b, c, d] + Sextets(t)
  {
    SextetsOfTwo(c, d, t);
    SextetsOfTwo(a, b, [Symbol(c), Symbol(d)] + t);
    assert [Symbol(a), Symbol(b), Symbol(c), Symbol(d)] + t == [Symbol(a), Symbol(b)] + ([Symbol(c), Symbol(d)] + t);
  }

  lemma RegroupOfFour(a: Byte, b: Byte, c: Byte, x: seq<Sextet>)
    ensures Regroup([a / 4, a % 4 * 16 + b / 16, b % 16 * 4 + c / 64, c % 64] + x) == [a, b, c] + Regroup(x)
  {
    assert ([a / 4, a % 4 * 16 + b / 16, b % 16 * 4 + c / 64, c % 64] + x)[4..] == x;
  }

  lemma DecodesOne(a: Byte)
    ensures Decode64(Encode64([a])) == [a]
  {
    SextetsOfTwo(a / 4, a % 4 * 16, "==");
    assert Encode64([a]) == [Symbol(a / 4), Symbol(a % 4 * 16)] + "==";
  }

  lemma DecodesTwo(a: Byte, b: Byte)
    ensures Decode64(Encode64([a, b])) == [a, b]
  {
    var x, y, z := a / 4, a % 4 * 16 + b / 16, b % 16 * 4;
    SextetStep(z, "=");
    SextetsOfTwo(x, y, [Symbol(z)] + "=");
    assert Encode64([a, b]) == [Symbol(x), Symbol(y)] + ([Symbol(z)] + "=");
  }

  lemma DecodesQuad(a: Byte, b: Byte, c: Byte, t: string)
    ensures Decode64(Quad(a, b, c) + t) == [a, b, c] + Decode64(t)
  {
    SextetsOfFour(a / 4, a % 4 * 16 + b / 16, b % 16 * 4 + c / 64, c % 64, t);
    RegroupOfFour(a, b, c, Sextets(t));
  }

  lemma {:induction false} DecodeUndoesEncode64(b: Bytes)
    ensures Decode64(Encode64(b)) == b
  {
    if |b| == 1 {
      DecodesOne(b[0]);
      assert b == [b[0]];
    } else if |b| == 2 {
      DecodesTwo(b[0], b[1]);
      assert b == [b[0], b[1]];
    } else if |b| > 2 {
      var rest := b[3..];
      DecodeUndoesEncode64(rest);
      DecodesQuad(b[0], b[1], b[2], Encode64(rest));
      assert b == [b[0], b[1], b[2]] + rest;
    }
  }

  lemma ThirdsStep(n: nat)
    requires n >= 3
    ensures (n + 2) / 3 == (n - 3 + 2) / 3 + 1 && n % 3 == (n - 3) % 3
  {
  }

  lemma {:induction false} Length64(b: Bytes)
    ensures |Encode64(b)| == 4 * ((|b| + 2) / 3)
  {
    if |b| > 2 {
      Length64(b[3..]);
      ThirdsStep(|b|);
    }
  }

  /** Unless the length is a multiple of three, the text ends in padding. */
  lemma {:induction false} PaddingEnds64(b: Bytes)
    requires |b| % 3 != 0
    ensures Encode64(b) != "" && Encode64(b)[|Encode64(b)| - 1] == '='
  {
    if |b| > 2 {
      ThirdsStep(|b|);
      PaddingEnds64(b[3..]);
    }
  }

  // --- asHexBytes ---------------------------------------------------------------------------------------

  /** `^0x[0-9a-fA-F]*$` */
  predicate LooksHex(t: string) {
    |t| >= 2 && t[0] == '0' && t[1] == 'x' && AllHex(t[2..])
  }

  /** None where the code throws. */
  function AsHexBytes(value: string): Option<string> {
    if LooksHex(value) then Some(value)
    else
      var bytes := Decode64(value);
      if bytes == [] then None else Some(EncodeHex(bytes))
  }

  lemma HexLooksHex(b: Bytes)
    ensures LooksHex(EncodeHex(b))
  {
    FromHexUndoesHexText(b);
    assert EncodeHex(b)[2..] == HexText(b);
  }

  /** Padding rules the pattern out. */
  lemma PaddedIsNotHex(b: Bytes)
    requires |b| % 3 != 0
    ensures !LooksHex(Encode64(b))
  {
    Length64(b);
    PaddingEnds64(b);
    var t := Encode64(b);
    assert |t| >= 4 && t[2..][|t| - 3] == t[|t| - 1] == '=';
  }

  /**
   When exactly a base64 field is read for what it is: unless its text happens to match the hex pattern, in
   which case the text itself comes back.
   */
  lemma Base64ReadRight(b: Bytes)
    requires b != []
    ensures AsHexBytes(Encode64(b)) == Some(EncodeHex(b)) <==> !LooksHex(Encode64(b))
  {
    DecodeUndoesEncode64(b);
    if LooksHex(Encode64(b)) {
      FormsDiffer(b);
    }
  }

  lemma LengthsDiffer(n: nat)
    requires n % 3 == 0
    ensures 4 * ((n + 2) / 3) != 2 * n + 2
  {
    var m := n / 3;
    assert n == 3 * m && (n + 2) / 3 == m;
  }

  lemma FormsDiffer(b: Bytes)
    ensures Encode64(b) != EncodeHex(b)
  {
    if |b| % 3 == 0 {
      Length64(b);
      FromHexUndoesHexText(b);
      LengthsDiffer(|b|);
    } else {
      PaddedIsNotHex(b);
      HexLooksHex(b);
    }
  }

  /** A signature is 65 bytes, so it reads the same from hex and from base64. */
  lemma SignatureReadsTheSame(sig: Bytes)
    requires |sig| == 65
    ensures AsHexBytes(EncodeHex(sig)) == Some(EncodeHex(sig)) == AsHexBytes(Encode64(sig))
  {
    HexLooksHex(sig);
    PaddedIsNotHex(sig);
    Base64ReadRight(sig);
  }

  /** A field whose length is a multiple of three can be misread: these three bytes encode to "0xab". */
  lemma ThreeBytesMisread()
    ensures Encode64([0xD3, 0x16, 0x9B]) == "0xab"
    ensures AsHexBytes(Encode64([0xD3, 0x16, 0x9B])) == Some("0xab") != Some(EncodeHex([0xD3, 0x16, 0x9B]))
  {
    var b: Bytes := [0xD3, 0x16, 0x9B];
    assert b[3..] == [];
    Base64ReadRight(b);
  }

  // --- decodeActionData -----------------------------------------------------------------------------------

  datatype ActionData = NotSuccessful | NoData | NotJson | Decoded(value: Json.Json)

  function PayloadBytes(data: string): Bytes {
    if LooksHex(data) then (if |data[2..]| % 2 == 0 then FromHex(data[2..]) else FromHex(data[2..|data| - 1]))
    else Decode64(data)
  }

  function DecodeActionData(utf8: Bytes -> string, status: int, data: string): ActionData {
    if status != 1 then NotSuccessful
    else if data == "" || data == "0x" then NoData
    else match Json.Parse(utf8(PayloadBytes(data)))
         case None => NotJson
         case Some(v) => Decoded(v)
  }

  lemma FirstSymbol(b: Bytes)
    requires b != []
    ensures Encode64(b) != "" && Encode64(b)[0] == Symbol(b[0] / 4)
  {
  }

  lemma SymbolIsNotZero(v: nat)
    requires v < 52
    ensures Symbol(v) != '0'
  {
  }

  lemma HexFormReads(b: Bytes)
    ensures PayloadBytes(EncodeHex(b)) == b
  {
    HexLooksHex(b);
    FromHexUndoesHexText(b);
    assert EncodeHex(b)[2..] == HexText(b);
  }

  lemma Base64FormReads(b: Bytes)
    requires b != [] && b[0] < 0x80
    ensures PayloadBytes(Encode64(b)) == b
  {
    FirstSymbol(b);
    SymbolIsNotZero(b[0] / 4);
    DecodeUndoesEncode64(b);
    NotHexReadsAsBase64(Encode64(b));
  }

  lemma NotHexReadsAsBase64(t: string)
    requires t != "" && t[0] != '0'
    ensures PayloadBytes(t) == Decode64(t)
  {
  }

  /**
   A payload whose first byte is ASCII, as that of every JSON text is, decodes to the same bytes from its hex
   and from its base64 form, at every length: base64 text starting "0x" would need a first byte from 208 to 211.
   */
  lemma PayloadReadsTheSame(b: Bytes)
    requires b != [] && b[0] < 0x80
    ensures PayloadBytes(EncodeHex(b)) == b == PayloadBytes(Encode64(b))
  {
    HexFormReads(b);
    Base64FormReads(b);
  }

  lemma BothFormsAreData(b: Bytes)
    requires b != []
    ensures EncodeHex(b) != "0x" && EncodeHex(b) != "" && Encode64(b) != "0x" && Encode64(b) != ""
  {
    Length64(b);
    FromHexUndoesHexText(b);
    assert |EncodeHex(b)| > 2 && |Encode64(b)| > 2;
  }

  /** So an object arrives whole whichever encoding the proxy chose. */
  lemma ActionDataRecovered(utf8: Bytes -> string, b: Bytes, v: Json.Json)
    requires b != [] && b[0] == 0x7B && Json.Parse(utf8(b)) == Some(v)
    ensures DecodeActionData(utf8, 1, EncodeHex(b)) == Decoded(v) == DecodeActionData(utf8, 1, Encode64(b))
  {
    PayloadReadsTheSame(b);
    BothFormsAreData(b);
  }

  /** Text that is not taken for hex is read as base64, whatever its first byte; a last odd hex digit is dropped. */
  lemma PayloadExactly(b: Bytes, c: char)
    ensures PayloadBytes(EncodeHex(b)) == b
    ensures IsHexDigit(c) ==> PayloadBytes(EncodeHex(b) + [c]) == b
    ensures !LooksHex(Encode64(b)) ==> PayloadBytes(Encode64(b)) == b
  {
    HexFormReads(b);
    DecodeUndoesEncode64(b);
    if IsHexDigit(c) {
      OddDigitIsDropped(b, c);
    }
  }

  lemma OddDigitIsDropped(b: Bytes, c: char)
    requires IsHexDigit(c)
    ensures PayloadBytes(EncodeHex(b) + [c]) == b
  {
    var t := EncodeHex(b) + [c];
    FromHexUndoesHexText(b);
    assert t[2..] == HexText(b) + [c];
    assert t[2..|t| - 1] == HexText(b);
  }

  /** Each result of the decoder, and exactly when it is given. */
  lemma ActionDataExactly(utf8: Bytes -> string, status: int, data: string, v: Json.Json)
    ensures DecodeActionData(utf8, status, data) == NotSuccessful <==> status != 1
    ensures DecodeActionData(utf8, status, data) == NoData <==> status == 1 && (data == "" || data == "0x")
    ensures DecodeActionData(utf8, status, data) == Decoded(v) <==>
              status == 1 && data != "" && data != "0x" && Json.Parse(utf8(PayloadBytes(data))) == Some(v)
    ensures DecodeActionData(utf8, status, data) == NotJson <==>
              status == 1 && data != "" && data != "0x" && Json.Parse(utf8(PayloadBytes(data))) == None
  {
  }

  /** A field that is prefixed hex comes back as it is, digits of any case and number; other text must hold some base64. */
  lemma HexFieldExactly(digits: string, t: string)
    ensures AllHex(digits) ==> AsHexBytes("0x" + digits) == Some("0x" + digits)
    ensures AsHexBytes(t) == None <==> Decode64(t) == [] && !(exists d :: AllHex(d) && t == "0x" + d)
  {
    assert ("0x" + digits)[2..] == digits;
    if LooksHex(t) {
      assert t == "0x" + t[2..];
    }
    if d :| AllHex(d) && t == "0x" + d {
      assert t[2..] == d;
    }
  }
}
