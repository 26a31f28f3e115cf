/** Hex and bytes32 names on the wire. A name is given by its UTF-8 bytes. */
module Encoding {
  import opened ByteStrings
  import opened PolicyTypes
  import opened Text

  /** The text after an optional prefix, in either case. */
  function Digits(t: string): string {
    if |t| >= 2 && t[0] == '0' && (t[1] == 'x' || t[1] == 'X') then t[2..] else t
  }

  function DecodeHex(t: string): Option<Bytes> {
    if |Digits(t)| % 2 == 0 && AllHex(Digits(t)) then Some(FromHex(Digits(t))) else None
  }

  function EncodeHex(b: Bytes): string {
    "0x" + HexText(b)
  }

  /** An absent text decodes to nothing; None is the code's exception. */
  method HexToBytes(h: Option<string>) returns (r: Option<Bytes>)
    ensures r == if h.None? then Some([]) else DecodeHex(h.value)
  {
    if h.None? {
      return Some([]);
    }
    var s := h.value;
    if |s| >= 2 && s[0] == '0' && (s[1] == 'x' || s[1] == 'X') {
      s := s[2..];
    }
    if |s| == 0 {
      return Some([]);
    }
    if |s| % 2 != 0 || !AllHex(s) {
      return None;
    }
    var out := DecodeDigits(s);
    r := Some(out[..]);
  }

  method DecodeDigits(s: string) returns (out: array<Byte>)
    requires AllHex(s) && |s| % 2 == 0
    ensures fresh(out) && out[..] == FromHex(s)
  {
    out := new Byte[|s| / 2];
    for i := 0 to out.Length
      invariant out[..i] == FromHex(s[..2 * i])
    {
      out[i] := HexValue(s[2 * i]) * 16 + HexValue(s[2 * i + 1]);
      assert s[..2 * (i + 1)][..2 * i] == s[..2 * i];
    }
    assert s[..|s|] == s && out[..out.Length] == out[..];
  }

  method BytesToHex(b: Bytes) returns (s: string)
    ensures s == EncodeHex(b)
  {
    s := "0x";
    for i := 0 to |b|
      invariant s == "0x" + HexText(b[..i])
    {
      assert b[..i + 1][..i] == b[..i];
      s := s + HexPair(b[i]);
    }
    assert b[..|b|] == b;
  }

  lemma DecodeUndoesEncode(b: Bytes)
    ensures DecodeHex(EncodeHex(b)) == Some(b)
  {
    FromHexUndoesHexText(b);
    assert Digits(EncodeHex(b)) == HexText(b);
  }

  /** What decodes is exactly the hex texts of even length, and re-encoding gives their lower-case form. */
  lemma EncodeNormalises(t: string)
    requires DecodeHex(t).Some?
    ensures EncodeHex(DecodeHex(t).value) == "0x" + ToLower(Digits(t))
  {
    HexTextOfFromHex(Digits(t));
  }

  // --- names ------------------------------------------------------------------------------------------

  function Padded(name: Bytes): Bytes32
    requires |name| <= 32
  {
    name + Zeros(32 - |name|)
  }

  function Trimmed(b: Bytes): Bytes {
    if b != [] && b[|b| - 1] == 0 then Trimmed(b[..|b| - 1]) else b
  }

  predicate EndsInNul(b: Bytes) {
    b != [] && b[|b| - 1] == 0
  }

  method StringToBytes32Hex(name: Bytes) returns (r: Option<string>)
    ensures r == if |name| > 32 then None else Some(EncodeHex(Padded(name)))
  {
    if |name| > 32 {
      return None;
    }
    var padded := new Byte[32](_ => 0);
    forall i | 0 <= i < |name| {
      padded[i] := name[i];
    }
    assert padded[..] == Padded(name);
    var hex := BytesToHex(padded[..]);
    r := Some(hex);
  }

  /** The decoder of UTF-8 is lenient, so it is total. */
  method Bytes32HexToString(utf8: Bytes -> string, h: string) returns (name: string)
    ensures name == if DecodeHex(h).None? then "" else utf8(Trimmed(DecodeHex(h).value))
  {
    var b := HexToBytes(Some(h));
    if b.None? {
      return "";
    }
    var end := |b.value|;
    assert b.value[..end] == b.value;
    while end > 0 && b.value[end - 1] == 0
      invariant 0 <= end <= |b.value|
      invariant Trimmed(b.value) == Trimmed(b.value[..end])
    {
      assert b.value[..end][..end - 1] == b.value[..end - 1];
      end := end - 1;
    }
    assert Trimmed(b.value) == b.value[..end];
    name := utf8(b.value[..end]);
  }

  lemma {:induction false} TrimmedZeros(b: Bytes, n: nat)
    ensures Trimmed(b + Zeros(n)) == Trimmed(b)
  {
    if n == 0 {
      assert b + Zeros(0) == b;
    } else {
      assert (b + Zeros(n))[..|b| + n - 1] == b + Zeros(n - 1);
      TrimmedZeros(b, n - 1);
    }
  }

  /** A name survives the trip exactly when it does not end in a NUL. */
  lemma NameRoundTrip(name: Bytes)
    requires |name| <= 32
    ensures DecodeHex(EncodeHex(Padded(name))) == Some(Padded(name))
    ensures Trimmed(Padded(name)) == name <==> !EndsInNul(name)
  {
    DecodeUndoesEncode(Padded(name));
    TrimsBack(name);
  }

  lemma TrimsBack(name: Bytes)
    requires |name| <= 32
    ensures Trimmed(Padded(name)) == name <==> !EndsInNul(name)
  {
    TrimmedZeros(name, 32 - |name|);
    assert Trimmed(Padded(name)) == Trimmed(name);
    if EndsInNul(name) {
      TrimmedShorter(name[..|name| - 1]);
    }
  }

  lemma {:induction false} TrimmedShorter(b: Bytes)
    ensures |Trimmed(b)| <= |b|
  {
    if b != [] && b[|b| - 1] == 0 {
      TrimmedShorter(b[..|b| - 1]);
    }
  }

  /** So on such names the encoding is injective. */
  lemma NamesAreInjective(a: Bytes, b: Bytes)
    requires |a| <= 32 && |b| <= 32 && !EndsInNul(a) && !EndsInNul(b)
    ensures EncodeHex(Padded(a)) == EncodeHex(Padded(b)) ==> a == b
  {
    NameRoundTrip(a);
    NameRoundTrip(b);
  }

  /** What decodes is hex of even length, behind a prefix in either case or none; and to the bytes it spells. */
  lemma DecodesExactly(digits: string, t: string)
    ensures DecodeHex("0x" + digits) == DecodeHex("0X" + digits)
            == if AllHex(digits) && |digits| % 2 == 0 then Some(FromHex(digits)) else None
    ensures !(|t| >= 2 && t[0] == '0' && (t[1] == 'x' || t[1] == 'X')) ==>
              DecodeHex(t) == if AllHex(t) && |t| % 2 == 0 then Some(FromHex(t)) else None
  {
    assert Digits("0x" + digits) == digits == Digits("0X" + digits);
  }

  /** Padding is on the right, and trimming takes all the NULs at the end and nothing else. */
  lemma {:induction false} TrimsExactly(b: Bytes)
    ensures Trimmed(b) <= b && !EndsInNul(Trimmed(b))
    ensures forall i | |Trimmed(b)| <= i < |b| :: b[i] == 0
  {
    if b != [] && b[|b| - 1] == 0 {
      TrimsExactly(b[..|b| - 1]);
    }
  }
}
