/** Decimal and hexadecimal text. A string is a sequence of Unicode scalar values. */
module Text {
  import opened ByteStrings
  import opened PolicyTypes

  predicate IsDigit(c: char) {
    '0' <= c <= '9'
  }

  predicate AllDigits(t: string) {
    forall i | 0 <= i < |t| :: IsDigit(t[i])
  }

  function Digit(d: nat): char
    requires d < 10
  {
    (d + 48) as char
  }

  function Decimal(n: nat): string {
    if n < 10 then [Digit(n)] else Decimal(n / 10) + [Digit(n % 10)]
  }

  function DecimalInt(n: int): string {
    if n < 0 then "-" + Decimal(-n) else Decimal(n)
  }

  function DecimalValue(t: string): nat
    requires AllDigits(t)
  {
    if t == "" then 0 else DecimalValue(t[..|t| - 1]) * 10 + (t[|t| - 1] as int - 48)
  }

  lemma {:induction false} ValueOfDecimal(n: nat)
    ensures Decimal(n) != "" && AllDigits(Decimal(n)) && DecimalValue(Decimal(n)) == n
    ensures Decimal(n)[0] == '0' ==> n == 0 && Decimal(n) == "0"
  {
    var t := Decimal(n);
    if n >= 10 {
      ValueOfDecimal(n / 10);
      assert t[..|t| - 1] == Decimal(n / 10);
    } else {
      assert t[..0] == "";
    }
  }

  lemma DecimalInjective(m: nat, n: nat)
    requires Decimal(m) == Decimal(n)
    ensures m == n
  {
    ValueOfDecimal(m);
    ValueOfDecimal(n);
  }

  // --- hexadecimal --------------------------------------------------------------------------------

  predicate IsHexDigit(c: char) {
    '0' <= c <= '9' || 'a' <= c <= 'f' || 'A' <= c <= 'F'
  }

  predicate AllHex(t: string) {
    forall i | 0 <= i < |t| :: IsHexDigit(t[i])
  }

  function HexDigit(d: nat): char
    requires d < 16
  {
    (if d < 10 then d + 48 else d + 87) as char
  }

  function HexValue(c: char): (d: nat)
    requires IsHexDigit(c)
    ensures d < 16
  {
    if c <= '9' then c as int - 48 else if c <= 'F' then c as int - 55 else c as int - 87
  }

  /** `b.toString(16).padStart(2, "0")` */
  function HexPair(b: Byte): string {
    [HexDigit(b / 16), HexDigit(b % 16)]
  }

  function HexText(b: Bytes): string {
    if b == [] then "" else HexText(b[..|b| - 1]) + HexPair(b[|b| - 1])
  }

  function FromHex(t: string): (b: Bytes)
    requires AllHex(t) && |t| % 2 == 0
    ensures |b| == |t| / 2
  {
    if t == "" then []
    else FromHex(t[..|t| - 2]) + [HexValue(t[|t| - 2]) * 16 + HexValue(t[|t| - 1])]
  }

  lemma PairReads(b: Byte)
    ensures IsHexDigit(HexPair(b)[0]) && IsHexDigit(HexPair(b)[1])
    ensures HexValue(HexPair(b)[0]) * 16 + HexValue(HexPair(b)[1]) == b
  {
  }

  lemma PairAppends(t: string, n: nat, c: char, d: char)
    requires AllHex(t) && |t| == 2 * n && IsHexDigit(c) && IsHexDigit(d)
    ensures AllHex(t + [c, d]) && |t + [c, d]| == 2 * (n + 1)
    ensures FromHex(t + [c, d]) == FromHex(t) + [HexValue(c) * 16 + HexValue(d)]
  {
    var u := t + [c, d];
    assert u[|u| - 2] == c && u[|u| - 1] == d;
    assert u[..|u| - 2] == t;
  }

  lemma {:induction false} FromHexUndoesHexText(b: Bytes)
    ensures |HexText(b)| == 2 * |b| && AllHex(HexText(b)) && FromHex(HexText(b)) == b
  {
    if b != [] {
      var (init, last) := (b[..|b| - 1], b[|b| - 1]);
      FromHexUndoesHexText(init);
      OneByteMore(init, HexText(init), last);
      assert HexText(b) == HexText(init) + HexPair(last) && b == init + [last];
    }
  }

  lemma OneByteMore(b: Bytes, t: string, last: Byte)
    requires |t| == 2 * |b| && AllHex(t) && FromHex(t) == b
    ensures AllHex(t + HexPair(last)) && |t + HexPair(last)| == 2 * |b + [last]|
    ensures FromHex(t + HexPair(last)) == b + [last]
  {
    var (c, d) := (HexPair(last)[0], HexPair(last)[1]);
    PairReads(last);
    PairAppends(t, |b|, c, d);
    assert HexPair(last) == [c, d];
  }

  function Lower(c: char): char {
    if 'A' <= c <= 'Z' then (c as int + 32) as char else c
  }

  /** `toLowerCase` on ASCII text. */
  function ToLower(t: string): string {
    seq(|t|, i requires 0 <= i < |t| => Lower(t[i]))
  }

  lemma LowerDigits(c: char, d: char)
    requires IsHexDigit(c) && IsHexDigit(d)
    ensures HexPair(HexValue(c) * 16 + HexValue(d)) == [Lower(c), Lower(d)]
  {
    var b := HexValue(c) * 16 + HexValue(d);
    assert b / 16 == HexValue(c) && b % 16 == HexValue(d);
  }

  lemma LowerSplits(t: string)
    requires |t| >= 2
    ensures ToLower(t) == ToLower(t[..|t| - 2]) + [Lower(t[|t| - 2]), Lower(t[|t| - 1])]
  {
  }

  /** Hex text determines its bytes and is determined by them up to case. */
  lemma {:induction false} HexTextOfFromHex(t: string)
    requires AllHex(t) && |t| % 2 == 0
    ensures HexText(FromHex(t)) == ToLower(t)
  {
    if t != "" {
      var n := |t| - 2;
      HexTextOfFromHex(t[..n]);
      LowerDigits(t[n], t[n + 1]);
      LowerSplits(t);
      var b := FromHex(t);
      assert b[..|b| - 1] == FromHex(t[..n]);
    }
  }

  /** Decoding is blind to the case of the digits. */
  lemma FromHexIgnoresCase(t: string)
    requires AllHex(t) && |t| % 2 == 0
    ensures AllHex(ToLower(t)) && FromHex(ToLower(t)) == FromHex(t)
  {
    HexTextOfFromHex(t);
    FromHexUndoesHexText(FromHex(t));
  }

  // --- digit by digit ---------------------------------------------------------------------------------------

  /** Two lower-case digits for each byte, in order. */
  lemma {:induction false} HexTextAt(b: Bytes, i: nat)
    requires i < |b|
    ensures |HexText(b)| == 2 * |b|
    ensures HexText(b)[2 * i] == "0123456789abcdef"[b[i] / 16]
    ensures HexText(b)[2 * i + 1] == "0123456789abcdef"[b[i] % 16]
  {
    var n := |b| - 1;
    FromHexUndoesHexText(b);
    FromHexUndoesHexText(b[..n]);
    if i < n {
      HexTextAt(b[..n], i);
    } else {
      HexDigitIs(b[n] / 16);
      HexDigitIs(b[n] % 16);
    }
  }

  lemma HexDigitIs(d: nat)
    requires d < 16
    ensures HexDigit(d) == "0123456789abcdef"[d]
  {
  }

  /** The last decimal digit is the remainder by ten, and those before it write the quotient. */
  lemma DecimalDigits(n: nat)
    ensures Decimal(n)[|Decimal(n)| - 1] == "0123456789"[n % 10]
    ensures Decimal(n)[..|Decimal(n)| - 1] == if n < 10 then "" else Decimal(n / 10)
  {
    DigitIs(n % 10);
  }

  lemma DigitIs(d: nat)
    requires d < 10
    ensures Digit(d) == "0123456789"[d]
  {
  }

  /** Only the capital letters change, each to its own small letter. */
  lemma LowerAt(t: string, i: nat)
    requires i < |t|
    ensures |ToLower(t)| == |t|
    ensures t[i] in "ABCDEFGHIJKLMNOPQRSTUVWXYZ" ==> ToLower(t)[i] as int == t[i] as int + ('a' as int - 'A' as int)
    ensures t[i] !in "ABCDEFGHIJKLMNOPQRSTUVWXYZ" ==> ToLower(t)[i] == t[i]
  {
    IsCapital(t[i]);
  }

  lemma IsCapital(c: char)
    ensures c in "ABCDEFGHIJKLMNOPQRSTUVWXYZ" <==> 'A' <= c <= 'Z'
  {
    var letters := "ABCDEFGHIJKLMNOPQRSTUVWXYZ";
    if 'A' <= c <= 'Z' {
      assert letters[c as int - 65] == c;
    }
  }
}
