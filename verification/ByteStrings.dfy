/**
 Bytes, fixed-width words and big-endian numerals, as the Go code builds them with
 `big.Int.Bytes` and `common.LeftPadBytes`.
 */
module ByteStrings {

  type Byte = x: int | 0 <= x < 0x100
  type Bytes = seq<Byte>
  type Bytes32 = b: Bytes | |b| == 32 witness Zeros(32)
  type Address = b: Bytes | |b| == 20 witness Zeros(20)

  /** A 32-byte hash. Never assumed injective: with 32-byte outputs that would be inconsistent. */
  type Hash = Bytes -> Bytes32

  const ZERO_ADDRESS: Address := Zeros(20)

  /** Two different messages with one digest. */
  ghost predicate Collision(hash: Hash, x: Bytes, y: Bytes) {
    x != y && hash(x) == hash(y)
  }

  /** A collision between a message hashed by one computation and a message hashed by another. */
  ghost predicate CollisionAmong(hash: Hash, xs: set<Bytes>, ys: set<Bytes>) {
    exists x, y :: x in xs && y in ys && Collision(hash, x, y)
  }

  function Zeros(n: nat): (z: Bytes)
    ensures |z| == n
  {
    seq(n, _ => 0)
  }

  /** The bytes of an ASCII literal. */
  function Ascii(s: string): Bytes {
    seq(|s|, i requires 0 <= i < |s| => s[i] as int % 0x100)
  }

  function Abs(x: int): nat {
    if x < 0 then -x else x
  }

  /** Bytes of a non-negative integer, most significant first, no leading zeros. */
  function BigEndian(v: nat): Bytes {
    if v == 0 then [] else BigEndian(v / 0x100) + [v % 0x100]
  }

  function Value(b: Bytes): nat {
    if b == [] then 0 else Value(b[..|b| - 1]) * 0x100 + b[|b| - 1]
  }

  function LeftPad(b: Bytes, n: nat): Bytes {
    if |b| >= n then b else Zeros(n - |b|) + b
  }

  /** One ABI word. `big.Int.Bytes` drops the sign, so a negative number pads like its absolute value. */
  function PadInt(v: int): Bytes {
    LeftPad(BigEndian(Abs(v)), 32)
  }

  function Pow256(n: nat): nat {
    if n == 0 then 1 else 0x100 * Pow256(n - 1)
  }

  lemma {:induction false} ValueOfBigEndian(v: nat)
    ensures Value(BigEndian(v)) == v
  {
    if v != 0 {
      ValueOfBigEndian(v / 0x100);
      var b := BigEndian(v);
      assert b[..|b| - 1] == BigEndian(v / 0x100);
    }
  }

  lemma {:induction false} ValueIgnoresLeadingZeros(n: nat, b: Bytes)
    ensures Value(Zeros(n) + b) == Value(b)
  {
    var z := Zeros(n) + b;
    if b != [] {
      assert z[..|z| - 1] == Zeros(n) + b[..|b| - 1];
      ValueIgnoresLeadingZeros(n, b[..|b| - 1]);
    } else if n > 0 {
      assert z[..|z| - 1] == Zeros(n - 1) + [];
      ValueIgnoresLeadingZeros(n - 1, []);
    }
  }

  lemma {:induction false} BigEndianLength(v: nat, k: nat)
    requires v < Pow256(k)
    ensures |BigEndian(v)| <= k
  {
    if v != 0 {
      BigEndianLength(v / 0x100, k - 1);
    }
  }

  /** A 64-bit quantity fills exactly one word. */
  lemma PadIntWord(v: int)
    requires Abs(v) < 0x1_0000_0000_0000_0000
    ensures |PadInt(v)| == 32
  {
    assert Pow256(8) == 0x1_0000_0000_0000_0000;
    BigEndianLength(Abs(v), 8);
  }

  lemma PadIntValue(v: int)
    ensures Value(PadInt(v)) == Abs(v)
  {
    ValueOfBigEndian(Abs(v));
    ValueIgnoresLeadingZeros(Abs(32 - |BigEndian(Abs(v))|), BigEndian(Abs(v)));
  }

  /** Exactly what a padded word remembers about a number: everything but the sign. */
  lemma PadIntBinds(v: int, w: int)
    ensures PadInt(v) == PadInt(w) <==> Abs(v) == Abs(w)
  {
    PadIntValue(v);
    PadIntValue(w);
  }

  /** Padding a 20-byte address is injective, whatever follows it. */
  lemma PadAddressBinds(a: Address, b: Address)
    ensures |LeftPad(a, 32)| == 32
    ensures LeftPad(a, 32) == LeftPad(b, 32) ==> a == b
  {
    assert a == LeftPad(a, 32)[12..];
    assert b == LeftPad(b, 32)[12..];
  }

  /** Splitting two equal concatenations at equal positions. */
  lemma SplitEqual(a: Bytes, b: Bytes, c: Bytes, d: Bytes)
    requires a + b == c + d && |a| == |c|
    ensures a == c && b == d
  {
    assert a == (a + b)[..|a|] && c == (c + d)[..|a|];
    assert b == (a + b)[|a|..] && d == (c + d)[|a|..];
  }

  /** The concatenation a loop of appends builds. */
  function Flatten(parts: seq<Bytes>): Bytes {
    if parts == [] then [] else Flatten(parts[..|parts| - 1]) + parts[|parts| - 1]
  }

  lemma FlattenSnoc(parts: seq<Bytes>, last: Bytes)
    ensures Flatten(parts + [last]) == Flatten(parts) + last
  {
    assert (parts + [last])[..|parts|] == parts;
  }

  lemma {:induction false} FlattenFromFront(parts: seq<Bytes>)
    requires parts != []
    ensures Flatten(parts) == parts[0] + Flatten(parts[1..])
  {
    var n := |parts|;
    if n > 1 {
      var init := parts[..n - 1];
      FlattenFromFront(init);
      assert init[1..] == parts[1..][..n - 2];
      assert Flatten(parts[1..]) == Flatten(init[1..]) + parts[n - 1];
      assert (parts[0] + Flatten(init[1..])) + parts[n - 1] == parts[0] + (Flatten(init[1..]) + parts[n - 1]);
    }
  }

  /** A concatenation of words determines the words and how many there are. */
  lemma {:induction false} FlattenWordsBind(a: seq<Bytes32>, b: seq<Bytes32>)
    ensures |Flatten(a)| == 32 * |a|
    ensures Flatten(a) == Flatten(b) ==> a == b
    decreases |a| + |b|, |b|
  {
    if a == [] || b == [] {
      if a != [] {
        FlattenWordsBind(a[..|a| - 1], b);
      } else if b != [] {
        FlattenWordsBind(b[..|b| - 1], a);
      }
    } else {
      FlattenWordsBind(a[..|a| - 1], b[..|b| - 1]);
      FlattenWordsBind(b[..|b| - 1], a[..|a| - 1]);
      if Flatten(a) == Flatten(b) {
        SplitEqual(Flatten(a[..|a| - 1]), a[|a| - 1], Flatten(b[..|b| - 1]), b[|b| - 1]);
        assert a == a[..|a| - 1] + [a[|a| - 1]] && b == b[..|b| - 1] + [b[|b| - 1]];
      }
    }
  }

  // --- words, byte by byte --------------------------------------------------------------------------------

  /** Without its last k bytes. */
  function Shifted(v: nat, k: nat): nat {
    if k == 0 then v else Shifted(v / 0x100, k - 1)
  }

  lemma {:induction false} BigEndianAt(v: nat, k: nat)
    ensures k < |BigEndian(v)| ==> BigEndian(v)[|BigEndian(v)| - 1 - k] == Shifted(v, k) % 0x100
    ensures k >= |BigEndian(v)| ==> Shifted(v, k) == 0
  {
    if v == 0 {
      if k > 0 {
        BigEndianAt(0, k - 1);
      }
    } else if k > 0 {
      BigEndianAt(v / 0x100, k - 1);
    }
  }

  /** Byte k of a word, counted from its end, is byte k of the absolute value: most significant byte first. */
  lemma WordBytes(v: int, k: nat)
    requires Abs(v) < 0x1_0000_0000_0000_0000 && k < 32
    ensures |PadInt(v)| == 32 && PadInt(v)[31 - k] == Shifted(if v < 0 then -v else v, k) % 0x100
  {
    PadIntWord(v);
    BigEndianAt(Abs(v), k);
  }

  /** The word of a small number: thirty zeros and two bytes. */
  lemma SmallWord(v: nat)
    requires v < 0x1_0000
    ensures PadInt(v) == seq(30, _ => 0) + [v / 0x100, v % 0x100]
  {
    var w: Bytes := seq(30, _ => 0) + [v / 0x100, v % 0x100];
    if v >= 0x100 {
      assert BigEndian(v / 0x100) == [v / 0x100];
      assert BigEndian(v) == [v / 0x100, v % 0x100];
    } else if v > 0 {
      assert BigEndian(v) == [v];
    }
    assert PadInt(v) == w;
  }

  /** The word of an address: twelve zeros before it. */
  lemma AddressWord(a: Address)
    ensures LeftPad(a, 32) == [0, 0, 0, 0, 0, 0, 0, 0, 0, 0, 0, 0] + a
  {
  }
}
