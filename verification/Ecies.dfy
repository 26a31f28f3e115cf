/**
 ECIES in go-ethereum's AES-128 / SHA-256 profile (section 5.1 of SEC 1): R (65) || iv (16) || ciphertext || tag (32).
 The primitives are uninterpreted; `Lawful` lists the only laws the proofs use.
 */
module Ecies {
  import opened ByteStrings
  import opened PolicyTypes
  import opened Text

  const KEY_LEN := 16
  const IV_LEN := 16
  const TAG_LEN := 32
  const PUBKEY_LEN := 65

  datatype Suite = Suite(
    sha256: Hash,
    hmac: (Bytes, Bytes) -> Bytes32,
    encrypt: (Bytes, Bytes, Bytes) -> Bytes,          // AES-CTR: key, iv, message
    decrypt: (Bytes, Bytes, Bytes) -> Bytes,
    publicKey: Bytes -> Bytes,                        // uncompressed
    sharedPoint: (Bytes, Bytes) -> Option<Bytes>,     // None when the public key is not a point
    decompress: Bytes -> Option<Bytes>)

  ghost predicate Lawful(s: Suite) {
    && (forall k, iv, m :: s.decrypt(k, iv, s.encrypt(k, iv, m)) == m)
    && (forall k, iv, m :: |s.encrypt(k, iv, m)| == |m|)
    && (forall a :: |s.publicKey(a)| == PUBKEY_LEN && s.publicKey(a)[0] == 0x04)
    && (forall a, b :: s.sharedPoint(a, s.publicKey(b)) == s.sharedPoint(b, s.publicKey(a)))
    && (forall a, b :: s.sharedPoint(a, s.publicKey(b)).Some? && |s.sharedPoint(a, s.publicKey(b)).value| == PUBKEY_LEN)
  }

  // --- the concatenation KDF: section 5.8.1 of NIST SP 800-56A (2007) ----------------------------------

  /** `setUint32`, big-endian: the counter modulo 2^32. */
  function Word32(counter: nat): Bytes {
    var c := counter % 0x1_0000_0000;
    [c / 0x100 / 0x100 / 0x100, c / 0x100 / 0x100 % 0x100, c / 0x100 % 0x100, c % 0x100]
  }

  function Block(sha256: Hash, z: Bytes, counter: nat): Bytes32 {
    sha256(Word32(counter) + z)
  }

  /** The first n blocks of the stream, counters from 1. */
  function Stream(sha256: Hash, z: Bytes, n: nat): (b: Bytes)
    ensures |b| == 32 * n
  {
    if n == 0 then [] else Stream(sha256, z, n - 1) + Block(sha256, z, n)
  }

  function Rounds(outputLen: nat): nat {
    (outputLen + 31) / 32
  }

  function Kdf(sha256: Hash, z: Bytes, outputLen: nat): (b: Bytes)
    ensures |b| == outputLen
  {
    Stream(sha256, z, Rounds(outputLen))[..outputLen]
  }

  lemma NextBlock(sha256: Hash, z: Bytes, counter: nat, take: nat)
    requires counter >= 1 && take <= 32
    ensures Stream(sha256, z, counter)[..32 * (counter - 1) + take]
         == Stream(sha256, z, counter - 1) + Block(sha256, z, counter)[..take]
    ensures Stream(sha256, z, counter - 1)[..32 * (counter - 1)] == Stream(sha256, z, counter - 1)
  {
  }

  method ConcatKDF(sha256: Hash, z: Bytes, outputLen: nat) returns (out: array<Byte>)
    ensures fresh(out) && out[..] == Kdf(sha256, z, outputLen)
  {
    out := new Byte[outputLen];
    var written := 0;
    var counter := 1;
    while written < outputLen
      invariant written <= outputLen && counter >= 1
      invariant written == outputLen || written == 32 * (counter - 1)
      invariant written <= 32 * (counter - 1) < written + 32
      invariant out[..written] == Stream(sha256, z, counter - 1)[..written]
    {
      var counterBytes := Word32(counter);
      var block := sha256(counterBytes + z);
      var take := if |block| < outputLen - written then |block| else outputLen - written;
      ghost var before := out[..written];
      forall i | 0 <= i < take {
        out[written + i] := block[i];
      }
      assert out[..written + take] == before + block[..take];
      NextBlock(sha256, z, counter, take);
      written := written + take;
      counter := counter + 1;
    }
    assert counter - 1 == Rounds(outputLen);
    assert out[..] == out[..written];
  }

  lemma {:induction false} StreamExtends(sha256: Hash, z: Bytes, m: nat, n: nat)
    requires m <= n
    ensures Stream(sha256, z, n)[..32 * m] == Stream(sha256, z, m)
  {
    if m < n {
      StreamExtends(sha256, z, m, n - 1);
      assert Stream(sha256, z, n)[..32 * m] == Stream(sha256, z, n - 1)[..32 * m];
    }
  }

  /** Asking for less gives a prefix. */
  lemma KdfIsPrefixMonotone(sha256: Hash, z: Bytes, a: nat, b: nat)
    requires a <= b
    ensures Kdf(sha256, z, a) == Kdf(sha256, z, b)[..a]
  {
    StreamExtends(sha256, z, Rounds(a), Rounds(b));
    assert Kdf(sha256, z, b)[..a] == Stream(sha256, z, Rounds(b))[..32 * Rounds(a)][..a];
  }

  lemma {:induction false} BlockOfStream(sha256: Hash, z: Bytes, n: nat, i: nat)
    requires 1 <= i <= n
    ensures Stream(sha256, z, n)[32 * (i - 1)..32 * i] == Block(sha256, z, i)
  {
    if i < n {
      BlockOfStream(sha256, z, n - 1, i);
    }
  }

  lemma ValueSnoc(b: Bytes, x: Byte)
    ensures Value(b + [x]) == Value(b) * 0x100 + x
  {
    assert (b + [x])[..|b|] == b;
  }

  lemma Word32Value(counter: nat)
    ensures Value(Word32(counter)) == counter % 0x1_0000_0000
  {
    var c := counter % 0x1_0000_0000;
    var c1, c2, c3 := c / 0x100, c / 0x100 / 0x100, c / 0x100 / 0x100 / 0x100;
    ValueSnoc([], c3);
    ValueSnoc([c3], c2 % 0x100);
    ValueSnoc([c3, c2 % 0x100], c1 % 0x100);
    ValueSnoc([c3, c2 % 0x100, c1 % 0x100], c % 0x100);
    assert [] + [c3] == [c3];
    assert [c3] + [c2 % 0x100] == [c3, c2 % 0x100];
    assert [c3, c2 % 0x100] + [c1 % 0x100] == [c3, c2 % 0x100, c1 % 0x100];
    assert [c3, c2 % 0x100, c1 % 0x100] + [c % 0x100] == Word32(counter);
  }

  /**
   Below 2^32 every block hashes its own counter, as the standard requires; from there on the 32-bit counter
   has wrapped and the stream repeats, so two blocks hash one counter exactly when they are a multiple of
   2^32 apart.
   */
  lemma CounterIsPeriodic(i: nat, j: nat)
    ensures Word32(i) == Word32(j) <==> i % 0x1_0000_0000 == j % 0x1_0000_0000
    ensures i < 0x1_0000_0000 ==> Value(Word32(i)) == i
  {
    Word32Value(i);
    Word32Value(j);
  }

  // --- keys ----------------------------------------------------------------------------------------------

  datatype Keys = Keys(encryption: Bytes, mac: Bytes32)

  function KeysOf(s: Suite, z: Bytes): Keys {
    var derived := Kdf(s.sha256, z, 2 * KEY_LEN);
    Keys(derived[..KEY_LEN], s.sha256(derived[KEY_LEN..]))
  }

  method DeriveKeys(s: Suite, z: Bytes) returns (keys: Keys)
    ensures keys == KeysOf(s, z)
  {
    var derived := ConcatKDF(s.sha256, z, 2 * KEY_LEN);
    keys := Keys(derived[0..KEY_LEN], s.sha256(derived[KEY_LEN..2 * KEY_LEN]));
    assert derived[0..KEY_LEN] == derived[..][..KEY_LEN];
    assert derived[KEY_LEN..2 * KEY_LEN] == derived[..][KEY_LEN..];
  }

  /** The two keys split the first block of the stream in half; only the second half is hashed again. */
  lemma KeysPartitionFirstBlock(s: Suite, z: Bytes)
    ensures |KeysOf(s, z).encryption| == KEY_LEN
    ensures exists half: Bytes :: |half| == KEY_LEN && KeysOf(s, z).encryption + half == s.sha256([0, 0, 0, 1] + z)
                                  && KeysOf(s, z).mac == s.sha256(half)
  {
    var derived := Kdf(s.sha256, z, 32);
    assert Word32(1) == [0, 0, 0, 1];
    assert Stream(s.sha256, z, 0) == [];
    assert Stream(s.sha256, z, 1) == Block(s.sha256, z, 1);
    assert derived == Block(s.sha256, z, 1);
    var half := derived[KEY_LEN..];
    assert derived[..KEY_LEN] + half == derived;
  }

  /** The X coordinate of the shared point. */
  function SharedSecret(s: Suite, privateKey: Bytes, publicKey: Bytes): Option<Bytes> {
    var point := s.sharedPoint(privateKey, publicKey);
    if point.Some? && |point.value| == PUBKEY_LEN then Some(point.value[1..33]) else None
  }

  // --- the machine's key, in any of the forms it is reported in --------------------------------------------

  function NormalizeKey(s: Suite, raw: Bytes): Option<Bytes> {
    if |raw| == PUBKEY_LEN && raw[0] == 0x04 then Some(raw)
    else if |raw| == 64 then Some([0x04] + raw)
    else if |raw| == 33 && (raw[0] == 0x02 || raw[0] == 0x03) then s.decompress(raw)
    else None
  }

  /**
   An uncompressed key normalises to itself with or without its prefix, a compressed one to the point it stands for,
   and nothing else is taken for a key.
   */
  lemma KeyFormsAgree(s: Suite, key: Bytes)
    ensures |key| == 65 && key[0] == 0x04 ==> NormalizeKey(s, key) == Some(key) && NormalizeKey(s, key[1..]) == Some(key)
    ensures |key| == 33 && (key[0] == 0x02 || key[0] == 0x03) ==> NormalizeKey(s, key) == s.decompress(key)
    ensures !(|key| == 64 || (|key| == 65 && key[0] == 0x04) || (|key| == 33 && (key[0] == 0x02 || key[0] == 0x03))) ==>
              NormalizeKey(s, key) == None
  {
    if |key| == 65 && key[0] == 0x04 {
      assert [0x04] + key[1..] == key;
    }
  }

  // --- hex ---------------------------------------------------------------------------------------------------

  method ToHex(bytes: Bytes) returns (hex: string)
    ensures hex == "0x" + HexText(bytes)
  {
    hex := "";
    for i := 0 to |bytes|
      invariant hex == HexText(bytes[..i])
    {
      assert bytes[..i + 1][..i] == bytes[..i];
      hex := hex + HexPair(bytes[i]);
    }
    assert bytes[..|bytes|] == bytes;
    hex := "0x" + hex;
  }

  function StripPrefix(t: string): string {
    if |t| >= 2 && t[0] == '0' && t[1] == 'x' then t[2..] else t
  }

  /** White space as number parsing skips it. */
  predicate IsSpace(c: char) {
    var u := c as int;
    || 0x09 <= u <= 0x0D || u == 0x20 || u == 0xA0 || u == 0x1680 || 0x2000 <= u <= 0x200A
    || u == 0x2028 || u == 0x2029 || u == 0x202F || u == 0x205F || u == 0x3000 || u == 0xFEFF
  }

  /** `Number.parseInt` of two characters in base 16, stored in a byte: NaN is stored as 0, -d as 256 - d. */
  function ParsePair(c: char, d: char): Byte {
    if IsHexDigit(c) then if IsHexDigit(d) then HexValue(c) * 16 + HexValue(d) else HexValue(c)
    else if !IsHexDigit(d) then 0
    else if IsSpace(c) || c == '+' then HexValue(d)
    else if c == '-' then (0x100 - HexValue(d)) % 0x100
    else 0
  }

  /** What the loop makes of any text at all; a last odd character is dropped. */
  function Lenient(t: string): Bytes {
    seq(|t| / 2, i requires 0 <= i < |t| / 2 => ParsePair(t[2 * i], t[2 * i + 1]))
  }

  method ToBytes(value: string) returns (out: array<Byte>)
    ensures fresh(out) && out[..] == Lenient(StripPrefix(value))
  {
    var hex := StripPrefix(value);
    out := new Byte[|hex| / 2];
    for i := 0 to out.Length
      invariant forall k | 0 <= k < i :: out[k] == Lenient(hex)[k]
    {
      out[i] := ParsePair(hex[2 * i], hex[2 * i + 1]);
    }
  }

  lemma PairOnHex(c: char, d: char)
    requires IsHexDigit(c) && IsHexDigit(d)
    ensures ParsePair(c, d) == HexValue(c) * 16 + HexValue(d)
  {
  }

  lemma LenientStep(t: string)
    requires |t| >= 2 && |t| % 2 == 0
    ensures Lenient(t) == Lenient(t[..|t| - 2]) + [ParsePair(t[|t| - 2], t[|t| - 1])]
  {
    assert |t| / 2 == (|t| - 2) / 2 + 1 && 2 * (|t| / 2) == |t|;
  }

  lemma {:induction false} LenientOnHex(t: string)
    requires AllHex(t) && |t| % 2 == 0
    ensures Lenient(t) == FromHex(t)
  {
    if t == "" {
      assert Lenient(t) == [];
    } else {
      var n := |t| - 2;
      LenientOnHex(t[..n]);
      LenientStep(t);
      PairOnHex(t[n], t[n + 1]);
    }
  }

  /** A text is the hex of the bytes read from it, digit case aside, exactly when it is hex with two digits a byte. */
  lemma LenientIsFaithful(t: string)
    ensures HexText(Lenient(t)) == ToLower(t) <==> AllHex(t) && |t| % 2 == 0
  {
    if AllHex(t) && |t| % 2 == 0 {
      LenientOnHex(t);
      HexTextOfFromHex(t);
    } else if HexText(Lenient(t)) == ToLower(t) {
      FromHexUndoesHexText(Lenient(t));
      assert |t| == |ToLower(t)| == 2 * |Lenient(t)|;
      forall i | 0 <= i < |t|
        ensures IsHexDigit(t[i])
      {
        assert IsHexDigit(ToLower(t)[i]);
      }
    }
  }

  lemma StripsOwnPrefix(b: Bytes)
    ensures StripPrefix("0x" + HexText(b)) == HexText(b)
  {
  }

  /** Bytes survive their prefixed hex form. */
  lemma HexFormReads(b: Bytes)
    ensures Lenient(StripPrefix("0x" + HexText(b))) == b
  {
    StripsOwnPrefix(b);
    FromHexUndoesHexText(b);
    LenientOnHex(HexText(b));
  }

  // --- comparing tags ------------------------------------------------------------------------------------------

  /** Bitwise exclusive or of the low n bits. */
  function Xor(a: nat, b: nat, n: nat): nat {
    if n == 0 then 0 else 2 * Xor(a / 2, b / 2, n - 1) + (if a % 2 == b % 2 then 0 else 1)
  }

  /** Bitwise or of the low n bits. */
  function Or(a: nat, b: nat, n: nat): nat {
    if n == 0 then 0 else 2 * Or(a / 2, b / 2, n - 1) + (if a % 2 == 0 && b % 2 == 0 then 0 else 1)
  }

  function Pow2(n: nat): nat {
    if n == 0 then 1 else 2 * Pow2(n - 1)
  }

  lemma {:induction false} XorIsZero(a: nat, b: nat, n: nat)
    requires a < Pow2(n) && b < Pow2(n)
    ensures Xor(a, b, n) == 0 <==> a == b
  {
    if n > 0 {
      XorIsZero(a / 2, b / 2, n - 1);
    }
  }

  lemma {:induction false} OrIsZero(a: nat, b: nat, n: nat)
    requires a < Pow2(n) && b < Pow2(n)
    ensures Or(a, b, n) == 0 <==> a == 0 && b == 0
  {
    if n > 0 {
      OrIsZero(a / 2, b / 2, n - 1);
    }
  }

  lemma {:induction false} BitsFit(a: nat, b: nat, n: nat)
    ensures Xor(a, b, n) < Pow2(n) && Or(a, b, n) < Pow2(n)
  {
    if n > 0 {
      BitsFit(a / 2, b / 2, n - 1);
    }
  }

  lemma EightBits()
    ensures Pow2(8) == 0x100
  {
    assert Pow2(4) == 16;
  }

  /** One difference folded into the accumulator. */
  lemma Folds(diff: Byte, x: Byte, y: Byte)
    ensures Or(diff, Xor(x, y, 8), 8) < 0x100
    ensures Or(diff, Xor(x, y, 8), 8) == 0 <==> diff == 0 && x == y
  {
    EightBits();
    var bits := Xor(x, y, 8);
    BitsFit(x, y, 8);
    BitsFit(diff, bits, 8);
    XorIsZero(x, y, 8);
    OrIsZero(diff, bits, 8);
  }

  method ConstantTimeEqual(a: Bytes, b: Bytes) returns (eq: bool)
    ensures eq <==> a == b
  {
    if |a| != |b| {
      return false;
    }
    var diff: Byte := 0;
    for i := 0 to |a|
      invariant diff == 0 <==> a[..i] == b[..i]
    {
      Folds(diff, a[i], b[i]);
      assert a[..i + 1] == a[..i] + [a[i]] && b[..i + 1] == b[..i] + [b[i]];
      diff := Or(diff, Xor(a[i], b[i], 8), 8);
    }
    assert a[..|a|] == a && b[..|b|] == b;
    eq := diff == 0;
  }

  // --- sealing and opening ---------------------------------------------------------------------------------------

  /** The wire bytes; None where the code throws on an unusable key. */
  function Seal(s: Suite, teeKey: Bytes, message: Bytes, ephemeral: Bytes, iv: Bytes): Option<Bytes> {
    var recipient := NormalizeKey(s, teeKey);
    if recipient.None? then None
    else
      var z := SharedSecret(s, ephemeral, recipient.value);
      if z.None? then None
      else
        var keys := KeysOf(s, z.value);
        var ciphertext := s.encrypt(keys.encryption, iv, message);
        Some(s.publicKey(ephemeral) + iv + ciphertext + s.hmac(keys.mac, iv + ciphertext))
  }

  datatype OpenError = TooShort | NoEphemeralKey | BadPoint | TagMismatch
  datatype Opened = Plain(message: Bytes) | Failed(why: OpenError)

  method EciesEncrypt(s: Suite, teeKey: Bytes, message: Bytes, ephemeral: Bytes, iv: Bytes) returns (r: Option<string>)
    requires |iv| == IV_LEN
    ensures r == match Seal(s, teeKey, message, ephemeral, iv)
                 case None => None
                 case Some(wire) => Some("0x" + HexText(wire))
  {
    var recipient := NormalizeKey(s, teeKey);
    if recipient.None? {
      return None;
    }
    var ephemeralPublic := s.publicKey(ephemeral);
    var z := SharedSecret(s, ephemeral, recipient.value);
    if z.None? {
      return None;
    }
    var keys := DeriveKeys(s, z.value);
    var ciphertext := s.encrypt(keys.encryption, iv, message);
    var tag := s.hmac(keys.mac, iv + ciphertext);
    var hex := ToHex(ephemeralPublic + iv + ciphertext + tag);
    r := Some(hex);
  }

  /** An independent account of what opening accepts: shape, point, and the MAC over iv || ciphertext. */
  function Open(s: Suite, key: Bytes, data: Bytes): Opened {
    if |data| < PUBKEY_LEN + IV_LEN + TAG_LEN then Failed(TooShort)
    else if data[0] != 0x04 then Failed(NoEphemeralKey)
    else
      var z := SharedSecret(s, key, data[..PUBKEY_LEN]);
      var body := data[PUBKEY_LEN..|data| - TAG_LEN];
      if z.None? then Failed(BadPoint)
      else if s.hmac(KeysOf(s, z.value).mac, body) != data[|data| - TAG_LEN..] then Failed(TagMismatch)
      else Plain(s.decrypt(KeysOf(s, z.value).encryption, body[..IV_LEN], body[IV_LEN..]))
  }

  method EciesDecrypt(s: Suite, key: Bytes, data: Bytes) returns (r: Opened)
    ensures r == Open(s, key, data)
    ensures |data| >= PUBKEY_LEN + IV_LEN + TAG_LEN && data[0] == 0x04 && SharedSecret(s, key, data[..PUBKEY_LEN]).Some? ==>
              (r.Plain? <==>
               s.hmac(KeysOf(s, SharedSecret(s, key, data[..PUBKEY_LEN]).value).mac,
                      data[PUBKEY_LEN..|data| - TAG_LEN]) == data[|data| - TAG_LEN..])
  {
    if |data| < PUBKEY_LEN + IV_LEN + TAG_LEN {
      return Failed(TooShort);
    }
    if data[0] != 0x04 {
      return Failed(NoEphemeralKey);
    }
    var ephemeralPublic := data[..PUBKEY_LEN];
    var body := data[PUBKEY_LEN..|data| - TAG_LEN];
    var tag := data[|data| - TAG_LEN..];
    var z := SharedSecret(s, key, ephemeralPublic);
    if z.None? {
      return Failed(BadPoint);
    }
    var keys := DeriveKeys(s, z.value);
    var expected := s.hmac(keys.mac, body);
    var same := ConstantTimeEqual(expected, tag);
    if !same {
      return Failed(TagMismatch);
    }
    var iv := body[..IV_LEN];
    r := Plain(s.decrypt(keys.encryption, iv, body[IV_LEN..]));
  }

  // --- what is on the wire, byte for byte --------------------------------------------------------------------------

  /** For the shared point 04 || x || y, both keys come from x alone. */
  lemma KeysComeFromX(s: Suite, privateKey: Bytes, publicKey: Bytes, x: Bytes, y: Bytes)
    requires |x| == |y| == 32 && s.sharedPoint(privateKey, publicKey) == Some([0x04] + x + y)
    ensures SharedSecret(s, privateKey, publicKey) == Some(x)
    ensures var block: Bytes := s.sha256([0, 0, 0, 1] + x);
            KeysOf(s, x) == Keys(block[..16], s.sha256(block[16..]))
  {
    assert ([0x04] + x + y)[1..33] == x;
    var block: Bytes := s.sha256([0, 0, 0, 1] + x);
    var half: Bytes :| |half| == KEY_LEN && KeysOf(s, x).encryption + half == s.sha256([0, 0, 0, 1] + x)
                       && KeysOf(s, x).mac == s.sha256(half) by {
      KeysPartitionFirstBlock(s, x);
    }
    assert block[..16] == KeysOf(s, x).encryption && block[16..] == half;
  }

  /**
   The sealed bytes for any usable key: the ephemeral public key, the iv, the message encrypted under the first half of
   the block hashed from counter 1 and x, and a tag over iv and ciphertext keyed with the hash of the second half.
   */
  lemma SealedBytes(s: Suite, teeKey: Bytes, recipient: Bytes, message: Bytes, ephemeral: Bytes, iv: Bytes, x: Bytes,
                    y: Bytes)
    requires NormalizeKey(s, teeKey) == Some(recipient) && |x| == |y| == 32
    requires s.sharedPoint(ephemeral, recipient) == Some([0x04] + x + y)
    ensures var block: Bytes := s.sha256([0, 0, 0, 1] + x);
            var ciphertext := s.encrypt(block[..16], iv, message);
            Seal(s, teeKey, message, ephemeral, iv)
            == Some(s.publicKey(ephemeral) + iv + ciphertext + s.hmac(s.sha256(block[16..]), iv + ciphertext))
  {
    KeysComeFromX(s, ephemeral, recipient, x, y);
  }

  /** What opening makes of any such bytes: the message exactly when the tag is that of iv and ciphertext. */
  lemma OpenedBytes(s: Suite, key: Bytes, point: Bytes, iv: Bytes, ciphertext: Bytes, tag: Bytes, x: Bytes, y: Bytes)
    requires |point| == 65 && point[0] == 0x04 && |iv| == 16 && |tag| == 32 && |x| == |y| == 32
    requires s.sharedPoint(key, point) == Some([0x04] + x + y)
    ensures var block: Bytes := s.sha256([0, 0, 0, 1] + x);
            Open(s, key, point + iv + ciphertext + tag)
            == if s.hmac(s.sha256(block[16..]), iv + ciphertext) == tag then Plain(s.decrypt(block[..16], iv, ciphertext))
               else Failed(TagMismatch)
  {
    KeysComeFromX(s, key, point, x, y);
    var data := point + iv + ciphertext + tag;
    assert data[..65] == point && data[65..|data| - 32] == iv + ciphertext && data[|data| - 32..] == tag;
    assert (iv + ciphertext)[..16] == iv && (iv + ciphertext)[16..] == ciphertext;
  }

  /** Sealing fails exactly on a key that is none, or that shares no point with the ephemeral one. */
  lemma UnusableKeys(s: Suite, teeKey: Bytes, message: Bytes, ephemeral: Bytes, iv: Bytes)
    ensures Seal(s, teeKey, message, ephemeral, iv).None? <==>
              || NormalizeKey(s, teeKey).None?
              || s.sharedPoint(ephemeral, NormalizeKey(s, teeKey).value).None?
              || |s.sharedPoint(ephemeral, NormalizeKey(s, teeKey).value).value| != 65
  {
  }

  /** The other refusals, each exactly on its own inputs. */
  lemma RefusedBytes(s: Suite, key: Bytes, data: Bytes)
    ensures Open(s, key, data) == Failed(TooShort) <==> |data| < 113
    ensures Open(s, key, data) == Failed(NoEphemeralKey) <==> |data| >= 113 && data[0] != 0x04
    ensures Open(s, key, data) == Failed(BadPoint) <==>
              && |data| >= 113 && data[0] == 0x04
              && (s.sharedPoint(key, data[..65]).None? || |s.sharedPoint(key, data[..65]).value| != 65)
  {
  }

  lemma SharedSecretsAgree(s: Suite, key: Bytes, ephemeral: Bytes)
    requires Lawful(s)
    ensures SharedSecret(s, key, s.publicKey(ephemeral)).Some?
    ensures SharedSecret(s, key, s.publicKey(ephemeral)) == SharedSecret(s, ephemeral, s.publicKey(key))
  {
    assert s.sharedPoint(key, s.publicKey(ephemeral)) == s.sharedPoint(ephemeral, s.publicKey(key));
  }

  /**
   Opening undoes sealing: for every message, key pair, form of the public key, ephemeral key and iv, sealing
   succeeds, takes 65 + 16 + n + 32 bytes, survives its hex form, and opens to the message.
   */
  lemma OpenUndoesSeal(s: Suite, key: Bytes, teeKey: Bytes, message: Bytes, ephemeral: Bytes, iv: Bytes)
    requires Lawful(s) && |iv| == IV_LEN && NormalizeKey(s, teeKey) == Some(s.publicKey(key))
    ensures var wire := Seal(s, teeKey, message, ephemeral, iv);
            && wire.Some? && |wire.value| == PUBKEY_LEN + IV_LEN + |message| + TAG_LEN
            && Open(s, key, Lenient(StripPrefix("0x" + HexText(wire.value)))) == Plain(message)
  {
    SharedSecretsAgree(s, key, ephemeral);
    var keys := KeysOf(s, SharedSecret(s, key, s.publicKey(ephemeral)).value);
    var point, ciphertext := s.publicKey(ephemeral), s.encrypt(keys.encryption, iv, message);
    var tag: Bytes := s.hmac(keys.mac, iv + ciphertext);
    var wire := point + iv + ciphertext + tag;
    assert Seal(s, teeKey, message, ephemeral, iv) == Some(wire);
    HexFormReads(wire);
    assert wire[..PUBKEY_LEN] == point;
    assert wire[PUBKEY_LEN..|wire| - TAG_LEN] == iv + ciphertext;
    assert wire[|wire| - TAG_LEN..] == tag;
    assert (iv + ciphertext)[..IV_LEN] == iv && (iv + ciphertext)[IV_LEN..] == ciphertext;
  }

  /** The lenient reading of a pair, case by case: what leads is skipped, a sign counts, and NaN is stored as zero. */
  lemma LenientPairs()
    ensures Lenient("A0") == [160] && Lenient("1g") == [1] && Lenient("g1") == [0] && Lenient("  ") == [0]
    ensures Lenient(" a") == [10] && Lenient("+a") == [10] && Lenient("-1") == [255] && Lenient("-0") == [0]
    ensures Lenient("abc") == [171] && Lenient("c") == []
  {
    assert IsSpace(' ') && !IsSpace('g');
  }
}
