/**
 keccak256(abi.encode(Share[], bytes32)), three ways: the enclave's hand-rolled buffer, the
 browser's generic ABI encoder, and a decoder that shows the buffer forgets nothing.
 */
module Commitment {
  import opened ByteStrings
  import opened PolicyTypes
  import Abi

  /** The browser's view of a share: the amount is a 256-bit integer there. */
  datatype Distribution = Distribution(recipient: Address, amount: nat)

  function Pair(s: Share): Bytes {
    LeftPad(s.recipient, 32) + PadInt(s.shareBps)
  }

  function Pairs(shares: seq<Share>): seq<Bytes> {
    seq(|shares|, i requires 0 <= i < |shares| => Pair(shares[i]))
  }

  function Buffer(shares: seq<Share>, salt: Bytes32): Bytes {
    PadInt(0x40) + salt + PadInt(|shares|) + Flatten(Pairs(shares))
  }

  lemma NextPair(header: Bytes, shares: seq<Share>, i: nat)
    requires i < |shares|
    ensures header + Flatten(Pairs(shares[..i])) + LeftPad(shares[i].recipient, 32) + PadInt(shares[i].shareBps)
         == header + Flatten(Pairs(shares[..i + 1]))
  {
    var before, a, b := Flatten(Pairs(shares[..i])), LeftPad(shares[i].recipient, 32), PadInt(shares[i].shareBps);
    FlattenSnoc(Pairs(shares[..i]), Pair(shares[i]));
    assert Pairs(shares[..i + 1]) == Pairs(shares[..i]) + [Pair(shares[i])];
    assert header + before + a + b == header + (before + (a + b));
  }

  /** The enclave's encoder: one buffer grown word by word. */
  method ComputeCommitment(keccak: Hash, shares: seq<Share>, salt: Bytes32) returns (commitment: Bytes32)
    ensures commitment == keccak(Buffer(shares, salt))
  {
    var buf := PadInt(0x40);
    buf := buf + salt;
    buf := buf + PadInt(|shares|);
    ghost var header := buf;
    for i := 0 to |shares|
      invariant buf == header + Flatten(Pairs(shares[..i]))
    {
      buf := buf + LeftPad(shares[i].recipient, 32);
      buf := buf + PadInt(shares[i].shareBps);
      NextPair(header, shares, i);
    }
    assert shares[..|shares|] == shares;
    commitment := keccak(buf);
  }

  // --- the browser's encoder ----------------------------------------------------------------

  function AsAbi(d: Distribution): Abi.Value {
    Abi.Tuple([Abi.Addr(d.recipient), Abi.Uint(d.amount)])
  }

  function AbiArguments(distributions: seq<Distribution>, salt: Bytes32): Abi.Value {
    Abi.Tuple([Abi.Array(seq(|distributions|, i requires 0 <= i < |distributions| => AsAbi(distributions[i]))),
               Abi.Word(salt)])
  }

  function BrowserCommitment(keccak: Hash, distributions: seq<Distribution>, salt: Bytes32): Bytes32 {
    keccak(Abi.Encode(AbiArguments(distributions, salt)))
  }

  function Widen(shares: seq<Share>): seq<Distribution> {
    seq(|shares|, i requires 0 <= i < |shares| => Distribution(shares[i].recipient, shares[i].shareBps))
  }

  lemma PairEncoding(s: Share)
    ensures !Abi.Dynamic(AsAbi(Distribution(s.recipient, s.shareBps)))
    ensures Abi.Encode(AsAbi(Distribution(s.recipient, s.shareBps))) == Pair(s)
    ensures |Pair(s)| == 64
  {
    var head, tail := Abi.Addr(s.recipient), Abi.Uint(s.shareBps);
    PadIntWord(s.shareBps);
    assert [head, tail][1..] == [tail] && [tail][1..] == [];
    assert Abi.Heads([tail], 64) == Abi.Encode(tail);
    assert Abi.HeadsSize([tail]) == 32;
    assert Abi.Tails([tail]) == [];
    assert Abi.Heads([head, tail], 64) == Pair(s);
    assert Abi.HeadsSize([head, tail]) == 64;
    assert Abi.Tails([head, tail]) == [];
    assert Abi.HeadTail([head, tail]) == Pair(s);
  }

  /** The elements of the array are static, so they are inlined and leave no tails. */
  lemma {:induction false} StaticElements(shares: seq<Share>, xs: seq<Abi.Value>, offset: nat)
    requires xs == seq(|shares|, i requires 0 <= i < |shares| => AsAbi(Widen(shares)[i]))
    ensures Abi.Heads(xs, offset) == Flatten(Pairs(shares))
    ensures Abi.Tails(xs) == []
  {
    if shares != [] {
      PairEncoding(shares[0]);
      FlattenFromFront(Pairs(shares));
      assert Pairs(shares)[1..] == Pairs(shares[1..]);
      StaticElements(shares[1..], xs[1..], offset);
    }
  }

  /** The hand-rolled buffer is exactly the generic encoding, for every list of shares. */
  lemma EncodersAgree(shares: seq<Share>, salt: Bytes32)
    ensures Abi.Encode(AbiArguments(Widen(shares), salt)) == Buffer(shares, salt)
  {
    var elems := seq(|shares|, i requires 0 <= i < |shares| => AsAbi(Widen(shares)[i]));
    var list, word := Abi.Array(elems), Abi.Word(salt);
    var args := [list, word];
    assert AbiArguments(Widen(shares), salt) == Abi.Tuple(args);
    StaticElements(shares, elems, Abi.HeadsSize(elems));
    ghost var tail := Abi.Encode(list);
    assert Abi.HeadTail(elems) == Flatten(Pairs(shares));
    assert tail == PadInt(|shares|) + Flatten(Pairs(shares));
    assert args[1..] == [word] && [word][1..] == [];
    assert Abi.HeadsSize([word]) == 32;
    assert Abi.Heads([word], 0x40 + |tail|) == salt;
    assert Abi.Heads(args, 0x40) == PadInt(0x40) + salt;
    assert Abi.Tails([word]) == [];
    assert Abi.Tails(args) == tail;
    assert Abi.HeadsSize(args) == 0x40;
    assert Abi.HeadTail(args) == PadInt(0x40) + salt + tail;
  }

  /** So the browser and the enclave always derive the same commitment. */
  lemma CommitmentsAgree(keccak: Hash, shares: seq<Share>, salt: Bytes32)
    ensures BrowserCommitment(keccak, Widen(shares), salt) == keccak(Buffer(shares, salt))
  {
    EncodersAgree(shares, salt);
  }

  // --- decoding -------------------------------------------------------------------------------

  function DecodePairs(b: Bytes): Option<seq<Share>>
    requires |b| % 64 == 0
  {
    if b == [] then Some([])
    else
      var bps := Value(b[32..64]);
      var rest := DecodePairs(b[64..]);
      if bps < 0x1_0000 && rest.Some? then Some([Share(b[12..32], bps)] + rest.value) else None
  }

  function Decode(b: Bytes): Option<(seq<Share>, Bytes32)> {
    if |b| < 96 || |b| % 64 != 32 || |b| != 96 + 64 * Value(b[64..96]) then None
    else
      var shares := DecodePairs(b[96..]);
      if shares.Some? then Some((shares.value, b[32..64])) else None
  }

  lemma PairReads(s: Share, rest: Bytes)
    ensures var b := Pair(s) + rest;
            && |b| == 64 + |rest| && b[64..] == rest
            && b[12..32] == s.recipient && Value(b[32..64]) == s.shareBps
  {
    PairEncoding(s);
    PadIntValue(s.shareBps);
    assert (Pair(s) + rest)[12..32] == s.recipient;
    assert (Pair(s) + rest)[32..64] == PadInt(s.shareBps);
  }

  lemma {:induction false} DecodesPairs(shares: seq<Share>)
    ensures |Flatten(Pairs(shares))| == 64 * |shares|
    ensures DecodePairs(Flatten(Pairs(shares))) == Some(shares)
  {
    if shares != [] {
      DecodesPairs(shares[1..]);
      FlattenFromFront(Pairs(shares));
      assert Pairs(shares)[1..] == Pairs(shares[1..]);
      PairReads(shares[0], Flatten(Pairs(shares[1..])));
      assert [shares[0]] + shares[1..] == shares;
    }
  }

  /** Decoding undoes encoding at every list length: the buffer keeps every share, in order, and the salt. */
  lemma DecodeUndoesBuffer(shares: seq<Share>, salt: Bytes32)
    requires |shares| < SLICE_LIMIT
    ensures Decode(Buffer(shares, salt)) == Some((shares, salt))
  {
    var b := Buffer(shares, salt);
    PadIntWord(0x40);
    PadIntWord(|shares|);
    PadIntValue(|shares|);
    DecodesPairs(shares);
    assert b[32..64] == salt;
    assert b[64..96] == PadInt(|shares|);
    assert b[96..] == Flatten(Pairs(shares));
  }

  /**
   The binding claim, in extraction form: one commitment for two different policies exhibits a
   collision between the two buffers that were hashed.
   */
  lemma CommitmentBinds(keccak: Hash, shares: seq<Share>, salt: Bytes32, shares': seq<Share>, salt': Bytes32)
    requires |shares| < SLICE_LIMIT && |shares'| < SLICE_LIMIT
    requires keccak(Buffer(shares, salt)) == keccak(Buffer(shares', salt'))
    ensures (shares == shares' && salt == salt') || Collision(keccak, Buffer(shares, salt), Buffer(shares', salt'))
  {
    DecodeUndoesBuffer(shares, salt);
    DecodeUndoesBuffer(shares', salt');
  }

  lemma StaysInPlace(b: Bytes, more: Bytes, at: nat)
    requires at + 64 <= |b|
    ensures (b + more)[at..at + 64] == b[at..at + 64]
  {
  }

  lemma {:induction false} PartAt(parts: seq<Bytes>, i: nat)
    requires i < |parts| && forall k | 0 <= k < |parts| :: |parts[k]| == 64
    ensures |Flatten(parts)| == 64 * |parts|
    ensures Flatten(parts)[64 * i..64 * i + 64] == parts[i]
  {
    var n := |parts| - 1;
    if n == 0 {
      assert parts[..0] == [];
    } else {
      PartAt(parts[..n], if i < n then i else 0);
      if i < n {
        StaysInPlace(Flatten(parts[..n]), parts[n], 64 * i);
      }
    }
  }

  lemma PairAt(shares: seq<Share>, i: nat)
    requires i < |shares|
    ensures |Flatten(Pairs(shares))| == 64 * |shares|
    ensures Flatten(Pairs(shares))[64 * i..64 * i + 64] == Pair(shares[i])
  {
    forall k | 0 <= k < |shares|
      ensures |Pairs(shares)[k]| == 64
    {
      PairEncoding(shares[k]);
    }
    PartAt(Pairs(shares), i);
  }

  /**
   What is hashed, byte by byte: 64 as the offset of the list, the salt, the number of shares, then for each share in
   order its recipient behind twelve zeros and its proportion in the last two bytes of a word.
   */
  lemma BufferBytes(shares: seq<Share>, salt: Bytes32, i: nat)
    requires i < |shares| < SLICE_LIMIT
    ensures var b := Buffer(shares, salt);
            && |b| == 96 + 64 * |shares|
            && b[..32] == seq(30, _ => 0) + [0, 64]
            && b[32..64] == salt
            && Value(b[64..96]) == |shares|
            && b[96 + 64 * i..128 + 64 * i] == [0, 0, 0, 0, 0, 0, 0, 0, 0, 0, 0, 0] + shares[i].recipient
            && b[128 + 64 * i..160 + 64 * i]
               == seq(30, _ => 0) + [shares[i].shareBps as int / 0x100, shares[i].shareBps as int % 0x100]
  {
    var b, pairs := Buffer(shares, salt), Flatten(Pairs(shares));
    SmallWord(0x40);
    SmallWord(shares[i].shareBps);
    AddressWord(shares[i].recipient);
    PadIntWord(|shares|);
    PadIntValue(|shares|);
    PairAt(shares, i);
    assert b == PadInt(0x40) + salt + PadInt(|shares|) + pairs;
    assert b[..32] == PadInt(0x40) && b[32..64] == salt && b[64..96] == PadInt(|shares|) && b[96..] == pairs;
    PairInside(b, pairs, i, LeftPad(shares[i].recipient, 32), PadInt(shares[i].shareBps));
  }

  lemma PairInside(b: Bytes, pairs: Bytes, i: nat, first: Bytes, second: Bytes)
    requires |b| >= 96 && b[96..] == pairs && 64 * i + 64 <= |pairs| && |first| == |second| == 32
    requires pairs[64 * i..64 * i + 64] == first + second
    ensures b[96 + 64 * i..128 + 64 * i] == first && b[128 + 64 * i..160 + 64 * i] == second
  {
    var (x, at) := (pairs[64 * i..64 * i + 64], 64 * i);
    assert b[96 + at..160 + at] == x;
    assert b[96 + at..128 + at] == b[96 + at..160 + at][..32];
    assert b[128 + at..160 + at] == b[96 + at..160 + at][32..];
  }
}
