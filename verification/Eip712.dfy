/**
 The EIP-712 preimage the enclave asks the node to sign: 0x19 || 0x01 || domainSeparator || structHash.
 */
module Eip712 {
  import opened ByteStrings
  import opened PolicyTypes
  import Commitment

  const DOMAIN_TYPE := "EIP712Domain(string name,string version,uint256 chainId,address verifyingContract)"
  const SHARE_TYPE := "Share(address recipient,uint16 shareBps)"
  const EXECUTION_TYPE := "Execution(bytes32 commitment,bytes32 sharesHash,uint256 triggeredAt)"
  const DOMAIN_NAME := "FlareStudioPolicy"
  const DOMAIN_VERSION := "1"

  /** config.ChainID is an int64. */
  predicate IsChainId(chainId: int) {
    -(SLICE_LIMIT as int) <= chainId < SLICE_LIMIT
  }

  // --- the standard's definition of encodeData and hashStruct --------------------------------

  function ShareData(keccak: Hash, s: Share): Bytes {
    keccak(Ascii(SHARE_TYPE)) + Commitment.Pair(s)
  }

  function ShareHashes(keccak: Hash, shares: seq<Share>): seq<Bytes32> {
    seq<Bytes32>(|shares|, i requires 0 <= i < |shares| => keccak(ShareData(keccak, shares[i])))
  }

  function DomainData(keccak: Hash, policy: Address, chainId: int): Bytes {
    keccak(Ascii(DOMAIN_TYPE)) + keccak(Ascii(DOMAIN_NAME)) + keccak(Ascii(DOMAIN_VERSION))
    + PadInt(chainId) + LeftPad(policy, 32)
  }

  function ExecutionData(keccak: Hash, commitment: Bytes32, shares: seq<Share>, triggeredAt: nat): Bytes {
    keccak(Ascii(EXECUTION_TYPE)) + commitment + keccak(Flatten(ShareHashes(keccak, shares))) + PadInt(triggeredAt)
  }

  function Preimage(keccak: Hash, policy: Address, chainId: int, commitment: Bytes32, shares: seq<Share>,
                    triggeredAt: nat): (p: Bytes)
    ensures |p| == 66
  {
    [0x19, 0x01] + keccak(DomainData(keccak, policy, chainId))
    + keccak(ExecutionData(keccak, commitment, shares, triggeredAt))
  }

  /** What the enclave signs for a stored configuration. */
  function EvaluationPreimage(keccak: Hash, policy: Address, chainId: int, cfg: PrivateConfig,
                              triggeredAt: nat): Bytes {
    Preimage(keccak, policy, chainId, keccak(Commitment.Buffer(cfg.shares, cfg.salt)), cfg.shares, triggeredAt)
  }

  lemma Regroup(a: Bytes, b: Bytes, c: Bytes)
    ensures a + b + c == a + (b + c)
  {
  }

  lemma NextShareHash(keccak: Hash, shares: seq<Share>, i: nat)
    requires i < |shares|
    ensures keccak(Ascii(SHARE_TYPE)) + LeftPad(shares[i].recipient, 32) + PadInt(shares[i].shareBps)
         == ShareData(keccak, shares[i])
    ensures Flatten(ShareHashes(keccak, shares[..i])) + keccak(ShareData(keccak, shares[i]))
         == Flatten(ShareHashes(keccak, shares[..i + 1]))
  {
    var h := keccak(ShareData(keccak, shares[i]));
    FlattenSnoc(ShareHashes(keccak, shares[..i]), h);
    assert ShareHashes(keccak, shares[..i + 1]) == ShareHashes(keccak, shares[..i]) + [h];
    Regroup(keccak(Ascii(SHARE_TYPE)), LeftPad(shares[i].recipient, 32), PadInt(shares[i].shareBps));
  }

  // --- the code ---------------------------------------------------------------------------------

  method HashShares(keccak: Hash, shares: seq<Share>) returns (h: Bytes32)
    ensures h == keccak(Flatten(ShareHashes(keccak, shares)))
  {
    var packed: Bytes := [];
    for i := 0 to |shares|
      invariant packed == Flatten(ShareHashes(keccak, shares[..i]))
    {
      var el: Bytes := keccak(Ascii(SHARE_TYPE));
      el := el + LeftPad(shares[i].recipient, 32);
      el := el + PadInt(shares[i].shareBps);
      NextShareHash(keccak, shares, i);
      packed := packed + keccak(el);
    }
    assert shares[..|shares|] == shares;
    h := keccak(packed);
  }

  method DomainSeparator(keccak: Hash, policy: Address, chainId: int) returns (h: Bytes32)
    ensures h == keccak(DomainData(keccak, policy, chainId))
  {
    var buf: Bytes := keccak(Ascii(DOMAIN_TYPE));
    buf := buf + keccak(Ascii(DOMAIN_NAME));
    buf := buf + keccak(Ascii(DOMAIN_VERSION));
    buf := buf + PadInt(chainId);
    buf := buf + LeftPad(policy, 32);
    h := keccak(buf);
  }

  method BuildPreimage(keccak: Hash, policy: Address, chainId: int, commitment: Bytes32, shares: seq<Share>,
                       triggeredAt: nat) returns (preimage: Bytes)
    ensures preimage == Preimage(keccak, policy, chainId, commitment, shares, triggeredAt)
    ensures |preimage| == 66
  {
    var structBuf: Bytes := keccak(Ascii(EXECUTION_TYPE));
    structBuf := structBuf + commitment;
    var sharesHash := HashShares(keccak, shares);
    structBuf := structBuf + sharesHash;
    structBuf := structBuf + PadInt(triggeredAt);
    var structHash := keccak(structBuf);

    preimage := [0x19, 0x01];
    var separator := DomainSeparator(keccak, policy, chainId);
    preimage := preimage + separator;
    preimage := preimage + structHash;
  }

  // --- binding ----------------------------------------------------------------------------------

  /** Every message hashed on the way to one preimage, type strings aside. */
  function Hashed(keccak: Hash, policy: Address, chainId: int, commitment: Bytes32, shares: seq<Share>,
                  triggeredAt: nat): set<Bytes> {
    {DomainData(keccak, policy, chainId), ExecutionData(keccak, commitment, shares, triggeredAt),
     Flatten(ShareHashes(keccak, shares))}
    + set s | s in shares :: ShareData(keccak, s)
  }

  function HashedForConfig(keccak: Hash, policy: Address, chainId: int, cfg: PrivateConfig, t: nat): set<Bytes> {
    var buffer := Commitment.Buffer(cfg.shares, cfg.salt);
    Hashed(keccak, policy, chainId, keccak(buffer), cfg.shares, t) + {buffer}
  }

  lemma DomainBinds(keccak: Hash, policy: Address, chainId: int, policy': Address, chainId': int)
    requires IsChainId(chainId) && IsChainId(chainId')
    requires DomainData(keccak, policy, chainId) == DomainData(keccak, policy', chainId')
    ensures policy == policy' && Abs(chainId) == Abs(chainId')
  {
    PadIntWord(chainId);
    PadIntWord(chainId');
    PadIntBinds(chainId, chainId');
    PadAddressBinds(policy, policy');
    var prefix := keccak(Ascii(DOMAIN_TYPE)) + keccak(Ascii(DOMAIN_NAME)) + keccak(Ascii(DOMAIN_VERSION));
    SplitEqual(prefix + PadInt(chainId), LeftPad(policy, 32), prefix + PadInt(chainId'), LeftPad(policy', 32));
    SplitEqual(prefix, PadInt(chainId), prefix, PadInt(chainId'));
  }

  lemma ExecutionBinds(keccak: Hash, c: Bytes32, shares: seq<Share>, t: nat,
                       c': Bytes32, shares': seq<Share>, t': nat)
    requires ExecutionData(keccak, c, shares, t) == ExecutionData(keccak, c', shares', t')
    ensures c == c' && t == t'
    ensures keccak(Flatten(ShareHashes(keccak, shares))) == keccak(Flatten(ShareHashes(keccak, shares')))
  {
    var typehash := keccak(Ascii(EXECUTION_TYPE));
    var h, h' := keccak(Flatten(ShareHashes(keccak, shares))), keccak(Flatten(ShareHashes(keccak, shares')));
    SplitEqual(typehash + c + h, PadInt(t), typehash + c' + h', PadInt(t'));
    SplitEqual(typehash + c, h, typehash + c', h');
    SplitEqual(typehash, c, typehash, c');
    PadIntBinds(t, t');
  }

  lemma ShareDataBinds(keccak: Hash, s: Share, s': Share)
    requires ShareData(keccak, s) == ShareData(keccak, s')
    ensures s == s'
  {
    var typehash := keccak(Ascii(SHARE_TYPE));
    SplitEqual(typehash, Commitment.Pair(s), typehash, Commitment.Pair(s'));
    PadAddressBinds(s.recipient, s'.recipient);
    SplitEqual(LeftPad(s.recipient, 32), PadInt(s.shareBps), LeftPad(s'.recipient, 32), PadInt(s'.shareBps));
    PadIntBinds(s.shareBps, s'.shareBps);
  }

  /** Equal lists of share hashes come from equal share lists, length and order included, or collide. */
  lemma ShareHashesBind(keccak: Hash, shares: seq<Share>, shares': seq<Share>)
    requires Flatten(ShareHashes(keccak, shares)) == Flatten(ShareHashes(keccak, shares'))
    ensures shares == shares'
         || CollisionAmong(keccak, set s | s in shares :: ShareData(keccak, s),
                                   set s | s in shares' :: ShareData(keccak, s))
  {
    var hs, hs' := ShareHashes(keccak, shares), ShareHashes(keccak, shares');
    FlattenWordsBind(hs, hs');
    if shares != shares' {
      var i :| 0 <= i < |shares| && shares[i] != shares'[i];
      assert hs[i] == hs'[i];
      if ShareData(keccak, shares[i]) == ShareData(keccak, shares'[i]) {
        ShareDataBinds(keccak, shares[i], shares'[i]);
      }
      assert Collision(keccak, ShareData(keccak, shares[i]), ShareData(keccak, shares'[i]));
    }
  }

  /**
   One preimage, one meaning: policy, chain, commitment, the whole share list and the trigger time,
   or else two of the messages actually hashed collide. The chain is bound up to its sign, which is
   exactly as far as it goes (see ChainSignIsLost).
   */
  lemma PreimageBinds(keccak: Hash, policy: Address, chainId: int, c: Bytes32, shares: seq<Share>, t: nat,
                      policy': Address, chainId': int, c': Bytes32, shares': seq<Share>, t': nat)
    requires IsChainId(chainId) && IsChainId(chainId')
    requires Preimage(keccak, policy, chainId, c, shares, t) == Preimage(keccak, policy', chainId', c', shares', t')
    ensures (policy == policy' && Abs(chainId) == Abs(chainId') && c == c' && shares == shares' && t == t')
         || CollisionAmong(keccak, Hashed(keccak, policy, chainId, c, shares, t),
                                   Hashed(keccak, policy', chainId', c', shares', t'))
  {
    var d, d' := DomainData(keccak, policy, chainId), DomainData(keccak, policy', chainId');
    var e, e' := ExecutionData(keccak, c, shares, t), ExecutionData(keccak, c', shares', t');
    var p, p' := Flatten(ShareHashes(keccak, shares)), Flatten(ShareHashes(keccak, shares'));
    SplitEqual([0x19, 0x01] + keccak(d), keccak(e), [0x19, 0x01] + keccak(d'), keccak(e'));
    SplitEqual([0x19, 0x01], keccak(d), [0x19, 0x01], keccak(d'));
    if d != d' {
      assert Collision(keccak, d, d');
    } else if e != e' {
      assert Collision(keccak, e, e');
    } else {
      DomainBinds(keccak, policy, chainId, policy', chainId');
      ExecutionBinds(keccak, c, shares, t, c', shares', t');
      if p != p' {
        assert Collision(keccak, p, p');
      } else {
        ShareHashesBind(keccak, shares, shares');
        WidenCollision(keccak, policy, chainId, c, shares, t, policy', chainId', c', shares', t');
      }
    }
  }

  lemma WidenCollision(keccak: Hash, policy: Address, chainId: int, c: Bytes32, shares: seq<Share>, t: nat,
                       policy': Address, chainId': int, c': Bytes32, shares': seq<Share>, t': nat)
    ensures CollisionAmong(keccak, set s | s in shares :: ShareData(keccak, s),
                                   set s | s in shares' :: ShareData(keccak, s))
        ==> CollisionAmong(keccak, Hashed(keccak, policy, chainId, c, shares, t),
                                   Hashed(keccak, policy', chainId', c', shares', t'))
  {
  }

  /** A negative chain id signs the same bytes as its absolute value: the code drops the sign. */
  lemma ChainSignIsLost(keccak: Hash, policy: Address, chainId: int, c: Bytes32, shares: seq<Share>, t: nat)
    ensures Preimage(keccak, policy, -chainId, c, shares, t) == Preimage(keccak, policy, chainId, c, shares, t)
  {
    assert PadInt(-chainId) == PadInt(chainId);
  }

  /** What a signature over an evaluation authorises: one policy, one stored configuration, one trigger time. */
  lemma EvaluationBinds(keccak: Hash, policy: Address, chainId: int, cfg: PrivateConfig, t: nat,
                        policy': Address, chainId': int, cfg': PrivateConfig, t': nat)
    requires IsChainId(chainId) && IsChainId(chainId')
    requires |cfg.shares| < SLICE_LIMIT && |cfg'.shares| < SLICE_LIMIT
    requires EvaluationPreimage(keccak, policy, chainId, cfg, t)
          == EvaluationPreimage(keccak, policy', chainId', cfg', t')
    ensures (policy == policy' && Abs(chainId) == Abs(chainId') && cfg == cfg' && t == t')
         || CollisionAmong(keccak, HashedForConfig(keccak, policy, chainId, cfg, t),
                                   HashedForConfig(keccak, policy', chainId', cfg', t'))
  {
    var b, b' := Commitment.Buffer(cfg.shares, cfg.salt), Commitment.Buffer(cfg'.shares, cfg'.salt);
    PreimageBinds(keccak, policy, chainId, keccak(b), cfg.shares, t, policy', chainId', keccak(b'), cfg'.shares, t');
    if keccak(b) == keccak(b') {
      Commitment.CommitmentBinds(keccak, cfg.shares, cfg.salt, cfg'.shares, cfg'.salt);
    }
  }

  /** The signed bytes written out: two prefix bytes, then the hash of five domain words, then that of the execution. */
  lemma PreimageBytes(keccak: Hash, policy: Address, chainId: int, commitment: Bytes32, shares: seq<Share>,
                      triggeredAt: nat)
    ensures Preimage(keccak, policy, chainId, commitment, shares, triggeredAt)
         == [25, 1]
            + keccak(keccak(Ascii("EIP712Domain(string name,string version,uint256 chainId,address verifyingContract)"))
                     + keccak(Ascii("FlareStudioPolicy")) + keccak(Ascii("1")) + PadInt(chainId) + LeftPad(policy, 32))
            + keccak(keccak(Ascii("Execution(bytes32 commitment,bytes32 sharesHash,uint256 triggeredAt)"))
                     + commitment + keccak(Flatten(ShareHashes(keccak, shares))) + PadInt(triggeredAt))
    ensures |ShareHashes(keccak, shares)| == |shares|
    ensures forall i | 0 <= i < |shares| ::
              ShareHashes(keccak, shares)[i]
              == keccak(keccak(Ascii("Share(address recipient,uint16 shareBps)"))
                        + LeftPad(shares[i].recipient, 32) + PadInt(shares[i].shareBps))
  {
    forall i | 0 <= i < |shares|
      ensures ShareHashes(keccak, shares)[i]
              == keccak(keccak(Ascii(SHARE_TYPE)) + LeftPad(shares[i].recipient, 32) + PadInt(shares[i].shareBps))
    {
      NextShareHash(keccak, shares, i);
    }
  }

  /** The message of an evaluation is over the commitment of the very configuration that is evaluated. */
  lemma EvaluationBytes(keccak: Hash, policy: Address, chainId: int, cfg: PrivateConfig, triggeredAt: nat)
    ensures EvaluationPreimage(keccak, policy, chainId, cfg, triggeredAt)
         == [25, 1] + keccak(DomainData(keccak, policy, chainId))
            + keccak(ExecutionData(keccak, keccak(Commitment.Buffer(cfg.shares, cfg.salt)), cfg.shares, triggeredAt))
  {
  }
}
