/**
 The live end-to-end check: a second, independent construction of the digest, and the verdict on an
 evaluation. The node hashes the message it is given, wraps the hash in the EIP-191 (version 0x45)
 personal-message prefix, and signs that.
 */
module RunTest {
  import opened ByteStrings
  import opened PolicyTypes
  import Commitment
  import Eip712

  const TEST_TRIGGERED_AT: nat := 1_700_000_000

  /** Public-key recovery; None when the library rejects the signature. */
  type Recover = (Bytes32, Bytes) -> Option<Address>

  function TextHash(keccak: Hash, data: Bytes32): Bytes32 {
    keccak([0x19] + Ascii("Ethereum Signed Message:\n32") + data)
  }

  lemma AsciiOf(s: string, t: string)
    ensures Ascii(s + t) == Ascii(s) + Ascii(t)
  {
  }

  lemma EthereumBytes()
    ensures Ascii("Ethereum ") == [69, 116, 104, 101, 114, 101, 117, 109, 32]
  {
  }

  lemma SignedBytes()
    ensures Ascii("Signed ") == [83, 105, 103, 110, 101, 100, 32]
  {
  }

  lemma MessageBytes()
    ensures Ascii("Message:\n32") == [77, 101, 115, 115, 97, 103, 101, 58, 10, 51, 50]
  {
  }

  /** The wrapped bytes: 25, "Ethereum Signed Message:", a line feed and "32" before the hash. */
  lemma TextHashBytes(keccak: Hash, data: Bytes32)
    ensures TextHash(keccak, data)
         == keccak([25] + ([69, 116, 104, 101, 114, 101, 117, 109, 32] + [83, 105, 103, 110, 101, 100, 32]
                           + [77, 101, 115, 115, 97, 103, 101, 58, 10, 51, 50])
                   + data)
  {
    EthereumBytes();
    SignedBytes();
    MessageBytes();
    AsciiOf("Ethereum ", "Signed ");
    AsciiOf("Ethereum " + "Signed ", "Message:\n32");
    assert "Ethereum " + "Signed " + "Message:\n32" == "Ethereum Signed Message:\n32";
  }

  /** The digest the node signs when handed a message. */
  function NodeDigest(keccak: Hash, message: Bytes): Bytes32 {
    TextHash(keccak, keccak(message))
  }

  method RebuildCommitment(keccak: Hash, r: Evaluation) returns (commitment: Bytes32)
    ensures commitment == keccak(Commitment.Buffer(r.shares, r.salt))
  {
    var enc: Bytes := PadInt(0x40);
    enc := enc + r.salt;
    enc := enc + PadInt(|r.shares|);
    ghost var header := enc;
    for i := 0 to |r.shares|
      invariant enc == header + Flatten(Commitment.Pairs(r.shares[..i]))
    {
      enc := enc + LeftPad(r.shares[i].recipient, 32);
      enc := enc + PadInt(r.shares[i].shareBps);
      Commitment.NextPair(header, r.shares, i);
    }
    assert r.shares[..|r.shares|] == r.shares;
    commitment := keccak(enc);
  }

  method RebuildSharesHash(keccak: Hash, r: Evaluation) returns (sharesHash: Bytes32)
    ensures sharesHash == keccak(Flatten(Eip712.ShareHashes(keccak, r.shares)))
  {
    var shareTypehash := keccak(Ascii("Share(address recipient,uint16 shareBps)"));
    var packed: Bytes := [];
    for i := 0 to |r.shares|
      invariant packed == Flatten(Eip712.ShareHashes(keccak, r.shares[..i]))
    {
      var el: Bytes := shareTypehash;
      el := el + LeftPad(r.shares[i].recipient, 32);
      el := el + PadInt(r.shares[i].shareBps);
      Eip712.NextShareHash(keccak, r.shares, i);
      packed := packed + keccak(el);
    }
    assert r.shares[..|r.shares|] == r.shares;
    sharesHash := keccak(packed);
  }

  /**
   Rebuilds the digest from a response alone. It is the digest of the very preimage the enclave hands
   to the node for that policy, configuration and trigger time, for every list of shares.
   */
  method ExecutionDigest(keccak: Hash, r: Evaluation, chainId: int) returns (digest: Bytes32)
    ensures digest == NodeDigest(keccak, Eip712.EvaluationPreimage(keccak, r.policy, chainId,
                                                                   PrivateConfig(r.shares, r.salt), TEST_TRIGGERED_AT))
  {
    var commitment := RebuildCommitment(keccak, r);
    var sharesHash := RebuildSharesHash(keccak, r);

    var structBuf: Bytes := keccak(Ascii("Execution(bytes32 commitment,bytes32 sharesHash,uint256 triggeredAt)"));
    structBuf := structBuf + commitment;
    structBuf := structBuf + sharesHash;
    structBuf := structBuf + PadInt(TEST_TRIGGERED_AT);
    var structHash: Bytes := keccak(structBuf);

    var domainBuf: Bytes :=
      keccak(Ascii("EIP712Domain(string name,string version,uint256 chainId,address verifyingContract)"));
    domainBuf := domainBuf + keccak(Ascii("FlareStudioPolicy"));
    domainBuf := domainBuf + keccak(Ascii("1"));
    domainBuf := domainBuf + PadInt(chainId);
    domainBuf := domainBuf + LeftPad(r.policy, 32);
    var domainSeparator: Bytes := keccak(domainBuf);

    var preimage: Bytes := [0x19, 0x01] + (domainSeparator + structHash);
    assert preimage == [0x19, 0x01] + domainSeparator + structHash;
    digest := TextHash(keccak, keccak(preimage));
  }

  // --- recovery ids -----------------------------------------------------------------------------

  /** 0/1 as the node returns it, 27/28 as the contract wants it. */
  function Normalized(sig: Bytes): Bytes
    requires |sig| == 65
  {
    if sig[64] < 27 then sig[64 := sig[64] + 27] else sig
  }

  function Denormalized(sig: Bytes): Bytes
    requires |sig| == 65
  {
    if sig[64] >= 27 then sig[64 := sig[64] - 27] else sig
  }

  method NormalizeV(sig: Bytes) returns (out: array<Byte>)
    requires |sig| == 65
    ensures fresh(out) && out[..] == Normalized(sig)
  {
    out := new Byte[65];
    forall i | 0 <= i < 65 {
      out[i] := sig[i];
    }
    if out[64] < 27 {
      out[64] := out[64] + 27;
    }
  }

  /** Both adjustments touch the last byte alone; afterwards it is at least 27, or shifted back. */
  lemma OnlyTheIdMoves(sig: Bytes)
    requires |sig| == 65
    ensures |Normalized(sig)| == |Denormalized(sig)| == 65
    ensures Normalized(sig)[..64] == sig[..64] == Denormalized(sig)[..64]
    ensures Normalized(sig)[64] >= 27
    ensures Normalized(sig)[64] == sig[64] as int + 27 || (sig[64] >= 27 && Normalized(sig)[64] == sig[64])
    ensures sig[64] < 27 ==> Normalized(sig)[64] == sig[64] as int + 27 && Denormalized(sig) == sig
    ensures sig[64] >= 27 ==> Normalized(sig) == sig && Denormalized(sig)[64] == sig[64] as int - 27
  {
  }

  /** The check undoes the enclave's adjustment on exactly the ids below 27, which include 0 and 1. */
  lemma DenormalizeUndoesNormalize(sig: Bytes)
    requires |sig| == 65
    ensures Denormalized(Normalized(sig)) == sig <==> sig[64] < 27
  {
    if sig[64] < 27 {
      assert Denormalized(Normalized(sig)) == sig;
    } else {
      assert Denormalized(Normalized(sig))[64] == sig[64] - 27;
    }
  }

  // --- the verdict ------------------------------------------------------------------------------

  datatype Verdict = Accepted | SaltMismatch | CountMismatch | ShareMismatch(i: nat) | BadLength | Unrecoverable | WrongSigner

  /** The enclave returned our split unchanged and the machine signed the preimage that belongs to it. */
  predicate Accepts(keccak: Hash, recover: Recover, got: Evaluation, want: PrivateConfig, chainId: int,
                    expectedSigner: Address) {
    && PrivateConfig(got.shares, got.salt) == want
    && |got.signature| == 65
    && recover(NodeDigest(keccak, Eip712.EvaluationPreimage(keccak, got.policy, chainId, want, TEST_TRIGGERED_AT)),
               Denormalized(got.signature)) == Some(expectedSigner)
  }

  method CheckEvaluation(keccak: Hash, recover: Recover, got: Evaluation, want: PrivateConfig, chainId: int,
                         expectedSigner: Address) returns (v: Verdict)
    ensures v.Accepted? <==> Accepts(keccak, recover, got, want, chainId, expectedSigner)
    ensures v.SaltMismatch? <==> got.salt != want.salt
    ensures v.CountMismatch? <==> got.salt == want.salt && |got.shares| != |want.shares|
    ensures v.BadLength? <==> PrivateConfig(got.shares, got.salt) == want && |got.signature| != 65
    ensures v.Unrecoverable? <==>
              && PrivateConfig(got.shares, got.salt) == want && |got.signature| == 65
              && recover(NodeDigest(keccak, Eip712.EvaluationPreimage(keccak, got.policy, chainId, want, TEST_TRIGGERED_AT)),
                         Denormalized(got.signature)) == None
    ensures v.ShareMismatch? ==> v.i < |want.shares| == |got.shares| && got.shares[..v.i] == want.shares[..v.i]
                                 && got.shares[v.i] != want.shares[v.i]
  {
    if got.salt != want.salt {
      return SaltMismatch;
    }
    if |got.shares| != |want.shares| {
      return CountMismatch;
    }
    for i := 0 to |got.shares|
      invariant got.shares[..i] == want.shares[..i]
    {
      if got.shares[i] != want.shares[i] {
        return ShareMismatch(i);
      }
    }
    assert got.shares == got.shares[..|got.shares|] == want.shares[..|want.shares|] == want.shares;
    if |got.signature| != 65 {
      return BadLength;
    }
    var sig := got.signature;
    if sig[64] >= 27 {
      sig := sig[64 := sig[64] - 27];
    }
    var digest := ExecutionDigest(keccak, got, chainId);
    match recover(digest, sig)
    case None => v := Unrecoverable;
    case Some(signer) => v := if signer == expectedSigner then Accepted else WrongSigner;
  }
}
