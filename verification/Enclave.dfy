/**
 The extension's state under its read-write lock. Each handler takes at most two lock sections, with
 decryption and signing outside them; `Extension` runs one request uninterrupted, and `EnclaveRuns`
 interleaves the same sections in every possible way.
 */
module Enclave {
  import opened ByteStrings
  import opened PolicyTypes
  import opened Shares
  import Eip712
  import RunTest

  /** Everything the lock protects. The last policy is None while the code's string is empty. */
  datatype Store = Store(policies: map<Address, PrivateConfig>, evaluationCount: nat, lastPolicy: Option<Address>)

  /** What GET /state shows. */
  datatype State = State(policiesStored: nat, evaluationCount: nat, lastPolicy: Option<Address>)

  datatype StoreRequest = StoreRequest(policy: Address, ciphertext: Bytes)
  datatype EvaluateRequest = EvaluateRequest(policy: Address, triggeredAt: nat)

  /** What the node and the JSON parser make of a ciphertext. */
  datatype Opened = DecryptFailed | NotJson | Config(cfg: PrivateConfig)

  datatype Refusal =
    | BadRequest | ZeroPolicy | EmptyCiphertext | Undecryptable | Unparsable | InvalidShares(why: ShareCheck)
    | ChainUnset | NotArmed | NotStored(policy: Address) | SigningFailed

  datatype Reply =
    | Stored(policy: Address, shareCount: nat)
    | Evaluated(evaluation: Evaluation)
    | StateIs(state: State)
    | Refused(why: Refusal)

  const EMPTY_STORE := Store(map[], 0, None)

  // --- lock sections ------------------------------------------------------------------------------

  function PutSection(s: Store, policy: Address, cfg: PrivateConfig): Store {
    s.(policies := s.policies[policy := cfg], lastPolicy := Some(policy))
  }

  function GetSection(s: Store, policy: Address): Option<PrivateConfig> {
    if policy in s.policies then Some(s.policies[policy]) else None
  }

  function CountSection(s: Store, policy: Address): Store {
    s.(evaluationCount := s.evaluationCount + 1, lastPolicy := Some(policy))
  }

  function StateSection(s: Store): State {
    State(|s.policies|, s.evaluationCount, s.lastPolicy)
  }

  // --- outside the lock ---------------------------------------------------------------------------

  datatype Admission = Rejected(why: Refusal) | Admitted(policy: Address, cfg: PrivateConfig)

  /** STORE up to its write section. */
  function Admit(req: Option<StoreRequest>, plain: Opened): Admission {
    match req
    case None => Rejected(BadRequest)
    case Some(r) =>
      if r.policy == ZERO_ADDRESS then Rejected(ZeroPolicy)
      else if r.ciphertext == [] then Rejected(EmptyCiphertext)
      else match plain
           case DecryptFailed => Rejected(Undecryptable)
           case NotJson => Rejected(Unparsable)
           case Config(cfg) =>
             if CheckShares(cfg.shares).Valid? then Admitted(r.policy, cfg)
             else Rejected(InvalidShares(CheckShares(cfg.shares)))
  }

  /** EVALUATE up to its read section: the refusal, or None. */
  function Guard(chainId: int, req: Option<EvaluateRequest>): Option<Refusal> {
    if req.None? then Some(BadRequest)
    else if chainId == 0 then Some(ChainUnset)
    else if req.value.triggeredAt == 0 then Some(NotArmed)
    else None
  }

  /** When a STORE is refused, and for which reason: the first of these that applies. */
  ghost predicate StoreRefused(req: Option<StoreRequest>, plain: Opened, why: Refusal) {
    if why.BadRequest? then req.None?
    else if why.ZeroPolicy? then req.Some? && req.value.policy == seq(20, _ => 0)
    else if why.EmptyCiphertext? then req.Some? && req.value.policy != seq(20, _ => 0) && |req.value.ciphertext| == 0
    else
      && req.Some? && req.value.policy != seq(20, _ => 0) && |req.value.ciphertext| > 0
      && match why
         case Undecryptable => plain == DecryptFailed
         case Unparsable => plain == NotJson
         case InvalidShares(check) => plain.Config? && check == CheckShares(plain.cfg.shares) && check != Valid
         case _ => false
  }

  ghost predicate EvaluateRefused(chainId: int, req: Option<EvaluateRequest>, why: Refusal) {
    match why
    case BadRequest => req.None?
    case ChainUnset => req.Some? && chainId == 0
    case NotArmed => req.Some? && chainId != 0 && req.value.triggeredAt == 0
    case _ => false
  }

  lemma AdmitExactly(req: Option<StoreRequest>, plain: Opened, why: Refusal)
    ensures Admit(req, plain) == Rejected(why) <==> StoreRefused(req, plain, why)
    ensures Admit(req, plain).Admitted? <==>
              && req.Some? && req.value.policy != seq(20, _ => 0) && |req.value.ciphertext| > 0
              && plain.Config? && CheckShares(plain.cfg.shares) == Valid
    ensures Admit(req, plain).Admitted? ==> Admit(req, plain) == Admitted(req.value.policy, plain.cfg)
  {
    assert ZERO_ADDRESS == seq(20, _ => 0);
  }

  lemma GuardExactly(chainId: int, req: Option<EvaluateRequest>, why: Refusal)
    ensures Guard(chainId, req) == Some(why) <==> EvaluateRefused(chainId, req, why)
    ensures Guard(chainId, req).None? <==> req.Some? && chainId != 0 && req.value.triggeredAt != 0
  {
  }

  /** The node's answer to a signing request, adjusted; anything but 65 bytes is an error. */
  function SignatureFrom(reply: Option<Bytes>): Option<Bytes> {
    if reply.Some? && |reply.value| == 65 then Some(RunTest.Normalized(reply.value)) else None
  }

  /** A signature is 65 bytes of the node's reply, of which only a last byte below 27 is changed. */
  lemma SignatureExactly(reply: Option<Bytes>)
    ensures SignatureFrom(reply).None? <==> reply.None? || |reply.value| != 65
    ensures SignatureFrom(reply).Some? ==>
              var sig := SignatureFrom(reply).value;
              && |sig| == 65 && sig[..64] == reply.value[..64]
              && sig[64] == (if reply.value[64] < 27 then reply.value[64] as int + 27 else reply.value[64])
  {
    if reply.Some? && |reply.value| == 65 {
      RunTest.OnlyTheIdMoves(reply.value);
    }
  }

  /** EVALUATE from its read section on, with nothing in between: the answer and the store after it. */
  function EvaluateStored(keccak: Hash, chainId: int, policy: Address, triggeredAt: nat, sign: Bytes -> Option<Bytes>,
                          s: Store): (Reply, Store) {
    match GetSection(s, policy)
    case None => (Refused(NotStored(policy)), s)
    case Some(cfg) =>
      match SignatureFrom(sign(Eip712.EvaluationPreimage(keccak, policy, chainId, cfg, triggeredAt)))
      case None => (Refused(SigningFailed), s)
      case Some(sig) => (Evaluated(Evaluation(policy, cfg.shares, cfg.salt, sig)), CountSection(s, policy))
  }

  method SignViaNode(message: Bytes, sign: Bytes -> Option<Bytes>) returns (signature: Option<Bytes>)
    ensures signature == SignatureFrom(sign(message))
  {
    var reply := sign(message);
    if reply.None? || |reply.value| != 65 {
      return None;
    }
    var normalized := RunTest.NormalizeV(reply.value);
    signature := Some(normalized[..]);
  }

  // --- the handlers, one request at a time ----------------------------------------------------------

  class Extension {
    var policies: map<Address, PrivateConfig>
    var evaluationCount: nat
    var lastPolicy: Option<Address>

    function Contents(): Store
      reads this
    {
      Store(policies, evaluationCount, lastPolicy)
    }

    constructor ()
      ensures Contents() == EMPTY_STORE
    {
      policies := map[];
      evaluationCount := 0;
      lastPolicy := None;
    }

    method StateHandler() returns (s: State)
      ensures s == StateSection(Contents())
    {
      s := State(|policies|, evaluationCount, lastPolicy);
    }

    /** A refused STORE changes nothing; an accepted one replaces one entry and reports only a count. */
    method ProcessStore(req: Option<StoreRequest>, plain: Opened) returns (r: Reply)
      modifies this
      ensures match Admit(req, plain)
              case Rejected(why) => r == Refused(why) && Contents() == old(Contents())
              case Admitted(policy, cfg) =>
                r == Stored(policy, |cfg.shares|) && Contents() == PutSection(old(Contents()), policy, cfg)
    {
      if req.None? {
        return Refused(BadRequest);
      }
      if req.value.policy == ZERO_ADDRESS {
        return Refused(ZeroPolicy);
      }
      if |req.value.ciphertext| == 0 {
        return Refused(EmptyCiphertext);
      }
      if plain.DecryptFailed? {
        return Refused(Undecryptable);
      }
      if plain.NotJson? {
        return Refused(Unparsable);
      }
      var check := ValidateShares(plain.cfg.shares);
      if !check.Valid? {
        return Refused(InvalidShares(check));
      }
      policies := policies[req.value.policy := plain.cfg];
      lastPolicy := Some(req.value.policy);
      r := Stored(req.value.policy, |plain.cfg.shares|);
    }

    /** EVALUATE counts only when it signed, and signs only the stored split. */
    method ProcessEvaluate(keccak: Hash, chainId: int, req: Option<EvaluateRequest>, sign: Bytes -> Option<Bytes>)
        returns (r: Reply)
      modifies this
      ensures Guard(chainId, req).Some? ==> r == Refused(Guard(chainId, req).value) && Contents() == old(Contents())
      ensures Guard(chainId, req).None? ==>
                (r, Contents()) == EvaluateStored(keccak, chainId, req.value.policy, req.value.triggeredAt, sign,
                                                  old(Contents()))
    {
      if req.None? {
        return Refused(BadRequest);
      }
      if chainId == 0 {
        return Refused(ChainUnset);
      }
      if req.value.triggeredAt == 0 {
        return Refused(NotArmed);
      }
      r := EvaluatePolicy(keccak, chainId, req.value.policy, req.value.triggeredAt, sign);
    }

    /** Its two lock sections, and the node's signature in between. */
    method EvaluatePolicy(keccak: Hash, chainId: int, policy: Address, triggeredAt: nat, sign: Bytes -> Option<Bytes>)
        returns (r: Reply)
      modifies this
      ensures (r, Contents()) == EvaluateStored(keccak, chainId, policy, triggeredAt, sign, old(Contents()))
    {
      ghost var before := Contents();
      if policy !in policies {
        return Refused(NotStored(policy));
      }
      var cfg := policies[policy];
      assert GetSection(before, policy) == Some(cfg);
      var commitment := Eip712.Commitment.ComputeCommitment(keccak, cfg.shares, cfg.salt);
      var preimage := Eip712.BuildPreimage(keccak, policy, chainId, commitment, cfg.shares, triggeredAt);
      var signature := SignViaNode(preimage, sign);
      if signature.None? {
        return Refused(SigningFailed);
      }
      evaluationCount := evaluationCount + 1;
      lastPolicy := Some(policy);
      assert Contents() == CountSection(before, policy);
      r := Evaluated(Evaluation(policy, cfg.shares, cfg.salt, signature.value));
    }
  }
}
