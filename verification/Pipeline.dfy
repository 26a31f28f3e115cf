/** From the browser to the signature: compile, seal, store and evaluate, taken together. */
module Pipeline {
  import opened ByteStrings
  import opened PolicyTypes
  import opened Shares
  import opened Compile
  import opened Enclave
  import opened EnclaveRuns
  import opened EnclaveRequests
  import opened EnclaveProperties
  import Atomicity
  import Commitment
  import Ecies
  import Eip712
  import opened Text
  import Schema

  /** UTF-8, of which only the round trip on the text at hand is used. */
  datatype Codec = Codec(encode: string -> Bytes, decode: Bytes -> Option<string>)

  /** One policy on its way: what the browser compiles it from, and what it seals it with. */
  datatype Upload = Upload(ctx: Context, ir: Schema.PolicyIR, salt: string, suite: Ecies.Suite, codec: Codec,
                           key: Bytes, teeKey: Bytes, ephemeral: Bytes, iv: Bytes)

  /** The compiler accepts it, and it is sealed to the enclave's own key. */
  ghost predicate Proper(u: Upload) {
    && CompilePolicy(u.ctx, u.ir, u.salt).Some?
    && Ecies.Lawful(u.suite) && |u.iv| == Ecies.IV_LEN
    && Ecies.NormalizeKey(u.suite, u.teeKey) == Some(u.suite.publicKey(u.key))
    && u.codec.decode(u.codec.encode(CompiledOf(u).plaintext)) == Some(CompiledOf(u).plaintext)
  }

  function CompiledOf(u: Upload): Compiled
    requires CompilePolicy(u.ctx, u.ir, u.salt).Some?
  {
    CompilePolicy(u.ctx, u.ir, u.salt).value
  }

  function WireOf(u: Upload): Option<Bytes>
    requires CompilePolicy(u.ctx, u.ir, u.salt).Some?
  {
    Ecies.Seal(u.suite, u.teeKey, u.codec.encode(CompiledOf(u).plaintext), u.ephemeral, u.iv)
  }

  /** What the node and the parser make of a STORE request's ciphertext. */
  function OpenPayload(suite: Ecies.Suite, codec: Codec, key: Bytes, ciphertext: Bytes): Opened {
    match Ecies.Open(suite, key, ciphertext)
    case Failed(_) => DecryptFailed
    case Plain(bytes) =>
      match codec.decode(bytes)
      case None => NotJson
      case Some(text) =>
        match UnmarshalConfig(text)
        case None => NotJson
        case Some(cfg) => Config(cfg)
  }

  /** Which ciphertexts count as undecryptable, which as no configuration, and which open to one. */
  lemma OpensExactly(suite: Ecies.Suite, codec: Codec, key: Bytes, ciphertext: Bytes, cfg: PrivateConfig)
    ensures OpenPayload(suite, codec, key, ciphertext) == DecryptFailed <==> !Ecies.Open(suite, key, ciphertext).Plain?
    ensures OpenPayload(suite, codec, key, ciphertext) == Config(cfg) <==>
              && Ecies.Open(suite, key, ciphertext).Plain?
              && codec.decode(Ecies.Open(suite, key, ciphertext).message).Some?
              && UnmarshalConfig(codec.decode(Ecies.Open(suite, key, ciphertext).message).value) == Some(cfg)
  {
  }

  /** The recipients of the draft, in policy order, and the salt that was handed in, as the enclave holds them. */
  ghost predicate Carries(u: Upload, cfg: PrivateConfig) {
    && u.ir.actions != []
    && var rs := u.ir.actions[0].recipients;
    && |cfg.shares| == |rs|
    && (forall i | 0 <= i < |rs| ::
          && Schema.IsAddressText(rs[i].address)
          && cfg.shares[i].recipient == AddressOf(rs[i].address)
          && cfg.shares[i].shareBps == rs[i].shareBps)
    && "0x" + HexText(cfg.salt) == ToLower(u.salt)
  }

  ghost predicate HasZeroRecipient(u: Upload) {
    && u.ir.actions != []
    && exists i | 0 <= i < |u.ir.actions[0].recipients| ::
         && Schema.IsAddressText(u.ir.actions[0].recipients[i].address)
         && AddressOf(u.ir.actions[0].recipients[i].address) == ZERO_ADDRESS
  }

  lemma ZeroIsCarried(u: Upload, cfg: PrivateConfig)
    requires Carries(u, cfg)
    ensures NoZeroRecipient(cfg.shares) <==> !HasZeroRecipient(u)
  {
    if !NoZeroRecipient(cfg.shares) {
      var i :| 0 <= i < |cfg.shares| && cfg.shares[i].recipient == ZERO_ADDRESS;
      assert AddressOf(u.ir.actions[0].recipients[i].address) == ZERO_ADDRESS;
    }
  }

  /** The sealed payload opens to a configuration that carries the draft's recipients and salt under the
   published commitment. */
  lemma PayloadOpens(u: Upload) returns (cfg: PrivateConfig)
    requires Proper(u)
    ensures WireOf(u).Some? && WireOf(u).value != []
    ensures OpenPayload(u.suite, u.codec, u.key, WireOf(u).value) == Config(cfg)
    ensures UnmarshalConfig(CompiledOf(u).plaintext) == Some(cfg)
    ensures Carries(u, cfg)
    ensures u.ctx.keccak(Commitment.Buffer(cfg.shares, cfg.salt)) == CompiledOf(u).publicArgs.commitment
    ensures CheckShares(cfg.shares).Valid? <==> !HasZeroRecipient(u)
  {
    var c := CompiledOf(u);
    Ecies.OpenUndoesSeal(u.suite, u.key, u.teeKey, u.codec.encode(c.plaintext), u.ephemeral, u.iv);
    Ecies.HexFormReads(WireOf(u).value);
    EnclaveReadsWhatWasCommitted(u.ctx, u.ir, u.salt);
    cfg := UnmarshalConfig(c.plaintext).value;
    ZeroIsCarried(u, cfg);
  }

  // --- one request after another ----------------------------------------------------------------------

  /** STORE as a function of the state: the reply and the state after it. */
  function StoreOnce(s: Store, suite: Ecies.Suite, codec: Codec, key: Bytes, policy: Address, ciphertext: Bytes)
      : (Reply, Store)
  {
    match Admit(Some(StoreRequest(policy, ciphertext)), OpenPayload(suite, codec, key, ciphertext))
    case Rejected(why) => (Refused(why), s)
    case Admitted(p, cfg) => (Stored(p, |cfg.shares|), PutSection(s, p, cfg))
  }

  /** What STORE leaves behind when the payload opens to a configuration. */
  lemma StoreOutcome(s: Store, suite: Ecies.Suite, codec: Codec, key: Bytes, policy: Address, wire: Bytes,
                     cfg: PrivateConfig)
    requires policy != ZERO_ADDRESS && wire != [] && OpenPayload(suite, codec, key, wire) == Config(cfg)
    ensures var (reply, after) := StoreOnce(s, suite, codec, key, policy, wire);
            if CheckShares(cfg.shares).Valid? then
              reply == Stored(policy, |cfg.shares|) && GetSection(after, policy) == Some(cfg)
            else !reply.Stored? && after == s
  {
  }

  /**
   Whatever the browser compiles and seals to the enclave's key, the enclave stores under its address exactly when no
   recipient is the zero address, reporting the number of recipients; otherwise the state is left as it was. An EVALUATE
   right after it, whatever the node replies, has the node sign the preimage over the very commitment that was
   published, and answers with the compiled recipients in policy order and the node's signature.
   */
  lemma BrowserToSignature(u: Upload, s: Store, policy: Address, chainId: int, triggeredAt: nat,
                           sign: Bytes -> Option<Bytes>)
    requires Proper(u) && policy != ZERO_ADDRESS
    ensures WireOf(u).Some?
    ensures var (c, (reply, after)) := (CompiledOf(u), StoreOnce(s, u.suite, u.codec, u.key, policy, WireOf(u).value));
            if HasZeroRecipient(u) then !reply.Stored? && after == s
            else
              && reply == Stored(policy, |c.recipients|)
              && GetSection(after, policy).Some?
              && var cfg := GetSection(after, policy).value;
              var message := Eip712.Preimage(u.ctx.keccak, policy, chainId, c.publicArgs.commitment, cfg.shares, triggeredAt);
              && Carries(u, cfg)
              && EvaluateStored(u.ctx.keccak, chainId, policy, triggeredAt, sign, after)
                 == if SignatureFrom(sign(message)).None? then (Refused(SigningFailed), after)
                    else (Evaluated(Evaluation(policy, cfg.shares, cfg.salt, SignatureFrom(sign(message)).value)),
                          CountSection(after, policy))
  {
    var cfg := PayloadOpens(u);
    StoreOutcome(s, u.suite, u.codec, u.key, policy, WireOf(u).value, cfg);
  }

  // --- in every run of the enclave ----------------------------------------------------------------------

  /** Request id can write nothing but this configuration under this policy, and has written nothing else. */
  ghost predicate OnItsWay(m: Machine, id: nat, policy: Address, cfg: PrivateConfig) {
    && id in m.requests
    && (m.requests[id] == Storing(policy, cfg) || m.requests[id].Ready? || m.requests[id].Finished?)
    && (forall i | 0 <= i < |m.log| && m.log[i].Put? && m.log[i].id == id :: m.log[i] == Put(id, policy, cfg))
  }

  lemma NextKeepsOnItsWay(env: Env, m: Machine, a: Action, id: nat, policy: Address, cfg: PrivateConfig)
    requires OnItsWay(m, id, policy, cfg)
    ensures OnItsWay(Next(env, m, a), id, policy, cfg)
  {
  }

  lemma {:induction false} StaysOnItsWay(env: Env, before: seq<Action>, after: seq<Action>, id: nat, policy: Address,
                                         cfg: PrivateConfig)
    requires OnItsWay(Run(env, before), id, policy, cfg)
    ensures OnItsWay(Run(env, before + after), id, policy, cfg)
  {
    if after == [] {
      assert before + after == before;
    } else {
      var n := |after| - 1;
      StaysOnItsWay(env, before, after[..n], id, policy, cfg);
      assert (before + after)[..|before + after| - 1] == before + after[..n];
      NextKeepsOnItsWay(env, Run(env, before + after[..n]), after[n], id, policy, cfg);
    }
  }

  lemma StaysUncalled(env: Env, m: Machine, a: Action, id: nat)
    requires id !in Next(env, m, a).requests
    ensures id !in m.requests && m.log <= Next(env, m, a).log
    ensures forall i | |m.log| <= i < |Next(env, m, a).log| :: Next(env, m, a).log[i].id != id
  {
  }

  lemma {:induction false} NotCalledYet(env: Env, actions: seq<Action>, id: nat)
    requires id !in Run(env, actions).requests
    ensures forall i | 0 <= i < |Run(env, actions).log| :: Run(env, actions).log[i].id != id
  {
    if actions != [] {
      var n := |actions| - 1;
      StaysUncalled(env, Run(env, actions[..n]), actions[n], id);
      NotCalledYet(env, actions[..n], id);
    }
  }

  lemma CalledIsOnItsWay(env: Env, before: seq<Action>, id: nat, policy: Address, wire: Bytes, cfg: PrivateConfig)
    requires id !in Run(env, before).requests && policy != ZERO_ADDRESS && wire != []
    ensures OnItsWay(Run(env, before + [CallStore(id, Some(StoreRequest(policy, wire)), Config(cfg))]), id, policy, cfg)
  {
    var call := CallStore(id, Some(StoreRequest(policy, wire)), Config(cfg));
    NotCalledYet(env, before, id);
    assert (before + [call])[..|before + [call]| - 1] == before;
    CallPutsNothing(env, Run(env, before), call, policy, cfg);
  }

  lemma CallPutsNothing(env: Env, m: Machine, call: Action, policy: Address, cfg: PrivateConfig)
    requires call.CallStore? && call.id !in m.requests && forall i | 0 <= i < |m.log| :: m.log[i].id != call.id
    requires Admit(call.store, call.plain) == Admitted(policy, cfg) || Admit(call.store, call.plain).Rejected?
    ensures OnItsWay(Next(env, m, call), call.id, policy, cfg)
  {
  }

  /** STORE of the sealed policy as request id, after any actions and before any others. */
  function Schedule(u: Upload, before: seq<Action>, after: seq<Action>, id: nat, policy: Address): seq<Action>
    requires CompilePolicy(u.ctx, u.ir, u.salt).Some? && WireOf(u).Some?
  {
    var wire := WireOf(u).value;
    before + [CallStore(id, Some(StoreRequest(policy, wire)), OpenPayload(u.suite, u.codec, u.key, wire))] + after
  }

  /** All that this STORE ever writes, in any run, is the compiled configuration. */
  lemma StoreWritesTheCompiled(u: Upload, env: Env, before: seq<Action>, after: seq<Action>, id: nat, policy: Address)
      returns (cfg: PrivateConfig)
    requires Proper(u) && policy != ZERO_ADDRESS && id !in Run(env, before).requests
    ensures WireOf(u).Some? && Carries(u, cfg)
    ensures u.ctx.keccak(Commitment.Buffer(cfg.shares, cfg.salt)) == CompiledOf(u).publicArgs.commitment
    ensures var log := Run(env, Schedule(u, before, after, id, policy)).log;
            forall i | 0 <= i < |log| && log[i].Put? && log[i].id == id :: log[i] == Put(id, policy, cfg)
  {
    cfg := PayloadOpens(u);
    var wire := WireOf(u).value;
    CalledIsOnItsWay(env, before, id, policy, wire, cfg);
    StaysOnItsWay(env, before + [CallStore(id, Some(StoreRequest(policy, wire)), Config(cfg))], after, id, policy, cfg);
  }

  lemma ReadFindsLatest(log: seq<Event>, j: nat, i: nat, policy: Address, cfg: PrivateConfig)
    requires j < |log| && ReadsAreCurrent(log) && log[j].Got? && log[j].policy == policy
    requires LatestPut(log, j, i, policy, cfg)
    ensures log[j].found == Some(cfg)
  {
    assert ReadIsCurrent(log, j);
    MapHoldsLatestPut(log, j, policy);
    if log[j].found.Some? {
      var k: nat :| LatestPut(log, j, k, policy, log[j].found.value);
      Atomicity.LatestPutIsUnique(log, j, i, k, policy, cfg, log[j].found.value);
    }
  }

  /**
   The whole path in every run. The STORE comes at any moment, among any other requests. Any EVALUATE, answered at k,
   whose read found the write of that STORE, at i, as the latest for its policy, had the node sign the preimage over the
   published commitment, and answered with the compiled recipients and the node's signature.
   */
  lemma SignedOverPublishedCommitment(u: Upload, env: Env, before: seq<Action>, after: seq<Action>, id: nat,
                                      policy: Address, i: nat, k: nat) returns (j: nat, q: nat, c: nat)
    requires Proper(u) && policy != ZERO_ADDRESS && id !in Run(env, before).requests && env.keccak == u.ctx.keccak
    requires WireOf(u).Some?
    requires var log := Run(env, Schedule(u, before, after, id, policy)).log;
             && k < |log| && log[k].Responded? && log[k].reply.Evaluated? && log[k].reply.evaluation.policy == policy
             && i < |log| && log[i].Put? && log[i].id == id
    ensures var log := Run(env, Schedule(u, before, after, id, policy)).log;
            var e := log[k].reply.evaluation;
            && c < k && Atomicity.OwnSections(env, log, j, q, c, log[k].id, e)
            && Opening(Schedule(u, before, after, id, policy), log[k].id)
               == Some(CallEvaluate(log[k].id, Some(EvaluateRequest(policy, log[q].triggeredAt))))
            && (LatestPut(log, j, i, policy, log[i].cfg) ==>
                  && Carries(u, PrivateConfig(e.shares, e.salt))
                  && !HasZeroRecipient(u)
                  && log[q].message == Eip712.Preimage(env.keccak, policy, env.chainId, CompiledOf(u).publicArgs.commitment,
                                                       e.shares, log[q].triggeredAt)
                  && SignatureFrom(log[q].signed) == Some(e.signature))
  {
    var all := Schedule(u, before, after, id, policy);
    var log := Run(env, all).log;
    j, q, c := Atomicity.FindSections(env, all, k);
    var cfg := StoreWritesTheCompiled(u, env, before, after, id, policy);
    assert log[i] == Put(id, policy, cfg);
    RunInv(env, all);
    PutsAreValid(env, all);
    assert CheckShares(log[i].cfg.shares).Valid?;
    ValidHasNoZero(cfg);
    ZeroIsCarried(u, cfg);
    if LatestPut(log, j, i, policy, cfg) {
      ReadFindsLatest(log, j, i, policy, cfg);
    }
  }

  lemma ValidHasNoZero(cfg: PrivateConfig)
    requires CheckShares(cfg.shares).Valid?
    ensures NoZeroRecipient(cfg.shares)
  {
    NoneIsZero(cfg.shares);
  }
}
