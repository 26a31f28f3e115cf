/** Confidentiality as two-run independence. */
module TwinRuns {
  import opened ByteStrings
  import opened PolicyTypes
  import opened Shares
  import opened Enclave
  import opened EnclaveRuns

  /**
   Two decrypted configurations that look alike from outside: one verdict, a refused list's running total included,
   and for accepted lists one length.
   */
  ghost predicate TwinConfigs(a: PrivateConfig, b: PrivateConfig) {
    && CheckShares(a.shares) == CheckShares(b.shares)
    && (CheckShares(a.shares).Valid? ==> |a.shares| == |b.shares|)
  }

  ghost predicate TwinOpened(a: Opened, b: Opened) {
    if a.Config? && b.Config? then TwinConfigs(a.cfg, b.cfg) else a == b
  }

  ghost predicate TwinStores(a: Option<StoreRequest>, b: Option<StoreRequest>) {
    if a.Some? && b.Some? then
      a.value.policy == b.value.policy && (a.value.ciphertext == [] <==> b.value.ciphertext == [])
    else a == b
  }

  /** The same step of the same schedule; only ciphertexts, decrypted configurations and signatures may differ. */
  ghost predicate TwinActions(a: Action, b: Action) {
    match a
    case CallStore(id, req, plain) =>
      b.CallStore? && b.id == id && TwinStores(req, b.store) && TwinOpened(plain, b.plain)
    case NodeReplies(id, signed) =>
      b.NodeReplies? && b.id == id && (SignatureFrom(signed).None? <==> SignatureFrom(b.signed).None?)
    case _ => a == b
  }

  ghost predicate TwinReplies(a: Reply, b: Reply) {
    if a.Evaluated? && b.Evaluated? then a.evaluation.policy == b.evaluation.policy else a == b
  }

  /** What an observer without the evaluations sees of an event: STORE and GET /state answers in full. */
  ghost predicate TwinEvents(a: Event, b: Event) {
    match a
    case Put(id, policy, cfg) => b.Put? && b.id == id && b.policy == policy && |b.cfg.shares| == |cfg.shares|
    case Got(id, policy, found) => b.Got? && b.id == id && b.policy == policy && (b.found.None? <==> found.None?)
    case Asked(id, t, _, _) => b.Asked? && b.id == id && b.triggeredAt == t
    case Responded(id, reply) => b.Responded? && b.id == id && TwinReplies(reply, b.reply)
    case _ => a == b
  }

  ghost predicate TwinPhases(a: Phase, b: Phase) {
    match a
    case Storing(policy, cfg) => b.Storing? && b.policy == policy && |b.cfg.shares| == |cfg.shares|
    case Signing(policy, t, _) => b.Signing? && b.policy == policy && b.triggeredAt == t
    case Counting(policy, _, _) => b.Counting? && b.policy == policy
    case Ready(reply) => b.Ready? && TwinReplies(reply, b.reply)
    case _ => a == b
  }

  ghost predicate TwinLogs(a: seq<Event>, b: seq<Event>) {
    |a| == |b| && forall i | 0 <= i < |a| :: TwinEvents(a[i], b[i])
  }

  ghost predicate TwinMachines(a: Machine, b: Machine) {
    && a.store.policies.Keys == b.store.policies.Keys
    && a.store.evaluationCount == b.store.evaluationCount
    && a.store.lastPolicy == b.store.lastPolicy
    && a.requests.Keys == b.requests.Keys
    && (forall id | id in a.requests :: TwinPhases(a.requests[id], b.requests[id]))
    && TwinLogs(a.log, b.log)
  }

  lemma SameSize<K, V>(a: map<K, V>, b: map<K, V>)
    requires a.Keys == b.Keys
    ensures |a| == |b|
  {
    assert |a| == |a.Keys| && |b| == |b.Keys|;
  }

  lemma TwinCalls(env: Env, a: Machine, b: Machine, x: Action, y: Action)
    requires TwinMachines(a, b) && TwinActions(x, y)
    requires x.CallStore? || x.CallEvaluate? || x.CallState?
    ensures TwinMachines(Call(env, a, x), Call(env, b, y))
  {
    if x.CallStore? {
      assert Admit(x.store, x.plain).Rejected? ==> Admit(x.store, x.plain) == Admit(y.store, y.plain);
    }
    assert TwinPhases(Call(env, a, x).requests[x.id], Call(env, b, y).requests[y.id]);
  }

  lemma TwinMoves(a: Machine, b: Machine, id: nat, p: Phase, q: Phase, e: Event, f: Event)
    requires TwinMachines(a, b) && TwinPhases(p, q) && TwinEvents(e, f)
    ensures TwinMachines(a.To(id, p, e), b.To(id, q, f))
  {
  }

  /** Twin phases take twin steps. */
  lemma TwinStepParts(env: Env, a: Machine, b: Machine, id: nat, x: Action, y: Action)
    requires id in a.requests && id in b.requests && TwinPhases(a.requests[id], b.requests[id]) && TwinActions(x, y)
    requires StateSection(a.store) == StateSection(b.store) && a.store.policies.Keys == b.store.policies.Keys
    ensures var a', b' := Step(env, a, id, x), Step(env, b, id, y);
            if a' == a then b' == b
            else
              && |a'.log| == |a.log| + 1 && |b'.log| == |b.log| + 1
              && TwinPhases(a'.requests[id], b'.requests[id])
              && TwinEvents(a'.log[|a.log|], b'.log[|b.log|])
              && a' == a.(store := a'.store).To(id, a'.requests[id], a'.log[|a.log|])
              && b' == b.(store := b'.store).To(id, b'.requests[id], b'.log[|b.log|])
              && StateSection(a'.store).evaluationCount == StateSection(b'.store).evaluationCount
              && a'.store.lastPolicy == b'.store.lastPolicy
              && a'.store.policies.Keys == b'.store.policies.Keys
  {
  }

  lemma TwinSteps(env: Env, a: Machine, b: Machine, id: nat, x: Action, y: Action)
    requires TwinMachines(a, b) && TwinActions(x, y) && id in a.requests
    ensures TwinMachines(Step(env, a, id, x), Step(env, b, id, y))
  {
    SameSize(a.store.policies, b.store.policies);
    TwinStepParts(env, a, b, id, x, y);
    var a', b' := Step(env, a, id, x), Step(env, b, id, y);
    if a' != a {
      TwinMoves(a.(store := a'.store), b.(store := b'.store), id, a'.requests[id], b'.requests[id],
                a'.log[|a.log|], b'.log[|b.log|]);
    }
  }

  lemma {:induction false} RunsAreTwins(env: Env, xs: seq<Action>, ys: seq<Action>)
    requires |xs| == |ys| && forall i | 0 <= i < |xs| :: TwinActions(xs[i], ys[i])
    ensures TwinMachines(Run(env, xs), Run(env, ys))
  {
    if xs != [] {
      var n := |xs| - 1;
      RunsAreTwins(env, xs[..n], ys[..n]);
      var a, b := Run(env, xs[..n]), Run(env, ys[..n]);
      if xs[n].CallStore? || xs[n].CallEvaluate? || xs[n].CallState? {
        TwinCalls(env, a, b, xs[n], ys[n]);
      } else if xs[n].id in a.requests {
        TwinSteps(env, a, b, xs[n].id, xs[n], ys[n]);
      }
    }
  }

  /**
   Two runs of one schedule whose decrypted configurations look alike, and differ arbitrarily in recipients,
   proportions and salts, give the same STORE answers and the same GET /state answers, each at the same point.
   */
  lemma StoreAndStateRevealOnlyCounts(env: Env, xs: seq<Action>, ys: seq<Action>, k: nat)
    requires |xs| == |ys| && forall i | 0 <= i < |xs| :: TwinActions(xs[i], ys[i])
    ensures |Run(env, xs).log| == |Run(env, ys).log|
    ensures k < |Run(env, xs).log| && Run(env, xs).log[k].Responded? && !Run(env, xs).log[k].reply.Evaluated? ==>
              Run(env, ys).log[k] == Run(env, xs).log[k]
  {
    RunsAreTwins(env, xs, ys);
    if k < |Run(env, xs).log| {
      assert TwinEvents(Run(env, xs).log[k], Run(env, ys).log[k]);
    }
  }

  /** A STORE of a configuration after any history, from its call to its answer. */
  function StoredAfter(xs: seq<Action>, id: nat, policy: Address, ciphertext: Bytes, cfg: PrivateConfig): seq<Action> {
    xs + [CallStore(id, Some(StoreRequest(policy, ciphertext)), Config(cfg)), Write(id), Respond(id)]
  }

  function StoreReply(policy: Address, cfg: PrivateConfig): Reply {
    if CheckShares(cfg.shares).Valid? then Stored(policy, |cfg.shares|) else Refused(InvalidShares(CheckShares(cfg.shares)))
  }

  lemma ThreeMore(env: Env, xs: seq<Action>, a: Action, b: Action, c: Action)
    ensures Run(env, xs + [a, b, c]) == Next(env, Next(env, Next(env, Run(env, xs), a), b), c)
  {
    var ys := xs + [a, b, c];
    ThreeSteps(env, ys, |xs|);
    assert ys[..|xs|] == xs && ys[..|ys|] == ys;
  }

  lemma AnswerSteps(env: Env, m: Machine, id: nat, policy: Address, ciphertext: Bytes, cfg: PrivateConfig)
    requires id !in m.requests && policy != ZERO_ADDRESS && ciphertext != []
    ensures var m' := Next(env, Next(env, Next(env, m, CallStore(id, Some(StoreRequest(policy, ciphertext)), Config(cfg))),
                                     Write(id)), Respond(id));
            m'.log != [] && m'.log[|m'.log| - 1] == Responded(id, StoreReply(policy, cfg))
  {
    var call := CallStore(id, Some(StoreRequest(policy, ciphertext)), Config(cfg));
    var m1 := Next(env, m, call);
    if CheckShares(cfg.shares).Valid? {
      assert m1 == m.To(id, Storing(policy, cfg), Called(id));
    } else {
      assert m1 == m.To(id, Ready(StoreReply(policy, cfg)), Called(id));
      assert Next(env, m1, Write(id)) == m1;
    }
  }

  lemma AnswerOfStore(env: Env, xs: seq<Action>, id: nat, policy: Address, ciphertext: Bytes, cfg: PrivateConfig)
    requires id !in Run(env, xs).requests && policy != ZERO_ADDRESS && ciphertext != []
    ensures var log := Run(env, StoredAfter(xs, id, policy, ciphertext, cfg)).log;
            log != [] && log[|log| - 1] == Responded(id, StoreReply(policy, cfg))
  {
    ThreeMore(env, xs, CallStore(id, Some(StoreRequest(policy, ciphertext)), Config(cfg)), Write(id), Respond(id));
    AnswerSteps(env, Run(env, xs), id, policy, ciphertext, cfg);
  }

  /** After any history, two configurations draw the same answer from STORE exactly when they look alike. */
  lemma SameAnswerExactlyWhenAlike(env: Env, xs: seq<Action>, id: nat, policy: Address, c: Bytes, d: Bytes,
                                   a: PrivateConfig, b: PrivateConfig)
    requires id !in Run(env, xs).requests && policy != ZERO_ADDRESS && c != [] && d != []
    ensures var (log, log') := (Run(env, StoredAfter(xs, id, policy, c, a)).log, Run(env, StoredAfter(xs, id, policy, d, b)).log);
            log != [] && log' != [] && (log[|log| - 1] == log'[|log'| - 1] <==> TwinConfigs(a, b))
  {
    AnswerOfStore(env, xs, id, policy, c, a);
    AnswerOfStore(env, xs, id, policy, d, b);
  }

  /** So a refusal tells invalid lists of one length apart by their totals; here is such a pair. */
  lemma RefusalRevealsTotal(policy: Address, a: Address, salt: Bytes32)
    requires a != ZERO_ADDRESS && policy != ZERO_ADDRESS
    ensures var low, high := PrivateConfig([Share(a, 1)], salt), PrivateConfig([Share(a, 2)], salt);
            Admit(Some(StoreRequest(policy, [0])), Config(low)) == Rejected(InvalidShares(WrongTotal(1)))
            && Admit(Some(StoreRequest(policy, [0])), Config(high)) == Rejected(InvalidShares(WrongTotal(2)))
  {
    SumOfOne(Share(a, 1));
    SumOfOne(Share(a, 2));
  }

  lemma SumOfOne(s: Share)
    requires s.recipient != ZERO_ADDRESS
    ensures FirstZero([s]) == 1 && SumBps([s][..1]) == s.shareBps
  {
    assert [s][..1] == [s] && [s][..0] == [];
    assert FirstZero([s], 1) == 1;
  }
}
