/**
 Every interleaving of STORE, EVALUATE and GET /state, at the granularity of lock sections. A run is
 any sequence of actions; an action whose request is not at that point does nothing.
 */
module EnclaveRuns {
  import opened ByteStrings
  import opened PolicyTypes
  import opened Shares
  import opened Enclave
  import Eip712
  import RunTest

  datatype Env = Env(keccak: Hash, chainId: int)

  /** Where a request stands between two steps. */
  datatype Phase =
    | Storing(policy: Address, cfg: PrivateConfig)
    | Looking(policy: Address, triggeredAt: nat)
    | Signing(policy: Address, triggeredAt: nat, cfg: PrivateConfig)
    | Counting(policy: Address, cfg: PrivateConfig, signature: Bytes)
    | Reporting
    | Ready(reply: Reply)
    | Finished

  datatype Action =
    | CallStore(id: nat, store: Option<StoreRequest>, plain: Opened)
    | CallEvaluate(id: nat, evaluate: Option<EvaluateRequest>)
    | CallState(id: nat)
    | Write(id: nat)
    | Read(id: nat)
    | NodeReplies(id: nat, signed: Option<Bytes>)
    | Respond(id: nat)

  datatype Event =
    | Called(id: nat)
    | Put(id: nat, policy: Address, cfg: PrivateConfig)
    | Got(id: nat, policy: Address, found: Option<PrivateConfig>)
    | Asked(id: nat, triggeredAt: nat, message: Bytes, signed: Option<Bytes>)
    | Counted(id: nat, policy: Address)
    | Reported(id: nat, state: State)
    | Responded(id: nat, reply: Reply)

  datatype Machine = Machine(store: Store, requests: map<nat, Phase>, log: seq<Event>) {
    function To(id: nat, phase: Phase, event: Event): Machine {
      Machine(store, requests[id := phase], log + [event])
    }
  }

  function Next(env: Env, m: Machine, a: Action): Machine {
    if a.CallStore? || a.CallEvaluate? || a.CallState? then
      if a.id in m.requests then m else Call(env, m, a)
    else if a.id !in m.requests then m
    else Step(env, m, a.id, a)
  }

  /** One step of a request already under way. */
  function Step(env: Env, m: Machine, id: nat, a: Action): Machine
    requires id in m.requests
  {
    match m.requests[id]
    case Storing(policy, cfg) =>
      if !a.Write? then m
      else m.(store := PutSection(m.store, policy, cfg))
            .To(id, Ready(Stored(policy, |cfg.shares|)), Put(id, policy, cfg))
    case Looking(policy, t) =>
      if !a.Read? then m
      else
        var found := GetSection(m.store, policy);
        m.To(id, if found.None? then Ready(Refused(NotStored(policy))) else Signing(policy, t, found.value),
             Got(id, policy, found))
    case Signing(policy, t, cfg) =>
      if !a.NodeReplies? then m
      else
        var message := Eip712.EvaluationPreimage(env.keccak, policy, env.chainId, cfg, t);
        var signature := SignatureFrom(a.signed);
        m.To(id, if signature.None? then Ready(Refused(SigningFailed)) else Counting(policy, cfg, signature.value),
             Asked(id, t, message, a.signed))
    case Counting(policy, cfg, sig) =>
      if !a.Write? then m
      else m.(store := Enclave.CountSection(m.store, policy))
            .To(id, Ready(Evaluated(Evaluation(policy, cfg.shares, cfg.salt, sig))), Counted(id, policy))
    case Reporting =>
      if !a.Read? then m
      else m.To(id, Ready(StateIs(StateSection(m.store))), Reported(id, StateSection(m.store)))
    case Ready(reply) => if a.Respond? then m.To(id, Finished, Responded(id, reply)) else m
    case Finished => m
  }

  function Call(env: Env, m: Machine, a: Action): Machine
    requires a.CallStore? || a.CallEvaluate? || a.CallState?
  {
    var phase :=
      match a
      case CallStore(_, req, plain) =>
        (match Admit(req, plain)
         case Rejected(why) => Ready(Refused(why))
         case Admitted(policy, cfg) => Storing(policy, cfg))
      case CallEvaluate(_, req) =>
        if Guard(env.chainId, req).Some? then Ready(Refused(Guard(env.chainId, req).value))
        else Looking(req.value.policy, req.value.triggeredAt)
      case _ => Reporting;
    m.To(a.id, phase, Called(a.id))
  }

  function Run(env: Env, actions: seq<Action>): Machine {
    if actions == [] then Machine(EMPTY_STORE, map[], [])
    else Next(env, Run(env, actions[..|actions| - 1]), actions[|actions| - 1])
  }

  lemma RunStep(env: Env, xs: seq<Action>, k: nat)
    requires k < |xs|
    ensures Run(env, xs[..k + 1]) == Next(env, Run(env, xs[..k]), xs[k])
  {
    assert xs[..k + 1][..k] == xs[..k];
  }

  lemma TwoSteps(env: Env, xs: seq<Action>, k: nat)
    requires k + 2 <= |xs|
    ensures Run(env, xs[..k + 2]) == Next(env, Next(env, Run(env, xs[..k]), xs[k]), xs[k + 1])
  {
    RunStep(env, xs, k);
    RunStep(env, xs, k + 1);
  }

  lemma ThreeSteps(env: Env, xs: seq<Action>, k: nat)
    requires k + 3 <= |xs|
    ensures Run(env, xs[..k + 3]) == Next(env, Next(env, Next(env, Run(env, xs[..k]), xs[k]), xs[k + 1]), xs[k + 2])
  {
    RunStep(env, xs, k);
    RunStep(env, xs, k + 1);
    RunStep(env, xs, k + 2);
  }

  // --- sequential specifications, one for each shared object -------------------------------------

  /** The map after the writes in a log. */
  function MapAfter(log: seq<Event>): map<Address, PrivateConfig> {
    if log == [] then map[]
    else
      var before, last := MapAfter(log[..|log| - 1]), log[|log| - 1];
      if last.Put? then before[last.policy := last.cfg] else before
  }

  /** The number of EVALUATE write sections in a log. */
  function CountAfter(log: seq<Event>): nat {
    if log == [] then 0
    else CountAfter(log[..|log| - 1]) + if log[|log| - 1].Counted? then 1 else 0
  }

  /** The policy named by the last write section of either kind. */
  function LastAfter(log: seq<Event>): Option<Address> {
    if log == [] then None
    else
      var last := log[|log| - 1];
      if last.Put? || last.Counted? then Some(last.policy) else LastAfter(log[..|log| - 1])
  }

  function StoreAfter(log: seq<Event>): Store {
    Store(MapAfter(log), CountAfter(log), LastAfter(log))
  }

  function Effect(s: Store, e: Event): Store {
    match e
    case Put(_, policy, cfg) => PutSection(s, policy, cfg)
    case Counted(_, policy) => Enclave.CountSection(s, policy)
    case _ => s
  }

  /** Every read section returned what the sequential objects hold at that point of the log. */
  ghost predicate ReadsAreCurrent(log: seq<Event>) {
    forall j | 0 <= j < |log| :: ReadIsCurrent(log, j)
  }

  ghost predicate ReadIsCurrent(log: seq<Event>, j: nat)
    requires j < |log|
  {
    match log[j]
    case Got(_, policy, found) => found == GetSection(StoreAfter(log[..j]), policy)
    case Reported(_, state) => state == StateSection(StoreAfter(log[..j]))
    case _ => true
  }

  // --- one request's own events -------------------------------------------------------------------

  function Trace(log: seq<Event>, id: nat): seq<Event> {
    if log == [] then []
    else Trace(log[..|log| - 1], id) + if log[|log| - 1].id == id then [log[|log| - 1]] else []
  }

  /** The sections a request must have taken, in this order and no others, to answer as it did. */
  ghost predicate Justifies(env: Env, trace: seq<Event>, id: nat, reply: Reply) {
    match reply
    case Stored(policy, n) =>
      && |trace| == 2 && trace[0] == Called(id)
      && trace[1].Put? && trace[1] == Put(id, policy, trace[1].cfg)
      && CheckShares(trace[1].cfg.shares).Valid? && n == |trace[1].cfg.shares|
    case Evaluated(e) =>
      var cfg := PrivateConfig(e.shares, e.salt);
      && |trace| == 4 && trace[..2] == [Called(id), Got(id, e.policy, Some(cfg))]
      && trace[2].Asked? && trace[2].id == id && SignatureFrom(trace[2].signed) == Some(e.signature)
      && trace[2].message == Eip712.EvaluationPreimage(env.keccak, e.policy, env.chainId, cfg, trace[2].triggeredAt)
      && trace[3] == Counted(id, e.policy)
    case StateIs(state) => trace == [Called(id), Reported(id, state)]
    case Refused(NotStored(policy)) => trace == [Called(id), Got(id, policy, None)]
    case Refused(SigningFailed) =>
      |trace| == 3 && trace[0] == Called(id) && trace[1].Got? && trace[1].found.Some?
      && trace[2].Asked? && SignatureFrom(trace[2].signed).None?
    case Refused(_) => trace == [Called(id)]
  }

  ghost predicate PhaseMatches(env: Env, phase: Phase, trace: seq<Event>, id: nat) {
    match phase
    case Storing(_, cfg) => trace == [Called(id)] && CheckShares(cfg.shares).Valid?
    case Looking(_, t) => trace == [Called(id)]
    case Signing(policy, t, cfg) => trace == [Called(id), Got(id, policy, Some(cfg))]
    case Counting(policy, cfg, sig) =>
      && |trace| == 3 && trace[..2] == [Called(id), Got(id, policy, Some(cfg))]
      && trace[2].Asked? && trace[2].id == id && SignatureFrom(trace[2].signed) == Some(sig)
      && trace[2].message == Eip712.EvaluationPreimage(env.keccak, policy, env.chainId, cfg, trace[2].triggeredAt)
    case Reporting => trace == [Called(id)]
    case Ready(reply) => Justifies(env, trace, id, reply)
    case Finished =>
      trace != [] && trace[|trace| - 1].Responded?
      && Justifies(env, trace[..|trace| - 1], id, trace[|trace| - 1].reply)
  }

  ghost predicate AllValid(policies: map<Address, PrivateConfig>) {
    forall p | p in policies :: CheckShares(policies[p].shares).Valid?
  }

  ghost predicate Inv(env: Env, m: Machine) {
    && m.store == StoreAfter(m.log)
    && AllValid(m.store.policies)
    && ReadsAreCurrent(m.log)
    && (forall id: nat | id !in m.requests :: Trace(m.log, id) == [])
    && (forall id | id in m.requests :: PhaseMatches(env, m.requests[id], Trace(m.log, id), id))
  }

  // --- the invariant --------------------------------------------------------------------------------

  lemma Appended(log: seq<Event>, e: Event)
    ensures StoreAfter(log + [e]) == Effect(StoreAfter(log), e)
  {
    assert (log + [e])[..|log|] == log;
  }

  lemma TraceAppended(log: seq<Event>, e: Event, id: nat)
    ensures Trace(log + [e], id) == if e.id == id then Trace(log, id) + [e] else Trace(log, id)
  {
    assert (log + [e])[..|log|] == log;
  }

  lemma ReadsStayCurrent(log: seq<Event>, e: Event)
    requires ReadsAreCurrent(log)
    requires e.Got? ==> e.found == GetSection(StoreAfter(log), e.policy)
    requires e.Reported? ==> e.state == StateSection(StoreAfter(log))
    ensures ReadsAreCurrent(log + [e])
  {
    forall j | 0 <= j < |log + [e]| ensures ReadIsCurrent(log + [e], j) {
      assert (log + [e])[..j] == log[..j];
      if j < |log| {
        assert ReadIsCurrent(log, j);
      } else {
        assert log[..j] == log;
      }
    }
  }

  /** One event moves one request and has its effect on the store; everything else stands still. */
  lemma MoveKeepsInv(env: Env, m: Machine, id: nat, phase: Phase, e: Event)
    requires Inv(env, m) && e.id == id
    requires AllValid(Effect(m.store, e).policies)
    requires e.Got? ==> e.found == GetSection(m.store, e.policy)
    requires e.Reported? ==> e.state == StateSection(m.store)
    requires PhaseMatches(env, phase, Trace(m.log, id) + [e], id)
    ensures Inv(env, m.(store := Effect(m.store, e)).To(id, phase, e))
  {
    var m' := m.(store := Effect(m.store, e)).To(id, phase, e);
    Appended(m.log, e);
    ReadsStayCurrent(m.log, e);
    forall i: nat
      ensures i in m'.requests ==> PhaseMatches(env, m'.requests[i], Trace(m'.log, i), i)
      ensures i !in m'.requests ==> Trace(m'.log, i) == []
    {
      TraceAppended(m.log, e, i);
    }
  }

  /** The node's reply is the third event of an EVALUATE. */
  lemma ReplyMatches(env: Env, policy: Address, t: nat, cfg: PrivateConfig, signed: Option<Bytes>, trace: seq<Event>,
                     id: nat)
    requires trace == [Called(id), Got(id, policy, Some(cfg))]
    ensures var e := Asked(id, t, Eip712.EvaluationPreimage(env.keccak, policy, env.chainId, cfg, t), signed);
            if SignatureFrom(signed).Some? then
              PhaseMatches(env, Counting(policy, cfg, SignatureFrom(signed).value), trace + [e], id)
            else Justifies(env, trace + [e], id, Refused(SigningFailed))
  {
    var e := Asked(id, t, Eip712.EvaluationPreimage(env.keccak, policy, env.chainId, cfg, t), signed);
    assert (trace + [e])[..2] == trace;
  }

  /** Its write section is the fourth. */
  lemma CountMatches(env: Env, policy: Address, cfg: PrivateConfig, sig: Bytes, trace: seq<Event>, id: nat)
    requires PhaseMatches(env, Counting(policy, cfg, sig), trace, id)
    ensures Justifies(env, trace + [Counted(id, policy)], id, Evaluated(Evaluation(policy, cfg.shares, cfg.salt, sig)))
  {
    var longer := trace + [Counted(id, policy)];
    assert longer[..2] == trace[..2] && longer[2] == trace[2];
  }

  /** Each step extends its request's trace by the section the next phase asks for. */
  lemma StepMatches(env: Env, m: Machine, id: nat, a: Action, trace: seq<Event>)
    requires id in m.requests && Step(env, m, id, a) != m
    requires PhaseMatches(env, m.requests[id], trace, id)
    ensures |Step(env, m, id, a).log| == |m.log| + 1
    ensures PhaseMatches(env, Step(env, m, id, a).requests[id], trace + [Step(env, m, id, a).log[|m.log|]], id)
  {
    match m.requests[id] {
      case Signing(policy, t, cfg) => ReplyMatches(env, policy, t, cfg, a.signed, trace, id);
      case Counting(policy, cfg, sig) => CountMatches(env, policy, cfg, sig, trace, id);
      case Ready(reply) => assert (trace + [Responded(id, reply)])[..|trace|] == trace;
      case _ =>
    }
  }

  lemma StepKeepsInv(env: Env, m: Machine, id: nat, a: Action)
    requires Inv(env, m) && id in m.requests
    ensures Inv(env, Step(env, m, id, a))
  {
    var m' := Step(env, m, id, a);
    if m' != m {
      StepMatches(env, m, id, a, Trace(m.log, id));
      MoveKeepsInv(env, m, id, m'.requests[id], m'.log[|m.log|]);
    }
  }

  lemma NextKeepsInv(env: Env, m: Machine, a: Action)
    requires Inv(env, m)
    ensures Inv(env, Next(env, m, a))
  {
    if a.CallStore? || a.CallEvaluate? || a.CallState? {
      if a.id !in m.requests {
        MoveKeepsInv(env, m, a.id, Call(env, m, a).requests[a.id], Called(a.id));
      }
    } else if a.id in m.requests {
      StepKeepsInv(env, m, a.id, a);
    }
  }

  lemma {:induction false} RunInv(env: Env, actions: seq<Action>)
    ensures Inv(env, Run(env, actions))
  {
    if actions != [] {
      RunInv(env, actions[..|actions| - 1]);
      NextKeepsInv(env, Run(env, actions[..|actions| - 1]), actions[|actions| - 1]);
    }
  }
}
