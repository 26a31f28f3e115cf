/** Every event and every answer of a run, against the request that opened it. */
module EnclaveRequests {
  import opened ByteStrings
  import opened PolicyTypes
  import opened Shares
  import opened Enclave
  import opened EnclaveRuns
  import Eip712

  predicate IsCall(a: Action) {
    a.CallStore? || a.CallEvaluate? || a.CallState?
  }

  /** The call that opened a request: the first with its number. */
  function Opening(actions: seq<Action>, id: nat): Option<Action> {
    if actions == [] then None
    else
      var before, last := Opening(actions[..|actions| - 1], id), actions[|actions| - 1];
      if before.Some? then before
      else if IsCall(last) && last.id == id then Some(last)
      else None
  }

  /** A STORE that gets as far as its write section, for this policy and configuration. */
  predicate AsksToStore(call: Action, policy: Address, cfg: PrivateConfig) {
    && call.CallStore? && call.store.Some? && call.plain.Config?
    && call.store.value.policy == policy && call.plain.cfg == cfg
    && policy != ZERO_ADDRESS && call.store.value.ciphertext != [] && CheckShares(cfg.shares).Valid?
  }

  /** An EVALUATE that gets as far as its read section, for this policy and trigger time. */
  predicate AsksToEvaluate(env: Env, call: Action, policy: Address, triggeredAt: nat) {
    && call.CallEvaluate? && call.evaluate == Some(EvaluateRequest(policy, triggeredAt))
    && env.chainId != 0 && triggeredAt != 0
  }

  /** Refused before any section, for this reason. */
  ghost predicate RefusedAtOnce(env: Env, call: Action, why: Refusal) {
    match call
    case CallStore(_, req, plain) => StoreRefused(req, plain, why)
    case CallEvaluate(_, req) => EvaluateRefused(env.chainId, req, why)
    case _ => false
  }

  ghost predicate ReplyFits(env: Env, call: Action, reply: Reply) {
    match reply
    case Stored(policy, n) => call.CallStore? && call.plain.Config? && AsksToStore(call, policy, call.plain.cfg) &&
                              n == |call.plain.cfg.shares|
    case Evaluated(e) => call.CallEvaluate? && call.evaluate.Some? &&
                         AsksToEvaluate(env, call, e.policy, call.evaluate.value.triggeredAt)
    case StateIs(_) => call.CallState?
    case Refused(NotStored(policy)) => call.CallEvaluate? && call.evaluate.Some? &&
                                       AsksToEvaluate(env, call, policy, call.evaluate.value.triggeredAt)
    case Refused(SigningFailed) => exists policy, t :: AsksToEvaluate(env, call, policy, t)
    case Refused(why) => RefusedAtOnce(env, call, why)
  }

  /** What a request may do, seen from the call that opened it. */
  ghost predicate EventFits(env: Env, call: Action, e: Event) {
    match e
    case Called(id) => call.id == id
    case Put(_, policy, cfg) => AsksToStore(call, policy, cfg)
    case Got(_, policy, _) => exists t :: AsksToEvaluate(env, call, policy, t)
    case Asked(_, t, _, _) => exists policy :: AsksToEvaluate(env, call, policy, t)
    case Counted(_, policy) => exists t :: AsksToEvaluate(env, call, policy, t)
    case Reported(_, _) => call.CallState?
    case Responded(_, reply) => ReplyFits(env, call, reply)
  }

  ghost predicate PhaseFits(env: Env, call: Action, phase: Phase) {
    match phase
    case Storing(policy, cfg) => AsksToStore(call, policy, cfg)
    case Looking(policy, t) => AsksToEvaluate(env, call, policy, t)
    case Signing(policy, t, _) => AsksToEvaluate(env, call, policy, t)
    case Counting(policy, _, _) => exists t :: AsksToEvaluate(env, call, policy, t)
    case Reporting => call.CallState?
    case Ready(reply) => ReplyFits(env, call, reply)
    case Finished => true
  }

  ghost predicate LogFits(env: Env, actions: seq<Action>, log: seq<Event>) {
    forall k | 0 <= k < |log| ::
      Opening(actions, log[k].id).Some? && EventFits(env, Opening(actions, log[k].id).value, log[k])
  }

  ghost predicate RequestsFit(env: Env, actions: seq<Action>, requests: map<nat, Phase>) {
    forall id: nat :: (id in requests <==> Opening(actions, id).Some?) &&
                      (id in requests ==> PhaseFits(env, Opening(actions, id).value, requests[id]))
  }

  lemma OpeningStays(actions: seq<Action>, a: Action, id: nat)
    ensures Opening(actions + [a], id)
         == if Opening(actions, id).Some? then Opening(actions, id)
            else if IsCall(a) && a.id == id then Some(a) else None
  {
    assert (actions + [a])[..|actions|] == actions;
  }

  lemma {:induction false} OpeningHasItsId(actions: seq<Action>, id: nat)
    requires Opening(actions, id).Some?
    ensures IsCall(Opening(actions, id).value) && Opening(actions, id).value.id == id
    ensures Opening(actions, id).value in actions
  {
    var n := |actions| - 1;
    if Opening(actions[..n], id).Some? {
      OpeningHasItsId(actions[..n], id);
    }
  }

  lemma CallFits(env: Env, m: Machine, a: Action)
    requires IsCall(a)
    ensures var m' := Call(env, m, a);
            && m'.requests.Keys == m.requests.Keys + {a.id}
            && m' == m.To(a.id, m'.requests[a.id], Called(a.id))
            && PhaseFits(env, a, m'.requests[a.id])
  {
    match a {
      case CallStore(_, req, plain) =>
        match Admit(req, plain) {
          case Rejected(why) => AdmitExactly(req, plain, why);
          case Admitted(policy, cfg) =>
        }
      case CallEvaluate(_, req) =>
        if Guard(env.chainId, req).Some? {
          GuardExactly(env.chainId, req, Guard(env.chainId, req).value);
        }
      case _ =>
    }
  }

  /** One more event, and a new phase for its request. */
  ghost predicate MovedFittingly(env: Env, m: Machine, m': Machine, id: nat, call: Action) {
    && id in m'.requests && m'.requests == m.requests[id := m'.requests[id]]
    && PhaseFits(env, call, m'.requests[id])
    && |m'.log| == |m.log| + 1 && m'.log == m.log + [m'.log[|m.log|]]
    && m'.log[|m.log|].id == id && EventFits(env, call, m'.log[|m.log|])
  }

  lemma Moves(env: Env, m: Machine, s: Store, id: nat, phase: Phase, e: Event, call: Action)
    requires e.id == id && PhaseFits(env, call, phase) && EventFits(env, call, e)
    ensures MovedFittingly(env, m, m.(store := s).To(id, phase, e), id, call)
  {
  }

  lemma EvaluateFits(env: Env, m: Machine, id: nat, a: Action, call: Action, policy: Address, t: nat)
    requires id in m.requests && AsksToEvaluate(env, call, policy, t)
    requires m.requests[id] == Looking(policy, t)
             || (m.requests[id].Signing? && m.requests[id].policy == policy && m.requests[id].triggeredAt == t)
             || (m.requests[id].Counting? && m.requests[id].policy == policy)
    ensures var m' := Step(env, m, id, a);
            m' == m || MovedFittingly(env, m, m', id, call)
  {
    match m.requests[id] {
      case Looking(_, _) =>
        var found := GetSection(m.store, policy);
        var phase := if found.None? then Ready(Refused(NotStored(policy))) else Signing(policy, t, found.value);
        Moves(env, m, m.store, id, phase, Got(id, policy, found), call);
      case Signing(_, _, cfg) =>
        if a.NodeReplies? {
          var sig := SignatureFrom(a.signed);
          var phase := if sig.None? then Ready(Refused(SigningFailed)) else Counting(policy, cfg, sig.value);
          Moves(env, m, m.store, id, phase,
                Asked(id, t, Eip712.EvaluationPreimage(env.keccak, policy, env.chainId, cfg, t), a.signed), call);
        }
      case Counting(_, cfg, sig) =>
        Moves(env, m, Enclave.CountSection(m.store, policy), id,
              Ready(Evaluated(Evaluation(policy, cfg.shares, cfg.salt, sig))), Counted(id, policy), call);
    }
  }

  lemma StepFits(env: Env, m: Machine, id: nat, a: Action, call: Action)
    requires id in m.requests && PhaseFits(env, call, m.requests[id])
    ensures var m' := Step(env, m, id, a);
            m' == m || MovedFittingly(env, m, m', id, call)
  {
    match m.requests[id] {
      case Looking(policy, t) => EvaluateFits(env, m, id, a, call, policy, t);
      case Signing(policy, t, _) => EvaluateFits(env, m, id, a, call, policy, t);
      case Counting(policy, _, _) =>
        var t :| AsksToEvaluate(env, call, policy, t);
        EvaluateFits(env, m, id, a, call, policy, t);
      case Storing(policy, cfg) =>
        Moves(env, m, PutSection(m.store, policy, cfg), id, Ready(Stored(policy, |cfg.shares|)), Put(id, policy, cfg), call);
      case Reporting =>
        Moves(env, m, m.store, id, Ready(StateIs(StateSection(m.store))), Reported(id, StateSection(m.store)), call);
      case Ready(reply) => Moves(env, m, m.store, id, Finished, Responded(id, reply), call);
      case Finished =>
    }
  }

  /** In every run, each event fits the call that opened its request, and a request is open once it was called. */
  lemma {:induction false} EventsFitTheirCalls(env: Env, actions: seq<Action>)
    ensures LogFits(env, actions, Run(env, actions).log)
    ensures RequestsFit(env, actions, Run(env, actions).requests)
  {
    if actions != [] {
      var n := |actions| - 1;
      var (before, a) := (actions[..n], actions[n]);
      EventsFitTheirCalls(env, before);
      assert actions == before + [a];
      NextFits(env, before, a);
    }
  }

  lemma NextFits(env: Env, before: seq<Action>, a: Action)
    requires LogFits(env, before, Run(env, before).log)
    requires RequestsFit(env, before, Run(env, before).requests)
    ensures LogFits(env, before + [a], Next(env, Run(env, before), a).log)
    ensures RequestsFit(env, before + [a], Next(env, Run(env, before), a).requests)
  {
    var m := Run(env, before);
    forall id: nat {
      OpeningStays(before, a, id);
    }
    if IsCall(a) {
      if a.id !in m.requests {
        CallFits(env, m, a);
      }
    } else if a.id in m.requests {
      StepFits(env, m, a.id, a, Opening(before, a.id).value);
    }
  }

  // --- what follows for the answers ---------------------------------------------------------------------------

  /** An answered request was asked for what it answers. */
  lemma AnswersFitTheirCalls(env: Env, actions: seq<Action>, k: nat)
    requires k < |Run(env, actions).log| && Run(env, actions).log[k].Responded?
    ensures var log := Run(env, actions).log;
            Opening(actions, log[k].id).Some? && ReplyFits(env, Opening(actions, log[k].id).value, log[k].reply)
  {
    EventsFitTheirCalls(env, actions);
  }

  /** At most one reason applies at once. */
  lemma OneReason(env: Env, call: Action, a: Refusal, b: Refusal)
    requires RefusedAtOnce(env, call, a) && RefusedAtOnce(env, call, b)
    ensures a == b
  {
    match call {
      case CallStore(_, req, plain) =>
        AdmitExactly(req, plain, a);
        AdmitExactly(req, plain, b);
      case CallEvaluate(_, req) =>
        GuardExactly(env.chainId, req, a);
        GuardExactly(env.chainId, req, b);
      case _ =>
    }
  }

  lemma RefusedAsksNothing(env: Env, call: Action, why: Refusal, policy: Address, cfg: PrivateConfig, t: nat)
    requires RefusedAtOnce(env, call, why)
    ensures !AsksToStore(call, policy, cfg) && !AsksToEvaluate(env, call, policy, t)
    ensures !why.NotStored? && !why.SigningFailed?
  {
  }

  /**
   In every run, a request is answered with one of the early refusals exactly when its call meets the conditions of that
   refusal, and then it takes no section at all.
   */
  lemma RefusedExactly(env: Env, actions: seq<Action>, k: nat, why: Refusal)
    requires k < |Run(env, actions).log| && Run(env, actions).log[k].Responded?
    requires !why.NotStored? && !why.SigningFailed?
    ensures var log := Run(env, actions).log;
            Opening(actions, log[k].id).Some? &&
            (log[k].reply == Refused(why) <==> RefusedAtOnce(env, Opening(actions, log[k].id).value, why))
  {
    EventsFitTheirCalls(env, actions);
    var reply, call := Run(env, actions).log[k].reply, Opening(actions, Run(env, actions).log[k].id).value;
    if RefusedAtOnce(env, call, why) {
      RefusedGetsRefusal(env, call, why, reply);
    }
  }

  lemma RefusedGetsRefusal(env: Env, call: Action, why: Refusal, reply: Reply)
    requires RefusedAtOnce(env, call, why) && ReplyFits(env, call, reply)
    ensures reply == Refused(why)
  {
    forall policy, cfg, t {
      RefusedAsksNothing(env, call, why, policy, cfg, t);
    }
    if reply.Refused? && !reply.why.NotStored? && !reply.why.SigningFailed? {
      OneReason(env, call, reply.why, why);
    }
  }

  /** A request refused at once only ever is called and answered. */
  lemma RefusedTakesNoSection(env: Env, actions: seq<Action>, i: nat, why: Refusal)
    requires i < |Run(env, actions).log|
    requires var call := Opening(actions, Run(env, actions).log[i].id);
             call.Some? && RefusedAtOnce(env, call.value, why)
    ensures Run(env, actions).log[i].Called? || Run(env, actions).log[i] == Responded(Run(env, actions).log[i].id, Refused(why))
  {
    EventsFitTheirCalls(env, actions);
    var e := Run(env, actions).log[i];
    var call := Opening(actions, e.id).value;
    forall policy, cfg, t {
      RefusedAsksNothing(env, call, why, policy, cfg, t);
    }
    if e.Responded? {
      RefusedGetsRefusal(env, call, why, e.reply);
    }
  }

  // --- no request gets stuck -----------------------------------------------------------------------------------

  /** The action that moves an open request on. */
  function Mover(m: Machine, id: nat): Action {
    if id !in m.requests then Respond(id)
    else match m.requests[id]
         case Storing(_, _) => Write(id)
         case Looking(_, _) => Read(id)
         case Signing(_, _, _) => NodeReplies(id, None)
         case Counting(_, _, _) => Write(id)
         case Reporting => Read(id)
         case _ => Respond(id)
  }

  /** An open request that was not answered yet is moved on by one event of its own, whatever else happened. */
  lemma UnansweredMovesOn(env: Env, m: Machine, id: nat)
    requires id in m.requests && !m.requests[id].Finished?
    ensures var m' := Next(env, m, Mover(m, id));
            && |m'.log| == |m.log| + 1 && m'.log[..|m.log|] == m.log && m'.log[|m.log|].id == id
            && id in m'.requests && Left(m'.requests[id]) < Left(m.requests[id])
            && (m'.requests[id].Finished? ==> m'.log[|m.log|].Responded?)
  {
  }

  /** The most events a request still has before it. */
  function Left(phase: Phase): (n: nat)
    ensures n <= 4 && (n == 0 <==> phase.Finished?)
  {
    match phase
    case Looking(_, _) => 4
    case Signing(_, _, _) => 3
    case Counting(_, _, _) => 2
    case Storing(_, _) => 2
    case Reporting => 2
    case Ready(_) => 1
    case Finished => 0
  }

  /** What an open request still has before it, after these actions; 0 once it is answered. */
  function LeftAfter(env: Env, actions: seq<Action>, id: nat): (n: nat)
    ensures n <= 4
  {
    if id in Run(env, actions).requests then Left(Run(env, actions).requests[id]) else 0
  }

  ghost predicate JustAnswered(env: Env, actions: seq<Action>, id: nat) {
    var log := Run(env, actions).log;
    log != [] && log[|log| - 1].Responded? && log[|log| - 1].id == id
  }

  lemma MoverMovesOn(env: Env, actions: seq<Action>, id: nat)
    requires LeftAfter(env, actions, id) > 0
    ensures var longer := actions + [Mover(Run(env, actions), id)];
            LeftAfter(env, longer, id) < LeftAfter(env, actions, id)
            && (LeftAfter(env, longer, id) > 0 || JustAnswered(env, longer, id))
  {
    UnansweredMovesOn(env, Run(env, actions), id);
    assert (actions + [Mover(Run(env, actions), id)])[..|actions|] == actions;
  }

  /** A count that goes down with each action ends, and no later than it says. */
  lemma {:induction false} CountsDown(left: seq<Action> -> nat, mover: seq<Action> -> Action, actions: seq<Action>)
      returns (before: seq<Action>)
    requires forall xs :: left(xs) > 0 ==> left(xs + [mover(xs)]) < left(xs)
    requires left(actions) > 0
    ensures |before| < left(actions) && left(actions + before) > 0
    ensures left(actions + before + [mover(actions + before)]) == 0
    decreases left(actions)
  {
    before := [];
    assert actions + before == actions;
    var longer := actions + [mover(actions)];
    if left(longer) > 0 {
      var rest := CountsDown(left, mover, longer);
      before := [mover(actions)] + rest;
      assert actions + before == longer + rest;
    }
  }

  /** So from any point of any run at most four more actions answer an open request. */
  lemma EveryRequestIsAnswered(env: Env, actions: seq<Action>, id: nat) returns (more: seq<Action>)
    requires id in Run(env, actions).requests && !Run(env, actions).requests[id].Finished?
    ensures |more| <= LeftAfter(env, actions, id) <= 4 && JustAnswered(env, actions + more, id)
  {
    var left := (xs: seq<Action>) => LeftAfter(env, xs, id);
    var mover := (xs: seq<Action>) => Mover(Run(env, xs), id);
    forall xs | left(xs) > 0
      ensures left(xs + [mover(xs)]) < left(xs)
    {
      MoverMovesOn(env, xs, id);
    }
    var before := CountsDown(left, mover, actions);
    MoverMovesOn(env, actions + before, id);
    more := before + [mover(actions + before)];
    assert actions + more == actions + before + [mover(actions + before)];
  }

  // --- one request at a time ---------------------------------------------------------------------------------------

  /** The handler's STORE is a run of its sections with nothing in between. */
  lemma UninterruptedStore(env: Env, m: Machine, id: nat, req: Option<StoreRequest>, plain: Opened)
    requires id !in m.requests
    ensures var m' := Next(env, Next(env, Next(env, m, CallStore(id, req, plain)), Write(id)), Respond(id));
            match Admit(req, plain)
            case Rejected(why) => m'.store == m.store && m'.log == m.log + [Called(id)] + [Responded(id, Refused(why))]
            case Admitted(policy, cfg) =>
              && m'.store == PutSection(m.store, policy, cfg)
              && m'.log == m.log + [Called(id)] + [Put(id, policy, cfg)] + [Responded(id, Stored(policy, |cfg.shares|))]
  {
  }

  /** What the node is handed in an EVALUATE that finds its policy. */
  function MessageFor(env: Env, s: Store, policy: Address, t: nat): Bytes {
    if policy in s.policies then Eip712.EvaluationPreimage(env.keccak, policy, env.chainId, s.policies[policy], t) else []
  }

  /** The machine after reading, after the reply, and after what is left to do. */
  lemma EvaluateSteps(env: Env, m: Machine, id: nat, policy: Address, t: nat, signed: Option<Bytes>)
    requires id in m.requests && m.requests[id] == Looking(policy, t)
    ensures var m3 := Next(env, Next(env, m, Read(id)), NodeReplies(id, signed));
            && id in m3.requests && m3.store == m.store
            && m3.requests[id] == if policy !in m.store.policies then Ready(Refused(NotStored(policy)))
                                  else if SignatureFrom(signed).None? then Ready(Refused(SigningFailed))
                                  else Counting(policy, m.store.policies[policy], SignatureFrom(signed).value)
  {
    var m2 := Next(env, m, Read(id));
    assert policy in m.store.policies ==> m2.requests[id] == Signing(policy, t, m.store.policies[policy]);
  }

  lemma LastSteps(env: Env, m: Machine, id: nat)
    requires id in m.requests
    ensures var m' := Next(env, Next(env, m, Write(id)), Respond(id));
            && (m.requests[id].Ready? ==> m'.store == m.store && m'.log == m.log + [Responded(id, m.requests[id].reply)])
            && (m.requests[id].Counting? ==>
                  var (policy, cfg) := (m.requests[id].policy, m.requests[id].cfg);
                  && m'.store == Enclave.CountSection(m.store, policy)
                  && m'.log == m.log + [Counted(id, policy)]
                     + [Responded(id, Evaluated(Evaluation(policy, cfg.shares, cfg.salt, m.requests[id].signature)))])
  {
  }

  /** And its EVALUATE likewise. */
  lemma UninterruptedEvaluate(env: Env, m: Machine, id: nat, policy: Address, t: nat, sign: Bytes -> Option<Bytes>)
    requires id !in m.requests && env.chainId != 0 && t != 0
    ensures var m1 := Next(env, m, CallEvaluate(id, Some(EvaluateRequest(policy, t))));
            var m3 := Next(env, Next(env, m1, Read(id)), NodeReplies(id, sign(MessageFor(env, m.store, policy, t))));
            var m' := Next(env, Next(env, m3, Write(id)), Respond(id));
            var (reply, after) := EvaluateStored(env.keccak, env.chainId, policy, t, sign, m.store);
            m'.store == after && m'.log != [] && m'.log[|m'.log| - 1] == Responded(id, reply)
  {
    var m1 := Next(env, m, CallEvaluate(id, Some(EvaluateRequest(policy, t))));
    assert m1.requests[id] == Looking(policy, t) && m1.store == m.store;
    var signed := sign(MessageFor(env, m.store, policy, t));
    EvaluateSteps(env, m1, id, policy, t, signed);
    LastSteps(env, Next(env, Next(env, m1, Read(id)), NodeReplies(id, signed)), id);
  }
}
