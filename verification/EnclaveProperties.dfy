/** What holds of every run of the enclave. */
module EnclaveProperties {
  import opened ByteStrings
  import opened PolicyTypes
  import opened Shares
  import opened Enclave
  import opened EnclaveRuns
  import opened EnclaveRequests
  import Commitment
  import Eip712
  import RunTest

  // --- linearisation --------------------------------------------------------------------------------

  /** The write section that last stored a policy, before position n of a log. */
  ghost predicate LatestPut(log: seq<Event>, n: nat, i: nat, policy: Address, cfg: PrivateConfig)
    requires n <= |log|
  {
    && i < n && log[i].Put? && log[i].policy == policy && log[i].cfg == cfg
    && forall k | i < k < n :: !(log[k].Put? && log[k].policy == policy)
  }

  ghost predicate NeverPut(log: seq<Event>, n: nat, policy: Address)
    requires n <= |log|
  {
    forall k | 0 <= k < n :: !(log[k].Put? && log[k].policy == policy)
  }

  lemma {:induction false} MapHoldsLatestPut(log: seq<Event>, n: nat, policy: Address)
    requires n <= |log|
    ensures policy !in MapAfter(log[..n]) ==> NeverPut(log, n, policy)
    ensures policy in MapAfter(log[..n]) ==> exists i :: LatestPut(log, n, i, policy, MapAfter(log[..n])[policy])
  {
    if n > 0 {
      MapHoldsLatestPut(log, n - 1, policy);
      assert log[..n][..n - 1] == log[..n - 1];
      var now := MapAfter(log[..n]);
      if policy in now {
        if log[n - 1].Put? && log[n - 1].policy == policy {
          assert LatestPut(log, n, n - 1, policy, now[policy]);
        } else {
          var i :| LatestPut(log, n - 1, i, policy, now[policy]);
          assert LatestPut(log, n, i, policy, now[policy]);
        }
      }
    }
  }

  /**
   The policy map linearises at its sections: every read section finds the configuration of the latest
   write section for that policy, or nothing when there was none; and only valid configurations are held.
   */
  lemma PolicyMapLinearises(env: Env, actions: seq<Action>, j: nat)
    requires j < |Run(env, actions).log| && Run(env, actions).log[j].Got?
    ensures var log := Run(env, actions).log;
            match log[j].found {
              case None => NeverPut(log, j, log[j].policy)
              case Some(cfg) => CheckShares(cfg.shares).Valid? && exists i :: LatestPut(log, j, i, log[j].policy, cfg)
            }
  {
    RunInv(env, actions);
    var log := Run(env, actions).log;
    assert ReadIsCurrent(log, j);
    MapHoldsLatestPut(log, j, log[j].policy);
    PutsAreValid(env, actions);
  }

  lemma NextPutIsValid(env: Env, m: Machine, a: Action)
    requires Inv(env, m)
    ensures |m.log| <= |Next(env, m, a).log| <= |m.log| + 1 && Next(env, m, a).log[..|m.log|] == m.log
    ensures forall k | |m.log| <= k < |Next(env, m, a).log| ::
              Next(env, m, a).log[k].Put? ==> CheckShares(Next(env, m, a).log[k].cfg.shares).Valid?
  {
  }

  lemma {:induction false} PutsAreValid(env: Env, actions: seq<Action>)
    ensures forall k | 0 <= k < |Run(env, actions).log| ::
              Run(env, actions).log[k].Put? ==> CheckShares(Run(env, actions).log[k].cfg.shares).Valid?
  {
    if actions != [] {
      var before := Run(env, actions[..|actions| - 1]);
      PutsAreValid(env, actions[..|actions| - 1]);
      RunInv(env, actions[..|actions| - 1]);
      NextPutIsValid(env, before, actions[|actions| - 1]);
      assert forall k | 0 <= k < |before.log| :: Run(env, actions).log[k] == before.log[k];
    }
  }

  function Positions(log: seq<Event>): set<nat> {
    set k: nat | k < |log| && log[k].Counted?
  }

  lemma {:induction false} CountIsPositions(log: seq<Event>)
    ensures CountAfter(log) == |Positions(log)|
  {
    if log != [] {
      var n := |log| - 1;
      CountIsPositions(log[..n]);
      assert Positions(log) == Positions(log[..n]) + if log[n].Counted? then {n} else {};
    }
  }

  /**
   The counters linearise too, at their own sections: the count is the number of EVALUATE write sections
   taken, and every GET /state shows the counters and the map of the moment of its read section.
   */
  lemma CountersLinearise(env: Env, actions: seq<Action>)
    ensures var m := Run(env, actions);
            m.store.evaluationCount == |Positions(m.log)|
            && m.store.policies == MapAfter(m.log) && m.store.lastPolicy == LastAfter(m.log)
            && AllValid(m.store.policies)
    ensures var log := Run(env, actions).log;
            forall j | 0 <= j < |log| && log[j].Reported? ::
              log[j].state == State(|MapAfter(log[..j])|, |Positions(log[..j])|, LastAfter(log[..j]))
  {
    RunInv(env, actions);
    var log := Run(env, actions).log;
    CountIsPositions(log);
    forall j | 0 <= j < |log| && log[j].Reported?
      ensures log[j].state == State(|MapAfter(log[..j])|, |Positions(log[..j])|, LastAfter(log[..j]))
    {
      assert ReadIsCurrent(log, j);
      CountIsPositions(log[..j]);
    }
  }

  /** The policy shown as the last one is that of the latest write section of either kind; none before the first. */
  lemma {:induction false} LastIsLatestWrite(log: seq<Event>)
    ensures LastAfter(log).None? ==> forall i | 0 <= i < |log| :: !log[i].Put? && !log[i].Counted?
    ensures LastAfter(log).Some? ==>
              exists i | 0 <= i < |log| ::
                && (log[i].Put? || log[i].Counted?) && log[i].policy == LastAfter(log).value
                && forall j | i < j < |log| :: !log[j].Put? && !log[j].Counted?
  {
    if log != [] {
      var n := |log| - 1;
      LastIsLatestWrite(log[..n]);
      if log[n].Put? || log[n].Counted? {
      } else if LastAfter(log).Some? {
        var i :| 0 <= i < n && (log[i].Put? || log[i].Counted?) && log[i].policy == LastAfter(log[..n]).value
                 && forall j | i < j < n :: !log[j].Put? && !log[j].Counted?;
        assert log[i].policy == LastAfter(log).value;
      }
    }
  }

  lemma NextGrows(env: Env, m: Machine, a: Action)
    ensures m.log <= Next(env, m, a).log
    ensures m.store.policies.Keys <= Next(env, m, a).store.policies.Keys
  {
  }

  /** The log is a history: later actions only extend it, and no stored policy is ever dropped. */
  lemma {:induction false} KeysOnlyGrow(env: Env, actions: seq<Action>, more: seq<Action>)
    ensures Run(env, actions).log <= Run(env, actions + more).log
    ensures Run(env, actions).store.policies.Keys <= Run(env, actions + more).store.policies.Keys
  {
    if more == [] {
      assert actions + more == actions;
    } else {
      var init, last := more[..|more| - 1], more[|more| - 1];
      KeysOnlyGrow(env, actions, init);
      assert (actions + more)[..|actions + more| - 1] == actions + init;
      NextGrows(env, Run(env, actions + init), last);
    }
  }

  // --- each request ---------------------------------------------------------------------------------

  lemma {:induction false} TraceKeepsOrder(log: seq<Event>, k: nat, id: nat)
    requires k < |log| && log[k].id == id
    ensures var q := |Trace(log[..k], id)|;
            q < |Trace(log, id)| && Trace(log, id)[q] == log[k] && Trace(log, id)[..q] == Trace(log[..k], id)
  {
    var n := |log| - 1;
    if k < n {
      TraceKeepsOrder(log[..n], k, id);
      assert log[..n][..k] == log[..k];
    }
  }

  lemma NoEarlierAnswer(env: Env, trace: seq<Event>, id: nat, reply: Reply)
    requires Justifies(env, trace, id, reply)
    ensures forall i | 0 <= i < |trace| :: !trace[i].Responded?
  {
    if |trace| == 4 {
      assert trace[0] == trace[..2][0] && trace[1] == trace[..2][1];
    }
  }

  lemma OnlyFinishedAnswered(env: Env, phase: Phase, trace: seq<Event>, id: nat)
    requires PhaseMatches(env, phase, trace, id)
    ensures forall i | 0 <= i < |trace| && trace[i].Responded? :: phase.Finished? && i == |trace| - 1
  {
    match phase {
      case Ready(reply) => NoEarlierAnswer(env, trace, id, reply);
      case Finished =>
        var init := trace[..|trace| - 1];
        NoEarlierAnswer(env, init, id, trace[|trace| - 1].reply);
        assert forall i | 0 <= i < |init| :: trace[i] == init[i];
      case Counting(_, _, _) => assert trace[0] == trace[..2][0] && trace[1] == trace[..2][1];
      case _ =>
    }
  }

  lemma AnswerIsJustified(env: Env, m: Machine, k: nat)
    requires Inv(env, m) && k < |m.log| && m.log[k].Responded?
    ensures Justifies(env, Trace(m.log[..k], m.log[k].id), m.log[k].id, m.log[k].reply)
  {
    var id := m.log[k].id;
    TraceKeepsOrder(m.log, k, id);
    OnlyFinishedAnswered(env, m.requests[id], Trace(m.log, id), id);
  }

  /**
   Every answer is earned by exactly its own sections, in order, between the call and the answer: a STORE
   by one write section, an EVALUATE by one read section, one signature over the matching preimage and one
   write section, a GET /state by one read section, a refusal by none of the later ones. And the call that
   opened the request asked for just that: this policy, this configuration, this trigger time.
   */
  lemma AnswersAreJustified(env: Env, actions: seq<Action>, k: nat)
    requires k < |Run(env, actions).log| && Run(env, actions).log[k].Responded?
    ensures var log := Run(env, actions).log;
            && Justifies(env, Trace(log[..k], log[k].id), log[k].id, log[k].reply)
            && Opening(actions, log[k].id).Some?
            && var call := Opening(actions, log[k].id).value;
            && ReplyFits(env, call, log[k].reply)
            && forall i | 0 <= i < |log| && log[i].id == log[k].id :: EventFits(env, call, log[i])
  {
    RunInv(env, actions);
    AnswerIsJustified(env, Run(env, actions), k);
    EventsFitTheirCalls(env, actions);
  }

  /** Every event of a trace stands somewhere in the log, with the earlier ones before it. */
  lemma {:induction false} Locate(log: seq<Event>, id: nat, q: nat) returns (j: nat)
    requires q < |Trace(log, id)|
    ensures j < |log| && log[j] == Trace(log, id)[q] && Trace(log[..j], id) == Trace(log, id)[..q]
  {
    var n := |log| - 1;
    if q < |Trace(log[..n], id)| {
      j := Locate(log[..n], id, q);
      assert log[..n][..j] == log[..j];
    } else {
      j := n;
    }
  }

  ghost predicate HeldDuring(log: seq<Event>, k: nat, i: int, j: int, id: nat, e: Evaluation)
    requires k < |log|
  {
    && 0 <= i < j < k && log[i] == Called(id)
    && log[j] == Got(id, e.policy, Some(PrivateConfig(e.shares, e.salt)))
    && e.policy in MapAfter(log[..j]) && MapAfter(log[..j])[e.policy] == PrivateConfig(e.shares, e.salt)
  }

  lemma EvaluatedTrace(env: Env, trace: seq<Event>, id: nat, e: Evaluation)
    requires Justifies(env, trace, id, Evaluated(e))
    ensures |trace| == 4 && trace[0] == Called(id)
    ensures trace[1] == Got(id, e.policy, Some(PrivateConfig(e.shares, e.salt)))
  {
    assert trace[..2][0] == trace[0] && trace[..2][1] == trace[1];
  }

  lemma ReadWasHeld(log: seq<Event>, k: nat, id: nat, e: Evaluation)
    requires k < |log| && ReadsAreCurrent(log)
    requires |Trace(log[..k], id)| >= 2 && Trace(log[..k], id)[0] == Called(id)
    requires Trace(log[..k], id)[1] == Got(id, e.policy, Some(PrivateConfig(e.shares, e.salt)))
    ensures exists i, j :: HeldDuring(log, k, i, j, id, e)
  {
    var j := Locate(log[..k], id, 1);
    assert log[..k][..j] == log[..j];
    var i := Locate(log[..j], id, 0);
    assert ReadIsCurrent(log, j);
    assert HeldDuring(log, k, i, j, id, e);
  }

  /** The call that opened the request is an EVALUATE of this policy, armed, on a chain. */
  ghost predicate AskedFor(env: Env, actions: seq<Action>, id: nat, policy: Address) {
    exists t: nat :: t != 0 && env.chainId != 0 &&
                     Opening(actions, id) == Some(CallEvaluate(id, Some(EvaluateRequest(policy, t))))
  }

  lemma EvaluatedWasAskedFor(env: Env, actions: seq<Action>, id: nat, e: Evaluation)
    requires Opening(actions, id).Some? && ReplyFits(env, Opening(actions, id).value, Evaluated(e))
    ensures AskedFor(env, actions, id, e.policy)
  {
    OpeningHasItsId(actions, id);
    var t := Opening(actions, id).value.evaluate.value.triggeredAt;
    assert Opening(actions, id) == Some(CallEvaluate(id, Some(EvaluateRequest(e.policy, t))));
  }

  /**
   A successful EVALUATE answers with the configuration the map held, at a moment of that very request, under the policy
   that very request asked for.
   */
  lemma EvaluateReturnsHeldConfig(env: Env, actions: seq<Action>, k: nat)
    requires k < |Run(env, actions).log| && Run(env, actions).log[k].Responded?
    requires Run(env, actions).log[k].reply.Evaluated?
    ensures var log := Run(env, actions).log;
            exists i, j :: HeldDuring(log, k, i, j, log[k].id, log[k].reply.evaluation)
    ensures var log := Run(env, actions).log;
            AskedFor(env, actions, log[k].id, log[k].reply.evaluation.policy)
  {
    RunInv(env, actions);
    AnswersAreJustified(env, actions, k);
    EvaluatedWasAskedFor(env, actions, Run(env, actions).log[k].id, Run(env, actions).log[k].reply.evaluation);
    var log := Run(env, actions).log;
    EvaluatedTrace(env, Trace(log[..k], log[k].id), log[k].id, log[k].reply.evaluation);
    ReadWasHeld(log, k, log[k].id, log[k].reply.evaluation);
  }

  // --- signatures -----------------------------------------------------------------------------------

  /**
   The signature in every answer is the node's reply to that request: 65 bytes, the first 64 of them untouched, and a
   last byte of at least 27, as the contract wants it.
   */
  lemma AnswerCarriesTheReply(env: Env, actions: seq<Action>, k: nat)
    requires k < |Run(env, actions).log| && Run(env, actions).log[k].Responded?
    requires Run(env, actions).log[k].reply.Evaluated?
    ensures var log := Run(env, actions).log;
            var e, trace := log[k].reply.evaluation, Trace(log[..k], log[k].id);
            && |trace| == 4 && trace[2].Asked? && trace[2].signed.Some? && |trace[2].signed.value| == 65
            && |e.signature| == 65 && e.signature[..64] == trace[2].signed.value[..64]
            && e.signature[64] >= 27
            && (e.signature[64] == trace[2].signed.value[64]
                || e.signature[64] as int == trace[2].signed.value[64] as int + 27)
  {
    AnswersAreJustified(env, actions, k);
    var log := Run(env, actions).log;
    SignatureExactly(Trace(log[..k], log[k].id)[2].signed);
  }

  /**
   Over every run, the digest rebuilt from a successful EVALUATE at the test's trigger time is the digest of
   the message the enclave actually handed to the node, and the node's recovery id survives the trip exactly
   when it is below 27; so the live check accepts the answer just when the node's own signature recovers to
   the machine.
   */
  lemma DigestsAgree(env: Env, actions: seq<Action>, k: nat, recover: RunTest.Recover, machine: Address)
    requires k < |Run(env, actions).log| && Run(env, actions).log[k].Responded?
    requires Run(env, actions).log[k].reply.Evaluated?
    ensures var log := Run(env, actions).log;
            var e, trace := log[k].reply.evaluation, Trace(log[..k], log[k].id);
            |trace| == 4 && trace[2].Asked? && trace[2].signed.Some? && |trace[2].signed.value| == 65
            && (trace[2].triggeredAt == RunTest.TEST_TRIGGERED_AT && trace[2].signed.value[64] < 27 ==>
                  (RunTest.Accepts(env.keccak, recover, e, PrivateConfig(e.shares, e.salt), env.chainId, machine)
                   <==> recover(RunTest.NodeDigest(env.keccak, trace[2].message), trace[2].signed.value) == Some(machine)))
  {
    AnswersAreJustified(env, actions, k);
    var log := Run(env, actions).log;
    var trace := Trace(log[..k], log[k].id);
    RunTest.DenormalizeUndoesNormalize(trace[2].signed.value);
  }
}
