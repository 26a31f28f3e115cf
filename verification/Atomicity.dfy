/**
 When EVALUATE, which takes two lock sections and calls the node in between, is one atomic step after all: the exact
 condition for each point from its read section to its write section, and a run in which there is no such point.
 */
module Atomicity {
  import opened ByteStrings
  import opened PolicyTypes
  import opened Shares
  import opened Enclave
  import opened EnclaveRuns
  import opened EnclaveRequests
  import opened EnclaveProperties
  import Eip712

  // --- the configuration in between ---------------------------------------------------------------

  /** The last write section for the policy before p lies after j, and put a different configuration. */
  ghost predicate Replaced(log: seq<Event>, j: nat, p: nat, policy: Address, cfg: PrivateConfig)
    requires p <= |log|
  {
    exists i: nat, other :: j < i && LatestPut(log, p, i, policy, other) && other != cfg
  }

  lemma LatestPutIsUnique(log: seq<Event>, p: nat, i: nat, i': nat, policy: Address, a: PrivateConfig, b: PrivateConfig)
    requires p <= |log| && LatestPut(log, p, i, policy, a) && LatestPut(log, p, i', policy, b)
    ensures i == i' && a == b
  {
  }

  /** What a read section found is still held at a later point exactly when it was not replaced by then. */
  lemma HeldUntilReplaced(env: Env, actions: seq<Action>, j: nat, p: nat)
    requires j < p <= |Run(env, actions).log|
    requires Run(env, actions).log[j].Got? && Run(env, actions).log[j].found.Some?
    ensures var log := Run(env, actions).log;
            var policy, cfg := log[j].policy, log[j].found.value;
            GetSection(StoreAfter(log[..p]), policy) == Some(cfg) <==> !Replaced(log, j, p, policy, cfg)
  {
    RunInv(env, actions);
    HeldInLog(Run(env, actions).log, j, p);
  }

  lemma HeldInLog(log: seq<Event>, j: nat, p: nat)
    requires j < p <= |log| && ReadsAreCurrent(log) && log[j].Got? && log[j].found.Some?
    ensures var policy, cfg := log[j].policy, log[j].found.value;
            GetSection(StoreAfter(log[..p]), policy) == Some(cfg) <==> !Replaced(log, j, p, policy, cfg)
  {
    var policy, cfg := log[j].policy, log[j].found.value;
    assert ReadIsCurrent(log, j);
    MapHoldsLatestPut(log, j, policy);
    MapHoldsLatestPut(log, p, policy);
    var i: nat :| LatestPut(log, j, i, policy, cfg);
    assert log[i].Put?;
    var now := MapAfter(log[..p])[policy];
    var i': nat :| LatestPut(log, p, i', policy, now);
    if Replaced(log, j, p, policy, cfg) {
      var k: nat, other :| j < k && LatestPut(log, p, k, policy, other) && other != cfg;
      LatestPutIsUnique(log, p, i', k, policy, now, other);
    }
    if i' <= j {
      assert LatestPut(log, j, i', policy, now);
      LatestPutIsUnique(log, j, i, i', policy, cfg, now);
    }
  }

  // --- its own sections ---------------------------------------------------------------------------

  /** The read and the write section of an answered EVALUATE, and what the node was asked in between. */
  ghost predicate OwnSections(env: Env, log: seq<Event>, j: nat, q: nat, c: nat, id: nat, e: Evaluation) {
    && j < q < c < |log|
    && log[j] == Got(id, e.policy, Some(PrivateConfig(e.shares, e.salt)))
    && log[q].Asked? && log[q].id == id && SignatureFrom(log[q].signed) == Some(e.signature)
    && log[q].message == Eip712.EvaluationPreimage(env.keccak, e.policy, env.chainId, PrivateConfig(e.shares, e.salt),
                                                   log[q].triggeredAt)
    && log[c] == Counted(id, e.policy)
  }

  /** The policy and the trigger time are those of the call that opened the request. */
  lemma FindSections(env: Env, actions: seq<Action>, k: nat) returns (j: nat, q: nat, c: nat)
    requires k < |Run(env, actions).log| && Run(env, actions).log[k].Responded?
    requires Run(env, actions).log[k].reply.Evaluated?
    ensures var log := Run(env, actions).log;
            c < k && OwnSections(env, log, j, q, c, log[k].id, log[k].reply.evaluation)
            && Opening(actions, log[k].id)
               == Some(CallEvaluate(log[k].id, Some(EvaluateRequest(log[k].reply.evaluation.policy, log[q].triggeredAt))))
  {
    AnswersAreJustified(env, actions, k);
    OpeningHasItsId(actions, Run(env, actions).log[k].id);
    var log := Run(env, actions).log;
    var id, e := log[k].id, log[k].reply.evaluation;
    EvaluatedTrace(env, Trace(log[..k], id), id, e);
    c := Locate(log[..k], id, 3);
    assert log[..k][..c] == log[..c];
    q := Locate(log[..c], id, 2);
    assert log[..c][..q] == log[..q];
    j := Locate(log[..q], id, 1);
  }

  lemma AtomicInLog(env: Env, log: seq<Event>, j: nat, q: nat, c: nat, id: nat, e: Evaluation,
                    sign: Bytes -> Option<Bytes>)
    requires ReadsAreCurrent(log) && OwnSections(env, log, j, q, c, id, e)
    requires sign(log[q].message) == log[q].signed
    ensures EvaluateStored(env.keccak, env.chainId, e.policy, log[q].triggeredAt, sign, StoreAfter(log[..c]))
              == (Evaluated(e), StoreAfter(log[..c + 1]))
            <==> !Replaced(log, j, c, e.policy, PrivateConfig(e.shares, e.salt))
  {
    HeldInLog(log, j, c);
    assert log[..c + 1] == log[..c] + [log[c]];
    Appended(log[..c], log[c]);
  }

  /**
   The whole of EVALUATE run uninterrupted at its write section gives the answer that was given and the store that was
   left, exactly when the configuration it had read was not replaced in between.
   */
  lemma AtomicAtItsWriteSection(env: Env, actions: seq<Action>, k: nat, sign: Bytes -> Option<Bytes>)
      returns (j: nat, q: nat, c: nat)
    requires k < |Run(env, actions).log| && Run(env, actions).log[k].Responded?
    requires Run(env, actions).log[k].reply.Evaluated?
    ensures var log := Run(env, actions).log;
            var e := log[k].reply.evaluation;
            && c < k && OwnSections(env, log, j, q, c, log[k].id, e)
            && (sign(log[q].message) == log[q].signed ==>
                  (EvaluateStored(env.keccak, env.chainId, e.policy, log[q].triggeredAt, sign, StoreAfter(log[..c]))
                     == (Evaluated(e), StoreAfter(log[..c + 1]))
                   <==> !Replaced(log, j, c, e.policy, PrivateConfig(e.shares, e.salt))))
  {
    j, q, c := FindSections(env, actions, k);
    RunInv(env, actions);
    if sign(Run(env, actions).log[q].message) == Run(env, actions).log[q].signed {
      AtomicInLog(env, Run(env, actions).log, j, q, c, Run(env, actions).log[k].id,
                  Run(env, actions).log[k].reply.evaluation, sign);
    }
  }

  // --- any other point ----------------------------------------------------------------------------

  function Effects(s: Store, events: seq<Event>): Store {
    if events == [] then s else Effect(Effects(s, events[..|events| - 1]), events[|events| - 1])
  }

  /** Some write section changes the last policy. */
  predicate Writes(events: seq<Event>) {
    events != []
    && (events[|events| - 1].Put? || events[|events| - 1].Counted? || Writes(events[..|events| - 1]))
  }

  lemma {:induction false} StoreAfterSplit(a: seq<Event>, b: seq<Event>)
    ensures StoreAfter(a + b) == Effects(StoreAfter(a), b)
  {
    if b == [] {
      assert a + b == a;
    } else {
      var init, last := b[..|b| - 1], b[|b| - 1];
      StoreAfterSplit(a, init);
      assert a + b == (a + init) + [last];
      Appended(a + init, last);
    }
  }

  /** Counting first is counting last, but for the last policy. */
  lemma {:induction false} CountFirst(s: Store, policy: Address, events: seq<Event>)
    ensures var counted := Effects(CountSection(s, policy), events);
            && counted.policies == Effects(s, events).policies
            && counted.evaluationCount == Effects(s, events).evaluationCount + 1
            && counted.lastPolicy == if Writes(events) then Effects(s, events).lastPolicy else Some(policy)
  {
    if events != [] {
      CountFirst(s, policy, events[..|events| - 1]);
    }
  }

  /** Stores that differ in the last policy alone stay so until a write section. */
  lemma {:induction false} LastOnly(s: Store, last: Option<Address>, events: seq<Event>)
    ensures Effects(s.(lastPolicy := last), events)
         == Effects(s, events).(lastPolicy := if Writes(events) then Effects(s, events).lastPolicy else last)
    ensures !Writes(events) ==> Effects(s, events).lastPolicy == s.lastPolicy
  {
    if events != [] {
      LastOnly(s, last, events[..|events| - 1]);
    }
  }

  /** The history with the write section at c moved forward to p. */
  function Moved(log: seq<Event>, p: nat, c: nat): seq<Event>
    requires p <= c < |log|
  {
    log[..p] + [log[c]] + log[p..c] + log[c + 1..]
  }

  /** The store each read of the moved history sees. */
  lemma MovedBefore(log: seq<Event>, p: nat, c: nat, q: nat)
    requires p <= q < c < |log| && log[c].Counted?
    ensures Moved(log, p, c)[q + 1] == log[q]
    ensures var s, t := StoreAfter(log[..q]), StoreAfter(Moved(log, p, c)[..q + 1]);
            t.policies == s.policies && t.evaluationCount == s.evaluationCount + 1
  {
    var m := Moved(log, p, c);
    assert m[..q + 1] == (log[..p] + [log[c]]) + log[p..q];
    assert log[..q] == log[..p] + log[p..q];
    StoreAfterSplit(log[..p] + [log[c]], log[p..q]);
    StoreAfterSplit(log[..p], log[p..q]);
    Appended(log[..p], log[c]);
    CountFirst(StoreAfter(log[..p]), log[c].policy, log[p..q]);
  }

  /** The last policy a later report would see in the moved history. */
  ghost predicate SameLast(log: seq<Event>, p: nat, c: nat)
    requires p <= c < |log| && log[c].Counted?
  {
    !Writes(log[p..c]) || LastAfter(log[..c]) == Some(log[c].policy)
  }

  lemma MovedUpTo(log: seq<Event>, p: nat, c: nat)
    requires p <= c < |log| && log[c].Counted?
    ensures var s := StoreAfter(log[..c + 1]);
            Effects(StoreAfter(log[..p] + [log[c]]), log[p..c])
            == s.(lastPolicy := if SameLast(log, p, c) then s.lastPolicy else LastAfter(log[..c]))
  {
    assert log[..c] == log[..p] + log[p..c] && log[..c + 1] == log[..c] + [log[c]];
    StoreAfterSplit(log[..p], log[p..c]);
    Appended(log[..p], log[c]);
    Appended(log[..c], log[c]);
    CountFirst(StoreAfter(log[..p]), log[c].policy, log[p..c]);
  }

  lemma MovedAfter(log: seq<Event>, p: nat, c: nat, q: nat)
    requires p <= c < q < |log| && log[c].Counted?
    ensures Moved(log, p, c)[q] == log[q]
    ensures var s, t := StoreAfter(log[..q]), StoreAfter(Moved(log, p, c)[..q]);
            && t.policies == s.policies && t.evaluationCount == s.evaluationCount
            && (t == s <==> SameLast(log, p, c) || Writes(log[c + 1..q]))
  {
    var m, suffix := Moved(log, p, c), log[c + 1..q];
    assert m[..q] == (log[..p] + [log[c]]) + log[p..c] + suffix;
    assert log[..q] == log[..c + 1] + suffix;
    StoreAfterSplit(log[..p] + [log[c]], log[p..c]);
    StoreAfterSplit((log[..p] + [log[c]]) + log[p..c], suffix);
    StoreAfterSplit(log[..c + 1], suffix);
    MovedUpTo(log, p, c);
    var s := StoreAfter(log[..c + 1]);
    LastOnly(s, if SameLast(log, p, c) then s.lastPolicy else LastAfter(log[..c]), suffix);
    assert log[..c + 1] == log[..c] + [log[c]];
    Appended(log[..c], log[c]);
  }

  /** Nobody can tell: no report falls in between, and none after it shows a last policy that differs. */
  ghost predicate Unnoticed(log: seq<Event>, p: nat, c: nat)
    requires p <= c < |log| && log[c].Counted?
  {
    && (forall q | p <= q < c :: !log[q].Reported?)
    && (!SameLast(log, p, c) ==> forall q | c < q < |log| && log[q].Reported? :: Writes(log[c + 1..q]))
  }

  lemma MovedReads(log: seq<Event>, p: nat, c: nat)
    requires p <= c < |log| && log[c].Counted? && ReadsAreCurrent(log)
    ensures ReadsAreCurrent(Moved(log, p, c)) <==> Unnoticed(log, p, c)
  {
    var m := Moved(log, p, c);
    forall q | 0 <= q < p
      ensures m[q] == log[q] && m[..q] == log[..q] && ReadIsCurrent(m, q)
    {
      assert m[..q] == log[..q];
      assert ReadIsCurrent(log, q);
    }
    forall q | p <= q < c
      ensures ReadIsCurrent(m, q + 1) <==> !log[q].Reported?
    {
      MovedBefore(log, p, c, q);
      assert ReadIsCurrent(log, q);
    }
    forall q | c < q < |log|
      ensures ReadIsCurrent(m, q) <==> (log[q].Reported? ==> SameLast(log, p, c) || Writes(log[c + 1..q]))
    {
      MovedAfter(log, p, c, q);
      assert ReadIsCurrent(log, q);
      assert |m[..q]| == q;
    }
    assert ReadIsCurrent(m, p);
    if Unnoticed(log, p, c) {
      forall r | 0 <= r < |m|
        ensures ReadIsCurrent(m, r)
      {
        if p < r <= c {
          assert !log[r - 1].Reported? && ReadIsCurrent(m, (r - 1) + 1);
        }
      }
    }
  }

  /** With both sections taken together at p, the answer and everything anybody read stay as they were. */
  ghost predicate ExplainedAt(log: seq<Event>, p: nat, c: nat, e: Evaluation)
    requires p <= c < |log|
  {
    && GetSection(StoreAfter(log[..p]), e.policy) == Some(PrivateConfig(e.shares, e.salt))
    && ReadsAreCurrent(Moved(log, p, c))
  }

  /**
   Exactly when a point between the two sections explains an EVALUATE as one step: the configuration read was not
   replaced by then, and from then to the write section nobody looked.
   */
  lemma AtomicExactlyWhen(env: Env, actions: seq<Action>, j: nat, q: nat, c: nat, id: nat, e: Evaluation, p: nat)
    requires OwnSections(env, Run(env, actions).log, j, q, c, id, e) && j < p <= c
    ensures var log := Run(env, actions).log;
            ExplainedAt(log, p, c, e)
            <==> !Replaced(log, j, p, e.policy, PrivateConfig(e.shares, e.salt)) && Unnoticed(log, p, c)
  {
    RunInv(env, actions);
    HeldUntilReplaced(env, actions, j, p);
    MovedReads(Run(env, actions).log, p, c);
  }

  // --- a run with no such point -------------------------------------------------------------------

  /** A STORE that replaces the configuration, and a GET /state, while the node signs the earlier one. */
  function Overtaken(policy: Address, first: PrivateConfig, second: PrivateConfig, sig: Bytes): seq<Action> {
    [CallStore(0, Some(StoreRequest(policy, [0])), Config(first)), Write(0),
     CallEvaluate(1, Some(EvaluateRequest(policy, 1))), Read(1),
     CallStore(2, Some(StoreRequest(policy, [0])), Config(second)), Write(2), Respond(2),
     CallState(3), Read(3), Respond(3),
     NodeReplies(1, Some(sig)), Write(1), Respond(1)]
  }

  /** A new STORE and its write section. */
  lemma StoreSteps(env: Env, m: Machine, id: nat, policy: Address, cfg: PrivateConfig)
    requires id !in m.requests && policy != ZERO_ADDRESS && CheckShares(cfg.shares).Valid?
    ensures var m1 := Next(env, m, CallStore(id, Some(StoreRequest(policy, [0])), Config(cfg)));
            && m1 == m.To(id, Storing(policy, cfg), Called(id))
            && Next(env, m1, Write(id))
               == m1.(store := PutSection(m.store, policy, cfg))
                    .To(id, Ready(Stored(policy, |cfg.shares|)), Put(id, policy, cfg))
  {
  }

  /** Policy first is stored; EVALUATE, request 1, has read it and waits for the node. */
  ghost predicate Overtakes(m: Machine, policy: Address, first: PrivateConfig) {
    && m.store == Store(map[policy := first], 0, Some(policy))
    && 1 in m.requests && m.requests[1] == Signing(policy, 1, first)
    && 2 !in m.requests && 3 !in m.requests && |m.log| == 4
  }

  /** Then the second configuration has been stored and the STORE answered. */
  ghost predicate Overtook(m: Machine, policy: Address, first: PrivateConfig, second: PrivateConfig) {
    && m.store == Store(map[policy := second], 0, Some(policy))
    && 1 in m.requests && m.requests[1] == Signing(policy, 1, first) && 3 !in m.requests
    && |m.log| == 7 && m.log[5] == Put(2, policy, second) && m.log[6] == Responded(2, Stored(policy, |second.shares|))
  }

  lemma FirstStore(env: Env, policy: Address, first: PrivateConfig)
    requires policy != ZERO_ADDRESS && CheckShares(first.shares).Valid?
    ensures var m := Next(env, Next(env, Machine(EMPTY_STORE, map[], []),
                                    CallStore(0, Some(StoreRequest(policy, [0])), Config(first))), Write(0));
            m.store == Store(map[policy := first], 0, Some(policy)) && m.requests.Keys == {0} && |m.log| == 2
  {
    StoreSteps(env, Machine(EMPTY_STORE, map[], []), 0, policy, first);
  }

  lemma StartEvaluate(env: Env, m: Machine, policy: Address, first: PrivateConfig)
    requires env.chainId != 0
    requires m.store == Store(map[policy := first], 0, Some(policy)) && m.requests.Keys == {0} && |m.log| == 2
    ensures Overtakes(Next(env, Next(env, m, CallEvaluate(1, Some(EvaluateRequest(policy, 1)))), Read(1)), policy, first)
  {
  }

  lemma OvertakenRead(env: Env, policy: Address, first: PrivateConfig, second: PrivateConfig, sig: Bytes)
    requires env.chainId != 0 && policy != ZERO_ADDRESS && CheckShares(first.shares).Valid?
    ensures Overtakes(Run(env, Overtaken(policy, first, second, sig)[..4]), policy, first)
  {
    var xs := Overtaken(policy, first, second, sig);
    assert Run(env, xs[..0]) == Machine(EMPTY_STORE, map[], []);
    TwoSteps(env, xs, 0);
    FirstStore(env, policy, first);
    TwoSteps(env, xs, 2);
    StartEvaluate(env, Run(env, xs[..2]), policy, first);
  }

  /** A whole STORE. */
  lemma StoreAnswered(env: Env, m: Machine, id: nat, policy: Address, cfg: PrivateConfig)
    requires id !in m.requests && policy != ZERO_ADDRESS && CheckShares(cfg.shares).Valid?
    ensures var m' := Next(env, Next(env, Next(env, m, CallStore(id, Some(StoreRequest(policy, [0])), Config(cfg))),
                                     Write(id)), Respond(id));
            && m'.store == PutSection(m.store, policy, cfg)
            && m'.requests.Keys == m.requests.Keys + {id}
            && (forall i | i in m.requests :: m'.requests[i] == m.requests[i])
            && |m'.log| == |m.log| + 3 && m'.log[|m.log| + 1] == Put(id, policy, cfg)
            && m'.log[|m.log| + 2] == Responded(id, Stored(policy, |cfg.shares|))
  {
    StoreSteps(env, m, id, policy, cfg);
  }

  lemma SecondStore(env: Env, m: Machine, policy: Address, first: PrivateConfig, second: PrivateConfig)
    requires Overtakes(m, policy, first) && policy != ZERO_ADDRESS && CheckShares(second.shares).Valid?
    ensures Overtook(Next(env, Next(env, Next(env, m, CallStore(2, Some(StoreRequest(policy, [0])), Config(second))),
                                    Write(2)), Respond(2)), policy, first, second)
  {
    StoreAnswered(env, m, 2, policy, second);
    assert map[policy := first][policy := second] == map[policy := second];
  }

  lemma OvertakenStore(env: Env, policy: Address, first: PrivateConfig, second: PrivateConfig, sig: Bytes)
    requires env.chainId != 0 && policy != ZERO_ADDRESS
    requires CheckShares(first.shares).Valid? && CheckShares(second.shares).Valid?
    ensures Overtook(Run(env, Overtaken(policy, first, second, sig)[..7]), policy, first, second)
  {
    var xs := Overtaken(policy, first, second, sig);
    var m := Run(env, xs[..4]);
    OvertakenRead(env, policy, first, second, sig);
    SecondStore(env, m, policy, first, second);
    ThreeSteps(env, xs, 4);
    assert xs[4] == CallStore(2, Some(StoreRequest(policy, [0])), Config(second)) && xs[5] == Write(2) && xs[6] == Respond(2);
  }

  /** A whole GET /state. */
  lemma StateSteps(env: Env, m: Machine, id: nat)
    requires id !in m.requests
    ensures var m' := Next(env, Next(env, Next(env, m, CallState(id)), Read(id)), Respond(id));
            && m'.store == m.store
            && (forall i | i in m.requests :: i in m'.requests && m'.requests[i] == m.requests[i])
            && m'.log == m.log + [Called(id)] + [Reported(id, StateSection(m.store))]
                         + [Responded(id, StateIs(StateSection(m.store)))]
  {
  }

  /** Then a GET /state, which still counts nothing. */
  lemma OvertakenState(env: Env, policy: Address, first: PrivateConfig, second: PrivateConfig, sig: Bytes)
    requires env.chainId != 0 && policy != ZERO_ADDRESS
    requires CheckShares(first.shares).Valid? && CheckShares(second.shares).Valid?
    ensures var m := Run(env, Overtaken(policy, first, second, sig)[..10]);
            && 1 in m.requests && m.requests[1] == Signing(policy, 1, first)
            && |m.log| == 10 && m.log[5] == Put(2, policy, second)
            && m.log[6] == Responded(2, Stored(policy, |second.shares|)) && m.log[7] == Called(3)
            && m.log[8] == Reported(3, State(1, 0, Some(policy)))
            && m.log[9] == Responded(3, StateIs(State(1, 0, Some(policy))))
  {
    var xs := Overtaken(policy, first, second, sig);
    OvertakenStore(env, policy, first, second, sig);
    var m := Run(env, xs[..7]);
    ThreeSteps(env, xs, 7);
    StateSteps(env, m, 3);
    assert |m.store.policies| == 1;
  }

  /** The reply, the count and the answer of the EVALUATE under way. */
  lemma EvaluateSteps(env: Env, m: Machine, id: nat, policy: Address, t: nat, cfg: PrivateConfig, sig: Bytes)
    requires id in m.requests && m.requests[id] == Signing(policy, t, cfg) && |sig| == 65
    ensures var m' := Next(env, Next(env, Next(env, m, NodeReplies(id, Some(sig))), Write(id)), Respond(id));
            && |m'.log| == |m.log| + 3 && m'.log[..|m.log|] == m.log
            && m'.log[|m.log|].Asked? && m'.log[|m.log| + 1] == Counted(id, policy)
            && m'.log[|m.log| + 2] == Responded(id, Evaluated(Evaluation(policy, cfg.shares, cfg.salt,
                                                                         SignatureFrom(Some(sig)).value)))
  {
  }

  lemma OvertakenLog(env: Env, policy: Address, first: PrivateConfig, second: PrivateConfig, sig: Bytes)
    requires env.chainId != 0 && policy != ZERO_ADDRESS && |sig| == 65
    requires CheckShares(first.shares).Valid? && CheckShares(second.shares).Valid?
    ensures var log := Run(env, Overtaken(policy, first, second, sig)).log;
            && |log| == 13 && log[..10] == Run(env, Overtaken(policy, first, second, sig)[..10]).log
            && log[10].Asked? && log[11] == Counted(1, policy)
            && log[12] == Responded(1, Evaluated(Evaluation(policy, first.shares, first.salt,
                                                             SignatureFrom(Some(sig)).value)))
  {
    var xs := Overtaken(policy, first, second, sig);
    OvertakenState(env, policy, first, second, sig);
    ThreeSteps(env, xs, 10);
    EvaluateSteps(env, Run(env, xs[..10]), 1, policy, 1, first, sig);
    assert xs[..13] == xs;
  }

  lemma OvertakenShape(env: Env, policy: Address, first: PrivateConfig, second: PrivateConfig, sig: Bytes)
    requires env.chainId != 0 && policy != ZERO_ADDRESS && first != second && |sig| == 65
    requires CheckShares(first.shares).Valid? && CheckShares(second.shares).Valid?
    ensures var log := Run(env, Overtaken(policy, first, second, sig)).log;
            var e := Evaluation(policy, first.shares, first.salt, SignatureFrom(Some(sig)).value);
            && |log| == 13 && log[6] == Responded(2, Stored(policy, |second.shares|)) && log[7] == Called(3)
            && log[8].Reported? && log[9] == Responded(3, StateIs(State(1, 0, Some(policy))))
            && log[11] == Counted(1, policy) && log[12] == Responded(1, Evaluated(e))
            && log[5] == Put(2, policy, second) && (forall i | 6 <= i < 11 :: !log[i].Put?)
  {
    var xs := Overtaken(policy, first, second, sig);
    var log, before := Run(env, xs).log, Run(env, xs[..10]).log;
    OvertakenState(env, policy, first, second, sig);
    OvertakenLog(env, policy, first, second, sig);
    assert forall i | 0 <= i < 10 :: log[i] == before[i];
  }

  /**
   A run with no such point. The EVALUATE answers with a configuration already replaced by a completed STORE, while a
   GET /state called after that STORE still shows a count of zero: up to that STORE the report is in the way, after it
   the replacement is.
   */
  lemma EvaluateIsNotAtomic(env: Env, policy: Address, first: PrivateConfig, second: PrivateConfig, sig: Bytes)
    requires env.chainId != 0 && policy != ZERO_ADDRESS && first != second && |sig| == 65
    requires CheckShares(first.shares).Valid? && CheckShares(second.shares).Valid?
    ensures var log := Run(env, Overtaken(policy, first, second, sig)).log;
            var e := Evaluation(policy, first.shares, first.salt, SignatureFrom(Some(sig)).value);
            && |log| == 13 && log[6] == Responded(2, Stored(policy, |second.shares|)) && log[7] == Called(3)
            && log[9] == Responded(3, StateIs(State(1, 0, Some(policy))))
            && log[11] == Counted(1, policy) && log[12] == Responded(1, Evaluated(e))
            && forall p | 0 <= p <= 11 :: !ExplainedAt(log, p, 11, e)
  {
    var log := Run(env, Overtaken(policy, first, second, sig)).log;
    OvertakenShape(env, policy, first, second, sig);
    RunInv(env, Overtaken(policy, first, second, sig));
    NoPoint(log, policy, first, second, Evaluation(policy, first.shares, first.salt, SignatureFrom(Some(sig)).value));
  }

  lemma NoPoint(log: seq<Event>, policy: Address, first: PrivateConfig, second: PrivateConfig, e: Evaluation)
    requires |log| == 13 && ReadsAreCurrent(log) && first != second
    requires e.policy == policy && PrivateConfig(e.shares, e.salt) == first
    requires log[5] == Put(2, policy, second) && (forall i | 6 <= i < 11 :: !log[i].Put?)
    requires log[8].Reported? && log[11] == Counted(1, policy)
    ensures forall p | 0 <= p <= 11 :: !ExplainedAt(log, p, 11, e)
  {
    forall p | 0 <= p <= 11
      ensures !ExplainedAt(log, p, 11, e)
    {
      if p <= 8 {
        MovedReads(log, p, 11);
      } else {
        MapHoldsLatestPut(log, p, policy);
        assert LatestPut(log, p, 5, policy, second);
        var now := MapAfter(log[..p]);
        if policy in now {
          var i: nat :| LatestPut(log, p, i, policy, now[policy]);
          LatestPutIsUnique(log, p, 5, i, policy, second, now[policy]);
        }
      }
    }
  }
}
