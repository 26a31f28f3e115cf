/** The six-step deployment: which transactions it sends, what progress it shows, and what it leaves in the vault. */
module Deploy {
  import opened PolicyTypes
  import opened Text
  import V = Vault

  datatype StepId = Seal | Deploy | Configure | Handoff | Approve | Deposit

  datatype Status = Pending | Running | Done | Skipped | Error

  type Statuses = s: seq<Status> | |s| == 6 witness [Pending, Pending, Pending, Pending, Pending, Pending]

  function Index(id: StepId): nat {
    match id
    case Seal => 0
    case Deploy => 1
    case Configure => 2
    case Handoff => 3
    case Approve => 4
    case Deposit => 5
  }

  // --- what the outside answers -------------------------------------------------------------------

  /** A log of a receipt: who emitted it, and the policy it names if it decodes as PolicyDeployed. */
  datatype Log = Log(emitter: string, policy: Option<string>)

  datatype Receipt = Lost | Arrived(success: bool, logs: seq<Log>)

  /** A write the wallet refuses, or that could not be built, sends nothing. */
  datatype Submission = Refused | Sent(receipt: Receipt)

  datatype Sealing = Sealed(ciphertext: string) | NoKey | Fails

  datatype HandoffAnswer = NotSent | SentInVain | Stored(receipt: string)

  datatype World = World(
    triggerDeployed: bool,
    sealing: Sealing,
    factory: string,
    deploy: Submission,
    configure: Submission,
    firstWrite: bool,
    senderConfigured: bool,
    handoff: HandoffAnswer,
    secondWrite: bool,
    approve: Submission,
    deposit: Submission)

  /** The parts of the new entry fixed by the caller. */
  datatype Order = Order(amount: nat, chainId: int, deployedAt: int, details: string)

  datatype Outcome =
    | Deployed(entry: V.Entry)
    | DeployError(step: StepId)
    | StorageError

  datatype Event =
    | Progress(steps: Statuses)
    | Transaction(id: StepId)
    | Saved(entry: V.Entry)

  // --- the address in a receipt -------------------------------------------------------------------

  function FirstAddress(logs: seq<Log>, factory: string): Option<string> {
    if logs == [] then None
    else if ToLower(logs[0].emitter) == ToLower(factory) && logs[0].policy.Some? then logs[0].policy
    else FirstAddress(logs[1..], factory)
  }

  method PolicyAddressFromReceipt(logs: seq<Log>, factory: string) returns (policy: Option<string>)
    ensures policy == FirstAddress(logs, factory)
  {
    var i := 0;
    while i < |logs|
      invariant i <= |logs|
      invariant FirstAddress(logs, factory) == FirstAddress(logs[i..], factory)
    {
      if ToLower(logs[i].emitter) == ToLower(factory) {
        if logs[i].policy.Some? {
          return logs[i].policy;
        }
      }
      i := i + 1;
    }
    policy := None;
  }

  /** The address comes from the factory, and from its first readable event. */
  lemma {:induction false} AddressIsTheFactorys(logs: seq<Log>, factory: string)
    ensures FirstAddress(logs, factory).Some? <==>
      exists i | 0 <= i < |logs| :: ToLower(logs[i].emitter) == ToLower(factory) && logs[i].policy.Some?
    ensures FirstAddress(logs, factory).Some? ==>
      exists i | 0 <= i < |logs| ::
        && ToLower(logs[i].emitter) == ToLower(factory)
        && logs[i].policy == FirstAddress(logs, factory)
        && forall j | 0 <= j < i :: ToLower(logs[j].emitter) != ToLower(factory) || logs[j].policy.None?
  {
    if logs != [] && !(ToLower(logs[0].emitter) == ToLower(factory) && logs[0].policy.Some?) {
      var rest := logs[1..];
      AddressIsTheFactorys(rest, factory);
      if FirstAddress(rest, factory).Some? {
        var i :| 0 <= i < |rest| && ToLower(rest[i].emitter) == ToLower(factory)
                 && rest[i].policy == FirstAddress(rest, factory)
                 && forall j | 0 <= j < i :: ToLower(rest[j].emitter) != ToLower(factory) || rest[j].policy.None?;
        assert logs[i + 1] == rest[i];
        assert forall j | 0 < j < i + 1 :: logs[j] == rest[j - 1];
      } else {
        assert forall i | 0 < i < |logs| :: logs[i] == rest[i - 1];
      }
    }
  }

  // --- which step fails ---------------------------------------------------------------------------

  /** Deploy needs its address; approve does not look at the receipt's status; the others do. */
  predicate Succeeds(id: StepId, answer: Submission, factory: string) {
    && answer.Sent?
    && answer.receipt.Arrived?
    && (id == Approve || answer.receipt.success)
    && (id == Deploy ==> FirstAddress(answer.receipt.logs, factory).Some?)
  }

  function FundingFailure(w: World, amount: nat): Option<StepId> {
    if amount == 0 then None
    else if !Succeeds(Approve, w.approve, w.factory) then Some(Approve)
    else if !Succeeds(Deposit, w.deposit, w.factory) then Some(Deposit)
    else None
  }

  datatype Verdict = Fine | FailsAt(step: StepId) | NotSaved

  function Judge(w: World, amount: nat): Verdict {
    if !w.triggerDeployed then FailsAt(Configure)
    else if !Succeeds(Deploy, w.deploy, w.factory) then FailsAt(Deploy)
    else if !Succeeds(Configure, w.configure, w.factory) then FailsAt(Configure)
    else if !w.firstWrite then NotSaved
    else if FundingFailure(w, amount).Some? then FailsAt(FundingFailure(w, amount).value)
    else Fine
  }

  /** The hand-off goes out only for a sealed payload and in a build that knows the sender. */
  predicate HandsOff(w: World) {
    w.sealing.Sealed? && w.sealing.ciphertext != "" && w.senderConfigured && w.handoff.Stored?
  }

  predicate CanHandOver(entry: V.Entry, w: World) {
    entry.ciphertext.Some? && w.senderConfigured && w.handoff.Stored?
  }

  /** The entry with the hand-off that was made, if any. */
  function HandedOver(entry: V.Entry, w: World): V.Entry {
    if CanHandOver(entry, w) then entry.(handoff := Some(w.handoff.receipt)) else entry
  }

  function EntryFor(w: World, order: Order): V.Entry
    requires Succeeds(Deploy, w.deploy, w.factory)
  {
    V.Entry(
      FirstAddress(w.deploy.receipt.logs, w.factory).value,
      order.chainId,
      if w.sealing.Sealed? && w.sealing.ciphertext != "" then Some(w.sealing.ciphertext) else None,
      None,
      order.deployedAt,
      order.details)
  }

  /** What the caller is given, and what the vault holds: they part when the second write fails. */
  function Returned(w: World, order: Order): V.Entry
    requires Succeeds(Deploy, w.deploy, w.factory)
  {
    EntryFor(w, order).(handoff := if HandsOff(w) then Some(w.handoff.receipt) else None)
  }

  function Kept(w: World, order: Order): V.Entry
    requires Succeeds(Deploy, w.deploy, w.factory)
  {
    EntryFor(w, order).(handoff := if HandsOff(w) && w.secondWrite then Some(w.handoff.receipt) else None)
  }

  // --- what every history keeps -------------------------------------------------------------------

  predicate Settled(s: Status) {
    s == Done || s == Skipped
  }

  /** A step starts only when the one before it is settled. */
  ghost predicate InOrder(s: Statuses) {
    && (forall j | 0 < j < 6 && s[j] != Pending :: Settled(s[j - 1]))
    && s[Index(Seal)] != Error
    && s[Index(Handoff)] != Error
  }

  function Rank(s: Status): nat {
    match s
    case Pending => 0
    case Running => 1
    case _ => 2
  }

  ghost predicate Advances(a: Statuses, b: Statuses) {
    forall i | 0 <= i < 6 :: a[i] == b[i] || Rank(a[i]) < Rank(b[i])
  }

  const FRESH: Statuses := [Pending, Pending, Pending, Pending, Pending, Pending]

  /** The statuses last shown. */
  function Shown(log: seq<Event>): Statuses {
    if log == [] then FRESH
    else if log[|log| - 1].Progress? then log[|log| - 1].steps
    else Shown(log[..|log| - 1])
  }

  predicate HasSave(log: seq<Event>) {
    log != [] && (log[|log| - 1].Saved? || HasSave(log[..|log| - 1]))
  }

  /** The step whose transaction went out last. */
  function LastSent(log: seq<Event>): int {
    if log == [] then -1
    else if log[|log| - 1].Transaction? then Index(log[|log| - 1].id)
    else LastSent(log[..|log| - 1])
  }

  /** The steps whose transactions went out, in order. */
  function Sends(log: seq<Event>): seq<StepId> {
    if log == [] then []
    else Sends(log[..|log| - 1]) + if log[|log| - 1].Transaction? then [log[|log| - 1].id] else []
  }

  /** A transaction goes out of a running step, after those of earlier steps; the last three need a save first. */
  ghost predicate MaySend(log: seq<Event>, id: StepId) {
    && Shown(log)[Index(id)] == Running
    && LastSent(log) < Index(id)
    && (Index(id) >= Index(Handoff) ==> HasSave(log))
  }

  /** The vault is written between configuring and the end of the hand-off. */
  ghost predicate MaySave(log: seq<Event>, entry: V.Entry) {
    && Shown(log)[Index(Configure)] == Done
    && !Settled(Shown(log)[Index(Handoff)])
    && (entry.handoff.Some? ==> Shown(log)[Index(Handoff)] == Running)
  }

  /** One status moves on; it becomes done or failed only out of running. */
  predicate MovesOn(a: Status, b: Status) {
    a == b || (a == Pending && b != Done && b != Error) || (a == Running && b != Pending)
  }

  ghost predicate MayShow(log: seq<Event>, s: Statuses) {
    InOrder(s) && forall i | 0 <= i < 6 :: MovesOn(Shown(log)[i], s[i])
  }

  /** What may come next after the events so far. */
  ghost predicate Follows(log: seq<Event>, e: Event) {
    if e.Progress? then MayShow(log, e.steps)
    else if e.Transaction? then MaySend(log, e.id)
    else MaySave(log, e.entry)
  }

  ghost predicate Orderly(log: seq<Event>) {
    log != [] ==> Orderly(log[..|log| - 1]) && Follows(log[..|log| - 1], log[|log| - 1])
  }

  lemma Grows(log: seq<Event>, e: Event)
    ensures HasSave(log + [e]) == (HasSave(log) || e.Saved?)
    ensures LastSent(log + [e]) == if e.Transaction? then Index(e.id) else LastSent(log)
    ensures Shown(log + [e]) == if e.Progress? then e.steps else Shown(log)
    ensures Sends(log + [e]) == Sends(log) + if e.Transaction? then [e.id] else []
  {
    assert (log + [e])[..|log|] == log;
  }

  lemma OrderlySnoc(log: seq<Event>, e: Event)
    requires Orderly(log) && Follows(log, e)
    ensures Orderly(log + [e])
  {
    assert (log + [e])[..|log|] == log;
  }

  /** The steps before k are over, those from k on have not begun. */
  ghost predicate At(s: Statuses, k: nat)
    requires k <= 6
  {
    && (forall i | 0 <= i < k :: Settled(s[i]))
    && (forall i | k <= i < 6 :: s[i] == Pending)
  }

  /** The same with step k running. */
  ghost predicate Busy(s: Statuses, k: nat)
    requires k < 6
  {
    s[k] == Running && At(s[k := Pending], k)
  }

  /** Step k failed: those before are over, those after never begin. */
  ghost predicate Stopped(s: Statuses, k: nat)
    requires k < 6
  {
    && s[k] == Error
    && (forall i | 0 <= i < k :: Settled(s[i]))
    && (forall i | k < i < 6 :: s[i] == Pending)
  }

  lemma Begins(s: Statuses, k: nat)
    requires k < 6 && At(s, k)
    ensures Busy(s[k := Running], k) && InOrder(s[k := Running])
  {
    assert s[k := Running][k := Pending] == s;
  }

  lemma Ends(s: Statuses, k: nat, x: Status)
    requires k < 6 && Busy(s, k)
    requires Settled(x) || (x == Error && k != Index(Seal) && k != Index(Handoff))
    ensures InOrder(s[k := x])
    ensures Settled(x) ==> At(s[k := x], k + 1)
    ensures x == Error ==> Stopped(s[k := x], k)
  {
    var t := s[k := Pending];
    assert forall i | 0 <= i < 6 && i != k :: s[i] == t[i] && s[k := x][i] == t[i];
  }

  /** The steps before k that send a transaction of their own are done, not skipped. */
  ghost predicate WritesDone(s: Statuses, k: nat) {
    && (k > Index(Deploy) ==> s[Index(Deploy)] == Done)
    && (k > Index(Configure) ==> s[Index(Configure)] == Done)
    && (k == Index(Deposit) ==> s[Index(Approve)] == Done)
  }

  /** How a run ends, and how the steps then stand. */
  ghost predicate EndsAs(outcome: Outcome, w: World, order: Order, s: Statuses) {
    match outcome
    case DeployError(step) =>
      && Judge(w, order.amount) == FailsAt(step)
      && if w.triggerDeployed then Stopped(s, Index(step)) && WritesDone(s, Index(step)) else s == FRESH
    case StorageError =>
      Judge(w, order.amount).NotSaved? && At(s, Index(Handoff)) && WritesDone(s, Index(Handoff))
    case Deployed(entry) =>
      && Judge(w, order.amount).Fine?
      && entry == Returned(w, order)
      && At(s, 6) && WritesDone(s, Index(Approve))
      && (s[Index(Handoff)] == Done <==> Kept(w, order).handoff.Some?)
      && s[Index(Approve)] == s[Index(Deposit)] == if order.amount == 0 then Skipped else Done
  }

  /** The vault holds the new entry exactly when the trigger was configured and the first write went through. */
  ghost predicate Holds(w: World, order: Order, s: Statuses, before: seq<V.Entry>, after: seq<V.Entry>) {
    if s[Index(Configure)] == Done && w.firstWrite then
      Succeeds(Deploy, w.deploy, w.factory) && after == V.Save(before, Kept(w, order))
    else after == before
  }

  lemma Ending(w: World, order: Order, given: V.Entry, s: Statuses)
    requires Succeeds(Deploy, w.deploy, w.factory) && Succeeds(Configure, w.configure, w.factory)
    requires w.triggerDeployed && w.firstWrite && given == Returned(w, order)
    requires (s[Index(Handoff)] == Done <==> given.handoff.Some? && w.secondWrite)
    requires var failed := FundingFailure(w, order.amount);
             WritesDone(s, Index(Approve)) &&
             if failed.Some? then Stopped(s, Index(failed.value)) && WritesDone(s, Index(failed.value))
             else At(s, 6) && s[Index(Approve)] == s[Index(Deposit)] == if order.amount == 0 then Skipped else Done
    ensures var failed := FundingFailure(w, order.amount);
            EndsAs(if failed.Some? then DeployError(failed.value) else Deployed(given), w, order, s)
  {
  }

  // --- what is to be sent and shown, from the answers alone -----------------------------------------

  predicate Mined(answer: Submission) {
    answer.Sent? && answer.receipt.Arrived? && answer.receipt.success
  }

  /** The policy exists: its creation was mined and the factory's event can be read. */
  predicate Created(w: World) {
    && w.triggerDeployed
    && Mined(w.deploy)
    && exists i | 0 <= i < |w.deploy.receipt.logs| ::
         && ToLower(w.deploy.receipt.logs[i].emitter) == ToLower(w.factory)
         && w.deploy.receipt.logs[i].policy.Some?
  }

  predicate Configured(w: World) {
    Created(w) && Mined(w.configure)
  }

  /** The entry is in the vault. */
  predicate Entered(w: World) {
    Configured(w) && w.firstWrite
  }

  predicate Offers(w: World) {
    w.sealing.Sealed? && w.sealing.ciphertext != "" && w.senderConfigured
  }

  /** The approval's receipt came; nobody looks at what it says. */
  predicate ApprovalCame(w: World) {
    w.approve.Sent? && w.approve.receipt.Arrived?
  }

  function Then(sends: seq<StepId>, condition: bool, id: StepId): seq<StepId> {
    if condition then sends + [id] else sends
  }

  function CreationSends(w: World): seq<StepId> {
    Then(Then([], w.deploy.Sent?, Deploy), Succeeds(Deploy, w.deploy, w.factory) && w.configure.Sent?, Configure)
  }

  function FundingSends(before: seq<StepId>, w: World, amount: nat): seq<StepId> {
    Then(Then(before, amount > 0 && w.approve.Sent?, Approve), amount > 0 && ApprovalCame(w) && w.deposit.Sent?, Deposit)
  }

  function CompletionSends(before: seq<StepId>, w: World, amount: nat): seq<StepId> {
    if w.firstWrite then FundingSends(Then(before, Offers(w) && !w.handoff.NotSent?, Handoff), w, amount) else before
  }

  /** Every transaction of a run, in order: one for each step that is reached and whose submission goes out. */
  function Expected(w: World, amount: nat): seq<StepId> {
    var deployed := Then([], w.triggerDeployed && w.deploy.Sent?, Deploy);
    var configured := Then(deployed, Created(w) && w.configure.Sent?, Configure);
    var handedOver := Then(configured, Entered(w) && Offers(w) && !w.handoff.NotSent?, Handoff);
    var approved := Then(handedOver, Entered(w) && amount > 0 && w.approve.Sent?, Approve);
    Then(approved, Entered(w) && amount > 0 && ApprovalCame(w) && w.deposit.Sent?, Deposit)
  }

  function Ended(reached: bool, ok: bool, otherwise: Status): Status {
    if !reached then Pending else if ok then Done else otherwise
  }

  /** How the six steps stand at the end of a run. */
  function Final(w: World, amount: nat): Statuses {
    [Ended(w.triggerDeployed, w.sealing.Sealed?, Skipped),
     Ended(w.triggerDeployed, Created(w), Error),
     Ended(Created(w), Configured(w), Error),
     Ended(Entered(w), Offers(w) && w.handoff.Stored? && w.secondWrite, Skipped),
     if amount == 0 then Ended(Entered(w), false, Skipped) else Ended(Entered(w), ApprovalCame(w), Error),
     if amount == 0 then Ended(Entered(w), false, Skipped)
     else Ended(Entered(w) && ApprovalCame(w), Mined(w.deposit), Error)]
  }

  /** The outcome, from the answers alone. */
  lemma VerdictExactly(w: World, amount: nat)
    ensures Succeeds(Deploy, w.deploy, w.factory) && w.triggerDeployed <==> Created(w)
    ensures Judge(w, amount) == FailsAt(Deploy) <==> w.triggerDeployed && !Created(w)
    ensures Judge(w, amount) == FailsAt(Configure) <==> !w.triggerDeployed || (Created(w) && !Mined(w.configure))
    ensures Judge(w, amount) == NotSaved <==> Configured(w) && !w.firstWrite
    ensures Judge(w, amount) == FailsAt(Approve) <==> Entered(w) && amount > 0 && !ApprovalCame(w)
    ensures Judge(w, amount) == FailsAt(Deposit) <==> Entered(w) && amount > 0 && ApprovalCame(w) && !Mined(w.deposit)
    ensures Judge(w, amount) == Fine <==> Entered(w) && (amount > 0 ==> ApprovalCame(w) && Mined(w.deposit))
  {
    if w.deploy.Sent? && w.deploy.receipt.Arrived? {
      AddressIsTheFactorys(w.deploy.receipt.logs, w.factory);
    }
  }

  /** How the run ends, with how sealing and hand-off stand, leaves one possibility for all six. */
  lemma FinalSteps(outcome: Outcome, w: World, order: Order, s: Statuses)
    requires EndsAs(outcome, w, order, s)
    requires w.triggerDeployed ==> s[Index(Seal)] == if w.sealing.Sealed? then Done else Skipped
    requires Entered(w) ==> s[Index(Handoff)] == if HandsOff(w) && w.secondWrite then Done else Skipped
    ensures s == Final(w, order.amount)
  {
    VerdictExactly(w, order.amount);
    var f := Final(w, order.amount);
    assert s[0] == f[0] && s[1] == f[1] && s[2] == f[2];
    assert s[3] == f[3] && s[4] == f[4] && s[5] == f[5];
  }

  /** The new entry: its address from the factory's event, the sealed text if there is one, the hand-off if it was made. */
  lemma EntryExactly(w: World, order: Order, e: V.Entry)
    requires Created(w) && Succeeds(Deploy, w.deploy, w.factory) && (e == Returned(w, order) || e == Kept(w, order))
    ensures exists i | 0 <= i < |w.deploy.receipt.logs| ::
              && ToLower(w.deploy.receipt.logs[i].emitter) == ToLower(w.factory)
              && w.deploy.receipt.logs[i].policy == Some(e.policy)
    ensures e.chainId == order.chainId && e.deployedAt == order.deployedAt && e.details == order.details
    ensures forall c :: e.ciphertext == Some(c) <==> w.sealing == Sealed(c) && c != ""
    ensures e == Returned(w, order) ==> forall h :: e.handoff == Some(h) <==> Offers(w) && w.handoff == Stored(h)
    ensures e == Kept(w, order) ==>
              forall h :: e.handoff == Some(h) <==> Offers(w) && w.handoff == Stored(h) && w.secondWrite
  {
    AddressIsTheFactorys(w.deploy.receipt.logs, w.factory);
  }

  lemma SendsAdded(w: World, amount: nat)
    ensures w.triggerDeployed && Succeeds(Deploy, w.deploy, w.factory) && Succeeds(Configure, w.configure, w.factory) ==>
              CompletionSends(CreationSends(w), w, amount) == Expected(w, amount)
    ensures w.triggerDeployed && !(Succeeds(Deploy, w.deploy, w.factory) && Succeeds(Configure, w.configure, w.factory)) ==>
              CreationSends(w) == Expected(w, amount)
    ensures !w.triggerDeployed ==> Expected(w, amount) == []
  {
    VerdictExactly(w, amount);
  }

  // --- the run ------------------------------------------------------------------------------------

  class Deployment {
    var steps: Statuses
    const vault: V.Storage
    var log: seq<Event>

    ghost predicate Valid()
      reads this
    {
      Orderly(log) && Shown(log) == steps
    }

    constructor (vault: V.Storage)
      ensures Valid() && log == [] && steps == FRESH && this.vault == vault
    {
      steps := FRESH;
      log := [];
      this.vault := vault;
    }

    method Update(id: StepId, status: Status)
      requires Valid()
      requires MovesOn(steps[Index(id)], status)
      requires InOrder(steps[Index(id) := status])
      modifies this`log, this`steps
      ensures Valid()
      ensures steps == old(steps)[Index(id) := status]
      ensures log == old(log) + [Progress(steps)]
      ensures HasSave(log) == HasSave(old(log)) && LastSent(log) == LastSent(old(log))
      ensures Sends(log) == Sends(old(log))
    {
      steps := steps[Index(id) := status];
      OrderlySnoc(log, Progress(steps));
      Grows(log, Progress(steps));
      log := log + [Progress(steps)];
    }

    /** The steps before k are over, those from k on have not begun. */
    ghost predicate Reached(k: nat)
      requires k <= 6
      reads this
    {
      && Valid()
      && At(steps, k)
      && LastSent(log) < k
      && (k > Index(Handoff) ==> HasSave(log))
    }

    method Record(e: Event)
      requires Valid() && Follows(log, e) && !e.Progress?
      modifies this`log
      ensures Valid()
      ensures log == old(log) + [e]
      ensures HasSave(log) == (HasSave(old(log)) || e.Saved?)
      ensures LastSent(log) == if e.Transaction? then Index(e.id) else LastSent(old(log))
      ensures Sends(log) == if e.Transaction? then Sends(old(log)) + [e.id] else Sends(old(log))
    {
      OrderlySnoc(log, e);
      Grows(log, e);
      log := log + [e];
    }

    method Begin(id: StepId)
      requires Reached(Index(id))
      modifies this`log, this`steps
      ensures Valid() && Busy(steps, Index(id)) && steps == old(steps)[Index(id) := Running]
      ensures HasSave(log) == HasSave(old(log)) && LastSent(log) == LastSent(old(log))
      ensures Sends(log) == Sends(old(log))
    {
      Begins(steps, Index(id));
      Update(id, Running);
    }

    /** The hash of a sent transaction is shown under its step, which stays running. */
    method Send(id: StepId)
      requires Valid() && Busy(steps, Index(id)) && LastSent(log) < Index(id)
      requires Index(id) >= Index(Handoff) ==> HasSave(log)
      modifies this`log, this`steps
      ensures Valid() && steps == old(steps)
      ensures HasSave(log) == HasSave(old(log)) && LastSent(log) == Index(id)
      ensures Sends(log) == Sends(old(log)) + [id]
    {
      var k := Index(id);
      assert steps[k := Pending][k := Running] == steps == steps[k := Running];
      Begins(steps[k := Pending], k);
      Record(Transaction(id));
      if id != Handoff {
        Update(id, Running);
      }
    }

    method Finish(id: StepId, status: Status)
      requires Valid() && Busy(steps, Index(id))
      requires Settled(status) || (status == Error && id != Seal && id != Handoff)
      modifies this`log, this`steps
      ensures Valid() && steps == old(steps)[Index(id) := status]
      ensures Settled(status) ==> At(steps, Index(id) + 1)
      ensures status == Error ==> Stopped(steps, Index(id))
      ensures HasSave(log) == HasSave(old(log)) && LastSent(log) == LastSent(old(log))
      ensures Sends(log) == Sends(old(log))
    {
      Ends(steps, Index(id), status);
      Update(id, status);
    }

    method Skip(id: StepId)
      requires Reached(Index(id))
      modifies this`log, this`steps
      ensures Valid() && steps == old(steps)[Index(id) := Skipped] && At(steps, Index(id) + 1)
      ensures HasSave(log) == HasSave(old(log)) && LastSent(log) == LastSent(old(log))
      ensures Sends(log) == Sends(old(log))
    {
      var k := Index(id);
      Begins(steps, k);
      assert steps[k := Running][k := Skipped] == steps[k := Skipped];
      Ends(steps[k := Running], k, Skipped);
      Update(id, Skipped);
    }

    /** The receipt, if one comes, and whether the step accepts it. */
    static method Await(id: StepId, answer: Submission, factory: string) returns (ok: bool)
      ensures ok == Succeeds(id, answer, factory)
    {
      ok := false;
      if answer.Sent? && answer.receipt.Arrived? && (id == Approve || answer.receipt.success) {
        ok := true;
        if id == Deploy {
          var policy := PolicyAddressFromReceipt(answer.receipt.logs, factory);
          ok := policy.Some?;
        }
      }
    }

    /** One write and the wait for its receipt; the four transactions of the flow share this form. */
    method Transact(id: StepId, answer: Submission, factory: string) returns (ok: bool)
      requires Reached(Index(id)) && id in {Deploy, Configure, Approve, Deposit}
      modifies this`log, this`steps
      ensures ok == Succeeds(id, answer, factory)
      ensures Valid() && steps == old(steps)[Index(id) := if ok then Done else Error]
      ensures if ok then At(steps, Index(id) + 1) else Stopped(steps, Index(id))
      ensures LastSent(log) <= Index(id) && HasSave(log) == HasSave(old(log))
      ensures Sends(log) == Then(Sends(old(log)), answer.Sent?, id)
    {
      Begin(id);
      if answer.Sent? {
        Send(id);
      }
      ok := Await(id, answer, factory);
      Finish(id, if ok then Done else Error);
    }

    method SealInputs(sealing: Sealing) returns (ciphertext: string)
      requires Reached(Index(Seal))
      modifies this`log, this`steps
      ensures ciphertext == if sealing.Sealed? then sealing.ciphertext else ""
      ensures Reached(Index(Deploy)) && HasSave(log) == HasSave(old(log)) && Sends(log) == Sends(old(log))
      ensures steps[Index(Seal)] == if sealing.Sealed? then Done else Skipped
    {
      Begin(Seal);
      match sealing
      case Sealed(c) =>
        ciphertext := c;
        Finish(Seal, Done);
      case _ =>
        ciphertext := "";
        Finish(Seal, Skipped);
    }

    method Keep(entry: V.Entry, writable: bool) returns (ok: bool)
      requires Valid() && MaySave(log, entry)
      modifies this`log, vault
      ensures Valid() && ok == writable
      ensures vault.Contents() == if ok then V.Save(old(vault.Contents()), entry) else old(vault.Contents())
      ensures HasSave(log) == (ok || HasSave(old(log)))
      ensures LastSent(log) == LastSent(old(log)) && Sends(log) == Sends(old(log))
    {
      ok := vault.SaveEntry(entry, writable);
      if ok {
        Record(Saved(entry));
      }
    }

    /** The submission itself, while the step runs. */
    method Submit(entry: V.Entry, w: World) returns (given: V.Entry, done: bool)
      requires Valid() && Busy(steps, Index(Handoff)) && LastSent(log) < Index(Handoff)
      requires HasSave(log) && steps[Index(Configure)] == Done && entry.ciphertext.Some? && w.senderConfigured
      modifies this`log, this`steps, vault
      ensures Valid() && steps == old(steps) && HasSave(log) && LastSent(log) <= Index(Handoff)
      ensures given == HandedOver(entry, w) && (done <==> w.handoff.Stored? && w.secondWrite)
      ensures Sends(log) == Then(Sends(old(log)), !w.handoff.NotSent?, Handoff)
      ensures vault.Contents() == if done then V.Save(old(vault.Contents()), given) else old(vault.Contents())
    {
      given, done := entry, false;
      if !w.handoff.NotSent? {
        Send(Handoff);
      }
      if w.handoff.Stored? {
        given := entry.(handoff := Some(w.handoff.receipt));
        done := Keep(given, w.secondWrite);
      }
    }

    /** Never an error: whatever goes wrong, the policy can be handed over later. */
    method HandOver(entry: V.Entry, w: World) returns (given: V.Entry)
      requires Reached(Index(Handoff)) && HasSave(log) && steps[Index(Configure)] == Done
      modifies this`log, this`steps, vault
      ensures Reached(Index(Approve))
      ensures steps == old(steps)[Index(Handoff) := if CanHandOver(entry, w) && w.secondWrite then Done else Skipped]
      ensures given == HandedOver(entry, w)
      ensures Sends(log) == Then(Sends(old(log)), entry.ciphertext.Some? && w.senderConfigured && !w.handoff.NotSent?,
                                 Handoff)
      ensures vault.Contents() == if CanHandOver(entry, w) && w.secondWrite then V.Save(old(vault.Contents()), given)
                                  else old(vault.Contents())
    {
      given := entry;
      Begin(Handoff);
      var done := false;
      if entry.ciphertext.Some? && w.senderConfigured {
        given, done := Submit(entry, w);
      }
      assert steps == old(steps)[Index(Handoff) := Running] && (done <==> CanHandOver(entry, w) && w.secondWrite);
      Finish(Handoff, if done then Done else Skipped);
    }

    /** The two writes of a funded deployment. */
    method Pay(w: World) returns (failed: Option<StepId>)
      requires Reached(Index(Approve))
      modifies this`log, this`steps
      ensures Valid()
      ensures failed == FundingFailure(w, 1)
      ensures forall i | 0 <= i < Index(Approve) :: steps[i] == old(steps)[i]
      ensures failed.Some? ==> Stopped(steps, Index(failed.value))
      ensures failed != Some(Approve) ==> steps[Index(Approve)] == Done
      ensures failed.None? ==> At(steps, 6) && steps[Index(Deposit)] == Done
      ensures Sends(log) == FundingSends(Sends(old(log)), w, 1)
    {
      var ok := Transact(Approve, w.approve, w.factory);
      assert Sends(log) == Then(Sends(old(log)), w.approve.Sent?, Approve);
      if !ok {
        return Some(Approve);
      }
      ok := Transact(Deposit, w.deposit, w.factory);
      failed := if ok then None else Some(Deposit);
    }

    method Fund(amount: nat, w: World) returns (failed: Option<StepId>)
      requires Reached(Index(Approve))
      modifies this`log, this`steps
      ensures Valid()
      ensures failed == FundingFailure(w, amount)
      ensures forall i | 0 <= i < Index(Approve) :: steps[i] == old(steps)[i]
      ensures failed.Some? ==> Stopped(steps, Index(failed.value))
      ensures failed == Some(Deposit) ==> steps[Index(Approve)] == Done
      ensures failed.None? ==>
        && At(steps, 6)
        && steps[Index(Approve)] == steps[Index(Deposit)] == if amount == 0 then Skipped else Done
      ensures amount == 0 ==> LastSent(log) == LastSent(old(log))
      ensures Sends(log) == FundingSends(Sends(old(log)), w, amount)
    {
      if amount == 0 {
        Skip(Approve);
        Skip(Deposit);
        return None;
      }
      failed := Pay(w);
    }

    /** Sealed or not, then a contract at an address or a failed step. */
    method CreateContract(w: World) returns (ok: bool, policy: string, ciphertext: string)
      requires Valid() && log == [] && steps == FRESH
      modifies this`log, this`steps
      ensures ok == Succeeds(Deploy, w.deploy, w.factory)
      ensures ciphertext == if w.sealing.Sealed? then w.sealing.ciphertext else ""
      ensures Valid() && !HasSave(log) && LastSent(log) < Index(Configure)
      ensures Sends(log) == Then([], w.deploy.Sent?, Deploy)
      ensures steps[Index(Seal)] == if w.sealing.Sealed? then Done else Skipped
      ensures steps[Index(Deploy)] == if ok then Done else Error
      ensures if ok then At(steps, Index(Configure)) else Stopped(steps, Index(Deploy))
      ensures ok ==> policy == FirstAddress(w.deploy.receipt.logs, w.factory).value
    {
      policy := "";
      ciphertext := SealInputs(w.sealing);
      ok := Transact(Deploy, w.deploy, w.factory);
      if ok {
        var address := PolicyAddressFromReceipt(w.deploy.receipt.logs, w.factory);
        policy := address.value;
      }
    }

    /** The first half: a configured contract at an address, or the step that failed. */
    method Create(w: World) returns (failed: Option<StepId>, policy: string, ciphertext: string)
      requires Valid() && log == [] && steps == FRESH
      modifies this`log, this`steps
      ensures failed == if !Succeeds(Deploy, w.deploy, w.factory) then Some(Deploy)
                        else if !Succeeds(Configure, w.configure, w.factory) then Some(Configure)
                        else None
      ensures Valid() && !HasSave(log) && LastSent(log) < Index(Handoff)
      ensures Sends(log) == CreationSends(w)
      ensures steps[Index(Seal)] == if w.sealing.Sealed? then Done else Skipped
      ensures failed.Some? ==> Stopped(steps, Index(failed.value)) && WritesDone(steps, Index(failed.value))
      ensures failed.None? ==>
        && At(steps, Index(Handoff))
        && steps[Index(Deploy)] == Done
        && steps[Index(Configure)] == Done
        && policy == FirstAddress(w.deploy.receipt.logs, w.factory).value
        && ciphertext == if w.sealing.Sealed? then w.sealing.ciphertext else ""
    {
      var ok;
      ok, policy, ciphertext := CreateContract(w);
      if !ok {
        return Some(Deploy), policy, ciphertext;
      }
      ok := Transact(Configure, w.configure, w.factory);
      assert Sends(log) == CreationSends(w);
      failed := if ok then None else Some(Configure);
    }

    /** The vault first, then the hand-off and the vault again. */
    method KeepAndHandOver(entry: V.Entry, w: World) returns (ok: bool, given: V.Entry)
      requires Reached(Index(Handoff)) && !HasSave(log) && steps[Index(Configure)] == Done && entry.handoff.None?
      modifies this`log, this`steps, vault
      ensures ok == w.firstWrite
      ensures !ok ==> Valid() && steps == old(steps) && !HasSave(log) && LastSent(log) == LastSent(old(log))
      ensures !ok ==> vault.Contents() == old(vault.Contents()) && Sends(log) == Sends(old(log))
      ensures ok ==>
        Sends(log) == Then(Sends(old(log)), entry.ciphertext.Some? && w.senderConfigured && !w.handoff.NotSent?, Handoff)
      ensures ok ==>
        && Reached(Index(Approve))
        && steps == old(steps)[Index(Handoff) := if CanHandOver(entry, w) && w.secondWrite then Done else Skipped]
      ensures ok ==>
        && given == HandedOver(entry, w)
        && (steps[Index(Handoff)] == Done <==> given.handoff.Some? && w.secondWrite)
        && vault.Contents() == V.Save(old(vault.Contents()), if w.secondWrite then given else entry)
    {
      given := entry;
      ok := Keep(entry, w.firstWrite);
      if ok {
        given := HandOver(entry, w);
        V.SaveAgain(old(vault.Contents()), entry, given);
      }
    }

    /** The second half, from a configured policy on. */
    method Complete(entry: V.Entry, w: World, order: Order) returns (outcome: Outcome)
      requires Reached(Index(Handoff)) && !HasSave(log)
      requires steps[Index(Deploy)] == Done && steps[Index(Configure)] == Done
      requires w.triggerDeployed
      requires Succeeds(Deploy, w.deploy, w.factory) && Succeeds(Configure, w.configure, w.factory)
      requires entry == EntryFor(w, order)
      modifies this`log, this`steps, vault
      ensures Valid()
      ensures EndsAs(outcome, w, order, steps)
      ensures Holds(w, order, steps, old(vault.Contents()), vault.Contents())
      ensures order.amount == 0 ==> LastSent(log) < Index(Approve)
      ensures Sends(log) == CompletionSends(Sends(old(log)), w, order.amount)
      ensures steps[Index(Seal)] == old(steps)[Index(Seal)]
      ensures w.firstWrite ==> steps[Index(Handoff)] == if HandsOff(w) && w.secondWrite then Done else Skipped
    {
      ghost var before := Sends(log);
      var ok, given := KeepAndHandOver(entry, w);
      if !ok {
        return StorageError;
      }
      assert given == Returned(w, order) && (CanHandOver(entry, w) <==> HandsOff(w));
      assert Sends(log) == Then(before, Offers(w) && !w.handoff.NotSent?, Handoff);
      var failed := Fund(order.amount, w);
      Ending(w, order, given, steps);
      outcome := if failed.Some? then DeployError(failed.value) else Deployed(given);
    }

    method DeployPolicy(w: World, order: Order) returns (outcome: Outcome)
      requires Valid() && log == [] && steps == FRESH
      modifies this`log, this`steps, vault
      ensures Valid()
      ensures EndsAs(outcome, w, order, steps)
      ensures Holds(w, order, steps, old(vault.Contents()), vault.Contents())
      ensures DoneMeansSucceeded(w, steps) <==> !ApprovalReverts(w, order)
      ensures !w.triggerDeployed ==> log == []
      ensures order.amount == 0 ==> LastSent(log) < Index(Approve)
      ensures Sends(log) == Expected(w, order.amount)
      ensures steps == Final(w, order.amount)
    {
      SendsAdded(w, order.amount);
      VerdictExactly(w, order.amount);
      if w.triggerDeployed {
        var failed, policy, ciphertext := Create(w);
        if failed.Some? {
          outcome := DeployError(failed.value);
        } else {
          var sealed := if ciphertext != "" then Some(ciphertext) else None;
          var entry := V.Entry(policy, order.chainId, sealed, None, order.deployedAt, order.details);
          outcome := Complete(entry, w, order);
        }
      } else {
        outcome := DeployError(Configure);
      }
      DoneExactlyUnlessApprovalReverts(outcome, w, order, steps);
      FinalSteps(outcome, w, order, steps);
    }
  }

  // --- what a history shows -----------------------------------------------------------------------

  lemma {:induction false} OrderlyAt(log: seq<Event>, i: nat)
    requires Orderly(log) && i < |log|
    ensures Orderly(log[..i]) && Follows(log[..i], log[i])
  {
    var front := log[..|log| - 1];
    if i < |log| - 1 {
      OrderlyAt(front, i);
      assert front[..i] == log[..i];
    }
  }

  /** Every snapshot reads: settled steps, then at most one running or failed, then pending ones. */
  lemma SnapshotShape(log: seq<Event>, i: nat) returns (k: nat)
    requires Orderly(log) && i < |log| && log[i].Progress?
    ensures k <= 6
    ensures forall j | 0 <= j < k :: Settled(log[i].steps[j])
    ensures k < 6 ==> !Settled(log[i].steps[k])
    ensures forall j | k < j < 6 :: log[i].steps[j] == Pending
    ensures log[i].steps[Index(Seal)] != Error && log[i].steps[Index(Handoff)] != Error
  {
    OrderlyAt(log, i);
    var s := log[i].steps;
    k := 0;
    while k < 6 && Settled(s[k])
      invariant k <= 6 && forall j | 0 <= j < k :: Settled(s[j])
    {
      k := k + 1;
    }
    var j := k + 1;
    while j < 6
      invariant k < j && forall l | k < l < j && l < 6 :: s[l] == Pending
    {
      assert !Settled(s[j - 1]);
      j := j + 1;
    }
  }

  lemma {:induction false} ShownAdvances(log: seq<Event>, i: nat)
    requires Orderly(log) && i <= |log|
    ensures Advances(Shown(log[..i]), Shown(log))
    decreases |log|
  {
    if i < |log| {
      var front := log[..|log| - 1];
      ShownAdvances(front, i);
      assert front[..i] == log[..i];
      Grows(front, log[|log| - 1]);
      assert log == front + [log[|log| - 1]];
    } else {
      assert log[..i] == log;
    }
  }

  /** No step is ever taken back: from snapshot to snapshot each status stays or moves on. */
  lemma StatusesOnlyAdvance(log: seq<Event>, i: nat, j: nat)
    requires Orderly(log) && i < j < |log| && log[i].Progress? && log[j].Progress?
    ensures Advances(log[i].steps, log[j].steps)
  {
    OrderlyAt(log, j);
    ShownAdvances(log[..j], i + 1);
    assert log[..j][..i + 1] == log[..i] + [log[i]];
    Grows(log[..i], log[i]);
  }

  lemma {:induction false} LastSentGrows(log: seq<Event>, i: nat)
    requires Orderly(log) && i <= |log|
    ensures LastSent(log[..i]) <= LastSent(log)
    ensures HasSave(log[..i]) ==> HasSave(log)
    decreases |log|
  {
    if i < |log| {
      var front := log[..|log| - 1];
      LastSentGrows(front, i);
      assert front[..i] == log[..i];
    } else {
      assert log[..i] == log;
    }
  }

  /** Transactions go out in the order of the steps, and none twice. */
  lemma TransactionsInOrder(log: seq<Event>, i: nat, j: nat)
    requires Orderly(log) && i < j < |log| && log[i].Transaction? && log[j].Transaction?
    ensures Index(log[i].id) < Index(log[j].id)
  {
    OrderlyAt(log, j);
    LastSentGrows(log[..j], i + 1);
    assert log[..j][..i + 1] == log[..i] + [log[i]];
    Grows(log[..i], log[i]);
  }

  lemma {:induction false} SendsAreTransactions(log: seq<Event>, id: StepId)
    ensures id in Sends(log) <==> exists i | 0 <= i < |log| :: log[i] == Transaction(id)
  {
    if log != [] {
      var n := |log| - 1;
      SendsAreTransactions(log[..n], id);
      if log[n] == Transaction(id) {
        assert Sends(log)[|Sends(log)| - 1] == id;
      }
      if i :| 0 <= i < n && log[i] == Transaction(id) {
        assert log[..n][i] == Transaction(id);
      }
    }
  }

  /** A step that ends done, other than sealing and the hand-off, had its transaction sent in that very run. */
  lemma DoneWasSent(log: seq<Event>, w: World, amount: nat, id: StepId)
    requires Sends(log) == Expected(w, amount) && id in {Deploy, Configure, Approve, Deposit}
    requires Final(w, amount)[Index(id)] == Done
    ensures exists i | 0 <= i < |log| :: log[i] == Transaction(id)
  {
    SendsAreTransactions(log, id);
    ExpectedHas(w, amount, id);
  }

  lemma ThenHas(sends: seq<StepId>, condition: bool, next: StepId, id: StepId)
    ensures id in Then(sends, condition, next) <==> id in sends || (condition && id == next)
  {
  }

  lemma ExpectedHas(w: World, amount: nat, id: StepId)
    ensures id in Expected(w, amount) <==>
      || (id == Deploy && w.triggerDeployed && w.deploy.Sent?)
      || (id == Configure && Created(w) && w.configure.Sent?)
      || (id == Handoff && Entered(w) && Offers(w) && !w.handoff.NotSent?)
      || (id == Approve && Entered(w) && amount > 0 && w.approve.Sent?)
      || (id == Deposit && Entered(w) && amount > 0 && ApprovalCame(w) && w.deposit.Sent?)
  {
    var none: seq<StepId> := [];
    var deployed := Then(none, w.triggerDeployed && w.deploy.Sent?, Deploy);
    var configured := Then(deployed, Created(w) && w.configure.Sent?, Configure);
    var handedOver := Then(configured, Entered(w) && Offers(w) && !w.handoff.NotSent?, Handoff);
    var approved := Then(handedOver, Entered(w) && amount > 0 && w.approve.Sent?, Approve);
    ThenHas(none, w.triggerDeployed && w.deploy.Sent?, Deploy, id);
    ThenHas(deployed, Created(w) && w.configure.Sent?, Configure, id);
    ThenHas(configured, Entered(w) && Offers(w) && !w.handoff.NotSent?, Handoff, id);
    ThenHas(handedOver, Entered(w) && amount > 0 && w.approve.Sent?, Approve, id);
    ThenHas(approved, Entered(w) && amount > 0 && ApprovalCame(w) && w.deposit.Sent?, Deposit, id);
  }

  /** A step shown as done or failed was shown running before. */
  lemma {:induction false} EndedWasRunning(log: seq<Event>, id: StepId)
    requires Orderly(log) && (Shown(log)[Index(id)] == Done || Shown(log)[Index(id)] == Error)
    ensures exists i | 0 <= i < |log| :: log[i].Progress? && log[i].steps[Index(id)] == Running
  {
    var n := |log| - 1;
    var front := log[..n];
    if log[n].Progress? && Shown(front)[Index(id)] == Running {
      ShownWas(front, id);
    } else {
      EndedWasRunning(front, id);
    }
    var i :| 0 <= i < n && front[i].Progress? && front[i].steps[Index(id)] == Running;
    assert log[i] == front[i];
  }

  lemma {:induction false} ShownWas(log: seq<Event>, id: StepId)
    requires Shown(log)[Index(id)] == Running
    ensures exists i | 0 <= i < |log| :: log[i].Progress? && log[i].steps[Index(id)] == Running
  {
    var n := |log| - 1;
    if !log[n].Progress? {
      ShownWas(log[..n], id);
      var i :| 0 <= i < n && log[..n][i].Progress? && log[..n][i].steps[Index(id)] == Running;
      assert log[i] == log[..n][i];
    }
  }

  lemma {:induction false} SaveIsThere(log: seq<Event>)
    requires HasSave(log)
    ensures exists i | 0 <= i < |log| :: log[i].Saved?
  {
    if log[|log| - 1].Saved? {
    } else {
      SaveIsThere(log[..|log| - 1]);
    }
  }

  /** The new entry is in the vault before the hand-off or either funding transaction is sent. */
  lemma SavedBeforeHandOffAndFunding(log: seq<Event>, j: nat)
    requires Orderly(log) && j < |log| && log[j].Transaction?
    requires log[j].id in {Handoff, Approve, Deposit}
    ensures exists i | 0 <= i < j :: log[i].Saved?
  {
    OrderlyAt(log, j);
    SaveIsThere(log[..j]);
    var i :| 0 <= i < j && log[..j][i].Saved?;
    assert log[i].Saved?;
  }

  /** And it is saved only once the trigger is configured. */
  lemma SavedAfterConfigure(log: seq<Event>, i: nat)
    requires Orderly(log) && i < |log| && log[i].Saved?
    ensures Shown(log[..i])[Index(Configure)] == Done
  {
    OrderlyAt(log, i);
  }

  // --- what a step shown as done says of its transaction ------------------------------------------

  function AnswerTo(w: World, id: StepId): Submission
    requires id in {Deploy, Configure, Approve, Deposit}
  {
    if id == Deploy then w.deploy else if id == Configure then w.configure
    else if id == Approve then w.approve else w.deposit
  }

  predicate Succeeded(answer: Submission) {
    answer.Sent? && answer.receipt.Arrived? && answer.receipt.success
  }

  /** Every transaction of a step shown as done was mined and did not revert. */
  ghost predicate DoneMeansSucceeded(w: World, s: Statuses) {
    forall id | id in {Deploy, Configure, Approve, Deposit} && s[Index(id)] == Done :: Succeeded(AnswerTo(w, id))
  }

  /** The run gets as far as an approval whose receipt arrives and says it reverted. */
  predicate ApprovalReverts(w: World, order: Order) {
    && w.triggerDeployed
    && Succeeds(Deploy, w.deploy, w.factory)
    && Succeeds(Configure, w.configure, w.factory)
    && w.firstWrite
    && order.amount > 0
    && w.approve.Sent? && w.approve.receipt.Arrived? && !w.approve.receipt.success
  }

  /**
   However a run ends, done means succeeded exactly when no approval reverts: the others look at the receipt's status,
   the approval only waits for the receipt.
   */
  lemma DoneExactlyUnlessApprovalReverts(outcome: Outcome, w: World, order: Order, s: Statuses)
    requires EndsAs(outcome, w, order, s)
    ensures DoneMeansSucceeded(w, s) <==> (s[Index(Approve)] == Done ==> Succeeded(w.approve))
    ensures DoneMeansSucceeded(w, s) <==> !ApprovalReverts(w, order)
  {
    DoneSteps(outcome, w, order, s);
    if s[Index(Approve)] == Done {
      assert AnswerTo(w, Approve) == w.approve;
    }
  }

  /** Which steps end done, from the answers alone. */
  lemma DoneSteps(outcome: Outcome, w: World, order: Order, s: Statuses)
    requires EndsAs(outcome, w, order, s)
    ensures s[Index(Deploy)] == Done ==> Succeeds(Deploy, w.deploy, w.factory)
    ensures s[Index(Configure)] == Done ==> Succeeds(Configure, w.configure, w.factory)
    ensures s[Index(Deposit)] == Done ==> Succeeds(Deposit, w.deposit, w.factory)
    ensures s[Index(Approve)] == Done <==>
      && w.triggerDeployed
      && Succeeds(Deploy, w.deploy, w.factory)
      && Succeeds(Configure, w.configure, w.factory)
      && w.firstWrite
      && order.amount > 0
      && Succeeds(Approve, w.approve, w.factory)
  {
  }

  /** A run that is reported as deployed and funded although its approval reverted. */
  method RevertedApprovalRun(vault: V.Storage) returns (run: Deployment, w: World, order: Order, outcome: Outcome)
    modifies vault
    ensures fresh(run) && run.vault == vault && run.Valid()
    ensures EndsAs(outcome, w, order, run.steps) && outcome.Deployed? && order.amount > 0
    ensures run.steps[Index(Approve)] == run.steps[Index(Deposit)] == Done && !Succeeded(w.approve)
    ensures !DoneMeansSucceeded(w, run.steps)
  {
    var mined := Sent(Arrived(true, [Log("0xf", Some("0x1"))]));
    w := World(true, NoKey, "0xf", mined, mined, true, false, NotSent, true, Sent(Arrived(false, [])), mined);
    order := Order(1, 114, 0, "");
    run := new Deployment(vault);
    outcome := run.DeployPolicy(w, order);
    DoneExactlyUnlessApprovalReverts(outcome, w, order, run.steps);
  }

  /** The entry handed back is the one the vault holds, unless the hand-off was made and its record not written. */
  lemma ReturnedIsKept(w: World, order: Order)
    requires Succeeds(Deploy, w.deploy, w.factory)
    ensures Returned(w, order) == Kept(w, order) <==> !HandsOff(w) || w.secondWrite
  {
  }
}
