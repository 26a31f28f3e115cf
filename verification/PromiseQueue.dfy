/**
 The serialising queue: a chain of promises used as a mutex and a first-in first-out line.

 Promise i settles through its own job once promise `after` has settled, whichever way. A queued function
 is a sequence of segments, cut at its awaits; the event loop may run any enabled turn in between, so
 nothing but the chain keeps two functions from interleaving on the shared state.
 */
module PromiseQueue {

  datatype Outcome<+L> = Fulfilled(value: L) | Rejected(reason: L) | Drained

  datatype Effect<+S, +L> = Effect(state: S, local: L, throws: bool)

  datatype Task<!S, !L> = Task(start: L, segments: seq<(S, L) -> Effect<S, L>>)

  datatype Job<!S, !L> = Root | Serve(task: Task<S, L>) | Drain

  datatype Status<+L> = Waiting | Running(next: nat, local: L) | Settled(outcome: Outcome<L>)

  datatype Cell<!S, !L> = Cell(after: nat, job: Job<S, L>, status: Status<L>)

  /** The promises made so far, the tail of the chain, and the state the functions share. */
  datatype Loop<!S, !L> = Loop(cells: seq<Cell<S, L>>, queue: nat, state: S)

  function Initial<S, L>(state: S): Loop<S, L> {
    Loop([Cell(0, Root, Settled(Drained))], 0, state)
  }

  /** `run = queue.then(fn, fn)`, then `queue = run.then(ignore, ignore)`. */
  function Submit<S, L>(loop: Loop<S, L>, task: Task<S, L>): Loop<S, L> {
    var run := |loop.cells|;
    Loop(loop.cells + [Cell(loop.queue, Serve(task), Waiting), Cell(run, Drain, Waiting)], run + 1, loop.state)
  }

  predicate Enabled<S, L>(loop: Loop<S, L>, i: nat) {
    && i < |loop.cells| && !loop.cells[i].status.Settled?
    && loop.cells[i].after < |loop.cells| && loop.cells[loop.cells[i].after].status.Settled?
    && !loop.cells[i].job.Root?
  }

  /** One segment of a function, or its return. */
  function Execute<S, L>(task: Task<S, L>, next: nat, state: S, local: L): (S, Status<L>) {
    if next >= |task.segments| then (state, Settled(Fulfilled(local)))
    else
      var e := task.segments[next](state, local);
      (e.state, if e.throws then Settled(Rejected(e.local)) else Running(next + 1, e.local))
  }

  /** One turn of the event loop on promise i; nothing happens unless the promise before it has settled. */
  function Turn<S, L>(loop: Loop<S, L>, i: nat): Loop<S, L> {
    if !Enabled(loop, i) then loop
    else
      var cell := loop.cells[i];
      match cell.job
      case Serve(task) =>
        var (next, local) := match cell.status case Running(n, l) => (n, l) case _ => (0, task.start);
        var (state, status) := Execute(task, next, loop.state, local);
        Loop(loop.cells[i := cell.(status := status)], loop.queue, state)
      case _ => loop.(cells := loop.cells[i := cell.(status := Settled(Drained))])
  }

  /** The queue field of the server, reassigned on every call. */
  class Server<S, L> {
    var cells: seq<Cell<S, L>>
    var queue: nat
    var state: S

    ghost function Contents(): Loop<S, L>
      reads this
    {
      Loop(cells, queue, state)
    }

    constructor (state: S)
      ensures Contents() == Initial(state)
    {
      this.state := state;
      cells := [Cell(0, Root, Settled(Drained))];
      queue := 0;
    }

    method Then(after: nat, job: Job<S, L>) returns (promise: nat)
      modifies this`cells
      ensures promise == old(|cells|) && cells == old(cells) + [Cell(after, job, Waiting)]
    {
      promise := |cells|;
      cells := cells + [Cell(after, job, Waiting)];
    }

    method Serialize(task: Task<S, L>) returns (run: nat)
      modifies this
      ensures Contents() == Submit(old(Contents()), task) && run == old(|cells|)
    {
      run := Then(queue, Serve(task));
      queue := Then(run, Drain);
    }
  }

  // --- runs ------------------------------------------------------------------------------------------

  /** Anything may happen in any order: requests arrive, and the event loop picks any promise. */
  datatype Event<!S, !L> = Arrive(task: Task<S, L>) | Pick(promise: nat)

  function Run<S, L>(init: S, events: seq<Event<S, L>>): Loop<S, L> {
    if events == [] then Initial(init)
    else
      var before := Run(init, events[..|events| - 1]);
      match events[|events| - 1]
      case Arrive(task) => Submit(before, task)
      case Pick(i) => Turn(before, i)
  }

  function Submitted<S, L>(events: seq<Event<S, L>>): seq<Task<S, L>> {
    if events == [] then []
    else
      var before := Submitted(events[..|events| - 1]);
      match events[|events| - 1]
      case Arrive(task) => before + [task]
      case Pick(_) => before
  }

  // --- the sequential specification --------------------------------------------------------------------

  /** A function run to its end with nothing in between. */
  function Complete<S, L>(segments: seq<(S, L) -> Effect<S, L>>, state: S, local: L): (S, Outcome<L>) {
    if segments == [] then (state, Fulfilled(local))
    else
      var e := segments[0](state, local);
      if e.throws then (e.state, Rejected(e.local)) else Complete(segments[1..], e.state, e.local)
  }

  function RunAlone<S, L>(task: Task<S, L>, state: S): (S, Outcome<L>) {
    Complete(task.segments, state, task.start)
  }

  /** The left fold of the functions in the order they were submitted. */
  function Fold<S, L>(init: S, tasks: seq<Task<S, L>>): (S, seq<Outcome<L>>) {
    if tasks == [] then (init, [])
    else
      var (s, outcomes) := Fold(init, tasks[..|tasks| - 1]);
      var (s', outcome) := RunAlone(tasks[|tasks| - 1], s);
      (s', outcomes + [outcome])
  }

  // --- the refinement ------------------------------------------------------------------------------------

  /** The chain: function j is promise 2j + 1, behind the drain of function j - 1. */
  ghost predicate Chain<S, L>(loop: Loop<S, L>, tasks: seq<Task<S, L>>) {
    && |loop.cells| == 2 * |tasks| + 1 && loop.queue == 2 * |tasks|
    && loop.cells[0].job.Root?
    && (forall j | 0 <= j < |tasks| ::
          && loop.cells[2 * j + 1].after == 2 * j && loop.cells[2 * j + 1].job == Serve(tasks[j])
          && loop.cells[2 * j + 2].after == 2 * j + 1 && loop.cells[2 * j + 2].job.Drain?)
  }

  /** Everything before k has settled, nothing after k has started. */
  ghost predicate Frontier<S, L>(loop: Loop<S, L>, k: nat) {
    && 1 <= k <= |loop.cells|
    && (forall i | 0 <= i < k :: loop.cells[i].status.Settled?)
    && (forall i | k <= i < |loop.cells| :: !loop.cells[i].status.Settled?)
    && (forall i | k < i < |loop.cells| :: loop.cells[i].status.Waiting?)
    && (k < |loop.cells| && k % 2 == 0 ==> loop.cells[k].status.Waiting?)
  }

  /** What is settled is the fold. */
  ghost predicate Answered<S, L>(init: S, loop: Loop<S, L>, tasks: seq<Task<S, L>>, k: nat)
    requires Chain(loop, tasks) && Frontier(loop, k)
  {
    forall j | 0 <= j < k / 2 :: loop.cells[2 * j + 1].status.outcome == RunAlone(tasks[j], Fold(init, tasks[..j]).0).1
  }

  /** What is in flight will end as it does in the fold. */
  ghost predicate InStep<S, L>(init: S, loop: Loop<S, L>, tasks: seq<Task<S, L>>, k: nat)
    requires Chain(loop, tasks) && Frontier(loop, k)
  {
    if k % 2 == 1 && k < |loop.cells| && loop.cells[k].status.Running? then
      var Running(next, local) := loop.cells[k].status;
      var task := tasks[k / 2];
      next <= |task.segments| &&
      Complete(task.segments[next..], loop.state, local) == RunAlone(task, Fold(init, tasks[..k / 2]).0)
    else loop.state == Fold(init, tasks[..k / 2]).0
  }

  ghost predicate Inv<S, L>(init: S, loop: Loop<S, L>, tasks: seq<Task<S, L>>, k: nat) {
    Chain(loop, tasks) && Frontier(loop, k) && Answered(init, loop, tasks, k) && InStep(init, loop, tasks, k)
  }

  lemma SubmitKeepsShape<S, L>(loop: Loop<S, L>, tasks: seq<Task<S, L>>, k: nat, task: Task<S, L>)
    requires Chain(loop, tasks) && Frontier(loop, k)
    ensures Chain(Submit(loop, task), tasks + [task]) && Frontier(Submit(loop, task), k)
    ensures forall i | 0 <= i < |loop.cells| :: Submit(loop, task).cells[i] == loop.cells[i]
  {
  }

  lemma SubmitKeepsInv<S, L>(init: S, loop: Loop<S, L>, tasks: seq<Task<S, L>>, k: nat, task: Task<S, L>)
    requires Inv(init, loop, tasks, k)
    ensures Inv(init, Submit(loop, task), tasks + [task], k)
  {
    var loop', tasks' := Submit(loop, task), tasks + [task];
    SubmitKeepsShape(loop, tasks, k, task);
    assert forall j | 0 <= j <= |tasks| :: tasks'[..j] == tasks[..j];
  }

  /** Only the promise at the frontier can move. */
  lemma OnlyFrontierEnabled<S, L>(init: S, loop: Loop<S, L>, tasks: seq<Task<S, L>>, k: nat, i: nat)
    requires Inv(init, loop, tasks, k)
    ensures Enabled(loop, i) <==> i == k < |loop.cells|
  {
    if i < |loop.cells| && i > 0 {
      var j := (i - 1) / 2;
      assert i == 2 * j + 1 || i == 2 * j + 2;
      assert loop.cells[i].after == i - 1 && !loop.cells[i].job.Root?;
    }
  }

  lemma {:induction false} FoldSnoc<S, L>(init: S, tasks: seq<Task<S, L>>, j: nat)
    requires j < |tasks|
    ensures Fold(init, tasks[..j + 1]).0 == RunAlone(tasks[j], Fold(init, tasks[..j]).0).0
  {
    assert tasks[..j + 1][..j] == tasks[..j];
  }

  lemma ExecuteIsComplete<S, L>(task: Task<S, L>, next: nat, state: S, local: L)
    requires next <= |task.segments|
    ensures var (state', status) := Execute(task, next, state, local);
            match status {
              case Settled(outcome) => Complete(task.segments[next..], state, local) == (state', outcome)
              case Running(n, l) => n == next + 1 <= |task.segments|
                && Complete(task.segments[next..], state, local) == Complete(task.segments[n..], state', l)
              case Waiting => false
            }
  {
    if next < |task.segments| {
      assert task.segments[next..][0] == task.segments[next];
      assert task.segments[next..][1..] == task.segments[next + 1..];
    }
  }

  function WithStatus<S, L>(loop: Loop<S, L>, k: nat, state: S, status: Status<L>): Loop<S, L>
    requires k < |loop.cells|
  {
    Loop(loop.cells[k := loop.cells[k].(status := status)], loop.queue, state)
  }

  lemma StatusKeepsShape<S, L>(loop: Loop<S, L>, tasks: seq<Task<S, L>>, k: nat, state: S, status: Status<L>)
    requires Chain(loop, tasks) && Frontier(loop, k) && k < |loop.cells|
    requires status.Settled? || (status.Running? && k % 2 == 1)
    ensures Chain(WithStatus(loop, k, state, status), tasks)
    ensures Frontier(WithStatus(loop, k, state, status), if status.Settled? then k + 1 else k)
  {
  }

  lemma StatusKeepsAnswers<S, L>(init: S, loop: Loop<S, L>, tasks: seq<Task<S, L>>, k: nat, state: S, status: Status<L>)
    requires Inv(init, loop, tasks, k) && k < |loop.cells| && k % 2 == 1
    requires status.Settled? || status.Running?
    requires status.Settled? ==> status.outcome == RunAlone(tasks[k / 2], Fold(init, tasks[..k / 2]).0).1
    ensures var loop', k' := WithStatus(loop, k, state, status), if status.Settled? then k + 1 else k;
            Chain(loop', tasks) && Frontier(loop', k') && Answered(init, loop', tasks, k')
  {
    StatusKeepsShape(loop, tasks, k, state, status);
    var loop' := WithStatus(loop, k, state, status);
    var k' := if status.Settled? then k + 1 else k;
    forall j | 0 <= j < k' / 2
      ensures loop'.cells[2 * j + 1].status.outcome == RunAlone(tasks[j], Fold(init, tasks[..j]).0).1
    {
      if 2 * j + 1 == k {
        assert j == k / 2;
      } else {
        assert loop'.cells[2 * j + 1] == loop.cells[2 * j + 1];
      }
    }
  }

  /** A step of the function in flight that leaves its ending unchanged keeps the refinement. */
  lemma ServeRefines<S, L>(init: S, loop: Loop<S, L>, tasks: seq<Task<S, L>>, k: nat, state: S, status: Status<L>)
    requires Inv(init, loop, tasks, k) && k < |loop.cells| && k % 2 == 1
    requires var ending := RunAlone(tasks[k / 2], Fold(init, tasks[..k / 2]).0);
             match status {
               case Settled(outcome) => ending == (state, outcome)
               case Running(n, l) => n <= |tasks[k / 2].segments|
                 && Complete(tasks[k / 2].segments[n..], state, l) == ending
               case Waiting => false
             }
    ensures Inv(init, WithStatus(loop, k, state, status), tasks, if status.Settled? then k + 1 else k)
  {
    StatusKeepsAnswers(init, loop, tasks, k, state, status);
    if status.Settled? {
      FoldSnoc(init, tasks, k / 2);
      Halves(k);
    } else {
      StillInStep(init, loop, tasks, k, state, status);
    }
  }

  lemma Halves(k: nat)
    requires k % 2 == 1
    ensures (k + 1) / 2 == k / 2 + 1 && (k + 1) % 2 == 0
  {
  }

  lemma StillInStep<S, L>(init: S, loop: Loop<S, L>, tasks: seq<Task<S, L>>, k: nat, state: S, status: Status<L>)
    requires Inv(init, loop, tasks, k) && k < |loop.cells| && k % 2 == 1 && status.Running?
    requires status.next <= |tasks[k / 2].segments|
    requires Complete(tasks[k / 2].segments[status.next..], state, status.local)
          == RunAlone(tasks[k / 2], Fold(init, tasks[..k / 2]).0)
    ensures Chain(WithStatus(loop, k, state, status), tasks) && Frontier(WithStatus(loop, k, state, status), k)
    ensures InStep(init, WithStatus(loop, k, state, status), tasks, k)
  {
    StatusKeepsShape(loop, tasks, k, state, status);
  }

  lemma ServeTurn<S, L>(init: S, loop: Loop<S, L>, tasks: seq<Task<S, L>>, k: nat)
    requires Inv(init, loop, tasks, k) && k < |loop.cells| && k % 2 == 1
    ensures var loop' := Turn(loop, k);
            Inv(init, loop', tasks, if loop'.cells[k].status.Settled? then k + 1 else k)
  {
    OnlyFrontierEnabled(init, loop, tasks, k, k);
    var j, cell := k / 2, loop.cells[k];
    assert k == 2 * j + 1 && cell.job == Serve(tasks[j]);
    var task := tasks[j];
    assert task.segments[0..] == task.segments;
    var next := if cell.status.Running? then cell.status.next else 0;
    var local := if cell.status.Running? then cell.status.local else task.start;
    var (state, status) := Execute(task, next, loop.state, local);
    ExecuteIsComplete(task, next, loop.state, local);
    assert Turn(loop, k) == WithStatus(loop, k, state, status);
    ServeRefines(init, loop, tasks, k, state, status);
  }

  lemma DrainTurn<S, L>(init: S, loop: Loop<S, L>, tasks: seq<Task<S, L>>, k: nat)
    requires Inv(init, loop, tasks, k) && k < |loop.cells| && k % 2 == 0
    ensures Turn(loop, k).cells[k].status.Settled? && Inv(init, Turn(loop, k), tasks, k + 1)
  {
    OnlyFrontierEnabled(init, loop, tasks, k, k);
    var j := k / 2 - 1;
    assert k == 2 * j + 2 && loop.cells[k].job.Drain?;
    StatusKeepsShape(loop, tasks, k, loop.state, Settled(Drained));
    assert Turn(loop, k) == WithStatus(loop, k, loop.state, Settled(Drained));
    assert (k + 1) / 2 == k / 2;
  }

  lemma TurnKeepsInv<S, L>(init: S, loop: Loop<S, L>, tasks: seq<Task<S, L>>, k: nat)
    requires Inv(init, loop, tasks, k) && k < |loop.cells|
    ensures var loop' := Turn(loop, k);
            Inv(init, loop', tasks, if loop'.cells[k].status.Settled? then k + 1 else k)
  {
    if k % 2 == 1 {
      ServeTurn(init, loop, tasks, k);
    } else {
      DrainTurn(init, loop, tasks, k);
    }
  }

  lemma {:induction false} RunInv<S, L>(init: S, events: seq<Event<S, L>>) returns (k: nat)
    ensures Inv(init, Run(init, events), Submitted(events), k)
  {
    if events == [] {
      k := 1;
    } else {
      var before, tasks := Run(init, events[..|events| - 1]), Submitted(events[..|events| - 1]);
      k := RunInv(init, events[..|events| - 1]);
      match events[|events| - 1] {
        case Arrive(task) => SubmitKeepsInv(init, before, tasks, k, task);
        case Pick(i) =>
          OnlyFrontierEnabled(init, before, tasks, k, i);
          if i == k < |before.cells| {
            TurnKeepsInv(init, before, tasks, k);
            k := if Turn(before, k).cells[k].status.Settled? then k + 1 else k;
          }
      }
    }
  }

  // --- what a client sees ----------------------------------------------------------------------------------

  lemma {:induction false} FoldOutcomes<S, L>(init: S, tasks: seq<Task<S, L>>, j: nat)
    requires j < |tasks|
    ensures |Fold(init, tasks).1| == |tasks|
    ensures Fold(init, tasks).1[j] == RunAlone(tasks[j], Fold(init, tasks[..j]).0).1
  {
    var n := |tasks| - 1;
    if j < n {
      FoldOutcomes(init, tasks[..n], j);
      assert tasks[..n][..j] == tasks[..j];
    } else if n > 0 {
      FoldOutcomes(init, tasks[..n], 0);
    }
  }

  /** At most one function is in flight, and functions start and finish in the order they were submitted. */
  lemma OneAtATime<S, L>(init: S, events: seq<Event<S, L>>)
    ensures var cells := Run(init, events).cells;
            forall a, b | 0 <= a < b < |cells| && !cells[b].status.Waiting? :: cells[a].status.Settled?
  {
    var k := RunInv(init, events);
  }

  /** Every answer is the one the left fold gives, whatever the interleaving and whoever threw before. */
  lemma AnswersAreTheFold<S, L>(init: S, events: seq<Event<S, L>>, j: nat)
    requires j < |Submitted(events)|
    ensures |Run(init, events).cells| == 2 * |Submitted(events)| + 1
    ensures var cell := Run(init, events).cells[2 * j + 1];
            && cell.job == Serve(Submitted(events)[j])
            && |Fold(init, Submitted(events)).1| == |Submitted(events)|
            && (cell.status.Settled? ==> cell.status.outcome == Fold(init, Submitted(events)).1[j])
  {
    var k := RunInv(init, events);
    FoldOutcomes(init, Submitted(events), j);
  }

  /** Once the line is empty the shared state is the fold's final state. */
  lemma FinalStateIsTheFold<S, L>(init: S, events: seq<Event<S, L>>)
    requires forall i | 0 <= i < |Run(init, events).cells| :: Run(init, events).cells[i].status.Settled?
    ensures Run(init, events).state == Fold(init, Submitted(events)).0
  {
    var k := RunInv(init, events);
    var tasks := Submitted(events);
    assert k == |Run(init, events).cells| && k / 2 == |tasks|;
    assert tasks[..|tasks|] == tasks;
  }

  // --- progress ----------------------------------------------------------------------------------------------

  function Cost<S, L>(cell: Cell<S, L>): nat {
    match cell.status
    case Settled(_) => 0
    case Waiting => if cell.job.Serve? then |cell.job.task.segments| + 1 else 1
    case Running(next, _) =>
      if cell.job.Serve? && next <= |cell.job.task.segments| then |cell.job.task.segments| - next + 1 else 1
  }

  function Work<S, L>(cells: seq<Cell<S, L>>): nat {
    if cells == [] then 0 else Work(cells[..|cells| - 1]) + Cost(cells[|cells| - 1])
  }

  lemma {:induction false} WorkOfUpdate<S, L>(cells: seq<Cell<S, L>>, k: nat, cell: Cell<S, L>)
    requires k < |cells|
    ensures Work(cells[k := cell]) == Work(cells) - Cost(cells[k]) + Cost(cell)
  {
    var n := |cells| - 1;
    if k < n {
      WorkOfUpdate(cells[..n], k, cell);
      assert cells[k := cell][..n] == cells[..n][k := cell];
    } else {
      assert cells[k := cell][..n] == cells[..n];
    }
  }

  /**
   Nothing wedges the line: while any promise is pending, one turn is enabled and it strictly decreases the
   work left, even right after a function that rejected.
   */
  lemma PendingWorkProgresses<S, L>(init: S, events: seq<Event<S, L>>, i: nat)
    requires i < |Run(init, events).cells| && !Run(init, events).cells[i].status.Settled?
    ensures var loop := Run(init, events);
            exists k :: 0 <= k <= i && Enabled(loop, k) && Work(Turn(loop, k).cells) < Work(loop.cells)
  {
    var loop, tasks := Run(init, events), Submitted(events);
    var k := RunInv(init, events);
    OnlyFrontierEnabled(init, loop, tasks, k, k);
    TurnCosts(init, loop, tasks, k);
    assert Enabled(loop, k);
  }

  lemma TurnCosts<S, L>(init: S, loop: Loop<S, L>, tasks: seq<Task<S, L>>, k: nat)
    requires Inv(init, loop, tasks, k) && k < |loop.cells|
    ensures Work(Turn(loop, k).cells) < Work(loop.cells)
  {
    OnlyFrontierEnabled(init, loop, tasks, k, k);
    var cell := loop.cells[k];
    if k % 2 == 1 {
      assert k == 2 * (k / 2) + 1 && cell.job == Serve(tasks[k / 2]);
    }
    var cell' := Turn(loop, k).cells[k];
    assert Turn(loop, k).cells == loop.cells[k := cell'];
    assert Cost(cell') < Cost(cell);
    WorkOfUpdate(loop.cells, k, cell');
  }

  /** A function runs segment by segment: the first one that throws ends it, with the state as that one left it. */
  lemma SegmentBySegment<S, L>(f: (S, L) -> Effect<S, L>, rest: seq<(S, L) -> Effect<S, L>>, state: S, local: L)
    ensures f(state, local).throws ==>
              Complete([f] + rest, state, local) == (f(state, local).state, Rejected(f(state, local).local))
    ensures !f(state, local).throws ==>
              Complete([f] + rest, state, local) == Complete(rest, f(state, local).state, f(state, local).local)
    ensures Complete([], state, local) == (state, Outcome<L>.Fulfilled(local))
  {
    assert ([f] + rest)[1..] == rest;
  }
}
