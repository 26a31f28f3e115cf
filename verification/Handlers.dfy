/** The handlers whose plain module-level state the queue protects. */
module Handlers {
  import opened PolicyTypes
  import opened Json
  import opened PromiseQueue

  datatype AppState = AppState(greetingCount: nat, lastGreeting: string, farewellCount: nat, lastFarewell: string)

  datatype Answer =
    | NotYet
    | Failure(error: string)
    | Greeting(text: string, number: nat)
    | Farewell(text: string, number: nat)
    | Snapshot(state: AppState)

  /** A decoded farewell; the ABI decoder is library code. */
  datatype Goodbye = Goodbye(name: string, reason: string)

  /** Payloads are None when they are not hex, or not an ABI tuple. */
  datatype Call = SayHello(payload: Option<string>) | SayGoodbye(message: Option<Goodbye>) | ReportState

  const RESET := AppState(0, "", 0, "")

  function NameIn(fields: seq<Field>): Option<Json> {
    if fields == [] then None
    else if fields[|fields| - 1].key == "name" then Some(fields[|fields| - 1].value)
    else NameIn(fields[..|fields| - 1])
  }

  /** The name greeted, or the complaint. */
  function ReadHello(payload: Option<string>): (Option<string>, string) {
    if payload.None? then (None, "invalid hex")
    else
      match Parse(payload.value)
      case None => (None, "decoding request")
      case Some(Obj(fields)) =>
        if exists f | f in fields :: f.key != "name" then (None, "unknown field")
        else
          (match NameIn(fields)
           case Some(Str(name)) => if name == "" then (None, "name must not be empty") else (Some(name), "")
           case _ => (None, "name must not be empty"))
      case Some(_) => (None, "expected a JSON object")
  }

  function HelloText(name: string): string {
    "Hello, " + name + "! Welcome to Flare Confidential Compute."
  }

  function GoodbyeText(g: Goodbye): string {
    "Goodbye, " + g.name + "! Reason: " + g.reason
  }

  function Handle(call: Call, s: AppState): (AppState, Answer) {
    match call
    case SayHello(payload) =>
      var (name, error) := ReadHello(payload);
      if name.None? then (s, Failure(error))
      else (s.(greetingCount := s.greetingCount + 1, lastGreeting := HelloText(name.value)),
            Greeting(HelloText(name.value), s.greetingCount + 1))
    case SayGoodbye(message) =>
      if message.None? then (s, Failure("decoding request"))
      else if message.value.name == "" then (s, Failure("name must not be empty"))
      else (s.(farewellCount := s.farewellCount + 1, lastFarewell := GoodbyeText(message.value)),
            Farewell(GoodbyeText(message.value), s.farewellCount + 1))
    case ReportState => (s, Snapshot(s))
  }

  ghost predicate OnlyNames(fields: seq<Field>) {
    forall f | f in fields :: f.key == "name"
  }

  lemma {:induction false} LastName(fields: seq<Field>)
    requires OnlyNames(fields)
    ensures NameIn(fields) == if fields == [] then None else Some(fields[|fields| - 1].value)
  {
  }

  /** A greeting is for a payload that parses to an object with no member but "name", the last one a text with something in it. */
  ghost predicate Greets(payload: Option<string>, name: string) {
    && payload.Some? && name != ""
    && exists fields: seq<Field> ::
         && Parse(payload.value) == Some(Obj(fields)) && fields != [] && OnlyNames(fields)
         && fields[|fields| - 1].value == Str(name)
  }

  lemma ReadsExactly(payload: Option<string>, name: string)
    ensures ReadHello(payload).0 == Some(name) <==> Greets(payload, name)
  {
    if payload.Some? && Parse(payload.value).Some? && Parse(payload.value).value.Obj? {
      var fields := Parse(payload.value).value.fields;
      if OnlyNames(fields) {
        LastName(fields);
      }
    }
  }

  lemma NamedIsGreeted(s: AppState, payload: Option<string>, name: string, text: string)
    requires ReadHello(payload).0 == Some(name) && text == "Hello, " + name + "! Welcome to Flare Confidential Compute."
    ensures Handle(SayHello(payload), s)
         == (AppState(s.greetingCount + 1, text, s.farewellCount, s.lastFarewell), Greeting(text, s.greetingCount + 1))
  {
    assert HelloText(name) == text;
  }

  /** A greeting counts and is kept; a payload that greets no one moves nothing. */
  lemma GreetsExactly(s: AppState, payload: Option<string>, name: string)
    requires Greets(payload, name)
    ensures var text := "Hello, " + name + "! Welcome to Flare Confidential Compute.";
            Handle(SayHello(payload), s)
            == (AppState(s.greetingCount + 1, text, s.farewellCount, s.lastFarewell), Greeting(text, s.greetingCount + 1))
  {
    ReadsExactly(payload, name);
    NamedIsGreeted(s, payload, name, "Hello, " + name + "! Welcome to Flare Confidential Compute.");
  }

  lemma GreetsNoOne(s: AppState, payload: Option<string>)
    requires forall n :: !Greets(payload, n)
    ensures Handle(SayHello(payload), s).0 == s && Handle(SayHello(payload), s).1.Failure?
  {
    var name := ReadHello(payload).0;
    if name.Some? {
      ReadsExactly(payload, name.value);
    }
  }

  /** A farewell is for a message with a name in it. */
  lemma FarewellExactly(s: AppState, message: Option<Goodbye>)
    ensures message.Some? && message.value.name != "" ==>
              var text := "Goodbye, " + message.value.name + "! Reason: " + message.value.reason;
              Handle(SayGoodbye(message), s)
              == (AppState(s.greetingCount, s.lastGreeting, s.farewellCount + 1, text), Farewell(text, s.farewellCount + 1))
    ensures message.None? || message.value.name == "" ==>
              Handle(SayGoodbye(message), s).0 == s && Handle(SayGoodbye(message), s).1.Failure?
    ensures Handle(ReportState, s) == (s, Snapshot(s))
  {
  }

  /** Every name with something in it is greeted when it is sent as the one member of an object. */
  lemma NamesAreGreeted(name: string)
    requires name != ""
    ensures Greets(Some(Print(Obj([Field("name", Str(name))]))), name)
  {
    var fields := [Field("name", Str(name))];
    ParseUndoesPrint(Obj(fields));
    assert fields[|fields| - 1].value == Str(name);
  }

  class App {
    var greetingCount: nat
    var lastGreeting: string
    var farewellCount: nat
    var lastFarewell: string

    function Contents(): AppState
      reads this
    {
      AppState(greetingCount, lastGreeting, farewellCount, lastFarewell)
    }

    constructor ()
      ensures Contents() == RESET
    {
      greetingCount, lastGreeting, farewellCount, lastFarewell := 0, "", 0, "";
    }

    method HandleSayHello(payload: Option<string>) returns (a: Answer)
      modifies this
      ensures (Contents(), a) == Handle(SayHello(payload), old(Contents()))
    {
      var (name, error) := ReadHello(payload);
      if name.None? {
        return Failure(error);
      }
      greetingCount := greetingCount + 1;
      var greeting := HelloText(name.value);
      lastGreeting := greeting;
      a := Greeting(greeting, greetingCount);
    }

    method HandleSayGoodbye(message: Option<Goodbye>) returns (a: Answer)
      modifies this
      ensures (Contents(), a) == Handle(SayGoodbye(message), old(Contents()))
    {
      if message.None? {
        return Failure("decoding request");
      }
      if message.value.name == "" {
        return Failure("name must not be empty");
      }
      farewellCount := farewellCount + 1;
      var farewell := GoodbyeText(message.value);
      lastFarewell := farewell;
      a := Farewell(farewell, farewellCount);
    }
  }

  // --- through the queue -----------------------------------------------------------------------------

  /** These handlers never await, so each is one segment. */
  function TaskOf(call: Call): Task<AppState, Answer> {
    Task(NotYet, [(s: AppState, _: Answer) => var (s', a) := Handle(call, s); Effect(s', a, false)])
  }

  function TasksOf(calls: seq<Call>): seq<Task<AppState, Answer>> {
    seq(|calls|, i requires 0 <= i < |calls| => TaskOf(calls[i]))
  }

  /** The handlers one after the other. */
  function StateAfter(calls: seq<Call>): AppState {
    if calls == [] then RESET else Handle(calls[|calls| - 1], StateAfter(calls[..|calls| - 1])).0
  }

  function AnswerTo(calls: seq<Call>, j: nat): Answer
    requires j < |calls|
  {
    Handle(calls[j], StateAfter(calls[..j])).1
  }

  lemma TaskRunsHandler(call: Call, s: AppState)
    ensures RunAlone(TaskOf(call), s) == (Handle(call, s).0, Fulfilled(Handle(call, s).1))
  {
    var task := TaskOf(call);
    assert task.segments[1..] == [];
  }

  lemma {:induction false} FoldOfHandlers(calls: seq<Call>)
    ensures Fold(RESET, TasksOf(calls)).0 == StateAfter(calls)
  {
    if calls != [] {
      var n := |calls| - 1;
      FoldOfHandlers(calls[..n]);
      assert TasksOf(calls)[..n] == TasksOf(calls[..n]);
      TaskRunsHandler(calls[n], StateAfter(calls[..n]));
    }
  }

  /** In every run of the server, each settled answer and the final counters are those of the plain sequence. */
  lemma ServerAnswersInOrder(events: seq<Event<AppState, Answer>>, calls: seq<Call>, j: nat)
    requires Submitted(events) == TasksOf(calls) && j < |calls|
    ensures |Run(RESET, events).cells| == 2 * |calls| + 1
    ensures var cell := Run(RESET, events).cells[2 * j + 1];
            cell.status.Settled? ==> cell.status.outcome == Fulfilled(AnswerTo(calls, j))
    ensures (forall i | 0 <= i < |Run(RESET, events).cells| :: Run(RESET, events).cells[i].status.Settled?) ==>
              Run(RESET, events).state == StateAfter(calls)
  {
    AnswersAreTheFold(RESET, events, j);
    FoldOutcomes(RESET, TasksOf(calls), j);
    assert TasksOf(calls)[..j] == TasksOf(calls[..j]);
    FoldOfHandlers(calls[..j]);
    TaskRunsHandler(calls[j], StateAfter(calls[..j]));
    if forall i | 0 <= i < |Run(RESET, events).cells| :: Run(RESET, events).cells[i].status.Settled? {
      FinalStateIsTheFold(RESET, events);
      FoldOfHandlers(calls);
    }
  }

  // --- what the counters and the last texts mean -------------------------------------------------------

  /** Greetings and farewells keep a count and a text each, under the same rules. */
  datatype Kind = Hellos | Goodbyes

  function Count(kind: Kind, s: AppState): nat {
    if kind.Hellos? then s.greetingCount else s.farewellCount
  }

  function LastText(kind: Kind, s: AppState): string {
    if kind.Hellos? then s.lastGreeting else s.lastFarewell
  }

  predicate Succeeds(kind: Kind, a: Answer) {
    if kind.Hellos? then a.Greeting? else a.Farewell?
  }

  /** The calls of one kind, before n, that succeeded. */
  function Served(kind: Kind, calls: seq<Call>, n: nat): set<nat>
    requires n <= |calls|
  {
    set j: nat | j < n && Succeeds(kind, AnswerTo(calls, j))
  }

  lemma OneCall(kind: Kind, call: Call, s: AppState)
    ensures var (s', a) := Handle(call, s);
            if Succeeds(kind, a) then a.number == Count(kind, s') == Count(kind, s) + 1 && LastText(kind, s') == a.text
            else Count(kind, s') == Count(kind, s) && LastText(kind, s') == LastText(kind, s)
  {
  }

  lemma ServedStep(kind: Kind, calls: seq<Call>, n: nat)
    requires n < |calls|
    ensures |Served(kind, calls, n + 1)| == |Served(kind, calls, n)| + if Succeeds(kind, AnswerTo(calls, n)) then 1 else 0
  {
    var before, after := Served(kind, calls, n), Served(kind, calls, n + 1);
    var succeeds := Succeeds(kind, AnswerTo(calls, n));
    OneMore(before, after, n, succeeds);
  }

  lemma OneMore(before: set<nat>, after: set<nat>, n: nat, added: bool)
    requires n !in before && forall j: nat :: j in after <==> j in before || (j == n && added)
    ensures |after| == |before| + if added then 1 else 0
  {
    assert after == if added then before + {n} else before;
  }

  lemma StateStep(calls: seq<Call>, n: nat)
    requires n < |calls|
    ensures StateAfter(calls[..n + 1]) == Handle(calls[n], StateAfter(calls[..n])).0
  {
    assert calls[..n + 1][..n] == calls[..n];
  }

  lemma {:induction false} CountIsServed(kind: Kind, calls: seq<Call>, n: nat)
    requires n <= |calls|
    ensures Count(kind, StateAfter(calls[..n])) == |Served(kind, calls, n)|
  {
    if n > 0 {
      CountIsServed(kind, calls, n - 1);
      StateStep(calls, n - 1);
      OneCall(kind, calls[n - 1], StateAfter(calls[..n - 1]));
      ServedStep(kind, calls, n - 1);
    }
  }

  /** Successes of each kind are numbered 1, 2, 3, ... in submission order: no gap, no repeat. */
  lemma AnswersAreNumbered(kind: Kind, calls: seq<Call>, j: nat)
    requires j < |calls| && Succeeds(kind, AnswerTo(calls, j))
    ensures AnswerTo(calls, j).number == |Served(kind, calls, j)| + 1 == |Served(kind, calls, j + 1)|
  {
    CountIsServed(kind, calls, j);
    OneCall(kind, calls[j], StateAfter(calls[..j]));
    ServedStep(kind, calls, j);
  }

  /** The text the state shows is that of the latest success of its kind. */
  lemma {:induction false} LastTextIsLatest(kind: Kind, calls: seq<Call>, j: nat, n: nat)
    requires j < n <= |calls| && Succeeds(kind, AnswerTo(calls, j))
    requires forall k | j < k < n :: !Succeeds(kind, AnswerTo(calls, k))
    ensures LastText(kind, StateAfter(calls[..n])) == AnswerTo(calls, j).text
  {
    StateStep(calls, n - 1);
    OneCall(kind, calls[n - 1], StateAfter(calls[..n - 1]));
    if j < n - 1 {
      LastTextIsLatest(kind, calls, j, n - 1);
      assert !Succeeds(kind, AnswerTo(calls, n - 1));
    } else {
      assert AnswerTo(calls, j) == Handle(calls[n - 1], StateAfter(calls[..n - 1])).1;
    }
  }
}
