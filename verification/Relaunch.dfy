/**
 Resuming a registration with a different command each time. What a step uses is then what the program remembers: the
 answers kept in this run on top of the state file it loaded.
 */
module Relaunch {
  import opened Registration

  datatype Launch = Launch(command: string, argument: nat, world: World)

  /** Any launches one after the other; a finished run removes the file and starts a new registration. */
  function Relaunched(launches: seq<Launch>): Session {
    if launches == [] then Session(Missing, [])
    else AfterLaunch(Relaunched(launches[..|launches| - 1]), launches[|launches| - 1])
  }

  function AfterLaunch(s: Session, l: Launch): Session {
    var r := LaunchOn(s, l);
    Session(r.file, if r.exit.Done? && l.world.removed then [] else r.log)
  }

  function LaunchOn(s: Session, l: Launch): Run {
    RunOnce(s.file, s.log + [Started(l.command, l.argument)], l.command, l.argument, l.world)
  }

  // --- what the program remembers -----------------------------------------------------------------------------------

  /** The state last saved. */
  function Kept(log: seq<Event>): State {
    if log == [] then FRESH
    else if log[|log| - 1].Recorded? then log[|log| - 1].state
    else Kept(log[..|log| - 1])
  }

  /** The state in memory: loaded at the start of a run, updated by each answer. */
  function Memory(log: seq<Event>): State {
    if log == [] then FRESH
    else
      var before, last := log[..|log| - 1], log[|log| - 1];
      Remember(Kept(before), Memory(before), last)
  }

  function Remember(kept: State, memory: State, e: Event): State {
    match e
    case Started(_, _) => kept
    case Noted(step, id) => Note(memory, step, id)
    case _ => memory
  }

  /** The command of the run under way. */
  function CommandOf(log: seq<Event>): string {
    if log == [] then "" else if log[|log| - 1].Started? then log[|log| - 1].command else CommandOf(log[..|log| - 1])
  }

  function ArgumentOf(log: seq<Event>): nat {
    if log == [] then 0 else if log[|log| - 1].Started? then log[|log| - 1].argument else ArgumentOf(log[..|log| - 1])
  }

  /** The attestation in hand once a command's attestation steps are over. */
  function InHand(command: string, memory: State): nat {
    if Attests(command) then memory.attestId else 0
  }

  predicate Letters(completed: string) {
    && (forall i | 0 <= i < |completed| :: completed[i] in "rRa")
    && (forall i, j | 0 <= i < j < |completed| :: completed[i] != completed[j])
  }

  // --- the invariant -------------------------------------------------------------------------------------------------

  ghost predicate StepOk(log: seq<Event>, e: Event) {
    match e
    case Request(step, kind) =>
      && Unrecorded(log, step)
      && (kind.AvailabilityCheck? ==> kind.attestId == InHand(CommandOf(log), Memory(log)))
    case Promoted(id) => id == if 'a' in CommandOf(log) then Memory(log).instructionId else ArgumentOf(log)
    case Recorded(state) => state == Memory(log) && Letters(state.completed)
    case Noted(step, _) => step in "rRa"
    case Started(_, _) => true
  }

  ghost predicate Unrecorded(log: seq<Event>, step: char) {
    forall i | 0 <= i < |log| && log[i].Recorded? :: step !in log[i].state.completed
  }

  ghost predicate HistoryOk(log: seq<Event>) {
    log != [] ==> HistoryOk(log[..|log| - 1]) && StepOk(log[..|log| - 1], log[|log| - 1])
  }

  ghost predicate KeepsFile(file: File, log: seq<Event>) {
    && Covers(Kept(log), log)
    && Letters(Kept(log).completed)
    && (file.Missing? ==> Kept(log) == FRESH)
    && (file.Saved? ==> file.state == Kept(log))
  }

  ghost predicate Keeps(command: string, argument: nat, r: Run) {
    && HistoryOk(r.log)
    && KeepsFile(r.file, r.log)
    && (r.exit.Running? ==>
          && CommandOf(r.log) == command && ArgumentOf(r.log) == argument
          && r.state == Memory(r.log)
          && Letters(r.state.completed)
          && Covers(r.state, r.log))
  }

  lemma Grows(log: seq<Event>, e: Event)
    ensures Kept(log + [e]) == if e.Recorded? then e.state else Kept(log)
    ensures Memory(log + [e]) == Remember(Kept(log), Memory(log), e)
    ensures CommandOf(log + [e]) == if e.Started? then e.command else CommandOf(log)
    ensures ArgumentOf(log + [e]) == if e.Started? then e.argument else ArgumentOf(log)
    ensures HistoryOk(log + [e]) <==> HistoryOk(log) && StepOk(log, e)
  {
    assert (log + [e])[..|log|] == log;
  }

  /** One more event that is not a save: the file and what was saved stay. */
  lemma NotSaved(file: File, log: seq<Event>, e: Event)
    requires KeepsFile(file, log) && !e.Recorded?
    ensures KeepsFile(file, log + [e])
    ensures forall state | Covers(state, log) :: Covers(state, log + [e])
  {
    Grows(log, e);
  }

  lemma Saves(file: File, log: seq<Event>, state: State, save: Save)
    requires KeepsFile(file, log) && HistoryOk(log) && state == Memory(log) && Letters(state.completed) && Covers(state, log)
    ensures var log' := log + if save.disk.New? then [Recorded(state)] else [];
            && KeepsFile(AfterSave(file, state, save), log') && HistoryOk(log')
            && Memory(log') == state && Covers(state, log')
            && CommandOf(log') == CommandOf(log) && ArgumentOf(log') == ArgumentOf(log)
  {
    if save.disk.New? {
      Grows(log, Recorded(state));
    } else {
      assert log + [] == log;
    }
  }

  lemma NoteKeeps(state: State, step: char, id: nat, log: seq<Event>)
    requires Letters(state.completed) && Covers(state, log) && step in "rRa" && step !in state.completed
    ensures Letters(Note(state, step, id).completed) && Covers(Note(state, step, id), log)
    ensures Unrecorded(log, step)
  {
  }

  /** A request goes out: the file, what was saved and what is remembered stay. */
  lemma RequestKeeps(file: File, log: seq<Event>, state: State, step: char, kind: Kind)
    requires HistoryOk(log) && KeepsFile(file, log) && state == Memory(log)
    requires Letters(state.completed) && Covers(state, log)
    requires step in "rRa" && step !in state.completed
    requires kind.AvailabilityCheck? ==> kind.attestId == InHand(CommandOf(log), state)
    ensures var asked := log + [Request(step, kind)];
            && HistoryOk(asked) && KeepsFile(file, asked) && Memory(asked) == state && Covers(state, asked)
            && CommandOf(asked) == CommandOf(log) && ArgumentOf(asked) == ArgumentOf(log)
  {
    NoteKeeps(state, step, 0, log);
    Grows(log, Request(step, kind));
    NotSaved(file, log, Request(step, kind));
  }

  /** Its answer is remembered on top. */
  lemma AnswerKeeps(file: File, log: seq<Event>, state: State, step: char, id: nat)
    requires HistoryOk(log) && KeepsFile(file, log) && state == Memory(log)
    requires Letters(state.completed) && Covers(state, log)
    requires step in "rRa" && step !in state.completed
    ensures var noted, state' := log + [Noted(step, id)], Note(state, step, id);
            && HistoryOk(noted) && KeepsFile(file, noted) && Memory(noted) == state'
            && Letters(state'.completed) && Covers(state', noted)
            && CommandOf(noted) == CommandOf(log) && ArgumentOf(noted) == ArgumentOf(log)
  {
    Grows(log, Noted(step, id));
    NotSaved(file, log, Noted(step, id));
    NoteKeeps(state, step, id, log + [Noted(step, id)]);
  }

  lemma GotKeeps(command: string, argument: nat, r: Run, step: char, kind: Kind, id: nat, save: Save)
    requires Keeps(command, argument, r) && r.exit.Running?
    requires step in "rRa" && step !in r.state.completed
    requires kind.AvailabilityCheck? ==> kind.attestId == InHand(command, r.state)
    ensures Keeps(command, argument, Ask(r, step, kind, Got(id), save))
  {
    var asked, note, state := r.log + [Request(step, kind)], Noted(step, id), Note(r.state, step, id);
    var saved := if save.disk.New? then [Recorded(state)] else [];
    RequestKeeps(r.file, r.log, r.state, step, kind);
    AnswerKeeps(r.file, asked, r.state, step, id);
    Saves(r.file, asked + [note], state, save);
    assert r.log + [Request(step, kind), note] == asked + [note];
    assert Ask(r, step, kind, Got(id), save).log == asked + [note] + saved;
  }

  lemma LostKeeps(command: string, argument: nat, r: Run, step: char, kind: Kind, sent: bool, save: Save)
    requires Keeps(command, argument, r) && r.exit.Running?
    requires step in "rRa" && step !in r.state.completed
    requires kind.AvailabilityCheck? ==> kind.attestId == InHand(command, r.state)
    ensures Keeps(command, argument, Ask(r, step, kind, Lost(sent), save))
  {
    RequestKeeps(r.file, r.log, r.state, step, kind);
    assert r.log + [] == r.log;
  }

  lemma AskKeeps(command: string, argument: nat, r: Run, step: char, kind: Kind, reply: Reply, save: Save)
    requires Keeps(command, argument, r) && r.exit.Running?
    requires step in "rRa" && step !in r.state.completed
    requires kind.AvailabilityCheck? ==> kind.attestId == InHand(command, r.state)
    ensures Keeps(command, argument, Ask(r, step, kind, reply, save))
  {
    match reply
    case Got(id) => GotKeeps(command, argument, r, step, kind, id, save);
    case Lost(sent) => LostKeeps(command, argument, r, step, kind, sent, save);
  }

  /** The two attestation steps leave in hand what memory holds, or nothing when the command has neither. */
  lemma AttestSteps(command: string, argument: nat, r: Run, w: World)
    requires Keeps(command, argument, r) && r.attest == 0
    ensures var r' := AgainStep(PreStep(r, command, w), command, w);
            Keeps(command, argument, r') && (r'.exit.Running? ==> r'.attest == InHand(command, r'.state))
  {
    if r.exit.Running? && 'r' in command && 'r' !in r.state.completed {
      AskKeeps(command, argument, r, 'r', if w.onChain then Attestation else PreRegistration, w.pre, w.preSave);
    }
    var r1 := PreStep(r, command, w);
    if r1.exit.Running? && 'R' in command && 'R' !in r1.state.completed {
      AskKeeps(command, argument, r1, 'R', Attestation, w.again, w.againSave);
    }
  }

  lemma CheckKeeps(command: string, argument: nat, r: Run, w: World)
    requires Keeps(command, argument, r) && (r.exit.Running? ==> r.attest == InHand(command, r.state))
    ensures var r' := CheckStep(r, command, argument, w);
            && Keeps(command, argument, r')
            && (r'.exit.Running? ==> r'.instruction == if 'a' in command then r'.state.instructionId else argument)
  {
    if r.exit.Running? && 'a' in command && 'a' !in r.state.completed && w.consistent {
      AskKeeps(command, argument, r, 'a', AvailabilityCheck(r.attest), w.check, w.checkSave);
    }
  }

  lemma PromoteKeeps(command: string, argument: nat, r: Run, w: World)
    requires Keeps(command, argument, r)
    requires r.exit.Running? ==> r.instruction == if 'a' in command then r.state.instructionId else argument
    ensures var r' := PromoteStep(r, command, w);
            HistoryOk(r'.log) && (KeepsFile(r'.file, r'.log) || (r'.exit.Done? && w.removed))
  {
    if r.exit.Running? && 'p' in command {
      Grows(r.log, Promoted(r.instruction));
      NotSaved(r.file, r.log, Promoted(r.instruction));
    }
    assert r.log + [] == r.log;
  }

  lemma LaunchKeeps(s: Session, l: Launch)
    requires HistoryOk(s.log) && KeepsFile(s.file, s.log)
    ensures var r := LaunchOn(s, l);
            HistoryOk(r.log) && (KeepsFile(r.file, r.log) || (r.exit.Done? && l.world.removed))
  {
    var start := Started(l.command, l.argument);
    var log := s.log + [start];
    Grows(s.log, start);
    NotSaved(s.file, s.log, start);
    var r0 := Load(s.file, log);
    AttestSteps(l.command, l.argument, r0, l.world);
    var r1 := AgainStep(PreStep(r0, l.command, l.world), l.command, l.world);
    CheckKeeps(l.command, l.argument, r1, l.world);
    PromoteKeeps(l.command, l.argument, CheckStep(r1, l.command, l.argument, l.world), l.world);
  }

  lemma AfterLaunchKeeps(s: Session, l: Launch)
    requires HistoryOk(s.log) && KeepsFile(s.file, s.log)
    ensures HistoryOk(AfterLaunch(s, l).log) && KeepsFile(AfterLaunch(s, l).file, AfterLaunch(s, l).log)
  {
    LaunchKeeps(s, l);
    var r := LaunchOn(s, l);
    if r.exit.Done? && l.world.removed {
      FinishedIsMissing(r.file, s, l);
    }
  }

  lemma FinishedIsMissing(file: File, s: Session, l: Launch)
    requires LaunchOn(s, l).exit.Done? && l.world.removed && file == LaunchOn(s, l).file
    ensures file.Missing? && HistoryOk([]) && KeepsFile(file, [])
  {
  }

  lemma {:induction false} RelaunchedKeeps(launches: seq<Launch>)
    ensures HistoryOk(Relaunched(launches).log) && KeepsFile(Relaunched(launches).file, Relaunched(launches).log)
  {
    if launches != [] {
      RelaunchedKeeps(launches[..|launches| - 1]);
      AfterLaunchKeeps(Relaunched(launches[..|launches| - 1]), launches[|launches| - 1]);
    }
  }

  // --- what holds of every history -----------------------------------------------------------------------------------

  /** The log of one more launch on top of any others. */
  function HistoryOf(launches: seq<Launch>, l: Launch): seq<Event> {
    LaunchOn(Relaunched(launches), l).log
  }

  lemma {:induction false} OkAt(log: seq<Event>, j: nat)
    requires HistoryOk(log) && j < |log|
    ensures StepOk(log[..j], log[j])
  {
    var front := log[..|log| - 1];
    if j < |log| - 1 {
      OkAt(front, j);
      assert front[..j] == log[..j];
    }
  }

  lemma HistoryOkAt(launches: seq<Launch>, l: Launch, j: nat)
    requires j < |HistoryOf(launches, l)|
    ensures StepOk(HistoryOf(launches, l)[..j], HistoryOf(launches, l)[j])
  {
    RelaunchedKeeps(launches);
    LaunchKeeps(Relaunched(launches), l);
    OkAt(HistoryOf(launches, l), j);
  }

  /** Whatever the commands, recorded progress is some of the letters r, R and a, none twice. */
  lemma RecordedLettersAreDistinct(launches: seq<Launch>, l: Launch, j: nat)
    requires j < |HistoryOf(launches, l)| && HistoryOf(launches, l)[j].Recorded?
    ensures Letters(HistoryOf(launches, l)[j].state.completed)
  {
    HistoryOkAt(launches, l, j);
  }

  /** Whatever the commands, no recorded step is requested again. */
  lemma NeverResent(launches: seq<Launch>, l: Launch, i: nat, j: nat)
    requires i < j < |HistoryOf(launches, l)|
    requires HistoryOf(launches, l)[i].Recorded? && HistoryOf(launches, l)[j].Request?
    ensures HistoryOf(launches, l)[j].step !in HistoryOf(launches, l)[i].state.completed
  {
    HistoryOkAt(launches, l, j);
    assert HistoryOf(launches, l)[..j][i] == HistoryOf(launches, l)[i];
  }

  /** Promotion uses the check remembered, or the instruction given to this run when its command has no a. */
  lemma PromotionUsesMemory(launches: seq<Launch>, l: Launch, j: nat)
    requires j < |HistoryOf(launches, l)| && HistoryOf(launches, l)[j].Promoted?
    ensures var log := HistoryOf(launches, l);
            log[j].id == if 'a' in CommandOf(log[..j]) then Memory(log[..j]).instructionId else ArgumentOf(log[..j])
  {
    HistoryOkAt(launches, l, j);
  }

  // --- which attestation a check carries --------------------------------------------------------------------------------

  /** A save since the attestation last noted. */
  predicate SavedSince(log: seq<Event>) {
    if log == [] || log[|log| - 1].Recorded? then true
    else if log[|log| - 1].Noted? && log[|log| - 1].step in ATTESTS then false
    else SavedSince(log[..|log| - 1])
  }

  /** No later run began before the attestation last noted was saved. */
  predicate Remembered(log: seq<Event>) {
    if log == [] || (log[|log| - 1].Noted? && log[|log| - 1].step in ATTESTS) then true
    else
      var before := log[..|log| - 1];
      Remembered(before) && (log[|log| - 1].Started? ==> SavedSince(before))
  }

  lemma {:induction false} RememberedIsLast(log: seq<Event>)
    requires HistoryOk(log) && Remembered(log)
    ensures Memory(log).attestId == LastNoted(log, ATTESTS)
    ensures SavedSince(log) ==> Kept(log).attestId == LastNoted(log, ATTESTS)
  {
    if log != [] {
      var before, last := log[..|log| - 1], log[|log| - 1];
      if last.Noted? && last.step in ATTESTS {
      } else {
        RememberedIsLast(before);
      }
    }
  }

  function AttestIds(log: seq<Event>): set<nat> {
    if log == [] then {}
    else
      var last := log[|log| - 1];
      AttestIds(log[..|log| - 1]) + if last.Noted? && last.step in ATTESTS then {last.id} else {}
  }

  /** Every attestation gets an id of its own, none of them zero. */
  predicate FreshIds(log: seq<Event>) {
    if log == [] then true
    else
      var before, last := log[..|log| - 1], log[|log| - 1];
      FreshIds(before) && (last.Noted? && last.step in ATTESTS ==> last.id != 0 && last.id !in AttestIds(before))
  }

  lemma {:induction false} IdsAreNoted(log: seq<Event>)
    requires HistoryOk(log)
    ensures Memory(log).attestId in AttestIds(log) + {0} && Kept(log).attestId in AttestIds(log) + {0}
    ensures LastNoted(log, ATTESTS) in AttestIds(log) || (AttestIds(log) == {} && LastNoted(log, ATTESTS) == 0)
    ensures FreshIds(log) ==> 0 !in AttestIds(log)
  {
    if log != [] {
      IdsAreNoted(log[..|log| - 1]);
    }
  }

  /** What is forgotten is never the id last noted. */
  lemma {:induction false} ForgottenIsOlder(log: seq<Event>)
    requires HistoryOk(log) && FreshIds(log)
    ensures !SavedSince(log) ==> Kept(log).attestId != LastNoted(log, ATTESTS)
    ensures !Remembered(log) ==> Kept(log).attestId != LastNoted(log, ATTESTS)
    ensures !Remembered(log) ==> Memory(log).attestId != LastNoted(log, ATTESTS)
  {
    if log != [] {
      ForgottenIsOlder(log[..|log| - 1]);
      IdsAreNoted(log[..|log| - 1]);
    }
  }

  /**
   Which attestation a check carries, whatever the commands: the one remembered if this run's command has r or R, the
   zero id otherwise. With ids that are never reused it is the one last noted, if any was, exactly when the command has
   r or R and no later run began before that attestation was saved.
   */
  lemma CheckCarries(launches: seq<Launch>, l: Launch, j: nat)
    requires j < |HistoryOf(launches, l)|
    requires HistoryOf(launches, l)[j].Request? && HistoryOf(launches, l)[j].kind.AvailabilityCheck?
    ensures var log := HistoryOf(launches, l);
            var carried, attests := log[j].kind.attestId, Attests(CommandOf(log[..j]));
            && carried == InHand(CommandOf(log[..j]), Memory(log[..j]))
            && (attests && Remembered(log[..j]) ==> carried == LastNoted(log[..j], ATTESTS))
            && (FreshIds(log[..j]) && AttestIds(log[..j]) != {} ==>
                  (carried == LastNoted(log[..j], ATTESTS) <==> attests && Remembered(log[..j])))
  {
    HistoryOkAt(launches, l, j);
    RelaunchedKeeps(launches);
    LaunchKeeps(Relaunched(launches), l);
    var log := HistoryOf(launches, l);
    OkBefore(log, j);
    IdsAreNoted(log[..j]);
    if Remembered(log[..j]) {
      RememberedIsLast(log[..j]);
    }
    if FreshIds(log[..j]) {
      ForgottenIsOlder(log[..j]);
    }
  }

  /** What the first of two launches leaves: an attestation asked for, noted and saved. */
  function Attested(id: nat): Session {
    Session(Saved(State("r", id, 0)),
            [Started("ra", 0), Request('r', PreRegistration), Noted('r', id), Recorded(State("r", id, 0))])
  }

  function FirstLaunch(id: nat): Launch {
    var saved := Save(New, true);
    Launch("ra", 0, World(false, Got(id), saved, Lost(false), saved, false, Lost(true), saved, false, false, false))
  }

  function SecondLaunch(id: nat): Launch {
    Launch("a", 0, FirstLaunch(id).world.(consistent := true))
  }

  lemma FirstAttests(id: nat)
    ensures Relaunched([FirstLaunch(id)]) == Attested(id)
  {
    assert [FirstLaunch(id)][..0] == [];
    assert FRESH.completed + ['r'] == "r";
    assert 'r' in "ra" && 'R' !in "ra" && 'a' in "ra" && 'a' !in "r";
    assert LaunchOn(Session(Missing, []), FirstLaunch(id)).log == Attested(id).log;
  }

  lemma AttestedIsRemembered(id: nat)
    ensures var log := Attested(id).log;
            LastNoted(log, ATTESTS) == id && SavedSince(log) && Remembered(log)
  {
    var log := Attested(id).log;
    assert log[..2] == [Started("ra", 0)] + [Request('r', PreRegistration)] && log[..1] == [] + [Started("ra", 0)];
    LastOf([], Started("ra", 0));
    LastOf(log[..1], Request('r', PreRegistration));
    LastOf(log[..2], Noted('r', id));
    LastOf(log[..3], Recorded(State("r", id, 0)));
    assert log == log[..3] + [Recorded(State("r", id, 0))] && log[..3] == log[..2] + [Noted('r', id)];
  }

  /** Attested and saved, then resumed with a command that only checks: the check carries zero all the same. */
  lemma ResumedWithoutItsAttestation(id: nat)
    requires id != 0
    ensures var log := HistoryOf([FirstLaunch(id)], SecondLaunch(id));
            && |log| > 0 && log[|log| - 1] == Request('a', AvailabilityCheck(0))
            && Remembered(log[..|log| - 1]) && LastNoted(log[..|log| - 1], ATTESTS) == id
  {
    var before, start := Attested(id).log, Started("a", 0);
    FirstAttests(id);
    AttestedIsRemembered(id);
    LastOf(before, start);
    assert 'r' !in "a" && 'R' !in "a" && 'a' in "a";
    var log := HistoryOf([FirstLaunch(id)], SecondLaunch(id));
    assert log == before + [start] + [Request('a', AvailabilityCheck(0))];
    assert log[..|log| - 1] == before + [start];
  }

  lemma LastOf(log: seq<Event>, e: Event)
    ensures var attest := e.Noted? && e.step in ATTESTS;
            && LastNoted(log + [e], ATTESTS) == (if attest then e.id else LastNoted(log, ATTESTS))
            && SavedSince(log + [e]) == (e.Recorded? || (!attest && SavedSince(log)))
            && Remembered(log + [e]) == (attest || (Remembered(log) && (e.Started? ==> SavedSince(log))))
  {
    assert (log + [e])[..|log|] == log;
  }

  lemma {:induction false} OkBefore(log: seq<Event>, j: nat)
    requires HistoryOk(log) && j <= |log|
    ensures HistoryOk(log[..j])
  {
    if j < |log| {
      OkBefore(log[..|log| - 1], j);
      assert log[..|log| - 1][..j] == log[..j];
    } else {
      assert log[..j] == log;
    }
  }
}
