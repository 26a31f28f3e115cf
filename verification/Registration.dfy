/**
 The resumable registration of a machine. Progress is a string of letters in a state file: r
 (pre-registration, or a fresh attestation for a machine already known), R (another attestation), a
 (availability check); p promotes. A run may fail or crash at any call, and around or during any save.
 */
module Registration {

  datatype State = State(completed: string, attestId: nat, instructionId: nat)

  datatype File = Missing | Corrupt | Saved(state: State)

  const FRESH := State("", 0, 0)

  /** A chain request answers with an id or is lost, possibly after it was sent. */
  datatype Reply = Got(id: nat) | Lost(sent: bool)

  /** What a save leaves on disk, and whether the process lives on: a failed save is only logged. */
  datatype Disk = Old | New | Torn
  datatype Save = Save(disk: Disk, alive: bool)

  /** How the world answers one run. */
  datatype World = World(onChain: bool, pre: Reply, preSave: Save, again: Reply, againSave: Save,
                         consistent: bool, check: Reply, checkSave: Save, proof: bool, promotion: bool, removed: bool)

  datatype Kind = PreRegistration | Attestation | AvailabilityCheck(attestId: nat)

  datatype Event =
    | Started(command: string, argument: nat)  // the program was launched
    | Request(step: char, kind: Kind)          // a chain request was sent
    | Noted(step: char, id: nat)               // its answer was kept in memory
    | Recorded(state: State)                   // the state file now holds this
    | Promoted(id: nat)                        // promotion was asked for with the result of this check

  datatype Exit = Running | Failed | Crashed | Done

  datatype Run = Run(file: File, state: State, attest: nat, instruction: nat, log: seq<Event>, exit: Exit)

  // --- the steps ----------------------------------------------------------------------------------------

  function Note(state: State, step: char, id: nat): State {
    if step == 'a' then state.(completed := state.completed + [step], instructionId := id)
    else state.(completed := state.completed + [step], attestId := id)
  }

  function AfterSave(file: File, state: State, save: Save): File {
    match save.disk
    case Old => file
    case New => Saved(state)
    case Torn => Corrupt
  }

  /** Send one request; on an answer, note it and try to save. */
  function Ask(r: Run, step: char, kind: Kind, reply: Reply, save: Save): Run {
    match reply
    case Lost(sent) => r.(log := r.log + if sent then [Request(step, kind)] else [], exit := Failed)
    case Got(id) =>
      var state := Note(r.state, step, id);
      Run(AfterSave(r.file, state, save), state, if step == 'a' then r.attest else id,
          if step == 'a' then id else r.instruction,
          r.log + [Request(step, kind), Noted(step, id)] + if save.disk.New? then [Recorded(state)] else [],
          if save.alive then Running else Crashed)
  }

  function Load(file: File, log: seq<Event>): Run {
    match file
    case Missing => Run(file, FRESH, 0, 0, log, Running)
    case Corrupt => Run(file, FRESH, 0, 0, log, Failed)
    case Saved(state) => Run(file, state, 0, 0, log, Running)
  }

  function PreStep(r: Run, command: string, w: World): Run {
    if !r.exit.Running? || 'r' !in command then r
    else if 'r' in r.state.completed then r.(attest := r.state.attestId)
    else Ask(r, 'r', if w.onChain then Attestation else PreRegistration, w.pre, w.preSave)
  }

  function AgainStep(r: Run, command: string, w: World): Run {
    if !r.exit.Running? || 'R' !in command then r
    else if 'R' in r.state.completed then r.(attest := r.state.attestId)
    else Ask(r, 'R', Attestation, w.again, w.againSave)
  }

  function CheckStep(r: Run, command: string, argument: nat, w: World): Run {
    if !r.exit.Running? then r
    else if 'a' !in command then r.(instruction := argument)
    else if 'a' in r.state.completed then r.(instruction := r.state.instructionId)
    else if !w.consistent then r.(exit := Failed)
    else Ask(r, 'a', AvailabilityCheck(r.attest), w.check, w.checkSave)
  }

  function PromoteStep(r: Run, command: string, w: World): Run {
    if !r.exit.Running? then r
    else if 'p' in command && !w.proof then r.(exit := Failed)
    else if 'p' in command && !w.promotion then r.(log := r.log + [Promoted(r.instruction)], exit := Failed)
    else r.(log := r.log + if 'p' in command then [Promoted(r.instruction)] else [],
            file := if w.removed then Missing else r.file, exit := Done)
  }

  function BeforePromotion(file: File, log: seq<Event>, command: string, argument: nat, w: World): Run {
    CheckStep(AgainStep(PreStep(Load(file, log), command, w), command, w), command, argument, w)
  }

  /** One run of the program against what an earlier run left behind. */
  function RunOnce(file: File, log: seq<Event>, command: string, argument: nat, w: World): Run {
    PromoteStep(BeforePromotion(file, log, command, argument, w), command, w)
  }

  // --- the program, updating its state and the file step by step ------------------------------------------

  class StateFile {
    var file: File
    var log: seq<Event>

    constructor ()
      ensures file == Missing && log == []
    {
      file, log := Missing, [];
    }

    /** False when the process does not survive the save. */
    method SaveState(state: State, save: Save) returns (alive: bool)
      modifies this
      ensures file == AfterSave(old(file), state, save) && alive == save.alive
      ensures log == old(log) + if save.disk.New? then [Recorded(state)] else []
    {
      if save.disk.New? {
        file, log := Saved(state), log + [Recorded(state)];
      } else if save.disk.Torn? {
        file := Corrupt;
      }
      alive := save.alive;
    }

    /** Send a request and keep its answer; shared by the three recorded steps. */
    method Request(ghost r: Run, state: State, step: char, kind: Kind, reply: Reply, save: Save)
        returns (state': State, id: nat, exit: Exit)
      requires r.file == file && r.state == state && r.log == log
      modifies this
      ensures var r' := Ask(r, step, kind, reply, save);
              file == r'.file && log == r'.log && exit == r'.exit && state' == r'.state
              && (exit.Running? ==> id == if step == 'a' then r'.instruction else r'.attest)
    {
      state', id := state, 0;
      if reply.Lost? {
        log := log + if reply.sent then [Event.Request(step, kind)] else [];
        return state', id, Failed;
      }
      id := reply.id;
      log := log + [Event.Request(step, kind), Noted(step, id)];
      state' := state'.(completed := state'.completed + [step]);
      if step == 'a' {
        state' := state'.(instructionId := id);
      } else {
        state' := state'.(attestId := id);
      }
      var alive := SaveState(state', save);
      exit := if alive then Running else Crashed;
    }

    method PreRegister(command: string, state: State, w: World) returns (state': State, attest: nat, exit: Exit)
      modifies this
      ensures var r := PreStep(Run(old(file), state, 0, 0, old(log), Running), command, w);
              r == Run(file, r.state, r.attest, r.instruction, log, exit)
              && (exit.Running? ==> r == Run(file, state', attest, 0, log, Running))
    {
      state', attest, exit := state, 0, Running;
      if 'r' in command {
        if 'r' in state.completed {
          attest := state.attestId;
        } else {
          state', attest, exit := Request(Run(file, state, 0, 0, log, Running), state, 'r',
                                          if w.onChain then Attestation else PreRegistration, w.pre, w.preSave);
        }
      }
    }

    method AttestAgain(command: string, state: State, attest: nat, w: World)
        returns (state': State, attest': nat, exit: Exit)
      modifies this
      ensures var r := AgainStep(Run(old(file), state, attest, 0, old(log), Running), command, w);
              r == Run(file, r.state, r.attest, r.instruction, log, exit)
              && (exit.Running? ==> r == Run(file, state', attest', 0, log, Running))
    {
      state', attest', exit := state, attest, Running;
      if 'R' in command {
        if 'R' in state.completed {
          attest' := state.attestId;
        } else {
          state', attest', exit := Request(Run(file, state, attest, 0, log, Running), state, 'R', Attestation,
                                           w.again, w.againSave);
        }
      }
    }

    method CheckAvailability(command: string, argument: nat, state: State, attest: nat, w: World)
        returns (state': State, instruction: nat, exit: Exit)
      modifies this
      ensures var r := CheckStep(Run(old(file), state, attest, 0, old(log), Running), command, argument, w);
              r == Run(file, r.state, r.attest, r.instruction, log, exit)
              && (exit.Running? ==> r == Run(file, state', attest, instruction, log, Running))
    {
      state', instruction, exit := state, argument, Running;
      if 'a' in command {
        if 'a' in state.completed {
          instruction := state.instructionId;
        } else {
          if !w.consistent {
            return state, 0, Failed;
          }
          state', instruction, exit := Request(Run(file, state, attest, 0, log, Running), state, 'a',
                                               AvailabilityCheck(attest), w.check, w.checkSave);
        }
      }
    }

    method RegisterNode(command: string, argument: nat, w: World) returns (exit: Exit)
      modifies this
      ensures var r := RunOnce(old(file), old(log), command, argument, w);
              file == r.file && log == r.log && exit == r.exit
    {
      if file.Corrupt? {
        return Failed;
      }
      var state := if file.Saved? then file.state else FRESH;
      var attest, instruction;
      state, attest, exit := PreRegister(command, state, w);
      if !exit.Running? {
        return;
      }
      state, attest, exit := AttestAgain(command, state, attest, w);
      if !exit.Running? {
        return;
      }
      state, instruction, exit := CheckAvailability(command, argument, state, attest, w);
      if !exit.Running? {
        return;
      }
      if 'p' in command {
        if !w.proof {
          return Failed;
        }
        log := log + [Promoted(instruction)];
        if !w.promotion {
          return Failed;
        }
      }
      if w.removed {
        file := Missing;
      }
      exit := Done;
    }
  }

  // --- any number of runs ------------------------------------------------------------------------------------

  datatype Session = Session(file: File, log: seq<Event>)

  /** Resuming again and again with one command. A finished run removes the file and starts a new registration. */
  function Resume(command: string, argument: nat, worlds: seq<World>): Session {
    if worlds == [] then Session(Missing, [])
    else
      var before := Resume(command, argument, worlds[..|worlds| - 1]);
      var w := worlds[|worlds| - 1];
      var r := RunOnce(before.file, before.log, command, argument, w);
      Session(r.file, if r.exit.Done? && w.removed then [] else r.log)
  }

  /** The letters of a command that leave a trace in the file, in the order the program takes them. */
  function Wanted(command: string): string {
    (if 'r' in command then "r" else "") + (if 'R' in command then "R" else "") + (if 'a' in command then "a" else "")
  }

  /** The answer last noted for one of some steps. */
  function LastNoted(log: seq<Event>, steps: set<char>): (id: nat) {
    if log == [] then 0
    else if log[|log| - 1].Noted? && log[|log| - 1].step in steps then log[|log| - 1].id
    else LastNoted(log[..|log| - 1], steps)
  }

  const ATTESTS := {'r', 'R'}
  const CHECKS := {'a'}

  predicate Attests(command: string) {
    'r' in command || 'R' in command
  }

  /** The attestation a check is to carry: the one last noted, or none when the command asks for no attestation. */
  function Carried(command: string, log: seq<Event>): nat {
    if Attests(command) then LastNoted(log, ATTESTS) else 0
  }

  predicate AttestsDone(completed: string, command: string) {
    ('r' in command ==> 'r' in completed) && ('R' in command ==> 'R' in completed)
  }

  /** Progress is always a beginning of what the command wants, and its ids are the last ones noted. */
  ghost predicate Sound(command: string, state: State, log: seq<Event>) {
    && state.completed <= Wanted(command)
    && (Attests(command) && AttestsDone(state.completed, command) ==> state.attestId == LastNoted(log, ATTESTS))
    && ('a' in state.completed ==> state.instructionId == LastNoted(log, CHECKS))
  }

  ghost predicate EventOk(command: string, argument: nat, log: seq<Event>, j: nat)
    requires j < |log|
  {
    match log[j]
    case Request(step, kind) =>
      && (forall i | 0 <= i < j && log[i].Recorded? :: step !in log[i].state.completed)
      && (kind.AvailabilityCheck? ==> kind.attestId == Carried(command, log[..j]))
    case Promoted(id) => id == if 'a' in command then LastNoted(log[..j], CHECKS) else argument
    case Recorded(state) => state.completed <= Wanted(command)
    case _ => true
  }

  ghost predicate LogOk(command: string, argument: nat, log: seq<Event>) {
    forall j | 0 <= j < |log| :: EventOk(command, argument, log, j)
  }

  /** Every state ever recorded is still part of this one. */
  ghost predicate Covers(state: State, log: seq<Event>) {
    forall i | 0 <= i < |log| && log[i].Recorded? :: log[i].state.completed <= state.completed
  }

  ghost predicate FileOk(command: string, file: File, log: seq<Event>) {
    match file
    case Missing => Covers(FRESH, log)
    case Corrupt => true
    case Saved(state) => Sound(command, state, log) && Covers(state, log)
  }

  ghost predicate RunOk(command: string, argument: nat, r: Run) {
    && LogOk(command, argument, r.log)
    && FileOk(command, r.file, r.log)
    && (r.exit.Running? ==>
          && Sound(command, r.state, r.log) && Covers(r.state, r.log)
          && (r.file.Saved? ==> r.file.state.completed <= r.state.completed))
  }

  // --- the invariant --------------------------------------------------------------------------------------------

  /** With a beginning of the wanted letters, the missing one the program asks for comes exactly next. */
  lemma NextLetter(completed: string, command: string)
    requires completed <= Wanted(command)
    ensures 'r' in command && 'r' !in completed ==> completed + "r" <= Wanted(command)
    ensures 'R' in command && 'R' !in completed && ('r' in command ==> 'r' in completed) ==>
              completed + "R" <= Wanted(command)
    ensures 'a' in command && 'a' !in completed && AttestsDone(completed, command) ==> completed + "a" <= Wanted(command)
    ensures 'a' in completed ==> AttestsDone(completed, command)
    ensures 'R' in completed && 'r' in command ==> 'r' in completed
  {
    var w, n := Wanted(command), |completed|;
    var afterR := if 'r' in command then 1 else 0;
    var afterRR := afterR + if 'R' in command then 1 else 0;
    assert completed == w[..n];
    assert 'r' in command ==> w[0] == 'r';
    assert 'R' in command ==> w[afterR] == 'R';
    assert 'a' in command ==> w[afterRR] == 'a';
    assert |w| == afterRR + if 'a' in command then 1 else 0;
    assert forall i | 0 <= i < n :: completed[i] == w[i];
    assert 'r' in command && n > 0 ==> completed[0] == 'r';
    assert 'R' in command && n > afterR ==> completed[afterR] == 'R';
    assert n < |w| ==> w[..n + 1] == completed + [w[n]];
  }

  lemma Appended(log: seq<Event>, e: Event, steps: set<char>)
    ensures LastNoted(log + [e], steps) == if e.Noted? && e.step in steps then e.id else LastNoted(log, steps)
  {
    assert (log + [e])[..|log|] == log;
  }

  lemma LogGrows(command: string, argument: nat, log: seq<Event>, e: Event)
    requires LogOk(command, argument, log) && EventOk(command, argument, log + [e], |log|)
    ensures LogOk(command, argument, log + [e])
  {
    forall j | 0 <= j < |log + [e]| ensures EventOk(command, argument, log + [e], j) {
      if j < |log| {
        assert EventOk(command, argument, log, j);
        assert (log + [e])[..j] == log[..j];
      }
    }
  }

  /** A request for a missing letter, answered and noted: memory stays sound, and so does an older file. */
  lemma AnswerKeepsOk(command: string, argument: nat, r: Run, step: char, kind: Kind, id: nat)
    requires RunOk(command, argument, r) && r.exit.Running?
    requires step == 'r' || step == 'R' || step == 'a'
    requires step in command && step !in r.state.completed && r.state.completed + [step] <= Wanted(command)
    requires kind.AvailabilityCheck? ==> kind.attestId == Carried(command, r.log)
    ensures LogOk(command, argument, r.log + [Request(step, kind)])
    ensures FileOk(command, r.file, r.log + [Request(step, kind)])
    ensures var log := r.log + [Request(step, kind), Noted(step, id)];
            && LogOk(command, argument, log) && FileOk(command, r.file, log)
            && Sound(command, Note(r.state, step, id), log) && Covers(r.state, log)
  {
    var ask, note := Request(step, kind), Noted(step, id);
    assert (r.log + [ask])[..|r.log|] == r.log;
    LogGrows(command, argument, r.log, ask);
    LogGrows(command, argument, r.log + [ask], note);
    assert r.log + [ask, note] == r.log + [ask] + [note];
    Appended(r.log, ask, ATTESTS);
    Appended(r.log, ask, CHECKS);
    Appended(r.log + [ask], note, ATTESTS);
    Appended(r.log + [ask], note, CHECKS);
    assert r.file.Saved? ==> step !in r.file.state.completed;
  }

  lemma AskKeepsOk(command: string, argument: nat, r: Run, step: char, kind: Kind, reply: Reply, save: Save)
    requires RunOk(command, argument, r) && r.exit.Running?
    requires step == 'r' || step == 'R' || step == 'a'
    requires step in command && step !in r.state.completed && r.state.completed + [step] <= Wanted(command)
    requires kind.AvailabilityCheck? ==> kind.attestId == Carried(command, r.log)
    ensures RunOk(command, argument, Ask(r, step, kind, reply, save))
  {
    var id := if reply.Got? then reply.id else 0;
    AnswerKeepsOk(command, argument, r, step, kind, id);
    if reply.Got? {
      var log, state := r.log + [Request(step, kind), Noted(step, id)], Note(r.state, step, id);
      if save.disk.New? {
        LogGrows(command, argument, log, Recorded(state));
        Appended(log, Recorded(state), ATTESTS);
        Appended(log, Recorded(state), CHECKS);
      }
      assert r.log + [Request(step, kind), Noted(step, id)] + [] == log;
    } else {
      assert r.log + [] == r.log;
    }
  }

  /** After the two attestation steps the id in hand is the one last noted. */
  lemma AttestInHand(command: string, argument: nat, r: Run, w: World)
    requires RunOk(command, argument, r) && r.attest == 0
    ensures var r' := AgainStep(PreStep(r, command, w), command, w);
            && RunOk(command, argument, r')
            && (r'.exit.Running? ==> AttestsDone(r'.state.completed, command))
            && (r'.exit.Running? ==> r'.attest == Carried(command, r'.log))
  {
    if r.exit.Running? {
      NextLetter(r.state.completed, command);
      if 'r' in command && 'r' !in r.state.completed {
        AskKeepsOk(command, argument, r, 'r', if w.onChain then Attestation else PreRegistration, w.pre, w.preSave);
      }
      var r1 := PreStep(r, command, w);
      if r1.exit.Running? {
        NextLetter(r1.state.completed, command);
        if 'R' in command && 'R' !in r1.state.completed {
          AskKeepsOk(command, argument, r1, 'R', Attestation, w.again, w.againSave);
        }
      }
    }
  }

  /** After the check the instruction in hand is the one last noted, or the one given when no check is wanted. */
  lemma InstructionInHand(command: string, argument: nat, r: Run, w: World)
    requires RunOk(command, argument, r)
    requires r.exit.Running? ==> AttestsDone(r.state.completed, command)
    requires r.exit.Running? ==> r.attest == Carried(command, r.log)
    ensures var r' := CheckStep(r, command, argument, w);
            && RunOk(command, argument, r')
            && (r'.exit.Running? ==> r'.instruction == if 'a' in command then LastNoted(r'.log, CHECKS) else argument)
  {
    if r.exit.Running? {
      NextLetter(r.state.completed, command);
      if 'a' in command && 'a' !in r.state.completed && w.consistent {
        AskKeepsOk(command, argument, r, 'a', AvailabilityCheck(r.attest), w.check, w.checkSave);
        assert w.check.Got? ==> LastNoted(r.log + [Request('a', AvailabilityCheck(r.attest)), Noted('a', w.check.id)], CHECKS)
                                == w.check.id by {
          if w.check.Got? {
            Appended(r.log + [Request('a', AvailabilityCheck(r.attest))], Noted('a', w.check.id), CHECKS);
            assert r.log + [Request('a', AvailabilityCheck(r.attest)), Noted('a', w.check.id)]
                == r.log + [Request('a', AvailabilityCheck(r.attest))] + [Noted('a', w.check.id)];
          }
        }
        if w.check.Got? {
          Appended(r.log + [Request('a', AvailabilityCheck(r.attest)), Noted('a', w.check.id)],
                   Recorded(Note(r.state, 'a', w.check.id)), CHECKS);
        }
      }
    }
  }

  ghost predicate SessionOk(command: string, argument: nat, s: Session) {
    LogOk(command, argument, s.log) && FileOk(command, s.file, s.log)
  }

  lemma PromoteKeepsOk(command: string, argument: nat, r: Run, w: World)
    requires RunOk(command, argument, r)
    requires r.exit.Running? ==> r.instruction == if 'a' in command then LastNoted(r.log, CHECKS) else argument
    ensures LogOk(command, argument, PromoteStep(r, command, w).log)
    ensures var r' := PromoteStep(r, command, w);
            (r'.file == r.file && FileOk(command, r.file, r'.log)) || (r'.file.Missing? && r'.exit.Done? && w.removed)
  {
    var log, e := r.log, Promoted(r.instruction);
    assert log + [] == log;
    if r.exit.Running? {
      assert (log + [e])[..|log|] == log;
      LogGrows(command, argument, log, e);
      Appended(log, e, ATTESTS);
      Appended(log, e, CHECKS);
    }
  }

  lemma BeforePromotionOk(command: string, argument: nat, s: Session, w: World)
    requires SessionOk(command, argument, s)
    ensures var r := BeforePromotion(s.file, s.log, command, argument, w);
            RunOk(command, argument, r)
            && (r.exit.Running? ==> r.instruction == if 'a' in command then LastNoted(r.log, CHECKS) else argument)
  {
    var r0 := Load(s.file, s.log);
    LoadOk(command, argument, s);
    AttestInHand(command, argument, r0, w);
    InstructionInHand(command, argument, AgainStep(PreStep(r0, command, w), command, w), w);
  }

  lemma RunKeepsOk(command: string, argument: nat, s: Session, w: World)
    requires SessionOk(command, argument, s)
    ensures var r := RunOnce(s.file, s.log, command, argument, w);
            LogOk(command, argument, r.log)
            && SessionOk(command, argument, Session(r.file, if r.exit.Done? && w.removed then [] else r.log))
  {
    BeforePromotionOk(command, argument, s, w);
    PromoteKeepsOk(command, argument, BeforePromotion(s.file, s.log, command, argument, w), w);
  }

  lemma LoadOk(command: string, argument: nat, s: Session)
    requires SessionOk(command, argument, s)
    ensures RunOk(command, argument, Load(s.file, s.log)) && Load(s.file, s.log).attest == 0
  {
  }

  lemma {:induction false} ResumeOk(command: string, argument: nat, worlds: seq<World>)
    ensures SessionOk(command, argument, Resume(command, argument, worlds))
  {
    if worlds != [] {
      ResumeOk(command, argument, worlds[..|worlds| - 1]);
      RunKeepsOk(command, argument, Resume(command, argument, worlds[..|worlds| - 1]), worlds[|worlds| - 1]);
    }
  }

  // --- what holds of every history ---------------------------------------------------------------------------------

  /** The log of one more run on top of any history of runs, failures and crashes. */
  function History(command: string, argument: nat, worlds: seq<World>, w: World): seq<Event> {
    RunOnce(Resume(command, argument, worlds).file, Resume(command, argument, worlds).log, command, argument, w).log
  }

  /** Recorded progress is always a beginning of r, R, a as far as the command asks for them: ordered, no repeats. */
  lemma ProgressIsOrdered(command: string, argument: nat, worlds: seq<World>)
    ensures var file := Resume(command, argument, worlds).file;
            file.Saved? ==> file.state.completed <= Wanted(command)
  {
    ResumeOk(command, argument, worlds);
  }

  /**
   Once the file has recorded a step, no later run sends that step's chain request again, whatever crashes and
   failed saves came in between.
   */
  lemma RecordedNeverResent(command: string, argument: nat, worlds: seq<World>, w: World, i: nat, j: nat)
    requires i < j < |History(command, argument, worlds, w)|
    requires History(command, argument, worlds, w)[i].Recorded? && History(command, argument, worlds, w)[j].Request?
    ensures History(command, argument, worlds, w)[j].step !in History(command, argument, worlds, w)[i].state.completed
  {
    ResumeOk(command, argument, worlds);
    RunKeepsOk(command, argument, Resume(command, argument, worlds), w);
    assert EventOk(command, argument, History(command, argument, worlds, w), j);
  }

  /** The availability check carries the attestation last noted, in this run or an earlier one. */
  lemma CheckUsesLastAttestation(command: string, argument: nat, worlds: seq<World>, w: World, j: nat)
    requires Attests(command) && j < |History(command, argument, worlds, w)|
    requires History(command, argument, worlds, w)[j].Request? && History(command, argument, worlds, w)[j].kind.AvailabilityCheck?
    ensures var log := History(command, argument, worlds, w);
            log[j].kind.attestId == LastNoted(log[..j], ATTESTS)
  {
    ResumeOk(command, argument, worlds);
    RunKeepsOk(command, argument, Resume(command, argument, worlds), w);
    assert EventOk(command, argument, History(command, argument, worlds, w), j);
  }

  /** Under a command with neither r nor R every check, in this run or a later one, carries the zero id. */
  lemma CheckWithoutAttestation(command: string, argument: nat, worlds: seq<World>, w: World, j: nat)
    requires !Attests(command) && j < |History(command, argument, worlds, w)|
    requires History(command, argument, worlds, w)[j].Request? && History(command, argument, worlds, w)[j].kind.AvailabilityCheck?
    ensures History(command, argument, worlds, w)[j].kind.attestId == 0
  {
    ResumeOk(command, argument, worlds);
    RunKeepsOk(command, argument, Resume(command, argument, worlds), w);
    assert EventOk(command, argument, History(command, argument, worlds, w), j);
  }

  /** Promotion uses the result of the check last noted, or the instruction given when no check was asked for. */
  lemma PromotionUsesLastCheck(command: string, argument: nat, worlds: seq<World>, w: World, j: nat)
    requires j < |History(command, argument, worlds, w)| && History(command, argument, worlds, w)[j].Promoted?
    ensures var log := History(command, argument, worlds, w);
            log[j].id == if 'a' in command then LastNoted(log[..j], CHECKS) else argument
  {
    ResumeOk(command, argument, worlds);
    RunKeepsOk(command, argument, Resume(command, argument, worlds), w);
    assert EventOk(command, argument, History(command, argument, worlds, w), j);
  }
}
