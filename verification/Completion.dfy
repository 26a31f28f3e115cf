/**
 What one run of the registration does from start to end, for every file, command and world: how it ends, what it sends
 and notes, what it leaves on disk. A step the command asks for happens, or the run does not end well.
 */
module Completion {
  import opened Registration

  // --- one step as it should go -------------------------------------------------------------------------------

  function Loaded(file: File): State {
    if file.Saved? then file.state else State("", 0, 0)
  }

  /** The command asks for a step the state has no letter for. */
  predicate Needs(command: string, s: State, step: char) {
    step in command && step !in s.completed
  }

  /** A step that is not asked for, or is answered and survives its save. */
  predicate Passed(asked: bool, reply: Reply, save: Save) {
    asked ==> reply.Got? && save.alive
  }

  predicate CrashedAt(asked: bool, reply: Reply, save: Save) {
    asked && reply.Got? && !save.alive
  }

  /** What a step leaves in the log: the request if it went out, the answer, the save if it took. */
  function Entries(asked: bool, step: char, kind: Kind, reply: Reply, save: Save, s: State): seq<Event> {
    if !asked then []
    else if reply.Lost? then if reply.sent then [Request(step, kind)] else []
    else if save.disk == New then [Request(step, kind), Noted(step, reply.id), Recorded(s)]
    else [Request(step, kind), Noted(step, reply.id)]
  }

  function OnDisk(asked: bool, file: File, reply: Reply, save: Save, s: State): File {
    if !asked || reply.Lost? || save.disk == Old then file
    else if save.disk == New then Saved(s)
    else Corrupt
  }

  function Attested(asked: bool, s: State, step: char, reply: Reply): State {
    if asked && reply.Got? then State(s.completed + [step], reply.id, s.instructionId) else s
  }

  function Checked(asked: bool, s: State, reply: Reply): State {
    if asked && reply.Got? then State(s.completed + "a", s.attestId, reply.id) else s
  }

  lemma AskExactly(r: Run, step: char, kind: Kind, reply: Reply, save: Save, s: State)
    requires r.exit.Running? && (reply.Got? ==> s == Note(r.state, step, reply.id))
    ensures var r' := Ask(r, step, kind, reply, save);
            && r'.log == r.log + Entries(true, step, kind, reply, save, s)
            && r'.file == OnDisk(true, r.file, reply, save, s)
            && (r'.exit.Running? <==> Passed(true, reply, save)) && (r'.exit.Crashed? <==> CrashedAt(true, reply, save))
            && !r'.exit.Done?
            && r'.state == (if reply.Got? then s else r.state)
            && r'.attest == (if reply.Got? && step != 'a' then reply.id else r.attest)
            && r'.instruction == (if reply.Got? && step == 'a' then reply.id else r.instruction)
  {
  }

  lemma PreExactly(r: Run, command: string, w: World)
    requires r.exit.Running?
    ensures var asked := Needs(command, r.state, 'r');
            var s := Attested(asked, r.state, 'r', w.pre);
            var r' := PreStep(r, command, w);
            && r'.log == r.log + Entries(asked, 'r', if w.onChain then Attestation else PreRegistration, w.pre, w.preSave, s)
            && r'.file == OnDisk(asked, r.file, w.pre, w.preSave, s)
            && (r'.exit.Running? <==> Passed(asked, w.pre, w.preSave))
            && (r'.exit.Crashed? <==> CrashedAt(asked, w.pre, w.preSave))
            && !r'.exit.Done? && r'.state == s && r'.instruction == r.instruction
            && (r'.exit.Running? ==> r'.attest == (if 'r' in command then s.attestId else r.attest))
  {
    if Needs(command, r.state, 'r') {
      AskExactly(r, 'r', if w.onChain then Attestation else PreRegistration, w.pre, w.preSave,
                 Attested(true, r.state, 'r', w.pre));
    }
  }

  lemma AgainExactly(r: Run, command: string, w: World)
    requires r.exit.Running?
    ensures var asked := Needs(command, r.state, 'R');
            var s := Attested(asked, r.state, 'R', w.again);
            var r' := AgainStep(r, command, w);
            && r'.log == r.log + Entries(asked, 'R', Attestation, w.again, w.againSave, s)
            && r'.file == OnDisk(asked, r.file, w.again, w.againSave, s)
            && (r'.exit.Running? <==> Passed(asked, w.again, w.againSave))
            && (r'.exit.Crashed? <==> CrashedAt(asked, w.again, w.againSave))
            && !r'.exit.Done? && r'.state == s && r'.instruction == r.instruction
            && (r'.exit.Running? ==> r'.attest == if 'R' in command then s.attestId else r.attest)
  {
    if Needs(command, r.state, 'R') {
      AskExactly(r, 'R', Attestation, w.again, w.againSave, Attested(true, r.state, 'R', w.again));
    }
  }

  lemma CheckExactly(r: Run, command: string, argument: nat, w: World)
    requires r.exit.Running?
    ensures var needed := Needs(command, r.state, 'a');
            var asked := needed && w.consistent;
            var s := Checked(asked, r.state, w.check);
            var r' := CheckStep(r, command, argument, w);
            && r'.log == r.log + Entries(asked, 'a', AvailabilityCheck(r.attest), w.check, w.checkSave, s)
            && r'.file == OnDisk(asked, r.file, w.check, w.checkSave, s)
            && (r'.exit.Running? <==> (needed ==> w.consistent) && Passed(asked, w.check, w.checkSave))
            && (r'.exit.Crashed? <==> CrashedAt(asked, w.check, w.checkSave))
            && !r'.exit.Done? && r'.state == s
            && (r'.exit.Running? ==> r'.instruction == if 'a' in command then s.instructionId else argument)
  {
    if Needs(command, r.state, 'a') && w.consistent {
      AskExactly(r, 'a', AvailabilityCheck(r.attest), w.check, w.checkSave, Checked(true, r.state, w.check));
    }
  }

  // --- a whole run ----------------------------------------------------------------------------------------------

  /** How far a run gets, step by step, and the state it has in memory there. */
  datatype Course = Course(pre: bool, afterPre: State, again: bool, afterAgain: State, check: bool, afterCheck: State,
                           promotion: bool)

  /** A step is asked for when the run got to it and the state has no letter for it. */
  function CourseOf(file: File, command: string, w: World): Course {
    var s0 := Loaded(file);
    var pre := !file.Corrupt? && Needs(command, s0, 'r');
    var s1 := Attested(pre, s0, 'r', w.pre);
    var past1 := !file.Corrupt? && Passed(pre, w.pre, w.preSave);
    var again := past1 && Needs(command, s1, 'R');
    var s2 := Attested(again, s1, 'R', w.again);
    var past2 := past1 && Passed(again, w.again, w.againSave);
    var check := past2 && Needs(command, s2, 'a') && w.consistent;
    var s3 := Checked(check, s2, w.check);
    Course(pre, s1, again, s2, check, s3,
           past2 && (Needs(command, s2, 'a') ==> w.consistent) && Passed(check, w.check, w.checkSave))
  }

  function Carried(command: string, c: Course): nat {
    if 'r' in command || 'R' in command then c.afterAgain.attestId else 0
  }

  function Used(command: string, argument: nat, c: Course): nat {
    if 'a' in command then c.afterCheck.instructionId else argument
  }

  function PreEntries(c: Course, w: World): seq<Event> {
    Entries(c.pre, 'r', if w.onChain then Attestation else PreRegistration, w.pre, w.preSave, c.afterPre)
  }

  function AgainEntries(c: Course, w: World): seq<Event> {
    Entries(c.again, 'R', Attestation, w.again, w.againSave, c.afterAgain)
  }

  function CheckEntries(c: Course, command: string, w: World): seq<Event> {
    Entries(c.check, 'a', AvailabilityCheck(Carried(command, c)), w.check, w.checkSave, c.afterCheck)
  }

  /** Before the steps, after the first, after the second. */
  lemma FirstSteps(file: File, log: seq<Event>, command: string, w: World)
    requires !file.Corrupt?
    ensures var c := CourseOf(file, command, w);
            var r1 := PreStep(Load(file, log), command, w);
            var r2 := AgainStep(r1, command, w);
            && r1.log == log + PreEntries(c, w) && r1.state == c.afterPre
            && r1.file == OnDisk(c.pre, file, w.pre, w.preSave, c.afterPre)
            && (r1.exit.Running? <==> Passed(c.pre, w.pre, w.preSave))
            && (r1.exit.Crashed? <==> CrashedAt(c.pre, w.pre, w.preSave)) && !r1.exit.Done?
            && (r1.exit.Running? ==>
                  && r2.log == r1.log + AgainEntries(c, w) && r2.state == c.afterAgain
                  && r2.file == OnDisk(c.again, r1.file, w.again, w.againSave, c.afterAgain)
                  && (r2.exit.Running? <==> Passed(c.again, w.again, w.againSave))
                  && (r2.exit.Crashed? <==> CrashedAt(c.again, w.again, w.againSave)) && !r2.exit.Done?
                  && (r2.exit.Running? ==> r2.attest == Carried(command, c)))
  {
    PreExactly(Load(file, log), command, w);
    var r1 := PreStep(Load(file, log), command, w);
    if r1.exit.Running? {
      AgainExactly(r1, command, w);
    }
  }

  /** Up to the promotion. */
  lemma BeforeExactly(file: File, log: seq<Event>, command: string, argument: nat, w: World)
    ensures var c := CourseOf(file, command, w);
            var r := BeforePromotion(file, log, command, argument, w);
            && r.log == log + PreEntries(c, w) + AgainEntries(c, w) + CheckEntries(c, command, w)
            && (r.exit.Running? <==> c.promotion) && !r.exit.Done?
            && (r.exit.Crashed? <==> CrashedAt(c.pre, w.pre, w.preSave) || CrashedAt(c.again, w.again, w.againSave)
                                     || CrashedAt(c.check, w.check, w.checkSave))
            && (r.exit.Running? ==> r.state == c.afterCheck && r.instruction == Used(command, argument, c))
            && r.file == FileBefore(file, c, w)
  {
    var c := CourseOf(file, command, w);
    if file.Corrupt? {
      assert log + PreEntries(c, w) + AgainEntries(c, w) + CheckEntries(c, command, w) == log;
    } else {
      FirstSteps(file, log, command, w);
      var r1 := PreStep(Load(file, log), command, w);
      var r2 := AgainStep(r1, command, w);
      if r1.exit.Running? && r2.exit.Running? {
        CheckExactly(r2, command, argument, w);
      } else {
        assert r2.log + CheckEntries(c, command, w) == r2.log;
        assert !r1.exit.Running? ==> r1.log + AgainEntries(c, w) == r1.log;
      }
    }
  }

  /** The file as the three saves leave it. */
  function FileBefore(file: File, c: Course, w: World): File {
    var f1 := OnDisk(c.pre, file, w.pre, w.preSave, c.afterPre);
    var f2 := OnDisk(c.again, f1, w.again, w.againSave, c.afterAgain);
    OnDisk(c.check, f2, w.check, w.checkSave, c.afterCheck)
  }

  /**
   Every run, to the last event: the three recorded steps in order, each only if it is asked for and the one before it
   passed, then the promotion. The check carries the attestation then in memory if the command attests at all, and the
   promotion the check then in memory, or the instruction given when the command asks for no check.
   */
  lemma RunExactly(file: File, log: seq<Event>, command: string, argument: nat, w: World)
    ensures var (r, c) := (RunOnce(file, log, command, argument, w), CourseOf(file, command, w));
            && r.log == log + PreEntries(c, w) + AgainEntries(c, w) + CheckEntries(c, command, w)
                        + (if c.promotion && 'p' in command && w.proof then [Promoted(Used(command, argument, c))] else [])
            && r.exit == (if c.promotion && ('p' in command ==> w.proof && w.promotion) then Done
                          else if CrashedAt(c.pre, w.pre, w.preSave) || CrashedAt(c.again, w.again, w.againSave)
                                  || CrashedAt(c.check, w.check, w.checkSave) then Crashed
                          else Failed)
            && r.file == (if r.exit.Done? && w.removed then Missing else FileBefore(file, c, w))
            && (r.exit.Done? ==> r.state == c.afterCheck)
  {
    BeforeExactly(file, log, command, argument, w);
    var r := BeforePromotion(file, log, command, argument, w);
    assert r.log + [] == r.log;
  }

  // --- what a finished run has done -----------------------------------------------------------------------------

  /** A run ends well exactly when everything its command asks for was granted. */
  lemma DoneExactlyWhen(file: File, log: seq<Event>, command: string, argument: nat, w: World)
    ensures var before := Loaded(file).completed;
            RunOnce(file, log, command, argument, w).exit.Done? <==>
              && file != Corrupt
              && ('r' in command && 'r' !in before ==> w.pre.Got? && w.preSave.alive)
              && ('R' in command && 'R' !in before ==> w.again.Got? && w.againSave.alive)
              && ('a' in command && 'a' !in before ==> w.consistent && w.check.Got? && w.checkSave.alive)
              && ('p' in command ==> w.proof && w.promotion)
  {
    RunExactly(file, log, command, argument, w);
  }

  lemma NotPromotions(c: Course, command: string, w: World)
    ensures var all := PreEntries(c, w) + AgainEntries(c, w) + CheckEntries(c, command, w);
            forall i | 0 <= i < |all| :: !all[i].Promoted?
  {
  }

  lemma LettersDone(file: File, command: string, w: World, step: char)
    requires CourseOf(file, command, w).promotion && step in "rRa" && step in command
    ensures step in CourseOf(file, command, w).afterCheck.completed
  {
    var c := CourseOf(file, command, w);
    assert c.afterPre.completed <= c.afterAgain.completed <= c.afterCheck.completed;
    assert step == 'r' || step == 'R' || step == 'a';
  }

  /** By the end of a run that ended well every letter of r, R and a in the command is complete, and a removed file gone. */
  lemma DoneMeansAllDone(file: File, log: seq<Event>, command: string, argument: nat, w: World)
    requires RunOnce(file, log, command, argument, w).exit.Done?
    ensures var r := RunOnce(file, log, command, argument, w);
            && (forall step | step in "rRa" && step in command :: step in r.state.completed)
            && (w.removed ==> r.file == Missing)
  {
    RunExactly(file, log, command, argument, w);
    forall step | step in "rRa" && step in command
      ensures step in CourseOf(file, command, w).afterCheck.completed
    {
      LettersDone(file, command, w, step);
    }
  }

  lemma Together(log: seq<Event>, a: seq<Event>, b: seq<Event>, c: seq<Event>, d: seq<Event>)
    ensures log + a + b + c + d == log + (a + b + c + d)
  {
  }

  /** And the promotion, which p alone asks for, was sent once, as the last thing the run did. */
  lemma DoneMeansPromoted(file: File, log: seq<Event>, command: string, argument: nat, w: World) returns (gained: seq<Event>)
    requires RunOnce(file, log, command, argument, w).exit.Done?
    ensures RunOnce(file, log, command, argument, w).log == log + gained
    ensures 'p' !in command ==> forall i | 0 <= i < |gained| :: !gained[i].Promoted?
    ensures 'p' in command ==> w.proof && w.promotion && gained != [] && gained[|gained| - 1].Promoted?
    ensures 'p' in command ==> forall i | 0 <= i < |gained| - 1 :: !gained[i].Promoted?
  {
    var c := CourseOf(file, command, w);
    var steps := PreEntries(c, w) + AgainEntries(c, w) + CheckEntries(c, command, w);
    var promotion := if 'p' in command then [Promoted(Used(command, argument, c))] else [];
    gained := steps + promotion;
    RunExactly(file, log, command, argument, w);
    Together(log, PreEntries(c, w), AgainEntries(c, w), CheckEntries(c, command, w), promotion);
    NotPromotions(c, command, w);
  }

  /** A promotion that gets no proof, or is refused, fails the run and leaves the file for a later one. */
  lemma UnprovenKeepsFile(file: File, log: seq<Event>, command: string, argument: nat, w: World)
    requires CourseOf(file, command, w).promotion && 'p' in command && !(w.proof && w.promotion)
    ensures var r := RunOnce(file, log, command, argument, w);
            && r.exit == Failed && r.file == FileBefore(file, CourseOf(file, command, w), w)
            && (r.file == Missing ==> file == Missing)
  {
    RunExactly(file, log, command, argument, w);
  }
}
