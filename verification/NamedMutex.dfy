/**
 * The named mutex that keeps several instances of the program apart, as a state machine whose
 * steps are the operating system calls of any number of processes in any interleaving.
 */
module NamedMutex {
  import opened Base

  // -------------------------------------------------------------------------
  // States
  // -------------------------------------------------------------------------

  /** Where a process is between two system calls. */
  datatype Pc =
    | Idle                    // in none of the three routines
    | Created(existed: bool)  // CreateMutex returned a handle; the last error is not yet looked at
    | Losing                  // the mutex existed before: release attempted, handle not yet closed
    | Closing                 // released by TCCloseMutex, handle not yet closed
    | Probing                 // MutexExistsOnSystem has a handle of its own

  /** hMutex is the handle variable of the process: true when it is not NULL. */
  datatype Process = Process(pc: Pc, hMutex: bool)

  datatype Event =
    | Acquired(who: nat)              // TCCreateMutex returned TRUE with a new handle
    | Refused(who: nat)               // TCCreateMutex returned FALSE
    | Closed(who: nat)                // the handle of an acquired mutex is gone
    | Answered(who: nat, present: bool)  // MutexExistsOnSystem returned

  datatype State = State(procs: seq<Process>, owner: Option<nat>, log: seq<Event>)

  predicate HasHandle(p: Process) {
    p.hMutex || p.pc == Probing
  }

  /** The kernel object lives as long as any process has a handle to it. */
  predicate ObjectExists(s: State) {
    exists i | 0 <= i < |s.procs| :: HasHandle(s.procs[i])
  }

  /** The process created the object that is alive now. */
  predicate Creator(p: Process) {
    p.hMutex && p.pc != Created(true) && p.pc != Losing
  }

  /** TCCreateMutex has returned TRUE in this process and its handle has not been closed since. */
  predicate Holds(p: Process) {
    p.hMutex && (p.pc == Idle || p.pc == Closing || p.pc == Probing)
  }

  function Initial(n: nat): State {
    State(seq(n, _ => Process(Idle, false)), None, [])
  }

  // -------------------------------------------------------------------------
  // Steps
  // -------------------------------------------------------------------------

  /** How OpenMutex answers when the object exists. */
  datatype OpenOutcome = Opened | AccessDenied | OtherError

  datatype Action =
    | CallCreate(fails: bool)          // CreateMutex
    | CheckExisted                     // GetLastError, and ReleaseMutex for a loser
    | CloseLoser                       // CloseHandle of a loser
    | CallRelease                      // ReleaseMutex of TCCloseMutex
    | CallClose(fails: bool)           // CloseHandle of TCCloseMutex
    | CallOpen(outcome: OpenOutcome)   // OpenMutex
    | CloseProbe                       // CloseHandle of MutexExistsOnSystem
    | Die                              // the process ends; its handles are closed for it

  predicate Enabled(s: State, i: nat, a: Action) {
    i < |s.procs| &&
    match a
    case CallCreate(_) => s.procs[i].pc == Idle
    case CheckExisted => s.procs[i].pc.Created?
    case CloseLoser => s.procs[i].pc == Losing
    case CallRelease => s.procs[i].pc == Idle
    case CallClose(_) => s.procs[i].pc == Closing
    case CallOpen(_) => s.procs[i].pc == Idle
    case CloseProbe => s.procs[i].pc == Probing
    case Die => true
  }

  function Step(s: State, i: nat, a: Action): State
    requires Enabled(s, i, a)
  {
    var p := s.procs[i];
    match a
    case CallCreate(fails) =>
      if p.hMutex then s
      else if fails then s.(log := s.log + [Refused(i)])
      else s.(procs := s.procs[i := Process(Created(ObjectExists(s)), true)],
              owner := if ObjectExists(s) then s.owner else Some(i))
    case CheckExisted =>
      if p.pc.existed then s.(procs := s.procs[i := p.(pc := Losing)], owner := Released(s.owner, i))
      else s.(procs := s.procs[i := p.(pc := Idle)], log := s.log + [Acquired(i)])
    case CloseLoser =>
      s.(procs := s.procs[i := Process(Idle, false)], log := s.log + [Refused(i)])
    case CallRelease =>
      if p.hMutex && s.owner == Some(i) then s.(procs := s.procs[i := p.(pc := Closing)], owner := None) else s
    case CallClose(fails) =>
      if fails then s.(procs := s.procs[i := p.(pc := Idle)])
      else s.(procs := s.procs[i := Process(Idle, false)], log := s.log + [Closed(i)])
    case CallOpen(outcome) =>
      if !ObjectExists(s) then s.(log := s.log + [Answered(i, false)])
      else (match outcome
            case Opened => s.(procs := s.procs[i := p.(pc := Probing)])
            case AccessDenied => s.(log := s.log + [Answered(i, true)])
            case OtherError => s.(log := s.log + [Answered(i, false)]))
    case CloseProbe =>
      s.(procs := s.procs[i := p.(pc := Idle)], log := s.log + [Answered(i, true)])
    case Die =>
      State(s.procs[i := Process(Idle, false)], Released(s.owner, i), if Holds(p) then s.log + [Closed(i)] else s.log)
  }

  /** Ownership after process i released or abandoned the mutex. */
  function Released(owner: Option<nat>, i: nat): Option<nat> {
    if owner == Some(i) then None else owner
  }

  type Run = seq<(nat, Action)>

  /** The steps of the run are possible one after the other, starting with n idle processes. */
  predicate Possible(n: nat, run: Run)
    decreases |run|, 0
  {
    run == [] ||
    var k := |run| - 1;
    Possible(n, run[..k]) && Enabled(After(n, run[..k]), run[k].0, run[k].1)
  }

  function After(n: nat, run: Run): State
    requires Possible(n, run)
    decreases |run|, 1
  {
    if run == [] then Initial(n)
    else var k := |run| - 1; Step(After(n, run[..k]), run[k].0, run[k].1)
  }

  // -------------------------------------------------------------------------
  // What every step keeps
  // -------------------------------------------------------------------------

  /** Who has the mutex according to what the calls returned; None also for an impossible history. */
  function HolderOf(log: seq<Event>): Option<nat> {
    if log == [] then None
    else
      var k := |log| - 1;
      match log[k]
      case Acquired(i) => Some(i)
      case Closed(_) => None
      case Refused(_) => HolderOf(log[..k])
      case Answered(_, _) => HolderOf(log[..k])
  }

  /** Nobody acquires while another has it, and only the one who has it closes it. */
  predicate Orderly(log: seq<Event>) {
    log == [] ||
    var k := |log| - 1;
    Orderly(log[..k]) &&
    (log[k].Acquired? ==> HolderOf(log[..k]) == None) &&
    (log[k].Closed? ==> HolderOf(log[..k]) == Some(log[k].who))
  }

  /** At most one process created the living object. */
  ghost predicate OneCreator(s: State) {
    && (forall i | 0 <= i < |s.procs| ::
          s.procs[i].pc.Created? || s.procs[i].pc == Losing || s.procs[i].pc == Closing ==> s.procs[i].hMutex)
    && (forall i, j | 0 <= i < j < |s.procs| :: !(Creator(s.procs[i]) && Creator(s.procs[j])))
  }

  /** The answers given so far are orderly and name exactly the process that has the mutex. */
  ghost predicate LogMatches(s: State) {
    && Orderly(s.log)
    && (forall i: nat :: HolderOf(s.log) == Some(i) <==> i < |s.procs| && Holds(s.procs[i]))
  }

  ghost predicate Inv(s: State) {
    OneCreator(s) && LogMatches(s)
  }

  lemma StepKeepsOneCreator(s: State, i: nat, a: Action)
    requires OneCreator(s) && Enabled(s, i, a)
    ensures OneCreator(Step(s, i, a))
  {
    if a == CallCreate(false) && !s.procs[i].hMutex && !ObjectExists(s) {
      assert forall j | 0 <= j < |s.procs| :: !HasHandle(s.procs[j]);
    }
  }

  lemma EventAppended(log: seq<Event>, e: Event)
    ensures Orderly(log + [e]) <==>
            Orderly(log) && (e.Acquired? ==> HolderOf(log) == None) && (e.Closed? ==> HolderOf(log) == Some(e.who))
    ensures HolderOf(log + [e]) == (match e case Acquired(i) => Some(i) case Closed(_) => None case _ => HolderOf(log))
  {
    assert (log + [e])[..|log|] == log;
  }

  lemma StepKeepsLog(s: State, i: nat, a: Action)
    requires Inv(s) && Enabled(s, i, a)
    ensures LogMatches(Step(s, i, a))
  {
    hide Orderly, HolderOf;
    EventAppended(s.log, Acquired(i));
    EventAppended(s.log, Refused(i));
    EventAppended(s.log, Closed(i));
    EventAppended(s.log, Answered(i, true));
    EventAppended(s.log, Answered(i, false));
    if HolderOf(s.log).Some? {
      assert Holds(s.procs[HolderOf(s.log).value]);
    }
  }

  lemma StepKeepsInv(s: State, i: nat, a: Action)
    requires Inv(s) && Enabled(s, i, a)
    ensures Inv(Step(s, i, a))
  {
    StepKeepsOneCreator(s, i, a);
    StepKeepsLog(s, i, a);
  }

  lemma {:induction false} EveryRunKeepsInv(n: nat, run: Run)
    requires Possible(n, run)
    ensures Inv(After(n, run)) && |After(n, run).procs| == n
  {
    if run != [] {
      var k := |run| - 1;
      EveryRunKeepsInv(n, run[..k]);
      StepKeepsInv(After(n, run[..k]), run[k].0, run[k].1);
    }
  }

  /** In every interleaving at most one process has the mutex, and the returned answers say who. */
  lemma AtMostOneHolder(n: nat, run: Run, i: nat, j: nat)
    requires Possible(n, run) && i < n && j < n
    ensures |After(n, run).procs| == n
    ensures Holds(After(n, run).procs[i]) && Holds(After(n, run).procs[j]) ==> i == j
    ensures Orderly(After(n, run).log)
    ensures HolderOf(After(n, run).log) == Some(i) <==> Holds(After(n, run).procs[i])
  {
    EveryRunKeepsInv(n, run);
  }

  // -------------------------------------------------------------------------
  // Probing
  // -------------------------------------------------------------------------

  /** A process is left alone by the steps of the others. */
  lemma OthersLeaveAlone(s: State, i: nat, j: nat, a: Action)
    requires Enabled(s, j, a) && i != j && i < |s.procs|
    ensures |Step(s, j, a).procs| == |s.procs| && Step(s, j, a).procs[i] == s.procs[i]
  {
  }

  lemma {:induction false} StaysDuring(n: nat, run: Run, rest: Run, i: nat)
    requires Possible(n, run + rest) && i < n
    requires forall k | 0 <= k < |rest| :: rest[k].0 != i
    ensures Possible(n, run)
    ensures |After(n, run).procs| == |After(n, run + rest).procs| == n
    ensures After(n, run + rest).procs[i] == After(n, run).procs[i]
    decreases |rest|
  {
    if rest == [] {
      assert run + rest == run;
      EveryRunKeepsInv(n, run);
    } else {
      var k := |rest| - 1;
      assert (run + rest)[..|run| + k] == run + rest[..k];
      StaysDuring(n, run, rest[..k], i);
      OthersLeaveAlone(After(n, run + rest[..k]), i, rest[k].0, rest[k].1);
    }
  }

  /**
   * A probe whose OpenMutex falls into the time in which another process has the mutex answers TRUE,
   * at once or after closing its own handle, however the others go on; only an OpenMutex that fails
   * for another reason than denied access makes it answer FALSE.
   */
  lemma ProbeWhileHeld(n: nat, run: Run, i: nat, holder: nat, outcome: OpenOutcome, rest: Run)
    requires i < n && holder < n && i != holder
    requires Possible(n, run + [(i, CallOpen(outcome))] + rest)
    requires forall k | 0 <= k < |rest| :: rest[k].0 != i
    requires Possible(n, run) && holder < |After(n, run).procs| && Holds(After(n, run).procs[holder])
    ensures Possible(n, run + [(i, CallOpen(outcome))])
    ensures outcome != Opened ==>
              After(n, run + [(i, CallOpen(outcome))]).log == After(n, run).log + [Answered(i, outcome == AccessDenied)]
    ensures outcome == Opened ==>
              var s := After(n, run + [(i, CallOpen(outcome))] + rest);
              Enabled(s, i, CloseProbe) && Step(s, i, CloseProbe).log == s.log + [Answered(i, true)]
  {
    var withOpen := run + [(i, CallOpen(outcome))];
    StaysDuring(n, withOpen, rest, i);
    assert withOpen[..|run|] == run;
    assert HasHandle(After(n, run).procs[holder]);
  }

  /** A probe whose OpenMutex finds no process with any handle answers FALSE, whatever the call's error would be. */
  lemma ProbeWhenFree(n: nat, run: Run, i: nat, outcome: OpenOutcome)
    requires Possible(n, run) && i < n && !ObjectExists(After(n, run))
    ensures Possible(n, run + [(i, CallOpen(outcome))])
    ensures After(n, run + [(i, CallOpen(outcome))]).log == After(n, run).log + [Answered(i, false)]
  {
    EveryRunKeepsInv(n, run);
    var s := After(n, run);
    assert !HasHandle(s.procs[i]);
    assert (run + [(i, CallOpen(outcome))])[..|run|] == run;
  }

  /** A process that is probing has called OpenMutex, with success, while the object was alive. */
  lemma {:induction false} ProbingSince(n: nat, run: Run, i: nat) returns (k: nat)
    requires Possible(n, run) && i < |After(n, run).procs| && After(n, run).procs[i].pc == Probing
    ensures k < |run| && run[k] == (i, CallOpen(Opened)) && Possible(n, run[..k]) && ObjectExists(After(n, run[..k]))
  {
    EveryRunKeepsInv(n, run);
    var last := |run| - 1;
    var before := After(n, run[..last]);
    EveryRunKeepsInv(n, run[..last]);
    if run[last].0 == i && before.procs[i].pc != Probing {
      k := last;
    } else {
      ProbingBefore(before, run[last].0, run[last].1, i);
      k := ProbingSince(n, run[..last], i);
      assert run[..last][..k] == run[..k];
    }
  }

  lemma ProbingBefore(s: State, j: nat, a: Action, i: nat)
    requires Enabled(s, j, a) && i < |s.procs| && Step(s, j, a).procs[i].pc == Probing
    ensures s.procs[i].pc == Probing || (j == i && a == CallOpen(Opened) && ObjectExists(s))
  {
  }

  /** A probe that answers TRUE has called OpenMutex while some process had a handle. */
  lemma ProbeTrueMeansObject(n: nat, run: Run, i: nat) returns (k: nat)
    requires run != [] && Possible(n, run)
    requires After(n, run).log == After(n, run[..|run| - 1]).log + [Answered(i, true)]
    ensures k < |run| && run[k].0 == i && run[k].1.CallOpen?
    ensures Possible(n, run[..k]) && ObjectExists(After(n, run[..k]))
  {
    var last := |run| - 1;
    var s := After(n, run[..last]);
    TrueAnswers(s, run[last].0, run[last].1, i);
    if run[last].1 == CloseProbe {
      k := ProbingSince(n, run[..last], i);
      assert run[..last][..k] == run[..k];
    } else {
      k := last;
    }
  }

  lemma TrueAnswers(s: State, j: nat, a: Action, i: nat)
    requires Enabled(s, j, a) && Step(s, j, a).log == s.log + [Answered(i, true)]
    ensures j == i
    ensures (a == CloseProbe && s.procs[i].pc == Probing) || (a == CallOpen(AccessDenied) && ObjectExists(s))
  {
    assert Step(s, j, a).log[|s.log|] == Answered(i, true);
  }

  // -------------------------------------------------------------------------
  // Failing and closing
  // -------------------------------------------------------------------------

  /** An attempt that fails, at once or because the object exists, answers FALSE and leaves its process as it was. */
  lemma FailedAttempt(s: State, i: nat)
    requires Enabled(s, i, CallCreate(true)) && !s.procs[i].hMutex
    ensures Step(s, i, CallCreate(true)) == State(s.procs, s.owner, s.log + [Refused(i)])
    ensures ObjectExists(s) ==>
              var s1 := Step(s, i, CallCreate(false));
              Enabled(s1, i, CheckExisted) &&
              var s2 := Step(s1, i, CheckExisted);
              Enabled(s2, i, CloseLoser) && s1.log == s2.log == s.log &&
              Step(s2, i, CloseLoser).log == s.log + [Refused(i)] && Step(s2, i, CloseLoser).procs == s.procs
  {
    if ObjectExists(s) {
      var s2 := Step(Step(s, i, CallCreate(false)), i, CheckExisted);
      assert Step(s2, i, CloseLoser).procs == s.procs;
    }
  }

  /** A process that has the mutex keeps it through another attempt. */
  lemma HoldersAttempt(s: State, i: nat, fails: bool)
    requires Enabled(s, i, CallCreate(fails)) && Holds(s.procs[i])
    ensures Step(s, i, CallCreate(fails)) == s
  {
  }

  /** Every process that has created the object, and has not yet released it, owns it. */
  ghost predicate CreatorOwns(s: State) {
    forall i: nat | i < |s.procs| && Creator(s.procs[i]) && s.procs[i].pc != Closing :: s.owner == Some(i)
  }

  lemma StepKeepsCreatorOwns(s: State, i: nat, a: Action)
    requires OneCreator(s) && CreatorOwns(s) && Enabled(s, i, a) && a != CallClose(true)
    ensures CreatorOwns(Step(s, i, a))
  {
    if a == CallCreate(false) && !s.procs[i].hMutex && !ObjectExists(s) {
      assert forall j | 0 <= j < |s.procs| :: !HasHandle(s.procs[j]);
    }
  }

  lemma {:induction false} EveryRunKeepsCreatorOwns(n: nat, run: Run)
    requires Possible(n, run) && forall k | 0 <= k < |run| :: run[k].1 != CallClose(true)
    ensures CreatorOwns(After(n, run))
  {
    if run != [] {
      hide CreatorOwns, Step;
      var k := |run| - 1;
      EveryRunKeepsCreatorOwns(n, run[..k]);
      EveryRunKeepsInv(n, run[..k]);
      StepKeepsCreatorOwns(After(n, run[..k]), run[k].0, run[k].1);
    }
  }

  /** As long as no CloseHandle fails, a process that has the mutex gets rid of it by TCCloseMutex. */
  lemma HolderCloses(n: nat, run: Run, i: nat)
    requires Possible(n, run) && forall k | 0 <= k < |run| :: run[k].1 != CallClose(true)
    requires i < |After(n, run).procs| && After(n, run).procs[i] == Process(Idle, true)
    ensures var s := After(n, run);
            var s1 := Step(s, i, CallRelease);
            Enabled(s1, i, CallClose(false)) && s1.log == s.log &&
            var s2 := Step(s1, i, CallClose(false));
            s2.log == s.log + [Closed(i)] && s2.procs == s.procs[i := Process(Idle, false)] && s2.owner == None
  {
    EveryRunKeepsCreatorOwns(n, run);
  }

  // -------------------------------------------------------------------------
  // When acquiring succeeds
  // -------------------------------------------------------------------------

  ghost predicate AnotherHasHandle(s: State, i: nat) {
    exists j | 0 <= j < |s.procs| :: j != i && HasHandle(s.procs[j])
  }

  /** A CreateMutex that does not fail leads to TRUE exactly when no other process has any handle at that moment. */
  lemma AcquiresExactlyWhenFree(s: State, i: nat)
    requires Enabled(s, i, CallCreate(false)) && !s.procs[i].hMutex
    ensures Enabled(Step(s, i, CallCreate(false)), i, CheckExisted)
    ensures Step(Step(s, i, CallCreate(false)), i, CheckExisted).log
         == if AnotherHasHandle(s, i) then s.log else s.log + [Acquired(i)]
  {
    assert !HasHandle(s.procs[i]);
    assert ObjectExists(s) <==> AnotherHasHandle(s, i);
  }

  /** Nobody having the mutex is not enough: a probe still open makes a later attempt fail. */
  lemma RefusedThoughNobodyHolds() returns (run: Run)
    ensures Possible(2, run)
    ensures After(2, run).log == [Acquired(0), Closed(0), Refused(0)]
    ensures forall i | 0 <= i < |After(2, run).procs| :: !Holds(After(2, run).procs[i])
  {
    run := [];
    for k := 0 to 8
      invariant |run| == k && Possible(2, run) && After(2, run) == Example(k)
    {
      ExampleGoesOn(k);
      assert (run + [ExampleStep(k)])[..k] == run;
      run := run + [ExampleStep(k)];
    }
  }

  function ExampleStep(k: nat): (nat, Action) {
    if k == 0 then (0, CallCreate(false))
    else if k == 1 then (0, CheckExisted)
    else if k == 2 then (1, CallOpen(Opened))
    else if k == 3 then (0, CallRelease)
    else if k == 4 then (0, CallClose(false))
    else if k == 5 then (0, CallCreate(false))
    else if k == 6 then (0, CheckExisted)
    else (0, CloseLoser)
  }

  lemma ExampleGoesOn(k: nat)
    requires k < 8
    ensures Enabled(Example(k), ExampleStep(k).0, ExampleStep(k).1)
    ensures Step(Example(k), ExampleStep(k).0, ExampleStep(k).1) == Example(k + 1)
  {
    ExampleHandles(k);
  }

  function Example(k: nat): State {
    var free, held := Process(Idle, false), Process(Idle, true);
    if k == 0 then Initial(2)
    else if k == 1 then State([Process(Created(false), true), free], Some(0), [])
    else if k == 2 then State([held, free], Some(0), [Acquired(0)])
    else if k == 3 then State([held, Process(Probing, false)], Some(0), [Acquired(0)])
    else if k == 4 then State([Process(Closing, true), Process(Probing, false)], None, [Acquired(0)])
    else if k == 5 then State([free, Process(Probing, false)], None, [Acquired(0), Closed(0)])
    else if k == 6 then State([Process(Created(true), true), Process(Probing, false)], None, [Acquired(0), Closed(0)])
    else if k == 7 then State([Process(Losing, true), Process(Probing, false)], None, [Acquired(0), Closed(0)])
    else State([free, Process(Probing, false)], None, [Acquired(0), Closed(0), Refused(0)])
  }

  lemma ExampleHandles(k: nat)
    ensures k == 0 ==> !ObjectExists(Example(k))
    ensures k == 2 ==> ObjectExists(Example(k))
    ensures k == 5 ==> ObjectExists(Example(k))
  {
    if k == 2 {
      assert HasHandle(Example(2).procs[0]);
    }
    if k == 5 {
      assert HasHandle(Example(5).procs[1]);
    }
  }
}
