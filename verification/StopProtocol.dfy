/** Stopping a capture on a device (src/adb_source.cpp): the script that captures and the script that a
  * Stop runs race on a directory, a pid file in it and a stop mark. */
module StopProtocol {

  /** Where the capture script is: what it does next. */
  datatype CaptureAt =
    | MakeDir | EnterDir | CheckDir       // mkdir dir && cd dir && check the directory entered
    | Refuse                              // || rmdir mark; exit
    | Fork                                // tcpdump 2>err &
    | MakePid | WritePid                  // echo $p >pid
    | TestMark | KillChild                // [ -e mark ] && kill $p
    | Wait                                // wait $p
    | RemovePid | TestAgain | RemoveErr   // rm -f pid; [ -e mark ] && rm -f err
    | RemoveDir | RemoveMark              // rmdir dir mark
    | CaptureEnded

  /** Where the Stop script is. */
  datatype StopAt =
    | Mark                                // mkdir mark
    | Enter | Check                       // if cd dir && check the directory entered
    | ReadPid | Kill | DropPid | DropMark // then if p=$(cat pid); then kill $p; rm -f pid; rmdir mark; fi
    | DropErr | DropDir                   // rm -f err; rmdir dir
    | TestDir | Unmark                    // elif [ -e dir ]; then rmdir mark
    | StopEnded

  /** The process the capture script starts: the redirection of its stderr comes before tcpdump itself. */
  datatype Child = NotForked | Forked | Running | Dead

  datatype PidFile = NoPid | EmptyPid | FullPid

  /** `foreign` is what another user put in the directory's place; `dropped` says that Stop took its mark
    * back before the capture script looked for it, and `exited` that tcpdump ended on its own. */
  datatype State = State(
    capture: CaptureAt, stop: StopAt, child: Child,
    dir: bool, foreign: bool, pid: PidFile, err: bool, mark: bool,
    dropped: bool, exited: bool)

  datatype Actor = CaptureScript | StopScript | Process | Exit

  function Begin(foreign: bool): State {
    State(MakeDir, Mark, NotForked, false, foreign, NoPid, false, false, false, false)
  }

  predicate IsEmpty(s: State) {
    s.pid == NoPid && !s.err
  }

  function CaptureStep(s: State): State {
    match s.capture
    case MakeDir => if s.dir || s.foreign then s.(capture := Refuse) else s.(dir := true, capture := EnterDir)
    case EnterDir => s.(capture := if s.dir then CheckDir else Refuse)
    case CheckDir => s.(capture := if s.dir then Fork else Refuse)
    case Refuse => s.(mark := false, capture := CaptureEnded)
    case Fork => s.(child := Forked, capture := MakePid)
    case MakePid => if s.dir then s.(pid := EmptyPid, capture := WritePid) else s.(capture := TestMark)
    case WritePid => s.(pid := if s.pid == EmptyPid then FullPid else s.pid, capture := TestMark)
    case TestMark => s.(capture := if s.mark then KillChild else Wait)
    case KillChild => s.(child := Dead, capture := Wait)
    case Wait => if s.child == Dead then s.(capture := RemovePid) else s
    case RemovePid => s.(pid := NoPid, capture := TestAgain)
    case TestAgain => s.(capture := if s.mark then RemoveErr else RemoveDir)
    case RemoveErr => s.(err := false, capture := RemoveDir)
    case RemoveDir => s.(dir := s.dir && !IsEmpty(s), capture := RemoveMark)
    case RemoveMark => s.(mark := false, capture := CaptureEnded)
    case CaptureEnded => s
  }

  /** The capture script has made its directory and has yet to look for the mark. */
  predicate YetToTest(capture: CaptureAt) {
    (capture.EnterDir? || capture.CheckDir? || capture.Fork? || capture.MakePid? || capture.WritePid? || capture.TestMark?)
  }

  function StopStep(s: State): State {
    match s.stop
    case Mark => s.(mark := true, stop := Enter)
    case Enter => s.(stop := if s.dir then Check else TestDir)
    case Check => s.(stop := if s.dir then ReadPid else TestDir)
    case ReadPid => s.(stop := if s.pid == FullPid then Kill else DropErr)
    case Kill => s.(child := Dead, stop := DropPid)
    case DropPid => s.(pid := NoPid, stop := DropMark)
    case DropMark => s.(mark := false, stop := DropErr)
    case DropErr => s.(err := false, stop := DropDir)
    case DropDir => s.(dir := s.dir && !IsEmpty(s), stop := StopEnded)
    case TestDir => s.(stop := if s.dir || s.foreign then Unmark else StopEnded)
    case Unmark => s.(mark := false, stop := StopEnded, dropped := YetToTest(s.capture))
    case StopEnded => s
  }

  /** The child opens its stderr, which fails in a directory that is gone, and becomes tcpdump. */
  function ChildStep(s: State): State {
    if s.child != Forked then s
    else if s.dir then s.(err := true, child := Running)
    else s.(child := Dead)
  }

  function ExitStep(s: State): State {
    if s.child == Running then s.(child := Dead, exited := true) else s
  }

  function Step(s: State, actor: Actor): State {
    match actor
    case CaptureScript => CaptureStep(s)
    case StopScript => StopStep(s)
    case Process => ChildStep(s)
    case Exit => ExitStep(s)
  }

  function Run(s: State, schedule: seq<Actor>): State {
    if schedule == [] then s else Step(Run(s, schedule[..|schedule| - 1]), schedule[|schedule| - 1])
  }

  predicate Alive(s: State) {
    s.child == Forked || s.child == Running
  }

  // ── What every step keeps ──

  /** The scripts and their process are where they can be together. */
  predicate Consistent(s: State) {
    && (s.child == NotForked <==> (s.capture.MakeDir? || s.capture.EnterDir? || s.capture.CheckDir? || s.capture.Refuse? || s.capture.Fork?) || (s.capture == CaptureEnded && s.child == NotForked))
    && (Alive(s) ==> (s.capture.MakePid? || s.capture.WritePid? || s.capture.TestMark? || s.capture.KillChild? || s.capture.Wait?))
    && (s.dir ==> !s.foreign && !(s.capture.MakeDir? || s.capture.Refuse?))
    && (s.exited ==> s.child == Dead)
    && (s.foreign ==> (s.capture.MakeDir? || s.capture.Refuse? || s.capture.CaptureEnded?) && s.child == NotForked)
  }

  /** Until Stop removes the directory, it is there from when the capture script made it to when that ends,
    * and so is the pid once it is written. */
  predicate InPlace(s: State) {
    (s.stop.Mark? || s.stop.Enter? || s.stop.Check? || s.stop.ReadPid? || s.stop.TestDir? || s.stop.Unmark?) ==>
      && ((s.capture.EnterDir? || s.capture.CheckDir? || s.capture.Fork? || s.capture.MakePid? || s.capture.WritePid? || s.capture.TestMark? || s.capture.KillChild? || s.capture.Wait? || s.capture.RemovePid? || s.capture.TestAgain? || s.capture.RemoveErr? || s.capture.RemoveDir?) ==> s.dir)
      && (s.capture == WritePid ==> s.pid == EmptyPid)
      && ((s.capture.TestMark? || s.capture.KillChild? || s.capture.Wait?) ==> s.pid == FullPid)
      && (s.capture == Refuse ==> s.foreign)
      && (YetToTest(s.capture) && s.child == Dead ==> s.exited)
  }

  /** Stop kills, and removes its mark, only once it has read the pid of the process. */
  predicate KillsTheChild(s: State) {
    && ((s.stop.Kill? || s.stop.DropPid? || s.stop.DropMark?) ==> !(s.capture.MakeDir? || s.capture.EnterDir? || s.capture.CheckDir? || s.capture.Refuse? || s.capture.Fork? || s.capture.MakePid? || s.capture.WritePid?) && s.child != NotForked)
    && ((s.stop.DropPid? || s.stop.DropMark?) ==> s.child == Dead)
    && (s.child == NotForked || s.capture == MakePid ==> s.pid == NoPid)
    && (s.stop == Unmark && s.capture == MakeDir ==> s.foreign)
    && (s.stop == Check ==> s.dir || s.capture == RemoveMark || s.capture == CaptureEnded)
  }

  /** After Stop has left its mark, tcpdump is not alive, or the mark is there and the capture script has yet
    * to look for it, or a kill is coming: unless Stop took the mark back too soon. */
  predicate KillIsComing(s: State) {
    s.stop != Mark && Alive(s) && !s.dropped ==>
      || (s.mark && (s.capture.MakePid? || s.capture.WritePid? || s.capture.TestMark?))
      || s.capture == KillChild
      || s.stop == Kill
      || ((s.stop.Enter? || s.stop.Check? || s.stop.ReadPid?) && s.capture == Wait)
  }

  /** Nor is the mark gone before the capture script starts anything. */
  predicate MarkStays(s: State) {
    s.stop != Mark && !s.dropped && (s.capture.MakeDir? || s.capture.EnterDir? || s.capture.CheckDir? || s.capture.Fork?) ==> s.mark || s.foreign
  }

  /** Once Stop has taken its mark back too soon, nothing but tcpdump itself ends it. */
  predicate NothingElse(s: State) {
    s.dropped ==>
      && s.stop == StopEnded && !s.mark && !s.foreign
      && ((s.capture.EnterDir? || s.capture.CheckDir? || s.capture.Fork? || s.capture.MakePid? || s.capture.WritePid? || s.capture.TestMark? || s.capture.Wait?) ==> s.dir)
      && !(s.capture.MakeDir? || s.capture.Refuse? || s.capture.KillChild?)
      && (s.child == NotForked ==> (s.capture.EnterDir? || s.capture.CheckDir? || s.capture.Fork?))
      && (s.child == Dead ==> s.exited)
  }

  predicate Kept(s: State) {
    Consistent(s) && InPlace(s) && KillIsComing(s) && MarkStays(s) && NothingElse(s) && KillsTheChild(s)
  }

  lemma CaptureKeeps(s: State)
    requires Kept(s)
    ensures Kept(CaptureStep(s))
  {
    match s.capture {
      case MakeDir =>
      case EnterDir =>
      case CheckDir =>
      case Refuse =>
      case Fork =>
      case MakePid =>
      case WritePid =>
      case TestMark =>
      case KillChild =>
      case Wait =>
      case RemovePid =>
      case TestAgain =>
      case RemoveErr =>
      case RemoveDir =>
      case RemoveMark =>
      case CaptureEnded =>
    }
  }

  lemma StopKeeps(s: State)
    requires Kept(s)
    ensures Kept(StopStep(s))
  {
    match s.stop {
      case Mark =>
      case Enter =>
      case Check =>
      case ReadPid =>
      case Kill =>
      case DropPid =>
      case DropMark =>
      case DropErr =>
      case DropDir =>
      case TestDir =>
      case Unmark =>
      case StopEnded =>
    }
  }

  lemma ProcessKeeps(s: State)
    requires Kept(s)
    ensures Kept(ChildStep(s)) && Kept(ExitStep(s))
  {
  }

  lemma StepKeeps(s: State, actor: Actor)
    requires Kept(s)
    ensures Kept(Step(s, actor)) && Step(s, actor).foreign == s.foreign
  {
    match actor {
      case CaptureScript => CaptureKeeps(s);
      case StopScript => StopKeeps(s);
      case Process => ProcessKeeps(s);
      case Exit => ProcessKeeps(s);
    }
  }

  /** In every interleaving of the scripts, at every point. */
  lemma {:induction false} RunKeeps(foreign: bool, schedule: seq<Actor>)
    ensures Kept(Run(Begin(foreign), schedule)) && Run(Begin(foreign), schedule).foreign == foreign
  {
    hide Kept, Step;
    if schedule == [] {
      BeginKeeps(foreign);
    } else {
      RunKeeps(foreign, schedule[..|schedule| - 1]);
      StepKeeps(Run(Begin(foreign), schedule[..|schedule| - 1]), schedule[|schedule| - 1]);
    }
  }

  lemma BeginKeeps(foreign: bool)
    ensures Kept(Begin(foreign))
  {
  }

  // ── How runs end ──

  /** Whether an actor has a step to take. */
  predicate CanStep(s: State, actor: Actor) {
    match actor
    case CaptureScript => s.capture != CaptureEnded && (s.capture == Wait ==> s.child == Dead)
    case StopScript => s.stop != StopEnded
    case Process => s.child == Forked
    case Exit => s.child == Running
  }

  /** Both scripts have done all they can. */
  predicate IsOver(s: State) {
    !CanStep(s, CaptureScript) && !CanStep(s, StopScript) && !CanStep(s, Process)
  }

  /** A run that is over leaves tcpdump alive if and only if Stop took its mark back too soon and tcpdump
    * has not ended on its own. */
  lemma AliveOnlyIfDropped(foreign: bool, schedule: seq<Actor>)
    requires IsOver(Run(Begin(foreign), schedule))
    ensures var s := Run(Begin(foreign), schedule); Alive(s) <==> s.dropped && !s.exited
  {
    hide Kept, IsOver;
    RunKeeps(foreign, schedule);
    OverAndAlive(Run(Begin(foreign), schedule));
  }

  lemma OverAndAlive(s: State)
    requires Kept(s) && IsOver(s)
    ensures Alive(s) <==> s.dropped && !s.exited
  {
    assert s.stop == StopEnded && s.child != Forked;
    assert s.capture == CaptureEnded || s.capture == Wait;
  }

  /** Stop has not begun, and tcpdump has not been ended. */
  predicate IsLeftAlone(s: State) {
    s.stop == Mark && !s.mark && s.capture != KillChild && (s.child == Dead ==> s.exited)
  }

  lemma LeftAloneStays(s: State, actor: Actor)
    requires Kept(s) && IsLeftAlone(s) && actor != StopScript
    ensures IsLeftAlone(Step(s, actor))
  {
    hide KillIsComing, MarkStays, KillsTheChild;
    match actor {
      case CaptureScript => CaptureLeavesAlone(s);
      case Process =>
      case Exit =>
    }
  }

  lemma CaptureLeavesAlone(s: State)
    requires IsLeftAlone(s)
    ensures IsLeftAlone(CaptureStep(s))
  {
  }

  /** A capture nobody stops runs until tcpdump ends on its own. */
  lemma {:induction false} LeftAloneUntilStopped(foreign: bool, schedule: seq<Actor>)
    requires StopScript !in schedule
    ensures var s := Run(Begin(foreign), schedule); s.child == Dead ==> s.exited
    ensures IsLeftAlone(Run(Begin(foreign), schedule))
  {
    hide Kept, Step;
    if schedule != [] {
      var before := schedule[..|schedule| - 1];
      LeftAloneUntilStopped(foreign, before);
      RunKeeps(foreign, before);
      LeftAloneStays(Run(Begin(foreign), before), schedule[|schedule| - 1]);
    }
  }

  function CaptureLeft(capture: CaptureAt): nat {
    match capture
    case MakeDir => 15 case EnterDir => 14 case CheckDir => 13 case Fork => 12 case MakePid => 11 case WritePid => 10
    case TestMark => 9 case KillChild => 8 case Wait => 7 case RemovePid => 6 case TestAgain => 5 case RemoveErr => 4
    case RemoveDir => 3 case RemoveMark => 2 case Refuse => 1 case CaptureEnded => 0
  }

  function StopLeft(stop: StopAt): nat {
    match stop
    case Mark => 11 case Enter => 10 case Check => 9 case ReadPid => 8 case Kill => 7 case DropPid => 6 case DropMark => 5
    case DropErr => 4 case DropDir => 3 case TestDir => 2 case Unmark => 1 case StopEnded => 0
  }

  function ChildLeft(child: Child): (left: nat)
    ensures left <= 3
  {
    match child
    case NotForked => 3 case Forked => 2 case Running => 1 case Dead => 0
  }

  /** What is left of a run. */
  function Left(s: State): nat {
    4 * (CaptureLeft(s.capture) + StopLeft(s.stop)) + ChildLeft(s.child)
  }

  /** No run goes on for ever: each step taken leaves less of it. */
  lemma RunsEnd(s: State, actor: Actor)
    requires CanStep(s, actor)
    ensures Left(Step(s, actor)) < Left(s)
  {
    hide CaptureLeft, StopLeft, CaptureStep, StopStep;
    match actor {
      case CaptureScript =>
        CaptureLeaves(s);
        Apart(s);
      case StopScript =>
        StopLeaves(s);
        Apart(s);
      case Process =>
      case Exit =>
    }
  }

  lemma Apart(s: State)
    ensures CaptureStep(s).stop == s.stop && StopStep(s).capture == s.capture
  {
  }

  /** Where the capture script goes on to. */
  predicate GoesOn(before: CaptureAt, after: CaptureAt) {
    match before
    case MakeDir => after == Refuse || after == EnterDir
    case EnterDir => after == CheckDir || after == Refuse
    case CheckDir => after == Fork || after == Refuse
    case Refuse => after == CaptureEnded
    case Fork => after == MakePid
    case MakePid => after == WritePid || after == TestMark
    case WritePid => after == TestMark
    case TestMark => after == KillChild || after == Wait
    case KillChild => after == Wait
    case Wait => after == RemovePid
    case RemovePid => after == TestAgain
    case TestAgain => after == RemoveErr || after == RemoveDir
    case RemoveErr => after == RemoveDir
    case RemoveDir => after == RemoveMark
    case RemoveMark => after == CaptureEnded
    case CaptureEnded => false
  }

  lemma CaptureLeaves(s: State)
    requires CanStep(s, CaptureScript)
    ensures CaptureLeft(CaptureStep(s).capture) < CaptureLeft(s.capture)
  {
    hide *;
    CaptureGoesOn(s);
    LessIsLeft(s.capture, CaptureStep(s).capture);
  }

  lemma CaptureGoesOn(s: State)
    requires CanStep(s, CaptureScript)
    ensures GoesOn(s.capture, CaptureStep(s).capture)
  {
    hide IsEmpty;
    match s.capture {
      case MakeDir =>
      case EnterDir =>
      case CheckDir =>
      case Refuse =>
      case Fork =>
      case MakePid =>
      case WritePid =>
      case TestMark =>
      case KillChild =>
      case Wait =>
      case RemovePid =>
      case TestAgain =>
      case RemoveErr =>
      case RemoveDir =>
      case RemoveMark =>
    }
  }

  lemma LessIsLeft(before: CaptureAt, after: CaptureAt)
    requires GoesOn(before, after)
    ensures CaptureLeft(after) < CaptureLeft(before)
  {
  }

  lemma StopLeaves(s: State)
    requires CanStep(s, StopScript)
    ensures StopLeft(StopStep(s).stop) < StopLeft(s.stop)
  {
    hide CaptureLeft, ChildLeft, Left, CaptureStep, Run;
    match s.stop {
      case Mark =>
      case Enter =>
      case Check =>
      case ReadPid =>
      case Kill =>
      case DropPid =>
      case DropMark =>
      case DropErr =>
      case DropDir =>
      case TestDir =>
      case Unmark =>
      case StopEnded =>
    }
  }

  /** Take steps of the scripts and the process as long as any can, whatever came before: the run ends. */
  lemma {:induction false} CanEnd(foreign: bool, schedule: seq<Actor>) returns (rest: seq<Actor>)
    ensures IsOver(Run(Begin(foreign), schedule + rest)) && Exit !in rest
    decreases Left(Run(Begin(foreign), schedule))
  {
    var s := Run(Begin(foreign), schedule);
    hide Kept, Step, CaptureStep, StopStep, ChildStep, Left;
    rest := [];
    assert schedule + rest == schedule;
    if !IsOver(s) {
      var actor := if CanStep(s, CaptureScript) then CaptureScript else if CanStep(s, StopScript) then StopScript else Process;
      RunsEnd(s, actor);
      assert (schedule + [actor])[..|schedule|] == schedule;
      rest := CanEnd(foreign, schedule + [actor]);
      assert schedule + [actor] + rest == schedule + ([actor] + rest);
      rest := [actor] + rest;
    }
  }

  // ── The race, and the same without it ──

  /** Stop finds no directory to enter; then the capture script makes it; then Stop sees it there, and takes
    * its mark back as if it were another's. */
  const MarkTakenBack: seq<Actor> := [StopScript] + ([StopScript] + ([CaptureScript] + ([StopScript] + ([StopScript] + []))))
  /** The capture script goes on, and finds no mark. */
  const NoMarkFound: seq<Actor> :=
    [CaptureScript] + ([CaptureScript] + ([CaptureScript] + ([CaptureScript] + ([CaptureScript] + ([CaptureScript] + ([Process] + []))))))

  lemma {:induction false} RunSplits(s: State, a: seq<Actor>, b: seq<Actor>)
    ensures Run(s, a + b) == Run(Run(s, a), b)
  {
    if b == [] {
      assert a + b == a;
    } else {
      RunSplits(s, a, b[..|b| - 1]);
      assert (a + b)[..|a + b| - 1] == a + b[..|b| - 1];
    }
  }

  lemma Leads(s: State, actor: Actor, rest: seq<Actor>, t: State)
    requires Step(s, actor) == t
    ensures Run(s, [actor] + rest) == Run(t, rest)
  {
    RunSplits(s, [actor], rest);
    assert [actor][..0] == [];
    assert Run(s, [actor]) == Step(Run(s, []), actor);
  }

  lemma TakesMarkBack()
    ensures Run(Begin(false), MarkTakenBack) == State(EnterDir, StopEnded, NotForked, true, false, NoPid, false, false, true, false)
  {
    hide Run;
    var s0 := Begin(false);
    var s1 := s0.(stop := Enter, mark := true);
    var s2 := s1.(stop := TestDir);
    var s3 := s2.(capture := EnterDir, dir := true);
    var s4 := s3.(stop := Unmark);
    var s5 := s4.(stop := StopEnded, mark := false, dropped := true);
    var r5: seq<Actor> := [];
    var r4 := [StopScript] + r5;
    var r3 := [StopScript] + r4;
    var r2 := [CaptureScript] + r3;
    var r1 := [StopScript] + r2;
    Leads(s0, StopScript, r1, s1);
    Leads(s1, StopScript, r2, s2);
    Leads(s2, CaptureScript, r3, s3);
    Leads(s3, StopScript, r4, s4);
    Leads(s4, StopScript, r5, s5);
    RunNone(s5);
  }

  lemma RunNone(s: State)
    ensures Run(s, []) == s
  {
  }

  lemma FindsNoMark(s0: State)
    requires s0 == State(EnterDir, StopEnded, NotForked, true, false, NoPid, false, false, true, false)
    ensures Run(s0, NoMarkFound) == State(Wait, StopEnded, Running, true, false, FullPid, true, false, true, false)
  {
    hide Run;
    var s1 := s0.(capture := CheckDir);
    var s2 := s1.(capture := Fork);
    var s3 := s2.(capture := MakePid, child := Forked);
    var s4 := s3.(capture := WritePid, pid := EmptyPid);
    var s5 := s4.(capture := TestMark, pid := FullPid);
    var s6 := s5.(capture := Wait);
    var s7 := s6.(child := Running, err := true);
    var r7: seq<Actor> := [];
    var r6 := [Process] + r7;
    var r5 := [CaptureScript] + r6;
    var r4 := [CaptureScript] + r5;
    var r3 := [CaptureScript] + r4;
    var r2 := [CaptureScript] + r3;
    var r1 := [CaptureScript] + r2;
    Leads(s0, CaptureScript, r1, s1);
    Leads(s1, CaptureScript, r2, s2);
    Leads(s2, CaptureScript, r3, s3);
    Leads(s3, CaptureScript, r4, s4);
    Leads(s4, CaptureScript, r5, s5);
    Leads(s5, CaptureScript, r6, s6);
    Leads(s6, Process, r7, s7);
    RunNone(s7);
  }

  /** The run ends with tcpdump alive, its Stop done and no kill coming. */
  lemma RaceLosesTheMark()
    ensures var s := Run(Begin(false), MarkTakenBack + NoMarkFound);
            IsOver(s) && s.stop == StopEnded && s.child == Running && s.dropped && !s.mark
  {
    hide Run;
    TakesMarkBack();
    RunSplits(Begin(false), MarkTakenBack, NoMarkFound);
    FindsNoMark(Run(Begin(false), MarkTakenBack));
  }

  /** Stop's step if it entered the directory, or looked whether one is there, in one step. */
  function AtomicStop(s: State): State {
    if s.stop == Enter && !s.dir then s.(stop := if s.foreign then Unmark else StopEnded) else StopStep(s)
  }

  function AtomicRun(s: State, schedule: seq<Actor>): State {
    if schedule == [] then s
    else
      var before := AtomicRun(s, schedule[..|schedule| - 1]);
      if schedule[|schedule| - 1] == StopScript then AtomicStop(before) else Step(before, schedule[|schedule| - 1])
  }

  /** Where Stop never looks at a directory made since it tried to enter one. */
  predicate LooksAtOnce(s: State) {
    Kept(s) && !s.dropped && (s.stop == TestDir ==> !s.dir && (s.capture.RemoveMark? || s.capture.CaptureEnded?)) && (s.stop == Unmark ==> s.foreign)
  }

  lemma AtomicKeeps(s: State, actor: Actor)
    requires LooksAtOnce(s)
    ensures LooksAtOnce(if actor == StopScript then AtomicStop(s) else Step(s, actor))
  {
    match actor {
      case CaptureScript => OthersLookAtOnce(s, actor);
      case StopScript => StopLooksAtOnce(s);
      case Process => OthersLookAtOnce(s, actor);
      case Exit => OthersLookAtOnce(s, actor);
    }
  }

  lemma OthersLookAtOnce(s: State, actor: Actor)
    requires LooksAtOnce(s) && actor != StopScript
    ensures LooksAtOnce(Step(s, actor))
  {
    hide Kept;
    StepKeeps(s, actor);
  }

  lemma StopLooksAtOnce(s: State)
    requires LooksAtOnce(s)
    ensures LooksAtOnce(AtomicStop(s))
  {
    StopKeeps(s);
    match s.stop {
      case Mark =>
      case Enter =>
      case Check =>
      case ReadPid =>
      case Kill =>
      case DropPid =>
      case DropMark =>
      case DropErr =>
      case DropDir =>
      case TestDir =>
      case Unmark =>
      case StopEnded =>
    }
  }

  /** So made, no run leaves tcpdump alive. */
  lemma {:induction false} AtomicStopIsSafe(foreign: bool, schedule: seq<Actor>)
    ensures var s := AtomicRun(Begin(foreign), schedule); LooksAtOnce(s) && (IsOver(s) ==> !Alive(s))
  {
    if schedule != [] {
      AtomicStopIsSafe(foreign, schedule[..|schedule| - 1]);
      AtomicKeeps(AtomicRun(Begin(foreign), schedule[..|schedule| - 1]), schedule[|schedule| - 1]);
    }
  }
}
