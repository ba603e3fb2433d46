/** PID 1 reaps orphans without taking the exit status of managed children (reaper.rs).

    Threads that run managed commands, the scanning thread and the rest of the guest take
    steps in any order. A PID names a slot that the kernel may give out again as soon as
    its process has been reaped.
 */
module Reaper {
  import opened Outcomes

  /** A process: whether PID 1 is its parent, and whether it has exited. */
  datatype Process = Process(ours: bool, exited: bool)

  /** A thread in `spawn` and afterwards. `Held` is between taking the mutex and the fork,
      `Forked` before the insertion, `Guarded` while the ChildGuard lives. */
  datatype Manager = Held | Forked(pid: nat) | Guarded(pid: nat, waited: bool) | Released

  /** The scan: PID 1 has listed a PID, found it untracked, found PID 1 to be its parent. */
  datatype Scan = Idle | Listed(pid: nat) | Untracked(pid: nat) | Ours(pid: nat) {
    predicate Names(p: nat) {
      !Idle? && pid == p
    }
  }

  /** `stolen` records that the scan reaped a child some guard still waits for. */
  datatype Guest = Guest(
    procs: map<nat, Process>,
    tracked: set<nat>,
    mutex: Option<nat>,
    managers: map<nat, Manager>,
    scan: Scan,
    stolen: bool)

  datatype Event =
    | Take(t: nat)
    | Fork(t: nat, pid: nat)
    | SpawnFails(t: nat)
    | Insert(t: nat)
    | Wait(t: nat)
    | Drop(t: nat)
    | Appear(pid: nat)
    | Adopt(pid: nat)
    | Exit(pid: nat)
    | ReapedElsewhere(pid: nat)
    | List(pid: nat)
    | CheckTracked
    | ReadStat
    | Waitpid

  const BOOT := Guest(map[], {}, None, map[], Idle, false)

  predicate Uses(m: Manager, pid: nat) {
    (m.Forked? || m.Guarded?) && m.pid == pid
  }

  /** A manager that still wants the status of its child. */
  predicate Wants(m: Manager, pid: nat) {
    Uses(m, pid) && (m.Guarded? ==> !m.waited)
  }

  predicate Awaits(g: Guest, pid: nat) {
    exists t :: t in g.managers && Wants(g.managers[t], pid)
  }

  /** What the kernel promises about PIDs: that it does not give one out again while a
      guard for it lives, and not between its listing by the scan and the scan's waitpid. */
  datatype Kernel = Kernel(sparesGuards: bool, sparesListings: bool)

  const CAREFUL := Kernel(true, true)

  predicate NewPid(g: Guest, pid: nat, kernel: Kernel) {
    && pid > 1 && pid !in g.procs
    && (kernel.sparesGuards ==> forall t :: t in g.managers ==> !Uses(g.managers[t], pid))
    && (kernel.sparesListings ==> !g.scan.Names(pid))
  }

  /** One step; events that are not enabled change nothing. */
  function Step(g: Guest, e: Event, kernel: Kernel): Guest {
    match e
    case Take(t) =>
      if g.mutex.None? && t !in g.managers then g.(mutex := Some(t), managers := g.managers[t := Held]) else g
    case Fork(t, pid) =>
      if t in g.managers && g.managers[t].Held? && NewPid(g, pid, kernel) then
        g.(procs := g.procs[pid := Process(true, false)], managers := g.managers[t := Forked(pid)])
      else
        g
    case SpawnFails(t) =>
      if t in g.managers && g.managers[t].Held? then
        g.(mutex := None, managers := g.managers[t := Released])
      else
        g
    case Insert(t) =>
      if t in g.managers && g.managers[t].Forked? then
        var pid := g.managers[t].pid;
        g.(tracked := g.tracked + {pid}, mutex := None, managers := g.managers[t := Guarded(pid, false)])
      else
        g
    case Wait(t) =>
      if t in g.managers && g.managers[t].Guarded? && !g.managers[t].waited
        && g.managers[t].pid in g.procs && g.procs[g.managers[t].pid].exited then
        var pid := g.managers[t].pid;
        g.(procs := g.procs - {pid}, managers := g.managers[t := Guarded(pid, true)])
      else
        g
    case Drop(t) =>
      if t in g.managers && g.managers[t].Guarded? && g.mutex.None? then
        g.(tracked := g.tracked - {g.managers[t].pid}, managers := g.managers[t := Released])
      else
        g
    case Appear(pid) =>
      if NewPid(g, pid, kernel) then g.(procs := g.procs[pid := Process(false, false)]) else g
    case Adopt(pid) =>
      if pid in g.procs then g.(procs := g.procs[pid := g.procs[pid].(ours := true)]) else g
    case Exit(pid) =>
      if pid in g.procs then g.(procs := g.procs[pid := g.procs[pid].(exited := true)]) else g
    case ReapedElsewhere(pid) =>
      if pid in g.procs && !g.procs[pid].ours && g.procs[pid].exited then g.(procs := g.procs - {pid}) else g
    case List(pid) =>
      if pid in g.procs && pid > 1 then g.(scan := Listed(pid)) else g
    case CheckTracked =>
      if g.scan.Listed? && g.mutex.None? then
        g.(scan := if g.scan.pid in g.tracked then Idle else Untracked(g.scan.pid))
      else
        g
    case ReadStat =>
      if g.scan.Untracked? then
        g.(scan := if g.scan.pid in g.procs && g.procs[g.scan.pid].ours then Ours(g.scan.pid) else Idle)
      else
        g
    case Waitpid =>
      if !g.scan.Ours? then
        g
      else
        var pid := g.scan.pid;
        if pid in g.procs && g.procs[pid].ours && g.procs[pid].exited then
          g.(procs := g.procs - {pid}, scan := Idle, stolen := g.stolen || Awaits(g, pid))
        else
          g.(scan := Idle)
  }

  function Run(events: seq<Event>, kernel: Kernel): Guest {
    if events == [] then BOOT else Step(Run(events[..|events| - 1], kernel), events[|events| - 1], kernel)
  }

  /** A manager in `spawn` holds the mutex; a guard's PID is tracked and shared with no
      other manager; the child of a manager that wants its status is there; and the scan
      never gets past the table check with a PID a manager uses. */
  predicate ManagerInv(g: Guest, t: nat)
    requires t in g.managers
  {
    var m := g.managers[t];
    && (m.Held? || m.Forked? ==> g.mutex == Some(t))
    && (m.Guarded? ==> m.pid in g.tracked)
    && (m.Forked? || (m.Guarded? && !m.waited) ==> m.pid > 1 && m.pid in g.procs && g.procs[m.pid].ours)
    && (m.Guarded? ==> forall u :: u in g.managers && u != t ==> !Uses(g.managers[u], m.pid))
    && (g.scan.Untracked? || g.scan.Ours? ==> !Uses(m, g.scan.pid))
  }

  predicate Inv(g: Guest) {
    !g.stolen && forall t :: t in g.managers ==> ManagerInv(g, t)
  }

  lemma StepKeepsManager(g: Guest, e: Event, t: nat)
    requires Inv(g) && t in Step(g, e, CAREFUL).managers
    ensures ManagerInv(Step(g, e, CAREFUL), t)
  {
    assert t in g.managers ==> ManagerInv(g, t);
    if e.Take? || e.Fork? || e.SpawnFails? || e.Insert? || e.Wait? || e.Drop? {
      assert e.t in g.managers ==> ManagerInv(g, e.t);
    }
  }

  lemma StepKeepsInv(g: Guest, e: Event)
    requires Inv(g)
    ensures Inv(Step(g, e, CAREFUL))
  {
    forall t | t in Step(g, e, CAREFUL).managers
      ensures ManagerInv(Step(g, e, CAREFUL), t)
    {
      StepKeepsManager(g, e, t);
    }
    assert forall t :: t in g.managers ==> ManagerInv(g, t);
  }

  /** In every run of a careful kernel the scan never takes the status of a child that a
      guard still waits for. */
  lemma {:induction false} NothingIsStolen(events: seq<Event>)
    ensures Inv(Run(events, CAREFUL)) && !Run(events, CAREFUL).stolen
  {
    if events != [] {
      NothingIsStolen(events[..|events| - 1]);
      StepKeepsInv(Run(events[..|events| - 1], CAREFUL), events[|events| - 1]);
    }
  }

  lemma RunStep(events: seq<Event>, e: Event, kernel: Kernel)
    ensures Run(events + [e], kernel) == Step(Run(events, kernel), e, kernel)
  {
    assert (events + [e])[..|events|] == events;
  }

  /** One scan of an exited, untracked child of PID 1. */
  function Scanned(events: seq<Event>, pid: nat): seq<Event> {
    events + [List(pid)] + [CheckTracked] + [ReadStat] + [Waitpid]
  }

  lemma ScanChecks(events: seq<Event>, pid: nat)
    requires
      var g := Run(events, CAREFUL);
      g.mutex.None? && pid > 1 && pid !in g.tracked && pid in g.procs
    ensures Run(events + [List(pid)] + [CheckTracked], CAREFUL) == Run(events, CAREFUL).(scan := Untracked(pid))
  {
    RunStep(events, List(pid), CAREFUL);
    assert Run(events + [List(pid)], CAREFUL) == Run(events, CAREFUL).(scan := Listed(pid));
    RunStep(events + [List(pid)], CheckTracked, CAREFUL);
  }

  lemma ScanReaps(events: seq<Event>, pid: nat)
    requires
      var g := Run(events, CAREFUL);
      g.scan == Untracked(pid) && pid in g.procs && g.procs[pid] == Process(true, true)
    ensures pid !in Run(events + [ReadStat] + [Waitpid], CAREFUL).procs
  {
    RunStep(events, ReadStat, CAREFUL);
    assert Run(events + [ReadStat], CAREFUL) == Run(events, CAREFUL).(scan := Ours(pid));
    RunStep(events + [ReadStat], Waitpid, CAREFUL);
  }

  lemma ScanCollects(events: seq<Event>, pid: nat)
    requires
      var g := Run(events, CAREFUL);
      g.mutex.None? && pid > 1 && pid !in g.tracked && pid in g.procs && g.procs[pid] == Process(true, true)
    ensures pid !in Run(Scanned(events, pid), CAREFUL).procs
  {
    ScanChecks(events, pid);
    ScanReaps(events + [List(pid)] + [CheckTracked], pid);
  }

  /** A child abandoned on an error path stays protected until its guard drops; after that
      one scan of the exited child collects it. */
  lemma AbandonedIsCollected(events: seq<Event>, t: nat, pid: nat)
    requires
      var g := Run(events, CAREFUL);
      && g.mutex.None? && t in g.managers && g.managers[t] == Guarded(pid, false)
      && pid in g.procs && g.procs[pid].exited
    ensures pid in Run(events, CAREFUL).tracked
    ensures pid !in Run(Scanned(events + [Drop(t)], pid), CAREFUL).procs
  {
    NothingIsStolen(events);
    assert ManagerInv(Run(events, CAREFUL), t);
    RunStep(events, Drop(t), CAREFUL);
    ScanCollects(events + [Drop(t)], pid);
  }

  /** `run` leads to `after`. */
  ghost predicate Reaches(k: Kernel, run: seq<Event>, after: Guest) {
    Run(run, k) == after
  }

  lemma Then(k: Kernel, run: seq<Event>, before: Guest, e: Event, after: Guest) returns (longer: seq<Event>)
    requires Reaches(k, run, before) && Step(before, e, k) == after
    ensures Reaches(k, longer, after)
  {
    longer := run + [e];
    RunStep(run, e, k);
  }

  const DONE := Process(true, true)

  /** The scan has passed the table check for PID 7 when its process, a grandchild, is
      reaped by its own parent. */
  lemma ListedThenGone(k: Kernel) returns (r: seq<Event>)
    ensures Reaches(k, r, BOOT.(scan := Untracked(7)))
  {
    var g := BOOT.(procs := map[7 := Process(false, false)]);
    r := Then(k, [], BOOT, Appear(7), g);
    r := Then(k, r, g, List(7), g.(scan := Listed(7)));
    r := Then(k, r, g.(scan := Listed(7)), CheckTracked, g.(scan := Untracked(7)));
    r := ReapedByParent(k, r, g.(scan := Untracked(7)));
  }

  lemma ReapedByParent(k: Kernel, run: seq<Event>, g: Guest) returns (r: seq<Event>)
    requires Reaches(k, run, g) && g.procs == map[7 := Process(false, false)]
    ensures Reaches(k, r, g.(procs := map[]))
  {
    r := Then(k, run, g, Exit(7), g.(procs := map[7 := Process(false, true)]));
    r := Then(k, r, g.(procs := map[7 := Process(false, true)]), ReapedElsewhere(7), g.(procs := map[]));
  }

  /** Its PID goes to a managed child. */
  lemma ListedThenRecycled(k: Kernel) returns (r: seq<Event>)
    requires !k.sparesListings
    ensures Reaches(k, r, Guest(map[7 := DONE], {7}, None, map[1 := Guarded(7, false)], Untracked(7), false))
  {
    r := ListedThenGone(k);
    r := Spawned(k, r, 1, BOOT.(scan := Untracked(7)));
  }

  /** Thread t spawns a managed child as PID 7, which exits. */
  lemma Spawned(k: Kernel, run: seq<Event>, t: nat, g: Guest) returns (r: seq<Event>)
    requires Reaches(k, run, g) && g.mutex.None? && t !in g.managers && g.procs == map[]
    requires NewPid(g, 7, k)
    ensures Reaches(k, r,
      g.(procs := map[7 := DONE], tracked := g.tracked + {7}, managers := g.managers[t := Guarded(7, false)]))
  {
    var held := g.(mutex := Some(t), managers := g.managers[t := Held]);
    r := Then(k, run, g, Take(t), held);
    var forked := held.(procs := map[7 := Process(true, false)], managers := g.managers[t := Forked(7)]);
    assert held.managers[t := Forked(7)] == forked.managers;
    r := Then(k, r, held, Fork(t, 7), forked);
    var guarded := g.(
      procs := forked.procs, tracked := g.tracked + {7}, managers := g.managers[t := Guarded(7, false)]);
    assert forked.managers[t := Guarded(7, false)] == guarded.managers;
    r := Then(k, r, forked, Insert(t), guarded);
    assert guarded.procs[7 := DONE] == map[7 := DONE];
    r := Then(k, r, guarded, Exit(7), guarded.(procs := map[7 := DONE]));
  }

  lemma WaitpidSteals(k: Kernel, run: seq<Event>, g: Guest, t: nat) returns (r: seq<Event>)
    requires Reaches(k, run, g) && g.scan == Untracked(7) && g.procs == map[7 := DONE]
    requires t in g.managers && g.managers[t] == Guarded(7, false)
    ensures Run(r, k).stolen
  {
    r := Then(k, run, g, ReadStat, g.(scan := Ours(7)));
    assert Wants(g.managers[t], 7);
    r := Then(k, r, g.(scan := Ours(7)), Waitpid, g.(procs := map[7 := DONE] - {7}, scan := Idle, stolen := true));
  }

  /** Both halves of the assumption are needed. On a kernel that may give out a listed PID
      again, whatever it promises about guards, some run steals. */
  lemma ListingMustNotBeRecycled(k: Kernel)
    requires !k.sparesListings
    ensures exists events :: Run(events, k).stolen
  {
    var r := ListedThenRecycled(k);
    r := WaitpidSteals(k, r, Run(r, k), 1);
  }

  /** A child has been waited for, its guard still lives, and its PID is given to the next
      managed child; dropping the old guard then removes the new child's entry. */
  lemma GuardOutlivesChild(k: Kernel) returns (r: seq<Event>)
    requires !k.sparesGuards
    ensures Reaches(k, r, Guest(map[7 := DONE], {}, None, map[1 := Released, 2 := Guarded(7, false)], Idle, false))
  {
    r := Spawned(k, [], 1, BOOT);
    var first := Guest(map[7 := DONE], {7}, None, map[1 := Guarded(7, false)], Idle, false);
    assert Reaches(k, r, first);
    var waited := first.(procs := map[], managers := map[1 := Guarded(7, true)]);
    r := Then(k, r, first, Wait(1), waited);
    r := Spawned(k, r, 2, waited);
    var both := waited.(procs := map[7 := DONE], managers := map[1 := Guarded(7, true), 2 := Guarded(7, false)]);
    assert waited.tracked + {7} == {7};
    assert Reaches(k, r, both);
    r := Then(k, r, both, Drop(1), both.(tracked := {}, managers := map[1 := Released, 2 := Guarded(7, false)]));
  }

  /** And so it does on a kernel that may give out the PID of a living guard again,
      whatever it promises about listings. */
  lemma GuardMustNotBeRecycled(k: Kernel)
    requires !k.sparesGuards
    ensures exists events :: Run(events, k).stolen
  {
    var r := GuardOutlivesChild(k);
    var g := Run(r, k);
    r := Then(k, r, g, List(7), g.(scan := Listed(7)));
    r := Then(k, r, g.(scan := Listed(7)), CheckTracked, g.(scan := Untracked(7)));
    r := WaitpidSteals(k, r, g.(scan := Untracked(7)), 2);
  }

  /** The assumption is exact: the scan is harmless in all runs on careful kernels and on
      no others. */
  lemma HarmlessExactlyIfCareful(k: Kernel)
    ensures (forall events :: !Run(events, k).stolen) <==> k == CAREFUL
  {
    if k == CAREFUL {
      forall events
        ensures !Run(events, k).stolen
      {
        NothingIsStolen(events);
      }
    } else if !k.sparesListings {
      ListingMustNotBeRecycled(k);
    } else {
      GuardMustNotBeRecycled(k);
    }
  }
}
