/** Identity-safe management of helper processes (process.rs).

    A numeric PID is not an identity. The kernel state is a value, `World`; between any
    two system calls of the CLI the rest of the system may replace it by any world it
    `Drifts` to: processes die, turn into zombies, PIDs are recycled, /proc/<pid>/exe
    becomes unreadable. What cannot happen is that a helper instance comes back to life.
 */
module Processes {
  import opened Outcomes

  /** One process incarnation: boot ID, PID and kernel start tick. */
  datatype Instance = Instance(boot: nat, pid: nat, start: nat)

  /** What an identity file records: the incarnation and the inode of its executable. */
  datatype Identity = Identity(inst: Instance, exe: nat)

  /** What procfs shows under /proc/<pid>. */
  datatype ProcEntry = ProcEntry(start: nat, exe: nat, zombie: bool, exeReadable: bool)

  datatype Signal = Term | Kill

  datatype Delivery = Delivery(to: Instance, signal: Signal, viaPidfd: bool)

  datatype Status = Missing | Running(identity: Identity) | Stale(recorded: Identity)

  /** What lstat says of a path at which a helper is to listen. */
  datatype Endpoint = Socket | OtherFile

  /** `helpers` maps every helper ever spawned to its executable; `children` are the
      helpers this CLI process spawned and has not reaped; `endpoints` are paths that exist. */
  datatype World = World(
    boot: nat,
    procs: map<nat, ProcEntry>,
    helpers: map<Instance, nat>,
    children: set<Instance>,
    endpoints: map<string, Endpoint>)

  predicate Present(w: World, i: Instance) {
    i.boot == w.boot && i.pid in w.procs && w.procs[i.pid].start == i.start
  }

  predicate Live(w: World, i: Instance) {
    Present(w, i) && !w.procs[i.pid].zombie
  }

  /** A live helper still runs the executable it was spawned with, and a child that has
      not been reaped keeps its PID. */
  predicate Wf(w: World) {
    && (forall i :: i in w.helpers && Live(w, i) ==> w.procs[i.pid].exe == w.helpers[i])
    && (forall i :: i in w.children ==> i in w.helpers && Present(w, i))
  }

  predicate Drifts(a: World, b: World) {
    && Wf(b)
    && b.boot == a.boot
    && b.helpers == a.helpers
    && b.children <= a.children
    && (forall i :: i in a.helpers && Live(b, i) ==> Live(a, i))
  }

  /** A host reboot: no process survives. */
  predicate Rebooted(a: World, b: World) {
    Wf(b) && b.helpers == a.helpers && forall i :: i in a.helpers ==> !Live(b, i)
  }

  /** The effect of a whole command: like `Drifts`, but new helpers may have appeared. */
  predicate Evolves(a: World, b: World) {
    && Wf(b)
    && b.boot == a.boot
    && (forall i :: i in a.helpers ==> i in b.helpers && b.helpers[i] == a.helpers[i])
    && (forall i :: i in a.helpers && Live(b, i) ==> Live(a, i))
  }

  /** A process whose identity can be captured. */
  predicate Capturable(w: World, i: Instance) {
    Live(w, i) && w.procs[i.pid].exeReadable
  }

  /** Some instance of `helpers` could not be captured in `at`, between `a` and `b`. */
  predicate Hidden(a: World, at: World, b: World, helpers: set<Instance>) {
    && Evolves(a, at) && Evolves(at, b)
    && exists i :: i in helpers && i in at.helpers && !Capturable(at, i)
  }

  lemma {:induction false} FreePid(taken: set<nat>) returns (free: nat)
    ensures forall n :: n in taken ==> n < free
  {
    free := 0;
    if taken != {} {
      var n :| n in taken;
      free := FreePid(taken - {n});
      free := if free <= n then n + 1 else free;
      assert forall k :: k in taken ==> k == n || k in taken - {n};
    }
  }

  predicate Recorded(w: World, id: Identity) {
    id.inst in w.helpers && w.helpers[id.inst] == id.exe
  }

  /** What `matches_running_process` computes from its three reads: /proc/<pid>/stat in the
      world `stat`, the boot ID in `boot`, /proc/<pid>/exe in `exe`. */
  predicate MatchesReads(stat: World, boot: World, exe: World, id: Identity) {
    && id.inst.pid in stat.procs
    && id.inst.boot == boot.boot
    && id.inst.start == stat.procs[id.inst.pid].start
    && !stat.procs[id.inst.pid].zombie
    && id.inst.pid in exe.procs
    && (exe.procs[id.inst.pid].exeReadable ==> exe.procs[id.inst.pid].exe == id.exe)
  }

  /** The identity check is exact when nothing moves between its reads: it says "running"
      of a live process precisely when its executable is hidden or unchanged. For a helper
      that has not replaced its image that is being alive. */
  lemma MatchesIsExact(w: World, id: Identity)
    ensures MatchesReads(w, w, w, id) <==>
      Live(w, id.inst) && (w.procs[id.inst.pid].exeReadable ==> w.procs[id.inst.pid].exe == id.exe)
    ensures Wf(w) && Recorded(w, id) ==> (MatchesReads(w, w, w, id) <==> Live(w, id.inst))
  {
  }

  /** When the system moves between the reads the answer is still right about one of the
      two ends: "running" was true at the first read, "exited" is true at the last. */
  lemma MatchesReadsIsSound(stat: World, boot: World, exe: World, id: Identity)
    requires Wf(stat) && Recorded(stat, id) && Drifts(stat, boot) && Drifts(boot, exe)
    ensures MatchesReads(stat, boot, exe, id) ==> Live(stat, id.inst)
    ensures !MatchesReads(stat, boot, exe, id) ==> !Live(exe, id.inst)
  {
  }

  /** Without the clause of `Wf` about executables the check is wrong: a helper that
      replaced its own image by execve is alive, and the three reads report it as exited. */
  lemma ReplacedImageIsReportedExited()
    ensures exists w: World, id: Identity ::
      Recorded(w, id) && Live(w, id.inst) && !MatchesReads(w, w, w, id)
  {
    var i := Instance(1, 7, 3);
    var w := World(1, map[7 := ProcEntry(3, 11, false, true)], map[i := 10], {}, map[]);
    assert Recorded(w, Identity(i, 10)) && Live(w, i) && !MatchesReads(w, w, w, Identity(i, 10));
  }

  /** A dead helper stays dead, whatever any number of later commands and reboots do. */
  lemma {:induction false} DeadStaysDead(run: seq<World>, i: Instance, k: nat)
    requires k < |run| && i in run[0].helpers && !Live(run[0], i)
    requires forall j :: 0 <= j < |run| - 1 ==> Evolves(run[j], run[j + 1]) || Rebooted(run[j], run[j + 1])
    ensures i in run[k].helpers && !Live(run[k], i)
  {
    if k > 0 {
      DeadStaysDead(run, i, k - 1);
      assert Evolves(run[k - 1], run[k]) || Rebooted(run[k - 1], run[k]);
    }
  }

  /** One identity file in a machine's session directory. `spawned` remembers every
      helper that was ever started under this file. */
  class IdentityFile {
    var content: Option<Identity>
    ghost var spawned: set<Instance>

    /** Every live helper started under this file is the one the file names. */
    ghost predicate Names(w: World)
      reads this
    {
      && spawned <= w.helpers.Keys
      && (content.Some? ==> content.value.inst in spawned && Recorded(w, content.value))
      && (forall i :: i in spawned && Live(w, i) ==> content.Some? && content.value.inst == i)
    }

    ghost predicate AllDead(w: World)
      reads this
    {
      forall i :: i in spawned ==> !Live(w, i)
    }

    constructor ()
      ensures content == None && spawned == {}
    {
      content := None;
      spawned := {};
    }
  }

  class Kernel {
    var w: World
    var delivered: seq<Delivery>
    /** True while a TerminationSignalBlock is held. */
    var masked: bool
    const pidfdSupported: bool
    /** No system call fails and nobody kills the CLI; for the progress statements. */
    const faultFree: bool
    /** Which signals a helper that gets one has died of by the next system call. */
    const deadly: set<Signal>

    /** No signal was ever sent to a process that is not a spawned helper. */
    ghost predicate Disciplined()
      reads this
    {
      pidfdSupported ==> forall k :: 0 <= k < |delivered| ==> delivered[k].to in w.helpers
    }

    constructor (pidfdSupported: bool, faultFree: bool, deadly: set<Signal>, boot: nat)
      ensures Wf(w) && !masked && w.helpers == map[] && Disciplined()
      ensures this.pidfdSupported == pidfdSupported && this.faultFree == faultFree && this.deadly == deadly
    {
      this.deadly := deadly;
      this.pidfdSupported := pidfdSupported;
      this.faultFree := faultFree;
      w := World(boot, map[], map[], {}, map[]);
      delivered := [];
      masked := false;
    }

    /** Everything that can happen around one system call: the system moves on, and then
        the call succeeds, fails, or the CLI is killed before or after its effect. */
    method Tick() returns (s: Step)
      requires Wf(w)
      modifies this`w
      ensures Drifts(old(w), w) && w.children == old(w.children)
      ensures masked ==> !s.Interrupt?
      ensures faultFree ==> s.Proceed?
    {
      var next: World := *;
      if Drifts(w, next) && next.children == w.children {
        w := next;
      }
      s := *;
      if faultFree {
        s := Proceed;
      } else if masked && s.Interrupt? {
        s := Fail;
      }
    }

    /** A new CLI process: children of the previous one now belong to init. */
    method Begin()
      requires Wf(w)
      modifies this`w, this`masked
      ensures Drifts(old(w), w) && w.children == {} && !masked
    {
      w := w.(children := {});
      masked := false;
    }

    /** The host reboots: every process is gone and a boot ID never seen before is drawn. */
    method Reboot(boot: nat)
      requires Wf(w) && forall i :: i in w.helpers ==> i.boot != boot
      modifies this`w, this`masked
      ensures Rebooted(old(w), w) && !masked && w.children == {}
    {
      w := World(boot, map[], w.helpers, {}, w.endpoints);
      masked := false;
    }

    /** process.rs `matches_running_process`: three separate reads of procfs, each in a
        world of its own. */
    method ReadProcfs(id: Identity)
      returns (o: Outcome<bool>, ghost stat: World, ghost boot: World, ghost exe: World)
      requires Wf(w)
      modifies this`w
      ensures Drifts(old(w), stat) && Drifts(stat, boot) && Drifts(boot, exe) && exe == w
      ensures w.children == old(w.children)
      ensures masked ==> !o.Interrupted?
      ensures faultFree ==> o.Ok?
      ensures o.Ok? ==> o.value == MatchesReads(stat, boot, exe, id)
    {
      var pid := id.inst.pid;
      var read := Tick();
      stat, boot, exe := w, w, w;
      if !read.Proceed? {
        return read.PropagateFailure(), w, w, w;
      }
      if pid !in w.procs {
        return Ok(false), w, w, w;
      }
      var entry := w.procs[pid];
      read := Tick();
      boot, exe := w, w;
      if !read.Proceed? {
        return read.PropagateFailure(), stat, w, w;
      }
      if id.inst.boot != w.boot || id.inst.start != entry.start {
        return Ok(false), stat, w, w;
      }
      if entry.zombie {
        return Ok(false), stat, w, w;
      }
      read := Tick();
      exe := w;
      if !read.Proceed? {
        return read.PropagateFailure(), stat, boot, w;
      }
      if pid !in w.procs {
        return Ok(false), stat, boot, w;
      }
      if !w.procs[pid].exeReadable {
        return Ok(true), stat, boot, w;
      }
      return Ok(w.procs[pid].exe == id.exe), stat, boot, w;
    }

    /** The same for a recorded helper: true means it was live, false that it is dead. */
    method MatchesRunning(id: Identity) returns (o: Outcome<bool>)
      requires Wf(w) && Recorded(w, id)
      modifies this`w
      ensures Drifts(old(w), w) && w.children == old(w.children)
      ensures masked ==> !o.Interrupted?
      ensures faultFree ==> o.Ok?
      ensures o == Ok(true) ==> Live(old(w), id.inst)
      ensures o == Ok(false) ==> !Live(w, id.inst)
    {
      ghost var stat, boot, exe;
      o, stat, boot, exe := ReadProcfs(id);
      MatchesReadsIsSound(stat, boot, exe, id);
    }

    /** The pidfd refers to whichever process holds the PID now. None stands for ESRCH,
        and on a kernel without pidfds for ENOSYS or EINVAL. */
    method PidfdOpen(pid: nat) returns (o: Outcome<Option<Instance>>)
      requires Wf(w)
      modifies this`w
      ensures Drifts(old(w), w) && w.children == old(w.children)
      ensures masked ==> !o.Interrupted?
      ensures faultFree ==> o.Ok?
      ensures o.Ok? && o.value.Some? ==> o.value.value.pid == pid && Present(w, o.value.value)
      ensures o.Ok? && o.value.None? && pidfdSupported ==> pid !in w.procs
      ensures o.Ok? && !pidfdSupported ==> o.value.None?
    {
      var _ :- Tick();
      if !pidfdSupported || pid !in w.procs {
        return Ok(None);
      }
      return Ok(Some(Instance(w.boot, pid, w.procs[pid].start)));
    }

    /** process.rs `send_signal_checked`. On a pidfd kernel a signal reaches only the
        recorded instance and the kill(2) fallback is never used; `Ok(false)` means the
        instance is dead. */
    method SendSignalChecked(id: Identity, signal: Signal) returns (o: Outcome<bool>)
      requires Wf(w) && Recorded(w, id)
      modifies this`w, this`delivered
      ensures Drifts(old(w), w) && w.children == old(w.children)
      ensures masked ==> !o.Interrupted?
      ensures pidfdSupported ==>
        delivered == old(delivered) + (if o == Ok(true) then [Delivery(id.inst, signal, true)] else [])
      ensures !pidfdSupported ==> exists holder: Instance ::
        holder.pid == id.inst.pid &&
        delivered == old(delivered) + (if o == Ok(true) then [Delivery(holder, signal, false)] else [])
      ensures o == Ok(false) ==> !Live(w, id.inst)
      ensures old(Disciplined()) ==> Disciplined()
      ensures faultFree ==> o.Ok?
      ensures pidfdSupported && signal in deadly && o.Ok? ==> !Live(w, id.inst)
    {
      var fd :- PidfdOpen(id.inst.pid);
      if fd.Some? {
        var matches :- MatchesRunning(id);
        if !matches {
          return Ok(false);
        }
        var _ :- Tick();
        if Present(w, fd.value) {
          delivered := delivered + [Delivery(fd.value, signal, true)];
          if signal in deadly {
            w := w.(procs := w.procs[fd.value.pid := w.procs[fd.value.pid].(zombie := true)]);
          }
          return Ok(true);
        }
        return Ok(false);
      }
      var current :- MatchesRunning(id);
      if !current {
        return Ok(false);
      }
      var _ :- Tick();
      if id.inst.pid in w.procs {
        var holder := Instance(w.boot, id.inst.pid, w.procs[id.inst.pid].start);
        delivered := delivered + [Delivery(holder, signal, false)];
        return Ok(true);
      }
      return Ok(false);
    }

    /** process.rs `wait_for_exit`; the deadline is some number of polls. */
    method WaitForExit(id: Identity) returns (o: Outcome<bool>)
      requires Wf(w) && Recorded(w, id)
      modifies this`w
      ensures Drifts(old(w), w) && w.children == old(w.children)
      ensures masked ==> !o.Interrupted?
      ensures o == Ok(true) ==> !Live(w, id.inst)
      ensures o == Ok(false) ==> Live(old(w), id.inst)
      ensures faultFree ==> o.Ok?
      ensures faultFree && !Live(old(w), id.inst) ==> o == Ok(true)
    {
      var polls: nat := *;
      while true
        invariant Drifts(old(w), w) && w.children == old(w.children)
        decreases polls
      {
        var current :- MatchesRunning(id);
        if !current {
          return Ok(true);
        }
        if polls == 0 {
          return Ok(false);
        }
        polls := polls - 1;
      }
    }

    /** `sent` went to `i` and to nobody else: nothing, SIGTERM, or SIGTERM and then
        SIGKILL. */
    static predicate Escalates(i: Instance, sent: seq<Delivery>) {
      sent <= [Delivery(i, Term, true), Delivery(i, Kill, true)]
    }

    /** process.rs `terminate`: TERM, wait, KILL, wait. Success means dead. Without faults
        it succeeds with a helper that obeys SIGTERM; one that obeys only SIGKILL ends up
        dead, and the result is an error only if it died without the SIGKILL, by itself after
        the wait. */
    method Terminate(id: Identity) returns (o: Outcome<()>)
      requires Wf(w) && Recorded(w, id)
      modifies this`w, this`delivered
      ensures Drifts(old(w), w) && w.children == old(w.children)
      ensures masked ==> !o.Interrupted?
      ensures o.Ok? ==> !Live(w, id.inst)
      ensures pidfdSupported ==> old(delivered) <= delivered && Escalates(id.inst, delivered[|old(delivered)|..])
      ensures old(Disciplined()) ==> Disciplined()
      ensures faultFree ==> !o.Interrupted?
      ensures faultFree && pidfdSupported && Term in deadly ==> o.Ok?
      ensures faultFree && pidfdSupported && Kill in deadly ==> !Live(w, id.inst)
      ensures faultFree && pidfdSupported && Kill in deadly && o.Err? ==> |delivered| == |old(delivered)| + 1
    {
      var sent :- SendSignalChecked(id, Term);
      if !sent {
        return Ok(());
      }
      var exited :- WaitForExit(id);
      if exited {
        return Ok(());
      }
      sent :- SendSignalChecked(id, Kill);
      if !sent {
        return Err;
      }
      exited :- WaitForExit(id);
      return if exited then Ok(()) else Err;
    }

    /** `Child::try_wait`: a child that has exited by itself, which it had in `at`, is reaped;
        one that runs is left alone. */
    method TryWait(child: Instance) returns (o: Outcome<bool>, ghost at: World)
      requires Wf(w) && child in w.helpers && (child in w.children || !Live(w, child))
      modifies this`w
      ensures Drifts(old(w), at) && Drifts(at, w) && at.children == old(w.children)
      ensures w.children == old(w.children) || w.children == old(w.children) - {child}
      ensures child in w.children || !Live(w, child)
      ensures masked ==> !o.Interrupted?
      ensures faultFree ==> o.Ok?
      ensures o == Ok(true) ==> !Live(at, child) && child !in w.children
      ensures o != Ok(true) ==> w == at
      ensures o == Ok(false) ==> Live(w, child)
    {
      var waited := Tick();
      at := w;
      if !waited.Proceed? {
        return waited.PropagateFailure(), at;
      }
      if child !in w.children {
        return Ok(true), at;
      }
      if !w.procs[child.pid].zombie {
        return Ok(false), at;
      }
      w := w.(procs := w.procs - {child.pid}, children := w.children - {child});
      return Ok(true), at;
    }

    method WaitForChild(child: Instance) returns (o: Outcome<bool>)
      requires Wf(w) && child in w.helpers && (child in w.children || !Live(w, child))
      modifies this`w
      ensures Drifts(old(w), w)
      ensures w.children == old(w.children) || w.children == old(w.children) - {child}
      ensures child in w.children || !Live(w, child)
      ensures masked ==> !o.Interrupted?
      ensures faultFree ==> o.Ok?
      ensures o == Ok(true) ==> !Live(w, child)
      ensures o == Ok(false) ==> Live(w, child)
    {
      var polls: nat := *;
      while true
        invariant Drifts(old(w), w)
        invariant w.children == old(w.children) || w.children == old(w.children) - {child}
        invariant child in w.children || !Live(w, child)
        decreases polls
      {
        var exited, _ :- TryWait(child);
        if exited {
          return Ok(true);
        }
        if polls == 0 {
          return Ok(false);
        }
        polls := polls - 1;
      }
    }

    /** process.rs `terminate_spawned`: as `Terminate`, but for a child of this process. A
        helper that dies of either signal is dead afterwards, faults apart. */
    method TerminateSpawned(id: Identity) returns (o: Outcome<()>)
      requires Wf(w) && Recorded(w, id) && (id.inst in w.children || !Live(w, id.inst))
      modifies this`w, this`delivered
      ensures Drifts(old(w), w)
      ensures w.children == old(w.children) || w.children == old(w.children) - {id.inst}
      ensures id.inst in w.children || !Live(w, id.inst)
      ensures masked ==> !o.Interrupted?
      ensures o.Ok? ==> !Live(w, id.inst)
      ensures pidfdSupported ==> old(delivered) <= delivered && Escalates(id.inst, delivered[|old(delivered)|..])
      ensures faultFree ==> !o.Interrupted?
      ensures faultFree && pidfdSupported && (Term in deadly || Kill in deadly) ==> !Live(w, id.inst)
      ensures old(Disciplined()) ==> Disciplined()
      ensures faultFree && pidfdSupported && Term in deadly ==>
        |delivered| <= |old(delivered)| + 1 && (|delivered| > |old(delivered)| ==> o.Ok?)
      ensures faultFree && !Live(old(w), id.inst) ==> o.Ok?
    {
      var exited, _ :- TryWait(id.inst);
      if exited {
        return Ok(());
      }
      var sent :- SendSignalChecked(id, Term);
      if !sent {
        return Err;
      }
      exited :- WaitForChild(id.inst);
      if exited {
        return Ok(());
      }
      sent :- SendSignalChecked(id, Kill);
      if !sent {
        return Err;
      }
      exited :- WaitForChild(id.inst);
      return if exited then Ok(()) else Err;
    }

    /** process.rs `ProcessIdentity::capture` of a child that has not been reaped. */
    method Capture(child: Instance) returns (o: Outcome<Identity>)
      requires Wf(w) && child in w.children
      modifies this`w
      ensures Drifts(old(w), w) && w.children == old(w.children)
      ensures masked ==> !o.Interrupted?
      ensures o.Ok? ==> o.value.inst == child && Recorded(w, o.value)
      ensures faultFree && !o.Ok? ==> !Capturable(w, child)
    {
      var _ :- Tick();
      var start := w.procs[child.pid].start;
      var _ :- Tick();
      var e := w.procs[child.pid];
      if e.zombie || !e.exeReadable {
        return Err;
      }
      var _ :- Tick();
      return Ok(Identity(Instance(w.boot, child.pid, start), e.exe));
    }

    /** `child.kill()` and `child.wait()`: wait returns only once the child is gone. */
    method KillAndWait(child: Instance)
      requires Wf(w) && child in w.children
      modifies this`w, this`delivered
      ensures Drifts(old(w), w) && w.children == old(w.children) - {child}
      ensures !Live(w, child)
      ensures delivered == old(delivered) || delivered == old(delivered) + [Delivery(child, Kill, false)]
      ensures old(Disciplined()) ==> Disciplined()
      ensures faultFree ==> delivered != old(delivered)
    {
      var sent := Tick();
      if sent.Proceed? {
        delivered := delivered + [Delivery(child, Kill, false)];
      }
      w := w.(procs := w.procs - {child.pid}, children := w.children - {child});
    }

    /** process.rs `write_pid_file`: create a temporary, then link(2) it into place. */
    method WritePidFile(f: IdentityFile, id: Identity) returns (o: Outcome<()>)
      requires Wf(w)
      modifies this`w, f`content
      ensures Drifts(old(w), w) && w.children == old(w.children)
      ensures masked ==> !o.Interrupted?
      ensures f.content == old(f.content) || (old(f.content) == None && f.content == Some(id))
      ensures o.Ok? ==> old(f.content) == None && f.content == Some(id)
      ensures faultFree && old(f.content) == None ==> o.Ok?
    {
      var _ :- Tick();
      if f.content.Some? {
        return Err;
      }
      var _ :- Tick();
      var _ :- Tick();
      if f.content.Some? {
        return Err;
      }
      f.content := Some(id);
      var _ :- Tick();
      var _ :- Tick();
      return Ok(());
    }

    /** process.rs `remove_pid_file`: only if it still names the expected process. */
    method RemovePidFile(f: IdentityFile, expected: Identity) returns (o: Outcome<()>)
      requires Wf(w)
      modifies this`w, f`content
      ensures Drifts(old(w), w) && w.children == old(w.children)
      ensures masked ==> !o.Interrupted?
      ensures faultFree ==> !o.Interrupted?
      ensures faultFree && (old(f.content) == None || old(f.content) == Some(expected)) ==> o.Ok?
      ensures f.content == old(f.content) || (old(f.content) == Some(expected) && f.content == None)
      ensures o.Ok? ==> f.content == None
      ensures old(f.content.Some?) && old(f.content) != Some(expected) ==> !o.Ok?
    {
      var _ :- Tick();
      if f.content.None? {
        return Ok(());
      }
      if f.content.value != expected {
        return Err;
      }
      var _ :- Tick();
      f.content := None;
      var _ :- Tick();
      return Ok(());
    }

    /** process.rs `inspect_pid_file`. */
    method InspectPidFile(f: IdentityFile) returns (o: Outcome<Status>)
      requires Wf(w) && f.Names(w)
      modifies this`w
      ensures Drifts(old(w), w) && w.children == old(w.children)
      ensures masked ==> !o.Interrupted?
      ensures faultFree ==> o.Ok?
      ensures o.Ok? && o.value.Missing? ==> f.content == None
      ensures o.Ok? && o.value.Running? ==> f.content == Some(o.value.identity) && Live(old(w), o.value.identity.inst)
      ensures o.Ok? && o.value.Stale? ==> f.content == Some(o.value.recorded)
      ensures o.Ok? && !o.value.Running? ==> f.AllDead(w)
    {
      var _ :- Tick();
      if f.content.None? {
        return Ok(Missing);
      }
      var current :- MatchesRunning(f.content.value);
      return Ok(if current then Running(f.content.value) else Stale(f.content.value));
    }

    /** process.rs `remove_stale_pid_file`: a running process is never touched. */
    method RemoveStalePidFile(f: IdentityFile) returns (o: Outcome<bool>)
      requires Wf(w) && f.Names(w)
      modifies this`w, f`content
      ensures Drifts(old(w), w) && w.children == old(w.children) && f.Names(w)
      ensures masked ==> !o.Interrupted?
      ensures faultFree && f.AllDead(old(w)) ==> o.Ok?
      ensures f.content == old(f.content) || f.content == None
      ensures o.Ok? ==> f.content == None && f.AllDead(w)
      ensures o.Ok? ==> o.value == old(f.content).Some?
    {
      var status :- InspectPidFile(f);
      match status
      case Missing =>
        return Ok(false);
      case Running(_) =>
        return Err;
      case Stale(recorded) =>
        var _ :- RemovePidFile(f, recorded);
        return Ok(true);
    }

    /** A PID that neither a process nor any helper so far has. */
    method FreshPid() returns (pid: nat)
      ensures pid !in w.procs && forall i :: i in w.helpers ==> i.pid != pid
    {
      var taken := w.procs.Keys + set i | i in w.helpers :: i.pid;
      ghost var free := FreePid(taken);
      assert free !in taken;
      pid :| pid !in taken;
      assert forall i :: i in w.helpers ==> i.pid in taken;
    }

    /** fork and exec: a process incarnation that never existed before appears. */
    method Fork(f: IdentityFile) returns (child: Option<Instance>)
      requires Wf(w) && f.Names(w) && f.content == None
      modifies this`w, f`spawned
      ensures Evolves(old(w), w)
      ensures child.None? ==> Drifts(old(w), w) && w.children == old(w.children) && f.spawned == old(f.spawned)
      ensures child.Some? ==>
        && child.value !in old(w.helpers)
        && w.helpers.Keys == old(w.helpers.Keys) + {child.value}
        && w.children == old(w.children) + {child.value}
        && f.spawned == old(f.spawned) + {child.value}
        && Capturable(w, child.value)
      ensures f.spawned <= w.helpers.Keys
      ensures forall i :: i in old(f.spawned) ==> !Live(w, i)
      ensures faultFree ==> child.Some?
    {
      var spawned := Tick();
      var pid: nat, start: nat, exe: nat := *, *, *;
      if !spawned.Proceed? {
        return None;
      }
      if pid in w.procs || Instance(w.boot, pid, start) in w.helpers {
        pid := FreshPid();
      }
      var i := Instance(w.boot, pid, start);
      w := w.(procs := w.procs[pid := ProcEntry(start, exe, false, true)],
      helpers := w.helpers[i := exe],
      children := w.children + {i});
      f.spawned := f.spawned + {i};
      return Some(i);
    }

    /** The guarded window of `spawn_managed` after the fork: capture the identity and
        commit it, or kill the child. Faults apart it is killed only if it could not be
        captured. */
    method RecordOrKill(f: IdentityFile, child: Instance) returns (o: Outcome<Identity>, ghost at: World)
      requires Wf(w) && masked && child in w.children && child in f.spawned
      requires f.content == None && f.spawned <= w.helpers.Keys
      requires forall i :: i in f.spawned && i != child ==> !Live(w, i)
      modifies this`w, this`delivered, f`content
      ensures Drifts(old(w), w) && f.Names(w) && !o.Interrupted?
      ensures w.children == old(w.children) - (if o.Ok? then {} else {child})
      ensures o.Ok? ==> f.content == Some(o.value) && o.value.inst == child && Recorded(w, o.value)
      ensures !o.Ok? ==> f.AllDead(w)
      ensures faultFree && !o.Ok? ==> Hidden(old(w), at, w, {child})
      ensures delivered == old(delivered) || delivered == old(delivered) + [Delivery(child, Kill, false)]
      ensures old(Disciplined()) ==> Disciplined()
    {
      var identity := Capture(child);
      at := w;
      if !identity.Ok? {
        KillAndWait(child);
        return Err, at;
      }
      var written := WritePidFile(f, identity.value);
      if !written.Ok? {
        KillAndWait(child);
        return Err, at;
      }
      return identity, at;
    }

    /** process.rs `spawn_managed`. Spawn, capture and record happen with termination
        signals masked; if recording fails the child is killed before the mask is lifted.
        On every exit each live helper of the file is the one it names. Faults apart, failure
        without an identity file means that the child could not be captured in `at`. */
    method SpawnManaged(f: IdentityFile) returns (o: Outcome<Identity>, ghost at: World)
      requires Wf(w) && f.Names(w) && !masked
      modifies this`w, this`delivered, this`masked, f
      ensures Evolves(old(w), w) && f.Names(w) && !masked
      ensures faultFree ==> !o.Interrupted?
      ensures w.helpers.Keys - old(w.helpers.Keys) == f.spawned - old(f.spawned)
      ensures old(f.spawned) <= f.spawned && old(w.children) <= w.children
      ensures o.Ok? ==>
        && old(f.content) == None && f.content == Some(o.value)
        && o.value.inst !in old(w.helpers) && o.value.inst in w.children
        && Recorded(w, o.value)
      ensures old(f.content).Some? ==> f.content == old(f.content) && f.spawned == old(f.spawned)
      ensures !o.Ok? && old(f.content).None? ==> f.AllDead(w)
      ensures faultFree && !o.Ok? && old(f.content).None? ==> Hidden(old(w), at, w, f.spawned - old(f.spawned))
      ensures |delivered| == |old(delivered)| ||
        (|delivered| == |old(delivered)| + 1 && delivered[|old(delivered)|].to in f.spawned - old(f.spawned))
      ensures old(delivered) <= delivered
      ensures old(Disciplined()) ==> Disciplined()
    {
      at := w;
      var _ :- Tick();
      if f.content.Some? {
        return Err, at;
      }
      var _ :- Tick();
      var _ :- Tick();
      masked := true;
      var child := Fork(f);
      if child.None? {
        masked := false;
        return Err, at;
      }
      o, at := RecordOrKill(f, child.value);
      masked := false;
    }
  }
}
