/** The two-helper lifecycle of one machine (vmm.rs and `clear_session` of storage.rs).

    Each machine has a VMM and a network helper, each named by an identity file in the
    session directory. That directory is the only handle to the live helpers and is also
    deleted wholesale. `Valid` is the invariant every command keeps on every exit,
    including being killed between any two system calls: a live helper is always named.
 */
module Lifecycle {
  import opened Outcomes
  import opened Processes

  /** The session directory apart from the identity files. */
  datatype Session = Session(directory: bool, marker: bool)

  datatype Item = VmmFile | NetworkFile | Marker

  datatype VmmStatus = StatusRunning | StatusStopped | StatusDegraded

  /** Where the network helper and the VMM are to listen, below the session directory. */
  const NETWORK_SOCKET := "net.sock"
  const API_SOCKET := "api.sock"

  predicate Listening(w: World, path: string) {
    path in w.endpoints && w.endpoints[path].Socket?
  }

  /** Two moments of a wait for readiness: in `ran` the child was seen running, in `up`,
      right after that, its socket was there. */
  datatype Readiness = Readiness(ran: World, up: World)

  /** Between `before` and `after` the helper `i` was seen running and then listening. */
  predicate CameUp(before: World, seen: Readiness, after: World, i: Instance, path: string) {
    && Evolves(before, seen.ran) && Live(seen.ran, i)
    && Drifts(seen.ran, seen.up) && Listening(seen.up, path)
    && Evolves(seen.up, after)
  }

  /** At some moment a helper of this start could not be captured, or it was gone or had no
      socket: what makes a start fail when no system call does. */
  ghost predicate Lacking(before: World, at: World, after: World, started: set<Instance>, path: string) {
    && Evolves(before, at) && Evolves(at, after)
    && exists i :: i in started && i in at.helpers && !(Capturable(at, i) && Listening(at, path))
  }

  /** What the two identity files `vmm` and `network` name is live. */
  predicate BothLive(vmm: Option<Identity>, network: Option<Identity>, w: World) {
    vmm.Some? && network.Some? && Live(w, vmm.value.inst) && Live(w, network.value.inst)
  }

  /** What the VMM can be asked to do over its API socket. */
  datatype Request = PowerButton | Shutdown

  datatype Command = Start | Stop | Status | Reboot(boot: nat)

  class Machine {
    const kernel: Kernel
    const vmmFile: IdentityFile
    const networkFile: IdentityFile
    var session: Session
    /** The ownership marker in the machine root matches the record. */
    var owned: bool
    /** What the VMM has been asked to do. */
    var asked: seq<Request>
    /** Stand for the contents of the two persistent disks. */
    var environmentDisk: nat
    var workspaceDisk: nat

    ghost predicate Valid()
      reads this, kernel, vmmFile, networkFile
    {
      && Wf(kernel.w) && !kernel.masked && kernel.Disciplined()
      && vmmFile != networkFile
      && vmmFile.spawned !! networkFile.spawned
      && (session.marker ==> session.directory)
      && vmmFile.Names(kernel.w)
      && networkFile.Names(kernel.w)
    }

    ghost predicate NoneLive()
      reads this, kernel, vmmFile, networkFile
    {
      vmmFile.AllDead(kernel.w) && networkFile.AllDead(kernel.w)
    }

    /** Nothing fails, and every helper that is told to stop by SIGTERM does. */
    predicate Obliging() {
      kernel.faultFree && kernel.pidfdSupported && Term in kernel.deadly
    }

    /** Nothing fails, and a helper that is sent both signals dies. */
    predicate Mortal() {
      kernel.faultFree && kernel.pidfdSupported && (Term in kernel.deadly || Kill in kernel.deadly)
    }

    ghost predicate BothNamed()
      reads this, vmmFile, networkFile
    {
      vmmFile.content.Some? && networkFile.content.Some?
    }

    constructor (kernel: Kernel)
      requires Wf(kernel.w) && !kernel.masked && kernel.Disciplined()
      ensures Valid() && this.kernel == kernel && fresh(vmmFile) && fresh(networkFile)
    {
      this.kernel := kernel;
      vmmFile := new IdentityFile();
      networkFile := new IdentityFile();
      session := Session(true, true);
      owned := true;
      asked := [];
      environmentDisk := 0;
      workspaceDisk := 0;
    }

    /** Nothing of the machine has changed, no signal was sent and no request made. */
    twostate predicate Untouched()
      reads this, kernel, vmmFile, networkFile
    {
      && kernel.delivered == old(kernel.delivered) && asked == old(asked) && session == old(session)
      && vmmFile.content == old(vmmFile.content) && networkFile.content == old(networkFile.content)
      && vmmFile.spawned == old(vmmFile.spawned) && networkFile.spawned == old(networkFile.spawned)
    }

    method AssertOwned() returns (o: Outcome<()>)
      requires Wf(kernel.w)
      modifies kernel`w
      ensures Drifts(old(kernel.w), kernel.w) && kernel.w.children == old(kernel.w.children)
      ensures o.Ok? ==> owned
      ensures kernel.faultFree && owned ==> o.Ok?
    {
      var _ :- kernel.Tick();
      return if owned then Ok(()) else Err;
    }

    /** `assert_domain_layout`: the session's domain marker must be present too. */
    method AssertDomainLayout() returns (o: Outcome<()>)
      requires Wf(kernel.w)
      modifies kernel`w
      ensures Drifts(old(kernel.w), kernel.w) && kernel.w.children == old(kernel.w.children)
      ensures o.Ok? ==> owned && session == Session(true, true)
      ensures kernel.faultFree && owned && session == Session(true, true) ==> o.Ok?
    {
      var _ :- AssertOwned();
      var _ :- kernel.Tick();
      return if session == Session(true, true) then Ok(()) else Err;
    }

    /** remove_dir_all of the session: entries go in some order, and the walk can stop
        after any of them. */
    method RemoveSessionTree() returns (o: Outcome<()>)
      requires Wf(kernel.w) && vmmFile != networkFile
      requires session.directory
      modifies this`session, kernel`w, vmmFile`content, networkFile`content
      ensures Drifts(old(kernel.w), kernel.w)
      ensures vmmFile.content == old(vmmFile.content) || vmmFile.content == None
      ensures networkFile.content == old(networkFile.content) || networkFile.content == None
      ensures o.Ok? ==> session == Session(false, false)
      ensures session.marker ==> session.directory
      ensures kernel.faultFree ==> o.Ok?
    {
      var left := {VmmFile, NetworkFile, Marker};
      while left != {}
        invariant Drifts(old(kernel.w), kernel.w)
        invariant vmmFile.content == old(vmmFile.content) || vmmFile.content == None
        invariant networkFile.content == old(networkFile.content) || networkFile.content == None
        invariant session.directory
        decreases left
      {
        var _ :- kernel.Tick();
        var item :| item in left;
        left := left - {item};
        match item
        case VmmFile => vmmFile.content := None;
        case NetworkFile => networkFile.content := None;
        case Marker => session := session.(marker := false);
      }
      var _ :- kernel.Tick();
      session := Session(false, false);
      return Ok(());
    }

    /** The second half of `clear_session`: a private directory with a new domain marker,
        which is created exclusively. */
    method RecreateSession() returns (o: Outcome<()>)
      requires Wf(kernel.w)
      modifies this`session, kernel`w
      ensures Drifts(old(kernel.w), kernel.w)
      ensures session.marker ==> session.directory || old(session.marker)
      ensures old(session.directory) ==> session.directory
      ensures o.Ok? ==> session == Session(true, true) && !old(session.marker)
      ensures kernel.faultFree && !old(session.marker) ==> o.Ok?
    {
      var _ :- kernel.Tick();
      session := session.(directory := true);
      var _ :- kernel.Tick();
      if session.marker {
        return Err;
      }
      session := session.(marker := true);
      var _ :- kernel.Tick();
      return Ok(());
    }

    /** `MachinePaths::clear_session`. Because it may delete an identity file and then
        stop, its callers owe that no helper is live. */
    method ClearSession() returns (o: Outcome<()>)
      requires Valid() && NoneLive()
      modifies this`session, kernel`w, vmmFile`content, networkFile`content
      ensures Valid() && NoneLive()
      ensures Drifts(old(kernel.w), kernel.w)
      ensures vmmFile.content == old(vmmFile.content) || vmmFile.content == None
      ensures networkFile.content == old(networkFile.content) || networkFile.content == None
      ensures o.Ok? ==> session == Session(true, true) && owned
      ensures kernel.faultFree && owned ==> o.Ok?
    {
      var _ :- AssertOwned();
      var metadata := kernel.Tick();
      if metadata.Interrupt? {
        return Interrupted;
      }
      if metadata.Proceed? && session.directory {
        var _ :- RemoveSessionTree();
      }
      o := RecreateSession();
    }

    /** `Vmm::stop_network`. */
    method StopNetwork() returns (o: Outcome<()>)
      requires Valid()
      modifies kernel`w, kernel`delivered, networkFile`content
      ensures Valid() && Drifts(old(kernel.w), kernel.w)
      ensures networkFile.content == old(networkFile.content) || networkFile.content == None
      ensures o.Ok? ==> networkFile.content == None && networkFile.AllDead(kernel.w)
      ensures kernel.faultFree && networkFile.AllDead(old(kernel.w)) ==> o.Ok?
      ensures Obliging() ==> o.Ok?
      ensures kernel.faultFree && kernel.pidfdSupported && Kill in kernel.deadly ==> networkFile.AllDead(kernel.w)
    {
      var status :- kernel.InspectPidFile(networkFile);
      match status
      case Missing =>
        return Ok(());
      case Stale(recorded) =>
        o := kernel.RemovePidFile(networkFile, recorded);
      case Running(identity) =>
        var _ :- kernel.Terminate(identity);
        o := kernel.RemovePidFile(networkFile, identity);
    }

    /** Ask the running VMM to power off, wait, ask it to shut down, wait, then force it. It
        gets a signal only if it outlived both requests. `Ok(false)` stands for the error
        `Vmm::stop` records before it goes on. */
    method EndVmm(identity: Identity) returns (o: Outcome<bool>)
      requires Wf(kernel.w) && Recorded(kernel.w, identity)
      modifies this`asked, kernel`w, kernel`delivered
      ensures Drifts(old(kernel.w), kernel.w)
      ensures o == Ok(true) ==> !Live(kernel.w, identity.inst)
      ensures old(asked) < asked <= old(asked) + [PowerButton, Shutdown]
      ensures kernel.delivered != old(kernel.delivered) ==> asked == old(asked) + [PowerButton, Shutdown]
      ensures old(kernel.Disciplined()) ==> kernel.Disciplined()
      ensures kernel.faultFree ==> o.Ok?
      ensures Obliging() ==> o == Ok(true)
      ensures kernel.faultFree && kernel.pidfdSupported && Kill in kernel.deadly ==> !Live(kernel.w, identity.inst)
    {
      asked := asked + [PowerButton];
      var answered := kernel.Tick();
      if answered.Interrupt? {
        return Interrupted;
      }
      var exited :- kernel.WaitForExit(identity);
      if !exited {
        asked := asked + [Shutdown];
        answered := kernel.Tick();
        if answered.Interrupt? {
          return Interrupted;
        }
      }
      exited :- kernel.WaitForExit(identity);
      if exited {
        return Ok(true);
      }
      var forced := kernel.Terminate(identity);
      return if forced.Interrupted? then Interrupted else Ok(forced.Ok?);
    }

    /** The branch of `Vmm::stop` for a running VMM: the identity goes once the process
        is gone, whether or not an error was recorded. */
    method StopRunningVmm(identity: Identity) returns (o: Outcome<bool>)
      requires Valid() && vmmFile.content == Some(identity)
      modifies this`asked, kernel`w, kernel`delivered, vmmFile`content
      ensures Valid() && Drifts(old(kernel.w), kernel.w)
      ensures vmmFile.content == old(vmmFile.content) || vmmFile.content == None
      ensures o == Ok(true) ==> vmmFile.content == None && vmmFile.AllDead(kernel.w)
      ensures kernel.delivered != old(kernel.delivered) ==> asked == old(asked) + [PowerButton, Shutdown]
      ensures kernel.faultFree ==> o.Ok?
      ensures Obliging() ==> o == Ok(true)
      ensures kernel.faultFree && kernel.pidfdSupported && Kill in kernel.deadly ==> vmmFile.AllDead(kernel.w)
    {
      var stopped :- EndVmm(identity);
      var current :- kernel.MatchesRunning(identity);
      if !current {
        var _ :- kernel.RemovePidFile(vmmFile, identity);
      }
      return Ok(stopped);
    }

    /** `Vmm::stop`. Success means: both helpers dead, both identity files gone, a fresh
        session directory. A machine that is not owned is not touched. Neither disk is in the
        frame. When no system call fails it does
        succeed if no helper is live or helpers obey SIGTERM, also from a session directory
        that an interrupted `clear_session` left half deleted. Helpers that obey only
        SIGKILL are dead afterwards, so that a second `stop` succeeds. */
    method Stop() returns (o: Outcome<()>)
      requires Valid()
      modifies this`session, this`asked, kernel`w, kernel`delivered, vmmFile`content, networkFile`content
      ensures Valid() && Drifts(old(kernel.w), kernel.w)
      ensures o.Ok? ==> NoneLive() && vmmFile.content == None && networkFile.content == None
      ensures !owned ==> Untouched()
      ensures o.Ok? ==> session == Session(true, true)
      ensures kernel.faultFree && owned && (old(NoneLive()) || Obliging()) ==> o.Ok?
      ensures kernel.faultFree && kernel.pidfdSupported && Kill in kernel.deadly && owned ==> NoneLive()
    {
      var _ :- AssertOwned();
      var clean := true;
      var status :- kernel.InspectPidFile(vmmFile);
      match status {
        case Missing =>
        case Stale(recorded) =>
          var _ :- kernel.RemovePidFile(vmmFile, recorded);
        case Running(identity) =>
          clean :- StopRunningVmm(identity);
      }
      var network := StopNetwork();
      if network.Interrupted? {
        return Interrupted;
      }
      if clean && network.Ok? {
        var _ :- ClearSession();
      }
      return if clean && network.Ok? then Ok(()) else Err;
    }

    /** `id` is a helper this CLI process spawned under `f`, and the only one of `f` that
        can still be live. */
    ghost predicate Spawned(f: IdentityFile, id: Identity)
      reads kernel, f
    {
      && Recorded(kernel.w, id)
      && (id.inst in kernel.w.children || !Live(kernel.w, id.inst))
      && id.inst in f.spawned
      && (forall i :: i in f.spawned && Live(kernel.w, i) ==> i == id.inst)
    }

    /** One half of `cleanup_failed_start`: end the helper, then drop its identity. */
    method CleanHelper(f: IdentityFile, id: Identity) returns (o: Outcome<()>)
      requires Wf(kernel.w) && f.Names(kernel.w) && Spawned(f, id)
      modifies kernel`w, kernel`delivered, f`content
      ensures Drifts(old(kernel.w), kernel.w) && f.Names(kernel.w) && Spawned(f, id)
      ensures kernel.w.children == old(kernel.w.children) || kernel.w.children == old(kernel.w.children) - {id.inst}
      ensures f.content == old(f.content) || f.content == None
      ensures o.Ok? ==> f.AllDead(kernel.w)
      ensures kernel.faultFree ==> !o.Interrupted?
      ensures Mortal() ==> f.AllDead(kernel.w)
      ensures old(kernel.Disciplined()) ==> kernel.Disciplined()
      ensures Obliging() && old(f.content) in {None, Some(id)} ==>
        |kernel.delivered| <= |old(kernel.delivered)| + 1 && (kernel.delivered != old(kernel.delivered) ==> o.Ok?)
      ensures old(kernel.delivered) <= kernel.delivered || !kernel.pidfdSupported
    {
      var _ :- kernel.TerminateSpawned(id);
      o := kernel.RemovePidFile(f, id);
    }

    /** `Vmm::cleanup_failed_start`: only when every helper of this start is proven dead
        is the session cleared; otherwise the identities are kept. Faults apart, helpers that
        can be killed are dead afterwards; and it succeeds if SIGTERM could be sent to each. */
    method CleanupFailedStart(vmm: Option<Identity>, network: Identity) returns (o: Outcome<()>)
      requires Valid() && Spawned(networkFile, network)
      requires vmm.Some? ==> Spawned(vmmFile, vmm.value)
      requires vmm.None? ==> vmmFile.AllDead(kernel.w)
      modifies this`session, kernel`w, kernel`delivered, vmmFile`content, networkFile`content
      ensures Valid() && Drifts(old(kernel.w), kernel.w)
      ensures o.Ok? ==> NoneLive() && session == Session(true, true)
      ensures Mortal() ==> NoneLive()
      ensures
        && Obliging() && owned
        && old(networkFile.content) in {None, Some(network)} && (vmm.Some? ==> old(vmmFile.content) in {None, vmm})
        && |kernel.delivered| == |old(kernel.delivered)| + (if vmm.Some? then 2 else 1)
        ==> o.Ok?
    {
      var clean := true;
      if vmm.Some? {
        var ended := CleanHelper(vmmFile, vmm.value);
        if ended.Interrupted? {
          return Interrupted;
        }
        clean := ended.Ok?;
      }
      var ended := CleanHelper(networkFile, network);
      if ended.Interrupted? {
        return Interrupted;
      }
      if !clean || !ended.Ok? {
        return Err;
      }
      o := ClearSession();
    }

    /** `wait_for_socket`: poll until the socket appears or the child exits. Success means
        that the child was seen running and its socket right after that; an error, faults
        apart, that the child is gone or has no socket. */
    method WaitForSocket(child: Instance, path: string) returns (o: Outcome<()>, ghost seen: Readiness)
      requires Wf(kernel.w) && child in kernel.w.helpers
      requires child in kernel.w.children || !Live(kernel.w, child)
      modifies kernel`w
      ensures Drifts(old(kernel.w), kernel.w)
      ensures kernel.w.children == old(kernel.w.children) || kernel.w.children == old(kernel.w.children) - {child}
      ensures child in kernel.w.children || !Live(kernel.w, child)
      ensures o.Ok? ==> CameUp(old(kernel.w), seen, kernel.w, child, path)
      ensures kernel.faultFree ==> !o.Interrupted?
      ensures kernel.faultFree && o.Err? ==>
        seen.up == kernel.w && !(Live(kernel.w, child) && Listening(kernel.w, path))
    {
      var polls: nat := *;
      seen := Readiness(kernel.w, kernel.w);
      while true
        invariant Drifts(old(kernel.w), kernel.w)
        invariant kernel.w.children == old(kernel.w.children) || kernel.w.children == old(kernel.w.children) - {child}
        invariant child in kernel.w.children || !Live(kernel.w, child)
        decreases polls
      {
        var exited, _ :- kernel.TryWait(child);
        seen := Readiness(kernel.w, kernel.w);
        if exited {
          return Err, seen;
        }
        var _ :- kernel.Tick();
        seen := seen.(up := kernel.w);
        if path in kernel.w.endpoints {
          return if kernel.w.endpoints[path].Socket? then Ok(()) else Err, seen;
        }
        if polls == 0 {
          return Err, seen;
        }
        polls := polls - 1;
      }
    }

    /** The first half of `Vmm::start`: bring any combination of identity files down to
        "no helper live, no identity file, fresh session". `Ok(true)` means both helpers
        were found running and nothing was touched; if anything was touched, one of them was
        not running in `found`. */
    method Repair() returns (o: Outcome<bool>, ghost found: World)
      requires Valid()
      modifies this`session, this`asked, kernel`w, kernel`delivered, vmmFile`content, networkFile`content
      ensures Valid() && Drifts(old(kernel.w), kernel.w)
      ensures o.Ok? ==> owned && old(session) == Session(true, true)
      ensures !owned || old(session) != Session(true, true) ==> Untouched()
      ensures o == Ok(true) ==>
        && Untouched() && BothNamed()
        && Live(old(kernel.w), vmmFile.content.value.inst) && Live(old(kernel.w), networkFile.content.value.inst)
      ensures Drifts(old(kernel.w), found) && Drifts(found, kernel.w)
      ensures o == Ok(false) || !Untouched() ==>
        !BothLive(old(vmmFile.content), old(networkFile.content), found)
      ensures o == Ok(false) ==>
        && NoneLive() && vmmFile.content == None && networkFile.content == None
        && session == Session(true, true)
      ensures kernel.faultFree && owned && old(session) == Session(true, true) && old(NoneLive()) ==> o == Ok(false)
      ensures Obliging() && owned && old(session) == Session(true, true) ==> o.Ok?
      ensures Mortal() && owned && old(session) == Session(true, true) ==> o == Ok(true) || NoneLive()
    {
      found := kernel.w;
      var layout := AssertDomainLayout();
      found := kernel.w;
      if !layout.Ok? {
        return layout.PropagateFailure(), found;
      }
      var vmmStatus :- kernel.InspectPidFile(vmmFile);
      var networkStatus :- kernel.InspectPidFile(networkFile);
      found := kernel.w;
      if vmmStatus.Running? && networkStatus.Running? {
        return Ok(true), found;
      }
      var _ :- BringDown(vmmStatus);
      var _ :- ClearSession();
      return Ok(false), found;
    }

    /** The branches of `Vmm::start` before it clears the session. */
    method BringDown(vmm: Status) returns (o: Outcome<()>)
      requires Valid()
      requires !vmm.Running? ==> vmmFile.AllDead(kernel.w)
      requires vmm.Missing? ==> vmmFile.content == None
      modifies this`session, this`asked, kernel`w, kernel`delivered, vmmFile`content, networkFile`content
      ensures Valid() && Drifts(old(kernel.w), kernel.w)
      ensures o.Ok? ==> NoneLive() && vmmFile.content == None && networkFile.content == None
      ensures kernel.faultFree && owned && (old(NoneLive()) || Obliging()) ==> o.Ok?
      ensures Mortal() && owned ==> NoneLive()
    {
      if vmm.Running? {
        o := Stop();
        return;
      }
      if vmm.Stale? {
        var _ :- kernel.RemoveStalePidFile(vmmFile);
      }
      o := StopNetwork();
    }

    /** `Vmm::start`. Success means that both files name helpers that were found live
        together at one moment, or that this call spawned both and saw each of them running
        and then listening, the network helper first; whatever helpers existed before are dead
        in the second case. A session that lost its domain marker is refused. Faults apart,
        a running machine is left alone: anything is touched only if one of its helpers was not
        running in `found`; failure in an owned, whole session leaves no helper live that can be killed; and if
        earlier helpers could be stopped it means that a helper of this call did not come up. */
    method Start() returns (o: Outcome<()>, ghost found: World, ghost network: Readiness, ghost vmm: Readiness)
      requires Valid()
      modifies this`session, this`asked, kernel`w, kernel`delivered, kernel`masked, vmmFile, networkFile
      ensures Valid() && Evolves(old(kernel.w), kernel.w)
      ensures old(vmmFile.spawned) <= vmmFile.spawned && old(networkFile.spawned) <= networkFile.spawned
      ensures !owned || old(session) != Session(true, true) ==> !o.Ok? && Untouched()
      ensures o.Ok? ==> BothNamed() && old(session) == session == Session(true, true)
      ensures o.Ok? ==>
        || (Untouched() && BothLive(vmmFile.content, networkFile.content, old(kernel.w)))
        || (&& vmmFile.content.value.inst in vmmFile.spawned - old(vmmFile.spawned)
            && networkFile.content.value.inst in networkFile.spawned - old(networkFile.spawned)
            && CameUp(old(kernel.w), network, kernel.w, networkFile.content.value.inst, NETWORK_SOCKET)
            && CameUp(network.up, vmm, kernel.w, vmmFile.content.value.inst, API_SOCKET)
            && (forall i :: i in old(vmmFile.spawned + networkFile.spawned) ==> !Live(kernel.w, i)))
      ensures Drifts(old(kernel.w), found)
      ensures !Untouched() ==> !BothLive(old(vmmFile.content), old(networkFile.content), found)
      ensures Mortal() && owned && old(session) == Session(true, true) && !o.Ok? ==> NoneLive()
      ensures Obliging() && owned && old(session) == Session(true, true) && !o.Ok? ==>
        || Lacking(old(kernel.w), network.up, kernel.w, networkFile.spawned - old(networkFile.spawned), NETWORK_SOCKET)
        || Lacking(old(kernel.w), vmm.up, kernel.w, vmmFile.spawned - old(vmmFile.spawned), API_SOCKET)
    {
      network, vmm := Readiness(kernel.w, kernel.w), Readiness(kernel.w, kernel.w);
      var running: Outcome<bool>;
      running, found := Repair();
      if !running.Ok? {
        return running.PropagateFailure(), found, network, vmm;
      }
      if running.value {
        return Ok(()), found, network, vmm;
      }
      o, network, vmm := SpawnBoth();
    }

    /** The second half of `Vmm::start`: network first, then the VMM. Success means that
        both came up. Every failure after the first spawn, a failed wait among them, goes
        through `CleanupFailedStart`. */
    method SpawnBoth() returns (o: Outcome<()>, ghost network: Readiness, ghost vmm: Readiness)
      requires Valid() && NoneLive() && vmmFile.content == None && networkFile.content == None
      requires session == Session(true, true)
      modifies this`session, kernel`w, kernel`delivered, kernel`masked, vmmFile, networkFile
      ensures Valid() && Evolves(old(kernel.w), kernel.w)
      ensures old(vmmFile.spawned) <= vmmFile.spawned && old(networkFile.spawned) <= networkFile.spawned
      ensures o.Ok? ==>
        && BothNamed() && session == old(session)
        && vmmFile.content.value.inst in vmmFile.spawned - old(vmmFile.spawned)
        && networkFile.content.value.inst in networkFile.spawned - old(networkFile.spawned)
        && CameUp(old(kernel.w), network, kernel.w, networkFile.content.value.inst, NETWORK_SOCKET)
        && CameUp(network.up, vmm, kernel.w, vmmFile.content.value.inst, API_SOCKET)
      ensures Mortal() && !o.Ok? ==> NoneLive()
      ensures kernel.faultFree && !o.Ok? ==>
        || Lacking(old(kernel.w), network.up, kernel.w, networkFile.spawned - old(networkFile.spawned), NETWORK_SOCKET)
        || Lacking(old(kernel.w), vmm.up, kernel.w, vmmFile.spawned - old(vmmFile.spawned), API_SOCKET)
    {
      vmm := Readiness(kernel.w, kernel.w);
      var helper: Outcome<Identity>;
      helper, network := SpawnNetwork();
      if !helper.Ok? {
        return helper.PropagateFailure(), network, vmm;
      }
      o, vmm := SpawnVmm(helper.value);
    }

    /** passt first. */
    method SpawnNetwork() returns (o: Outcome<Identity>, ghost seen: Readiness)
      requires Valid() && NoneLive() && networkFile.content == None
      requires session == Session(true, true)
      modifies this`session, kernel`w, kernel`delivered, kernel`masked, vmmFile`content, networkFile
      ensures Valid() && Evolves(old(kernel.w), kernel.w) && vmmFile.AllDead(kernel.w)
      ensures old(networkFile.spawned) <= networkFile.spawned
      ensures o.Ok? ==>
        && session == old(session) && vmmFile.content == old(vmmFile.content)
        && networkFile.content == Some(o.value) && Spawned(networkFile, o.value)
        && o.value.inst in networkFile.spawned - old(networkFile.spawned)
        && CameUp(old(kernel.w), seen, kernel.w, o.value.inst, NETWORK_SOCKET)
      ensures Mortal() && !o.Ok? ==> NoneLive()
      ensures kernel.faultFree && !o.Ok? ==>
        Lacking(old(kernel.w), seen.up, kernel.w, networkFile.spawned - old(networkFile.spawned), NETWORK_SOCKET)
    {
      seen := Readiness(kernel.w, kernel.w);
      ghost var at;
      o, at := kernel.SpawnManaged(networkFile);
      seen := Readiness(at, at);
      if !o.Ok? {
        return;
      }
      var ready: Outcome<()>;
      ready, seen := WaitForSocket(o.value.inst, NETWORK_SOCKET);
      if ready.Err? {
        ready := Abandon(None, o.value);
      }
      if !ready.Ok? {
        o := ready.PropagateFailure();
      }
    }

    /** The last part of `Vmm::start`, with the network helper up: expose the SSH agent, then
        the VMM. */
    method SpawnVmm(network: Identity) returns (o: Outcome<()>, ghost seen: Readiness)
      requires Valid() && Spawned(networkFile, network) && networkFile.content == Some(network)
      requires vmmFile.AllDead(kernel.w) && vmmFile.content == None
      requires session == Session(true, true)
      modifies this`session, kernel`w, kernel`delivered, kernel`masked, vmmFile, networkFile`content
      ensures Valid() && Evolves(old(kernel.w), kernel.w)
      ensures old(vmmFile.spawned) <= vmmFile.spawned
      ensures o.Ok? ==>
        && session == old(session) && networkFile.content == Some(network)
        && vmmFile.content.Some? && vmmFile.content.value.inst in vmmFile.spawned - old(vmmFile.spawned)
        && CameUp(old(kernel.w), seen, kernel.w, vmmFile.content.value.inst, API_SOCKET)
      ensures Mortal() && !o.Ok? ==> NoneLive()
      ensures kernel.faultFree && !o.Ok? ==>
        Lacking(old(kernel.w), seen.up, kernel.w, vmmFile.spawned - old(vmmFile.spawned), API_SOCKET)
    {
      seen := Readiness(kernel.w, kernel.w);
      var exposed := kernel.Tick();
      if exposed.Interrupt? {
        return Interrupted, seen;
      }
      if exposed.Fail? {
        o := Abandon(None, network);
        return;
      }
      var vmm, at := kernel.SpawnManaged(vmmFile);
      seen := Readiness(at, at);
      if vmm.Interrupted? {
        return Interrupted, seen;
      }
      if vmm.Err? {
        o := Abandon(None, network);
        return;
      }
      o, seen := WaitForSocket(vmm.value.inst, API_SOCKET);
      if o.Err? {
        o := Abandon(Some(vmm.value), network);
      }
    }

    /** A start that has failed: clean up, and report the failure whatever comes of that. */
    method Abandon(vmm: Option<Identity>, network: Identity) returns (o: Outcome<()>)
      requires Valid() && Spawned(networkFile, network)
      requires vmm.Some? ==> Spawned(vmmFile, vmm.value)
      requires vmm.None? ==> vmmFile.AllDead(kernel.w)
      modifies this`session, kernel`w, kernel`delivered, vmmFile`content, networkFile`content
      ensures Valid() && Drifts(old(kernel.w), kernel.w) && !o.Ok?
      ensures Mortal() ==> NoneLive()
    {
      var cleanup := CleanupFailedStart(vmm, network);
      return if cleanup.Interrupted? then Interrupted else Err;
    }

    /** `f` names a helper that is live in `w`. */
    ghost predicate Runs(f: IdentityFile, w: World)
      reads f
    {
      f.content.Some? && Live(w, f.content.value.inst)
    }

    /** `Vmm::status`. "Running" means both helpers were live together, "stopped" that none
        is live, "degraded" that exactly one was live at some moment and the other dead at
        another. Faults apart there is an answer, and it is the right one if no helper dies
        meanwhile. */
    method GetStatus() returns (o: Outcome<VmmStatus>)
      requires Valid()
      modifies kernel`w
      ensures Valid() && Drifts(old(kernel.w), kernel.w)
      ensures o == Ok(StatusRunning) ==> Runs(vmmFile, old(kernel.w)) && Runs(networkFile, old(kernel.w))
      ensures o == Ok(StatusStopped) ==> NoneLive()
      ensures o == Ok(StatusDegraded) ==>
        || (Runs(vmmFile, old(kernel.w)) && networkFile.AllDead(kernel.w))
        || (Runs(networkFile, old(kernel.w)) && vmmFile.AllDead(kernel.w))
      ensures kernel.faultFree ==> o.Ok?
      ensures o.Ok? && Runs(vmmFile, kernel.w) && Runs(networkFile, kernel.w) ==> o.value.StatusRunning?
      ensures o.Ok? && old(NoneLive()) ==> o.value.StatusStopped?
      ensures o.Ok? && old(vmmFile.AllDead(kernel.w)) && Runs(networkFile, kernel.w) ==> o.value.StatusDegraded?
      ensures o.Ok? && old(networkFile.AllDead(kernel.w)) && Runs(vmmFile, kernel.w) ==> o.value.StatusDegraded?
    {
      var vmm :- kernel.InspectPidFile(vmmFile);
      var network :- kernel.InspectPidFile(networkFile);
      return Ok(
          if vmm.Running? && network.Running? then StatusRunning
          else if !vmm.Running? && !network.Running? then StatusStopped
          else StatusDegraded);
    }
  }

  /** Any number of CLI runs, each ended by success, failure or a kill at any point, mixed
      with host reboots: at the end every live helper is named by its identity file, and on
      a pidfd kernel no signal ever went to anything but a spawned helper. */
  method AnyHistory(m: Machine, commands: seq<Command>)
    requires m.Valid()
    modifies m`session, m`asked, m.kernel, m.vmmFile, m.networkFile
    ensures m.Valid()
    ensures m.kernel.pidfdSupported ==>
      forall k :: 0 <= k < |m.kernel.delivered| ==> m.kernel.delivered[k].to in m.kernel.w.helpers
    ensures forall i :: i in m.vmmFile.spawned && Live(m.kernel.w, i) ==>
      m.vmmFile.content.Some? && m.vmmFile.content.value.inst == i
    ensures forall i :: i in m.networkFile.spawned && Live(m.kernel.w, i) ==>
      m.networkFile.content.Some? && m.networkFile.content.value.inst == i
    ensures forall i :: i in old(m.kernel.w.helpers) && !Live(old(m.kernel.w), i) ==>
      i in m.kernel.w.helpers && !Live(m.kernel.w, i)
  {
    for k := 0 to |commands|
      invariant m.Valid()
      invariant forall i :: i in old(m.kernel.w.helpers) && !Live(old(m.kernel.w), i) ==>
        i in m.kernel.w.helpers && !Live(m.kernel.w, i)
    {
      m.kernel.Begin();
      match commands[k] {
        case Start => var _, _, _, _ := m.Start();
        case Stop => var _ := m.Stop();
        case Status => var _ := m.GetStatus();
        case Reboot(boot) =>
          if forall i :: i in m.kernel.w.helpers ==> i.boot != boot {
            m.kernel.Reboot(boot);
          }
      }
    }
  }
}
