/** Ownership of machine trees (machine.rs, storage.rs, state.rs).

    Three things must agree: the machine directories on disk, the records in the saved
    state.json, and the records in memory while a command holds the state lock. Every
    step can fail, `save` can fail before or after its rename, a removal can fail half
    way, and outside a TerminationSignalBlock the CLI can be killed.
 */
module Ownership {
  import opened Outcomes
  import opened Bytes
  import opened Names

  /** The parts of a MachineRecord that decide about ownership. Identifiers stand for UUIDs. */
  datatype Record = Record(id: nat, name: string, cid: nat, repository: bool)

  type Machines = map<string, Record>

  ghost function Ids(m: Machines): set<nat> {
    set n | n in m :: m[n].id
  }

  function Cids(m: Machines): set<nat> {
    set n | n in m :: m[n].cid
  }

  predicate Clash(m: Machines, a: string, b: string)
    requires a in m && b in m
  {
    m[a].id == m[b].id || m[a].cid == m[b].cid
  }

  /** Records are filed under their own name, and identifiers and CIDs are distinct. */
  ghost predicate Consistent(m: Machines, nextId: nat) {
    && (forall n :: n in m ==> m[n].name == n && m[n].id < nextId && Cid(m[n].cid))
    && (forall a, b {:trigger Clash(m, a, b)} :: a in m && b in m && Clash(m, a, b) ==> a == b)
  }

  lemma ConsistentInsert(m: Machines, r: Record, nextId: nat)
    requires Consistent(m, nextId) && r.name !in m && Cid(r.cid) && r.id == nextId && r.cid !in Cids(m)
    ensures Consistent(m[r.name := r], nextId + 1)
  {
    var m' := m[r.name := r];
    forall a, b | a in m' && b in m' && Clash(m', a, b)
      ensures a == b
    {
      assert a != r.name ==> m'[a].cid in Cids(m);
      assert b != r.name ==> m'[b].cid in Cids(m);
      assert a != r.name && b != r.name ==> Clash(m, a, b);
    }
  }

  ghost predicate Drawn(ids: set<nat>, nextId: nat) {
    forall id :: id in ids ==> id < nextId
  }

  /** Every tree has a record, or its removal failed. */
  ghost predicate Tracked(m: Machines, trees: set<nat>, failed: set<nat>) {
    forall id :: id in trees ==> id in failed || id in Ids(m)
  }

  lemma IdsOfInsert(m: Machines, r: Record)
    requires r.name !in m
    ensures Ids(m[r.name := r]) == Ids(m) + {r.id}
  {
    var m' := m[r.name := r];
    assert forall n :: n in m ==> n in m' && m'[n] == m[n];
    assert r.name in m' && m'[r.name] == r;
  }

  lemma IdsOfRemove(m: Machines, name: string, nextId: nat)
    requires Consistent(m, nextId) && name in m
    ensures Ids(m - {name}) == Ids(m) - {m[name].id}
    ensures Consistent(m - {name}, nextId)
  {
    var m' := m - {name};
    assert forall n :: n in m && n != name ==> n in m' && m'[n] == m[n];
    forall a, b | a in m' && b in m' && Clash(m', a, b)
      ensures a == b
    {
      assert Clash(m, a, b);
    }
    assert forall n :: n in m && m[n].id == m[name].id ==> Clash(m, n, name);
  }

  lemma {:induction false} CidCount(m: Machines)
    ensures |Cids(m)| <= |m|
  {
    if m != map[] {
      var n :| n in m;
      var m' := m - {n};
      CidCount(m');
      CidsOfRemove(m, n);
      assert m.Keys == m'.Keys + {n};
    }
  }

  lemma CidsOfRemove(m: Machines, name: string)
    requires name in m
    ensures Cids(m) == Cids(m - {name}) + {m[name].cid}
  {
    var m' := m - {name};
    assert forall n :: n in m && n != name ==> n in m' && m'[n].cid == m[n].cid;
  }

  /** `created[..k]` are records of this run, still filed in memory, whose removal has not
      been tried. */
  ghost predicate Pending(mem: Machines, failed: set<nat>, created: seq<Record>, k: nat)
    requires k <= |created|
  {
    forall i :: 0 <= i < k ==>
      created[i].name in mem && mem[created[i].name] == created[i] && created[i].id !in failed
  }

  ghost predicate Distinct(created: seq<Record>) {
    forall i, j :: 0 <= i < j < |created| ==> created[i].name != created[j].name && created[i].id != created[j].id
  }

  ghost predicate Among(created: seq<Record>, from: nat, to: nat, id: nat)
    requires from <= to <= |created|
  {
    exists i :: from <= i < to && created[i].id == id
  }

  ghost predicate Named(created: seq<Record>, from: nat, name: string)
    requires from <= |created|
  {
    exists i :: from <= i < |created| && created[i].name == name
  }

  /** Of `created[k..]` exactly the records whose removal failed are still in memory, and
      nothing else of `before` has gone. */
  ghost predicate RolledBack(before: Machines, mem: Machines, failed: set<nat>, created: seq<Record>, k: nat)
    requires k <= |created|
  {
    && (forall n :: n in mem ==> n in before && mem[n] == before[n])
    && (forall n :: n in before && n !in mem ==> Named(created, k, n))
    && (forall i :: k <= i < |created| ==> (created[i].name in mem <==> created[i].id in failed))
  }

  /** One turn of the rollback loop, seen from outside. */
  lemma RollbackTurn(
    before: Machines, mem: Machines, failed: set<nat>, mem': Machines, failed': set<nat>, created: seq<Record>, k: nat)
    requires 0 < k <= |created| && Distinct(created)
    requires Pending(mem, failed, created, k) && RolledBack(before, mem, failed, created, k)
    requires
      || (mem' == mem - {created[k - 1].name} && failed' == failed)
      || (mem' == mem && failed' == failed + {created[k - 1].id})
    ensures Pending(mem', failed', created, k - 1) && RolledBack(before, mem', failed', created, k - 1)
  {
    forall n | n in before && n !in mem'
      ensures Named(created, k - 1, n)
    {
      if n !in mem {
        assert Named(created, k, n);
      } else {
        assert created[k - 1].name == n;
      }
    }
  }

  /** Every tree is accounted for; inside an ownership commit the ones about to be rolled
      back may be known to memory only. */
  ghost predicate Accounted(
    trees: set<nat>, saved: Machines, failed: set<nat>, masked: bool, created: seq<Record>, k: nat)
    requires k <= |created|
  {
    forall id :: id in trees ==>
      id in Ids(saved) || id in failed || (masked && Among(created, 0, k, id))
  }

  /** Failures so far come from the part of `created` that has been dealt with. */
  ghost predicate FailedFrom(before: set<nat>, failed: set<nat>, created: seq<Record>, k: nat)
    requires k <= |created|
  {
    before <= failed && forall id :: id in failed && id !in before ==> Among(created, k, |created|, id)
  }

  lemma RollbackAccounts(
    trees: set<nat>, saved: Machines, before: set<nat>, failed: set<nat>, masked: bool,
    trees': set<nat>, failed': set<nat>, created: seq<Record>, k: nat)
    requires 0 < k <= |created|
    requires Accounted(trees, saved, failed, masked, created, k) && FailedFrom(before, failed, created, k)
    requires trees' <= trees
    requires
      || (failed' == failed && created[k - 1].id !in trees')
      || failed' == failed + {created[k - 1].id}
    ensures Accounted(trees', saved, failed', masked, created, k - 1) && FailedFrom(before, failed', created, k - 1)
  {
    forall id | id in failed' && id !in before
      ensures Among(created, k - 1, |created|, id)
    {
      assert id in failed ==> Among(created, k, |created|, id);
      assert created[k - 1].id == id ==> Among(created, k - 1, |created|, id);
    }
    forall id | id in trees' && id !in Ids(saved) && id !in failed'
      ensures masked && Among(created, 0, k - 1, id)
    {
      var i :| 0 <= i < k && created[i].id == id;
    }
  }

  /** The state in which the present command began, and the one earlier machine it is
      about, if any. */
  datatype Begin = Begin(nextId: nat, target: Option<nat>, saved: Machines, trees: set<nat>, intact: set<nat>)

  /** What the command may touch: machines it creates itself, and its target. */
  predicate Mine(b: Begin, id: nat) {
    id >= b.nextId || b.target == Some(id)
  }

  /** `m` has every record that is not the command's own, unchanged, and no other. */
  ghost predicate SparesRecords(b: Begin, m: Machines) {
    && (forall n :: n in b.saved && !Mine(b, b.saved[n].id) ==> n in m && m[n] == b.saved[n])
    && (forall n :: n in m && !Mine(b, m[n].id) ==> n in b.saved && b.saved[n] == m[n])
  }

  ghost predicate SparesTrees(b: Begin, trees: set<nat>, intact: set<nat>) {
    forall id :: !Mine(b, id) ==> (id in trees <==> id in b.trees) && (id in intact <==> id in b.intact)
  }

  lemma OwnTreeTouched(
    b: Begin, trees: set<nat>, intact: set<nat>, trees': set<nat>, intact': set<nat>, id: nat)
    requires Mine(b, id) && SparesTrees(b, trees, intact)
    requires trees' - {id} == trees - {id} && intact' - {id} == intact - {id}
    ensures SparesTrees(b, trees', intact')
  {
    forall x | !Mine(b, x)
      ensures (x in trees' <==> x in b.trees) && (x in intact' <==> x in b.intact)
    {
      assert x in trees' <==> x in trees' - {id};
      assert x in intact' <==> x in intact' - {id};
      assert x in trees <==> x in trees - {id};
      assert x in intact <==> x in intact - {id};
    }
  }

  lemma OwnRecordDropped(b: Begin, m: Machines, name: string)
    requires SparesRecords(b, m) && name in m && Mine(b, m[name].id)
    ensures SparesRecords(b, m - {name})
  {
  }

  /** A multi-clone in progress: memory is what it was plus the records created so far. */
  ghost predicate CloneState(b: Begin, mem: Machines, failed: set<nat>, created: seq<Record>) {
    && Distinct(created) && Pending(mem, failed, created, |created|)
    && (forall i :: 0 <= i < |created| ==> Mine(b, created[i].id))
    && (forall n :: n in b.saved ==> n in mem && mem[n] == b.saved[n])
    && (forall n :: n in mem ==> n in b.saved || Named(created, 0, n))
    && (forall i :: 0 <= i < |created| ==> created[i].name !in b.saved)
  }

  /** What a failed multi-clone leaves in memory: `base` and exactly those inserted records
      whose removal failed. */
  ghost predicate ExactlyKept(base: Machines, mem: Machines, inserted: seq<Record>, failed: set<nat>) {
    && (forall n :: n in base ==> n in mem && mem[n] == base[n])
    && (forall i :: 0 <= i < |inserted| ==> inserted[i].name !in base)
    && (forall i :: 0 <= i < |inserted| ==> (inserted[i].name in mem <==> inserted[i].id in failed))
    && (forall i :: 0 <= i < |inserted| && inserted[i].name in mem ==> mem[inserted[i].name] == inserted[i])
    && (forall n :: n in mem ==> n in base || Named(inserted, 0, n))
  }

  lemma RollbackExact(
    b: Begin, before: Machines, failed0: set<nat>, mem: Machines, failed: set<nat>, created: seq<Record>)
    requires CloneState(b, before, failed0, created)
    requires RolledBack(before, mem, failed, created, 0)
    ensures ExactlyKept(b.saved, mem, created, failed)
  {
    assert forall n :: n in before && n !in mem ==> Named(created, 0, n);
  }

  /** First the last record of `created + [r]` is rolled back, then the others. */
  lemma RollbackComposes(
    before: Machines, middle: Machines, failed1: set<nat>, mem: Machines, failed: set<nat>,
    created: seq<Record>, r: Record)
    requires Distinct(created + [r])
    requires RolledBack(before, middle, failed1, created + [r], |created|)
    requires RolledBack(middle, mem, failed, created, 0)
    requires FailedFrom(failed1, failed, created, 0)
    ensures RolledBack(before, mem, failed, created + [r], 0)
  {
    var all := created + [r];
    assert forall i :: 0 <= i < |created| ==> all[i] == created[i];
    assert all[|created|] == r;
    assert r.id in failed ==> r.id in failed1 || Among(created, 0, |created|, r.id);
    assert forall i :: 0 <= i < |created| ==> created[i].id != r.id && created[i].name != r.name;
    forall n | n in before && n !in mem
      ensures Named(all, 0, n)
    {
      if n in middle {
        assert Named(created, 0, n);
        var i :| 0 <= i < |created| && created[i].name == n;
        assert all[i].name == n;
      } else {
        assert Named(all, |created|, n);
      }
    }
    assert r.name in middle && r.name !in mem ==> Named(created, 0, r.name);
  }

  /** What a guest has cloned: the repository, and its directory below /workspace. */
  datatype Workspace = Workspace(repository: string, directory: string)

  /** Each machine has its markers, was booted and has cloned `work`. */
  ghost predicate AllReady(
    created: seq<Record>, intact: set<nat>, booted: set<nat>, ready: map<nat, Workspace>, work: Workspace)
  {
    forall i :: 0 <= i < |created| ==>
      && created[i].id in intact && created[i].id in booted
      && created[i].id in ready && ready[created[i].id] == work
  }

  lemma CloneStateGrows(b: Begin, mem: Machines, failed: set<nat>, created: seq<Record>, r: Record)
    requires CloneState(b, mem, failed, created) && Mine(b, r.id)
    requires r.name !in mem && r.id !in failed && forall n :: n in mem ==> mem[n].id != r.id
    ensures CloneState(b, mem[r.name := r], failed, created + [r])
  {
    var all, mem' := created + [r], mem[r.name := r];
    assert forall i :: 0 <= i < |created| ==> all[i] == created[i];
    assert all[|created|] == r;
    forall n | n in mem' && n !in b.saved
      ensures Named(all, 0, n)
    {
      if n != r.name {
        assert Named(created, 0, n);
        var i :| 0 <= i < |created| && created[i].name == n;
        assert all[i].name == n;
      }
    }
  }

  /** Creating `k` records makes memory larger by at most `k`. */
  lemma {:induction false} CloneStateSize(base: Machines, mem: Machines, created: seq<Record>)
    requires forall n :: n in mem ==> n in base || Named(created, 0, n)
    ensures |mem| <= |base| + |created|
  {
    if created == [] {
      assert mem.Keys <= base.Keys;
      CardinalityOfSubset(mem.Keys, base.Keys);
    } else {
      var front, last := created[..|created| - 1], created[|created| - 1];
      var mem' := mem - {last.name};
      forall n | n in mem' && n !in base
        ensures Named(front, 0, n)
      {
        var i :| 0 <= i < |created| && created[i].name == n;
        assert front[i].name == n;
      }
      CloneStateSize(base, mem', front);
      assert mem.Keys <= mem'.Keys + {last.name};
      CardinalityOfSubset(mem.Keys, mem'.Keys + {last.name});
    }
  }

  ghost predicate Extends(created: seq<Record>, inserted: seq<Record>, name: string) {
    && |inserted| == |created| + 1 && inserted[..|created|] == created
    && inserted[|created|].name == name && inserted[|created|].repository
  }

  /** The records carry the allocated names, in order, and say that they hold a repository,
      on which the guard of `rm` rests. */
  ghost predicate Follow(created: seq<Record>, names: seq<string>) {
    |created| <= |names| && forall i :: 0 <= i < |created| ==> created[i].name == names[i] && created[i].repository
  }

  function NamesOf(created: seq<Record>): seq<string> {
    seq(|created|, i requires 0 <= i < |created| => created[i].name)
  }

  ghost predicate AllLive(created: seq<Record>, live: set<nat>) {
    forall i :: 0 <= i < |created| ==> created[i].id in live
  }

  lemma AllLiveExtends(
    created: seq<Record>, inserted: seq<Record>, name: string, before: set<nat>, after: set<nat>)
    requires AllLive(created, before) && before <= after
    requires Extends(created, inserted, name) && inserted[|created|].id in after
    ensures AllLive(inserted, after)
  {
    assert forall i :: 0 <= i < |created| ==> inserted[i] == inserted[..|created|][i];
  }

  lemma FollowAll(created: seq<Record>, names: seq<string>)
    requires Follow(created, names) && |created| == |names|
    ensures NamesOf(created) == names
  {
  }

  lemma FollowExtends(created: seq<Record>, inserted: seq<Record>, names: seq<string>)
    requires Follow(created, names) && |created| < |names| && Extends(created, inserted, names[|created|])
    ensures Follow(inserted, names)
  {
    assert forall i :: 0 <= i < |created| ==> inserted[i] == inserted[..|created|][i];
  }

  lemma NextNameIsFree(base: Machines, mem: Machines, created: seq<Record>, names: seq<string>)
    requires forall n :: n in mem ==> n in base || Named(created, 0, n)
    requires Follow(created, names) && |created| < |names|
    requires forall i :: 0 <= i < |names| ==> names[i] !in base
    requires forall i, j :: 0 <= i < j < |names| ==> names[i] != names[j]
    ensures names[|created|] !in mem
  {
    assert forall i :: 0 <= i < |created| ==> created[i].name == names[i] && names[i] != names[|created|];
  }

  /** The newest record of `created + [r]` has been dealt with; the others are pending. */
  lemma LastUndone(
    b: Begin, before: Machines, mem: Machines, failed0: set<nat>, failed: set<nat>, created: seq<Record>, r: Record)
    requires CloneState(b, before, failed0, created + [r])
    requires (mem == before - {r.name} && failed == failed0) || (mem == before && failed == failed0 + {r.id})
    ensures Distinct(created) && Pending(mem, failed, created, |created|)
    ensures forall i :: 0 <= i < |created| ==> Mine(b, created[i].id)
    ensures RolledBack(mem, mem, failed, created, |created|) && FailedFrom(failed, failed, created, |created|)
    ensures RolledBack(before, mem, failed, created + [r], |created|)
  {
    var all := created + [r];
    assert all[|created|] == r;
    assert forall i :: 0 <= i < |created| ==> all[i] == created[i];
    RollbackTurn(before, before, failed0, mem, failed, all, |all|);
  }

  lemma LastAccounted(
    trees0: set<nat>, trees: set<nat>, saved: Machines, failed0: set<nat>, failed: set<nat>, masked: bool,
    created: seq<Record>, id: nat)
    requires Tracked(saved, trees0, failed0 + {id}) && trees <= trees0
    requires (failed == failed0 && id !in trees) || failed == failed0 + {id}
    ensures Tracked(saved, trees, failed) && Accounted(trees, saved, failed, masked, created, |created|)
  {
  }

  /** A record for which nothing exists yet and which can be filed in memory. */
  ghost predicate Fresh(
    b: Begin, mem: Machines, nextId: nat, trees: set<nat>, failed: set<nat>, record: Record)
  {
    && Mine(b, record.id)
    && record.name !in mem && Consistent(mem[record.name := record], nextId)
    && record.id < nextId && record.id !in trees && record.id !in failed
  }

  lemma FreshIsNew(b: Begin, mem: Machines, nextId: nat, trees: set<nat>, failed: set<nat>, record: Record)
    requires Fresh(b, mem, nextId, trees, failed, record)
    ensures forall n :: n in mem ==> mem[n].id != record.id
  {
    var mem' := mem[record.name := record];
    assert forall n :: n in mem && mem[n].id == record.id ==> Clash(mem', n, record.name);
  }

  /** A removal that failed for a machine not in memory leaves the others pending. */
  lemma FailureIsNotPending(
    b: Begin, mem: Machines, failed: set<nat>, failed': set<nat>, created: seq<Record>, id: nat)
    requires CloneState(b, mem, failed, created) && failed' <= failed + {id}
    requires forall n :: n in mem ==> mem[n].id != id
    ensures CloneState(b, mem, failed', created)
  {
  }

  datatype CommitResult = Committed(record: Record) | NotCreated | NotSaved(record: Record) | Killed

  datatype Command =
    | Init(name: string)
    | Clone(requested: Option<string>, repository: string, count: nat)
    | Start(name: string)
    | Rm(name: string, force: bool, reply: GuestReply)

  /** What the guest answers when asked whether the workspace is clean. */
  datatype GuestReply = Clean | Dirty | Refused | Unexpected

  class Store {
    /** state.json */
    var saved: Machines
    /** LockedState.state.machines */
    var mem: Machines
    /** Machine directories on disk, whole or damaged. */
    var trees: set<nat>
    /** Those that still carry their markers. */
    var intact: set<nat>
    /** Those whose session directory is whole; `start` refuses the others. */
    var sessions: set<nat>
    /** Machines some helper of which may be alive. */
    var live: set<nat>
    /** What the guests have cloned. */
    var ready: map<nat, Workspace>
    var masked: bool
    /** Every identifier below has been drawn before. */
    var nextId: nat
    /** Trees whose removal reported a failure. */
    ghost var failed: set<nat>
    /** Machines whose helpers were live at the end of some boot. */
    ghost var booted: set<nat>
    /** What the present command has to spare. */
    ghost var begin: Begin
    /** No system call fails, nobody kills the CLI, helpers obey SIGTERM and do not die by
        themselves; for the progress statements. */
    const faultFree: bool

    /** What holds at every point where the CLI can end. */
    ghost predicate Valid()
      reads this`masked, this`saved, this`nextId, this`live, this`intact, this`trees, this`failed, this`begin
    {
      && !masked
      && Sound()
      && Tracked(saved, trees, failed)
    }

    /** The part that also holds inside an ownership commit. It includes that the command
        has spared every machine that is not its own, so each method that keeps `Sound` or
        `Valid` says so on every exit. */
    ghost predicate Sound()
      reads this`saved, this`nextId, this`live, this`intact, this`trees, this`failed, this`begin
    {
      && Consistent(saved, nextId)
      && live <= intact <= trees
      && Drawn(trees + failed, nextId)
      && begin.nextId <= nextId
      && SparesRecords(begin, saved) && SparesTrees(begin, trees, intact)
    }

    ghost predicate MemSound()
      reads this`mem, this`nextId, this`trees, this`failed, this`begin
    {
      Consistent(mem, nextId) && Tracked(mem, trees, failed) && SparesRecords(begin, mem)
    }

    /** The same for readers of a whole command: earlier machines other than `target` keep
        record, tree and markers, and every new record was drawn by this command. */
    twostate predicate SparesOthers(target: Option<nat>)
      reads this
    {
      && (forall n :: n in old(saved) && target != Some(old(saved)[n].id) ==> n in saved && saved[n] == old(saved)[n])
      && (forall n :: n in saved && n !in old(saved) && target != Some(saved[n].id) ==> saved[n].id >= old(nextId))
      && (forall id :: id < old(nextId) && target != Some(id) ==>
        (id in trees <==> id in old(trees)) && (id in intact <==> id in old(intact)))
    }

    twostate lemma SparedSince()
      requires old(Valid()) && Valid()
      requires begin == Begin(old(nextId), begin.target, old(saved), old(trees), old(intact))
      ensures SparesOthers(begin.target)
    {
    }

    /** A command begins. */
    ghost method Commence()
      requires Valid()
      modifies this`begin
      ensures Valid() && begin == Begin(nextId, None, saved, trees, intact)
    {
      begin := Begin(nextId, None, saved, trees, intact);
    }

    constructor (faultFree: bool)
      ensures Valid() && saved == map[] && trees == intact == {} && this.faultFree == faultFree
    {
      this.faultFree := faultFree;
      saved, mem := map[], map[];
      trees, intact, sessions, live, ready := {}, {}, {}, {}, map[];
      booted := {};
      masked := false;
      nextId := 0;
      failed := {};
      begin := Begin(0, None, map[], {}, {});
    }

    /** Helpers may die around any call; the call proceeds, fails, or the CLI is killed. */
    method Tick() returns (s: Step)
      modifies this`live
      ensures live <= old(live)
      ensures masked ==> !s.Interrupt?
      ensures faultFree ==> s.Proceed? && live == old(live)
    {
      var dead: set<nat> := *;
      s := *;
      if faultFree {
        return Proceed;
      }
      live := live - dead;
      if masked && s.Interrupt? {
        s := Fail;
      }
    }

    /** state.rs `lock`: take the flock and read the saved state. */
    method Lock() returns (o: Outcome<()>)
      requires Valid()
      modifies this`live, this`mem
      ensures Valid() && (o.Ok? ==> mem == saved && MemSound())
      ensures faultFree ==> o.Ok?
    {
      var _ :- Tick();
      mem := saved;
      return Ok(());
    }

    /** state.rs `save`: write a temporary, rename it over state.json, sync the directory. */
    method Save() returns (o: Outcome<()>)
      requires Sound() && MemSound()
      modifies this`live, this`saved
      ensures Sound() && live <= old(live)
      ensures masked ==> !o.Interrupted?
      ensures saved == old(saved) || saved == mem
      ensures o.Ok? ==> saved == mem
      ensures faultFree ==> o.Ok? && live == old(live)
    {
      var _ :- Tick();
      saved := mem;
      var _ :- Tick();
      return Ok(());
    }

    /** What one removal attempt may do: it concerns one machine only. */
    twostate predicate OnlyTree(id: nat)
      reads this
    {
      && trees - {id} == old(trees) - {id} && trees <= old(trees)
      && intact - {id} == old(intact) - {id} && intact <= old(intact)
      && live <= old(live)
    }

    /** `vmm::stop` as the lifecycle model proves it: success means no live helper and a
        whole session; when nothing fails and helpers obey SIGTERM it succeeds from any
        session, half deleted or not. */
    method StopHelpers(id: nat) returns (o: Outcome<()>)
      modifies this`live, this`sessions
      ensures live <= old(live) && sessions - {id} == old(sessions) - {id}
      ensures masked ==> !o.Interrupted?
      ensures o.Ok? ==> id !in live && id in sessions
      ensures faultFree && id in intact ==> o.Ok?
      ensures id !in intact ==> !o.Ok? && sessions == old(sessions)
    {
      var _ :- Tick();
      if id !in intact {
        return Err;
      }
      live := live - {id};
      var _ :- Tick();
      sessions := sessions - {id};
      var _ :- Tick();
      sessions := sessions + {id};
      var _ :- Tick();
      return Ok(());
    }

    /** storage.rs `remove_machine`: stop the helpers, prove ownership, delete the tree. */
    method RemoveMachine(id: nat) returns (o: Outcome<()>)
      requires live <= intact <= trees
      modifies this`live, this`sessions, this`intact, this`trees, this`failed
      ensures live <= intact <= trees && OnlyTree(id)
      ensures masked ==> !o.Interrupted?
      ensures o.Ok? ==> id !in trees
      ensures failed == if o.Err? then old(failed) + {id} else old(failed)
      ensures faultFree && id in old(intact) ==> o.Ok?
      ensures id !in old(intact) ==> !o.Ok? && trees == old(trees)
    {
      o := StopHelpers(id);
      if o.Ok? {
        o := RemoveTree(id);
      }
      if o.Err? {
        failed := failed + {id};
      }
    }

    /** `MachinePaths::remove`. remove_dir_all may stop half way, with the marker gone. */
    method RemoveTree(id: nat) returns (o: Outcome<()>)
      requires live <= intact <= trees && id !in live
      modifies this`live, this`intact, this`trees
      ensures live <= intact <= trees && OnlyTree(id)
      ensures masked ==> !o.Interrupted?
      ensures o.Ok? ==> id !in trees
      ensures faultFree && id in old(intact) ==> o.Ok?
      ensures id !in old(intact) ==> !o.Ok? && trees == old(trees)
    {
      var _ :- Tick();
      if id !in intact {
        return Err;
      }
      var _ :- Tick();
      intact := intact - {id};
      var _ :- Tick();
      trees := trees - {id};
      var _ :- Tick();
      return Ok(());
    }

    /** `MachinePaths::create`: a new tree, taken away again if its markers fail. */
    method CreateTree(id: nat) returns (o: Outcome<()>)
      requires masked && id !in trees && live <= intact <= trees
      modifies this`live, this`sessions, this`intact, this`trees, this`failed
      ensures live <= intact <= trees && live <= old(live) && !o.Interrupted?
      ensures intact == old(intact) + (if o.Ok? then {id} else {})
      ensures o.Ok? ==> id in sessions
      ensures o.Ok? ==> trees == old(trees) + {id} && failed == old(failed)
      ensures o.Err? ==> trees == old(trees) || (trees == old(trees) + {id} && id in failed)
      ensures old(failed) <= failed <= old(failed) + {id}
      ensures faultFree ==> o.Ok? && live == old(live)
    {
      var _ :- Tick();
      trees := trees + {id};
      var marked := Tick();
      if marked.Proceed? {
        intact, sessions := intact + {id}, sessions + {id};
        return Ok(());
      }
      var removed := Tick();
      if removed.Proceed? {
        trees := trees - {id};
      } else {
        failed := failed + {id};
      }
      return Err;
    }

    /** storage.rs `commit_machine_storage`, called with signals masked: both disks or no
        tree, unless taking the tree away fails too. */
    method CommitStorage(id: nat) returns (o: Outcome<()>)
      requires masked && id !in trees && live <= intact <= trees
      modifies this`live, this`sessions, this`intact, this`trees, this`failed
      ensures live <= intact <= trees && live <= old(live) && !o.Interrupted?
      ensures o.Ok? ==> trees == old(trees) + {id} && intact == old(intact) + {id} && failed == old(failed)
      ensures o.Ok? ==> id in sessions
      ensures o.Err? ==> trees == old(trees) || (trees == old(trees) + {id} && id in failed)
      ensures old(intact) <= intact <= old(intact) + {id}
      ensures old(failed) <= failed <= old(failed) + {id}
      ensures faultFree ==> o.Ok? && live == old(live)
    {
      var _ :- CreateTree(id);
      var disks := Tick();
      if disks.Proceed? {
        return Ok(());
      }
      var removed := RemoveTree(id);
      if removed.Err? {
        failed := failed + {id};
      }
      return Err;
    }

    /** machine.rs `new_record`: a fresh identifier and a free vsock CID. */
    method NewRecord(name: string, repository: bool) returns (r: Record)
      requires Consistent(mem, nextId) && name !in mem && |mem| < U32 - FIRST_CID
      modifies this`nextId
      ensures nextId == old(nextId) + 1
      ensures r.id == old(nextId) && r.name == name && r.repository == repository && Cid(r.cid)
      ensures r.cid !in Cids(mem)
      ensures Consistent(mem[name := r], nextId)
    {
      var word: int := *;
      var first := if 0 <= word <= 0x3fff_ffff then word else 0;
      CidCount(mem);
      FreeCidExists(Cids(mem));
      var cid := ProbeCid(first, Cids(mem));
      r := Record(nextId, name, cid, repository);
      ConsistentInsert(mem, r, nextId);
      nextId := nextId + 1;
    }

    /** `start_record`: success means that the helpers are live now, at the end of the boot.
        On failure they are stopped again, which may fail as well. */
    method StartRecord(id: nat) returns (o: Outcome<()>)
      requires live <= intact
      modifies this`live, this`sessions, this`booted
      ensures live <= intact && live <= old(live) + {id}
      ensures masked ==> !o.Interrupted?
      ensures o.Ok? ==> id in live
      ensures booted == old(booted) + (if o.Ok? then {id} else {})
      ensures faultFree && id in intact && id in old(sessions) ==> o.Ok? && live == old(live) + {id}
    {
      var _ :- Tick();
      if id !in intact || id !in sessions {
        return Err;
      }
      live := live + {id};
      var healthy := Tick();
      if healthy.Interrupt? {
        return Interrupted;
      }
      if healthy.Fail? || id !in live {
        var stopped := StopHelpers(id);
        return if stopped.Interrupted? then Interrupted else Err;
      }
      booted := booted + {id};
      return Ok(());
    }

    /** `start_record` and then the guest's repository clone, which a live guest only can
        answer. */
    method StartAndClone(id: nat, work: Workspace) returns (o: Outcome<()>)
      requires live <= intact
      modifies this`live, this`sessions, this`booted, this`ready
      ensures live <= intact && live <= old(live) + {id}
      ensures masked ==> !o.Interrupted?
      ensures o.Ok? ==> id in live && id in booted
      ensures old(booted) <= booted <= old(booted) + {id}
      ensures ready == if o.Ok? then old(ready)[id := work] else old(ready)
      ensures faultFree && id in intact && id in old(sessions) ==> o.Ok? && live == old(live) + {id}
    {
      var _ :- StartRecord(id);
      var _ :- Tick();
      if id !in live {
        return Err;
      }
      ready := ready[id := work];
      return Ok(());
    }

    /** `remove_storage` and then `machines.remove`: a record goes exactly when its tree is
        gone. The rollback loop and `rm` both do this. */
    method DropMachine(record: Record) returns (o: Outcome<()>)
      requires Sound() && MemSound() && record.name in mem && mem[record.name] == record && Mine(begin, record.id)
      modifies this`live, this`sessions, this`intact, this`trees, this`failed, this`mem
      ensures Sound() && MemSound() && OnlyTree(record.id)
      ensures masked ==> !o.Interrupted?
      ensures o.Ok? ==> mem == old(mem) - {record.name} && failed == old(failed) && record.id !in trees
      ensures o.Err? ==> mem == old(mem) && failed == old(failed) + {record.id}
      ensures o.Interrupted? ==> mem == old(mem) && failed == old(failed)
      ensures faultFree && record.id in old(intact) ==> o.Ok?
      ensures record.id !in old(intact) ==> !o.Ok? && trees == old(trees)
    {
      o := RemoveMachine(record.id);
      OwnTreeTouched(begin, old(trees), old(intact), trees, intact, record.id);
      if o.Ok? {
        IdsOfRemove(mem, record.name, nextId);
        OwnRecordDropped(begin, mem, record.name);
        mem := mem - {record.name};
      }
    }

    /** The invariant of the rollback loop. */
    ghost predicate RollingBack(before: Machines, failed0: set<nat>, created: seq<Record>, k: nat)
      requires k <= |created|
      reads this
    {
      && Sound() && MemSound() && Distinct(created)
      && Pending(mem, failed, created, k) && RolledBack(before, mem, failed, created, k)
      && Accounted(trees, saved, failed, masked, created, k)
      && FailedFrom(failed0, failed, created, k)
      && (forall i :: 0 <= i < |created| ==> Mine(begin, created[i].id))
    }

    method RollbackStep(ghost before: Machines, ghost failed0: set<nat>, created: seq<Record>, k: nat)
      returns (o: Outcome<()>)
      requires 0 < k <= |created| && RollingBack(before, failed0, created, k)
      modifies this`live, this`sessions, this`intact, this`trees, this`failed, this`mem
      ensures trees <= old(trees) && Sound()
      ensures o.Interrupted? ==> !masked && failed == old(failed)
      ensures !o.Interrupted? ==> RollingBack(before, failed0, created, k - 1)
      ensures o.Ok? ==> failed == old(failed)
      ensures o.Err? ==> failed == old(failed) + {created[k - 1].id} && created[k - 1].id !in old(failed)
    {
      ghost var mem', failed', trees' := mem, failed, trees;
      o := DropMachine(created[k - 1]);
      if !o.Interrupted? {
        RollbackTurn(before, mem', failed', mem, failed, created, k);
        RollbackAccounts(trees', saved, failed0, failed', masked, trees, failed, created, k);
      }
    }

    /** The loop of `rollback_created`; the result says whether every removal succeeded. */
    method RollbackAll(created: seq<Record>) returns (o: Outcome<bool>)
      requires RollingBack(mem, failed, created, |created|)
      modifies this`live, this`sessions, this`intact, this`trees, this`failed, this`mem
      ensures Sound() && trees <= old(trees) && !o.Err?
      ensures o.Ok? ==> RollingBack(old(mem), old(failed), created, 0)
      ensures o.Interrupted? ==> !masked && Tracked(saved, trees, failed) && old(failed) <= failed
      ensures o.Ok? ==> (o.value <==> failed == old(failed))
    {
      var clean := true;
      ghost var stuck := nextId;
      var k := |created|;
      while k > 0
        invariant 0 <= k <= |created| && trees <= old(trees)
        invariant RollingBack(old(mem), old(failed), created, k)
        invariant if clean then failed == old(failed) else stuck in failed && stuck !in old(failed)
      {
        var removed := RollbackStep(old(mem), old(failed), created, k);
        if removed.Interrupted? {
          return Interrupted;
        }
        k := k - 1;
        clean := clean && removed.Ok?;
        stuck := if removed.Err? then created[k].id else stuck;
      }
      return Ok(clean);
    }

    /** machine.rs `rollback_created`: remove in reverse order, drop the records whose tree
        is gone, keep the others, save. */
    method RollbackCreated(created: seq<Record>) returns (o: Outcome<()>)
      requires RollingBack(mem, failed, created, |created|)
      modifies this`live, this`sessions, this`intact, this`trees, this`failed, this`mem, this`saved
      ensures Sound() && Tracked(saved, trees, failed) && trees <= old(trees)
      ensures masked ==> !o.Interrupted?
      ensures old(failed) <= failed
      ensures !o.Interrupted? ==>
        && MemSound() && RolledBack(old(mem), mem, failed, created, 0)
        && FailedFrom(old(failed), failed, created, 0)
      ensures saved == old(saved) || saved == mem
      ensures o.Ok? ==> saved == mem && failed == old(failed)
    {
      var clean :- RollbackAll(created);
      var _ :- Save();
      return if clean then Ok(()) else Err;
    }

    /** `new_record` in a state that stays sound although an identifier was used up. */
    method DrawRecord(name: string, repository: bool) returns (r: Record)
      requires Sound() && MemSound() && name !in mem && |mem| < U32 - FIRST_CID
      modifies this`nextId
      ensures Sound() && MemSound() && Fresh(begin, mem, nextId, trees, failed, r)
      ensures old(Valid()) ==> Valid()
      ensures r.name == name && r.repository == repository
    {
      r := NewRecord(name, repository);
    }

    /** Commit the storage of a fresh record and file it in memory, signals masked. */
    method FileNew(record: Record) returns (o: Outcome<()>)
      requires masked && Sound() && MemSound() && Fresh(begin, mem, nextId, trees, failed, record)
      modifies this`live, this`sessions, this`intact, this`trees, this`failed, this`mem
      ensures Sound() && MemSound() && !o.Interrupted?
      ensures o.Ok? ==>
        && mem == old(mem)[record.name := record] && failed == old(failed)
        && trees == old(trees) + {record.id} && intact == old(intact) + {record.id}
      ensures o.Ok? ==> record.id in sessions
      ensures o.Err? ==> mem == old(mem) && trees <= old(trees) + {record.id}
      ensures o.Err? ==> record.id in trees ==> record.id in failed
      ensures old(failed) <= failed <= old(failed) + {record.id} && old(intact) <= intact
      ensures faultFree ==> o.Ok? && live == old(live)
    {
      o := CommitStorage(record.id);
      if o.Ok? {
        IdsOfInsert(mem, record);
        mem := mem[record.name := record];
      }
    }

    /** The failed `save` of `init`: the machine is known to memory only. */
    method UndoInit(record: Record)
      requires masked && Sound() && MemSound()
      requires record.name in mem && mem[record.name] == record && record.id !in failed && Mine(begin, record.id)
      requires Tracked(saved, trees, failed + {record.id})
      modifies this`live, this`sessions, this`intact, this`trees, this`failed, this`mem, this`saved
      ensures Sound() && Tracked(saved, trees, failed)
    {
      var created := [record];
      forall id | id in trees && id !in Ids(saved) && id !in failed
        ensures Among(created, 0, 1, id)
      {
        assert created[0].id == id;
      }
      var _ := RollbackCreated(created);
    }

    /** The ownership commit of `init`, with signals masked: tree, record, save. If the
        save fails the machine is rolled back. */
    method InitCommit(record: Record) returns (o: Outcome<()>)
      requires masked && Sound() && MemSound() && mem == saved && Fresh(begin, mem, nextId, trees, failed, record)
      modifies this`live, this`sessions, this`intact, this`trees, this`failed, this`mem, this`saved
      ensures Sound() && Tracked(saved, trees, failed) && !o.Interrupted?
      ensures o.Ok? ==>
        && mem == saved == old(mem)[record.name := record]
        && trees == old(trees) + {record.id} && record.id in intact && failed == old(failed)
      ensures faultFree ==> o.Ok?
    {
      var _ :- FileNew(record);
      o := Save();
      if !o.Ok? {
        UndoInit(record);
      }
    }

    /** `prepare_storage` and then TerminationSignalBlock::acquire. */
    method PrepareStorage() returns (o: Outcome<()>)
      requires Valid()
      modifies this`live
      ensures Valid() && (faultFree ==> o.Ok? && live == old(live))
    {
      var _ :- Tick();
      var _ :- Tick();
      return Ok(());
    }

    /** What `init` does before its commit; nothing is owned yet. */
    method BeginInit(name: string) returns (o: Outcome<Record>)
      requires Valid() && |saved| < U32 - FIRST_CID
      modifies this`live, this`mem, this`nextId
      ensures Valid()
      ensures o.Ok? ==>
        && mem == saved && MemSound() && Fresh(begin, mem, nextId, trees, failed, o.value)
        && o.value.name == name && !o.value.repository
      ensures name in saved ==> !o.Ok?
      ensures faultFree && name !in saved ==> o.Ok?
    {
      var _ :- Lock();
      if name in mem {
        return Err;
      }
      var record := DrawRecord(name, false);
      return Ok(record);
    }

    /** machine.rs `init`. Success adds exactly one record, saved, with its own tree; faults
        apart it is granted exactly for a valid name that is not in use. */
    method InitMachine(name: string) returns (o: Outcome<()>)
      requires Valid() && |saved| < U32 - FIRST_CID
      modifies this
      ensures Valid()
      ensures o.Ok? ==>
        && ValidName(name) && name !in old(saved)
        && name in saved && mem == saved == old(saved)[name := saved[name]] && !saved[name].repository
        && trees == old(trees) + {saved[name].id} && saved[name].id !in old(trees) && saved[name].id in intact
      ensures SparesOthers(None)
      ensures faultFree ==> (o.Ok? <==> ValidName(name) && name !in old(saved))
    {
      Commence();
      o := CreateOne(name);
      SparedSince();
    }

    method CreateOne(name: string) returns (o: Outcome<()>)
      requires Valid() && |saved| < U32 - FIRST_CID
      modifies this`live, this`sessions, this`intact, this`trees, this`failed, this`mem, this`saved, this`masked,
        this`nextId
      ensures Valid()
      ensures o.Ok? ==>
        && ValidName(name) && name !in old(saved)
        && name in saved && mem == saved == old(saved)[name := saved[name]] && !saved[name].repository
        && trees == old(trees) + {saved[name].id} && saved[name].id !in old(trees) && saved[name].id in intact
      ensures faultFree ==> (o.Ok? <==> ValidName(name) && name !in old(saved))
    {
      if !ValidName(name) {
        return Err;
      }
      var record :- BeginInit(name);
      var _ :- PrepareStorage();
      masked := true;
      o := InitCommit(record);
      masked := false;
    }

    /** A multi-clone between two machines: memory and disk agree on the
        state at the beginning plus the machines created so far, each of which was booted and
        has cloned `work`. */
    ghost predicate Cloning(created: seq<Record>, work: Workspace)
      reads this
    {
      && Valid() && MemSound() && mem == saved
      && CloneState(begin, mem, failed, created)
      && AllReady(created, intact, booted, ready, work)
    }

    /** What a failed multi-clone leaves behind. */
    ghost predicate Aborted(inserted: seq<Record>)
      reads this`masked, this`saved, this`mem, this`nextId, this`live, this`intact, this`trees, this`failed,
        this`begin
    {
      Valid() && MemSound() && ExactlyKept(begin.saved, mem, inserted, failed)
    }

    /** Every failure exit of `clone_machines` outside the ownership commit. */
    method AbortClone(created: seq<Record>) returns (o: Outcome<()>)
      requires Valid() && MemSound() && CloneState(begin, mem, failed, created)
      modifies this`live, this`sessions, this`intact, this`trees, this`failed, this`mem, this`saved
      ensures !o.Ok? && Valid()
      ensures o.Err? ==> Aborted(created)
    {
      ghost var before, failed0 := mem, failed;
      o := RollbackCreated(created);
      if o.Interrupted? {
        return;
      }
      RollbackExact(begin, before, failed0, mem, failed, created);
      return Err;
    }

    /** `remove_storage` of the machine whose save failed; it is dropped if its tree is gone. */
    method UndoLast(created: seq<Record>, record: Record)
      requires masked && Sound() && MemSound() && CloneState(begin, mem, failed, created + [record])
      requires Tracked(saved, trees, failed + {record.id})
      modifies this`live, this`sessions, this`intact, this`trees, this`failed, this`mem
      ensures RollingBack(mem, failed, created, |created|)
      ensures RolledBack(old(mem), mem, failed, created + [record], |created|)
      ensures Tracked(saved, trees, failed)
    {
      ghost var before, failed0, trees0 := mem, failed, trees;
      assert (created + [record])[|created|] == record;
      var _ := DropMachine(record);
      LastUndone(begin, before, mem, failed0, failed, created, record);
      LastAccounted(trees0, trees, saved, failed0, failed, masked, created, record.id);
    }

    /** The failed `save` of `clone_machines`: first the machine at hand is removed, then
        the earlier ones are rolled back. */
    method UndoClone(created: seq<Record>, record: Record)
      requires masked && Sound() && MemSound() && CloneState(begin, mem, failed, created + [record])
      requires Tracked(saved, trees, failed + {record.id})
      modifies this`live, this`sessions, this`intact, this`trees, this`failed, this`mem, this`saved
      ensures Sound() && MemSound() && Tracked(saved, trees, failed)
      ensures ExactlyKept(begin.saved, mem, created + [record], failed)
    {
      ghost var before, failed0 := mem, failed;
      UndoLast(created, record);
      ghost var middle, failed1 := mem, failed;
      var _ := RollbackCreated(created);
      RollbackComposes(before, middle, failed1, mem, failed, created, record);
      RollbackExact(begin, before, failed0, mem, failed, created + [record]);
    }

    /** Create the storage of one clone and file its record. */
    method FileClone(created: seq<Record>, record: Record) returns (o: Outcome<()>)
      requires masked && Sound() && MemSound() && mem == saved && Fresh(begin, mem, nextId, trees, failed, record)
      requires CloneState(begin, mem, failed, created)
      modifies this`live, this`sessions, this`intact, this`trees, this`failed, this`mem
      ensures Sound() && MemSound() && !o.Interrupted?
      ensures o.Ok? ==> CloneState(begin, mem, failed, created + [record])
      ensures o.Ok? ==> record.id in intact && record.id in sessions
      ensures o.Ok? ==> Tracked(saved, trees, failed + {record.id})
      ensures o.Err? ==> mem == saved && CloneState(begin, mem, failed, created)
      ensures old(intact) <= intact
      ensures faultFree ==> o.Ok? && live == old(live)
    {
      FreshIsNew(begin, mem, nextId, trees, failed, record);
      o := FileNew(record);
      if o.Ok? {
        CloneStateGrows(begin, old(mem), failed, created, record);
      } else {
        FailureIsNotPending(begin, mem, old(failed), failed, created, record.id);
      }
    }

    /** The ownership commit of one clone, with signals masked. */
    method CloneCommit(created: seq<Record>, record: Record) returns (o: CommitResult)
      requires masked && Sound() && MemSound() && mem == saved && Fresh(begin, mem, nextId, trees, failed, record)
      requires CloneState(begin, mem, failed, created)
      modifies this`live, this`sessions, this`intact, this`trees, this`failed, this`mem, this`saved
      ensures Sound() && MemSound() && Tracked(saved, trees, failed)
      ensures !o.Killed? && (o.Committed? || o.NotSaved? ==> o.record == record)
      ensures o.Committed? ==>
        && mem == saved && CloneState(begin, mem, failed, created + [record])
        && record.id in intact && record.id in sessions && old(intact) <= intact
      ensures o.NotCreated? ==> CloneState(begin, mem, failed, created)
      ensures o.NotSaved? ==> ExactlyKept(begin.saved, mem, created + [record], failed)
      ensures faultFree ==> o.Committed? && live == old(live)
    {
      var filed := FileClone(created, record);
      if !filed.Ok? {
        return NotCreated;
      }
      var kept := Save();
      if kept.Ok? {
        return Committed(record);
      }
      UndoClone(created, record);
      return NotSaved(record);
    }

    /** The mask of `clone_machines` around one ownership commit. */
    method MaskedCloneCommit(created: seq<Record>, record: Record, ghost work: Workspace) returns (o: CommitResult)
      requires Cloning(created, work) && Fresh(begin, mem, nextId, trees, failed, record)
      modifies this`live, this`sessions, this`intact, this`trees, this`failed, this`mem, this`saved, this`masked
      ensures Valid() && MemSound()
      ensures !o.Killed? && (o.Committed? || o.NotSaved? ==> o.record == record)
      ensures o.Committed? ==>
        && mem == saved && CloneState(begin, mem, failed, created + [record])
        && record.id in intact && record.id in sessions && AllReady(created, intact, booted, ready, work)
      ensures o.NotCreated? ==> CloneState(begin, mem, failed, created)
      ensures o.NotSaved? ==> ExactlyKept(begin.saved, mem, created + [record], failed)
      ensures faultFree ==> o.Committed? && live == old(live)
    {
      masked := true;
      o := CloneCommit(created, record);
      masked := false;
    }

    /** Start the newest machine and clone into it; on failure everything goes. */
    method FinishClone(inserted: seq<Record>, work: Workspace) returns (o: Outcome<()>)
      requires Valid() && MemSound() && mem == saved && CloneState(begin, mem, failed, inserted)
      requires inserted != []
      requires inserted[|inserted| - 1].id in intact && inserted[|inserted| - 1].id in sessions
      requires AllReady(inserted[..|inserted| - 1], intact, booted, ready, work)
      modifies this`live, this`sessions, this`intact, this`trees, this`failed, this`mem, this`saved, this`booted,
        this`ready
      ensures o.Ok? ==> Cloning(inserted, work) && inserted[|inserted| - 1].id in live
      ensures o.Err? ==> Aborted(inserted)
      ensures Valid()
      ensures faultFree ==> o.Ok? && old(live) <= live
    {
      assert forall i :: 0 <= i < |inserted| - 1 ==> inserted[..|inserted| - 1][i] == inserted[i];
      o := StartAndClone(inserted[|inserted| - 1].id, work);
      if o.Err? {
        o := AbortClone(inserted);
      }
    }

    /** Everything before the ownership commit of one clone; nothing is owned yet. */
    method PrepareClone(created: seq<Record>, name: string, ghost work: Workspace) returns (o: Outcome<Record>)
      requires Cloning(created, work) && name !in mem && |mem| < U32 - FIRST_CID
      modifies this`live, this`nextId
      ensures Cloning(created, work)
      ensures o.Ok? ==> o.value.name == name && o.value.repository
      ensures o.Ok? ==> Fresh(begin, mem, nextId, trees, failed, o.value)
      ensures faultFree ==> o.Ok? && live == old(live)
    {
      var record := DrawRecord(name, true);
      assert Cloning(created, work);
      var prepared := PrepareStorage();
      return if prepared.Ok? then Ok(record) else prepared.PropagateFailure();
    }

    /** From the fresh identifier of one clone to the end of its ownership commit. */
    method CreateClone(created: seq<Record>, name: string, ghost work: Workspace) returns (o: CommitResult)
      requires Cloning(created, work) && name !in mem && |mem| < U32 - FIRST_CID
      modifies this`live, this`sessions, this`intact, this`trees, this`failed, this`mem, this`saved, this`masked,
        this`nextId
      ensures Valid() && (!o.Killed? ==> MemSound())
      ensures o.Committed? || o.NotSaved? ==> o.record.name == name && o.record.repository
      ensures o.Committed? ==>
        && mem == saved && CloneState(begin, mem, failed, created + [o.record])
        && o.record.id in intact && o.record.id in sessions && AllReady(created, intact, booted, ready, work)
      ensures o.NotCreated? ==> CloneState(begin, mem, failed, created)
      ensures o.NotSaved? ==> ExactlyKept(begin.saved, mem, created + [o.record], failed)
      ensures faultFree ==> o.Committed? && live == old(live)
    {
      var prepared := PrepareClone(created, name, work);
      if !prepared.Ok? {
        return if prepared.Err? then NotCreated else Killed;
      }
      o := MaskedCloneCommit(created, prepared.value, work);
    }

    /** One turn of the loop of `clone_machines`. */
    method CloneOne(created: seq<Record>, name: string, work: Workspace)
      returns (o: Outcome<()>, inserted: seq<Record>)
      requires Cloning(created, work) && name !in mem && |mem| < U32 - FIRST_CID
      modifies this`live, this`sessions, this`intact, this`trees, this`failed, this`mem, this`saved, this`masked,
        this`nextId, this`booted, this`ready
      ensures Valid()
      ensures o.Ok? ==>
        Cloning(inserted, work) && Extends(created, inserted, name) && inserted[|created|].id in live
      ensures o.Err? ==> Aborted(inserted)
      ensures faultFree ==> o.Ok? && old(live) <= live
    {
      inserted := created;
      var committed := CreateClone(created, name, work);
      match committed
      case Killed =>
        o := Interrupted;
      case NotCreated =>
        o := AbortClone(created);
      case NotSaved(record) =>
        inserted := created + [record];
        o := Err;
      case Committed(record) =>
        inserted := created + [record];
        assert inserted[..|created|] == created;
        o := FinishClone(inserted, work);
    }

    /** The loop of `clone_machines`. */
    method CloneEach(names: seq<string>, work: Workspace) returns (o: Outcome<()>, inserted: seq<Record>)
      requires Cloning([], work) && |begin.saved| + |names| < U32 - FIRST_CID
      requires forall i :: 0 <= i < |names| ==> names[i] !in begin.saved
      requires forall i, j :: 0 <= i < j < |names| ==> names[i] != names[j]
      modifies this`live, this`sessions, this`intact, this`trees, this`failed, this`mem, this`saved, this`masked,
        this`nextId, this`booted, this`ready
      ensures Valid()
      ensures o.Ok? ==> Cloning(inserted, work) && Follow(inserted, names) && |inserted| == |names|
      ensures o.Err? ==> Aborted(inserted)
      ensures faultFree ==> o.Ok? && AllLive(inserted, live)
    {
      inserted := [];
      for k := 0 to |names|
        invariant Cloning(inserted, work)
        invariant |inserted| == k && Follow(inserted, names)
        invariant faultFree ==> AllLive(inserted, live)
      {
        NextNameIsFree(begin.saved, mem, inserted, names);
        CloneStateSize(begin.saved, mem, inserted);
        ghost var before, running := inserted, live;
        o, inserted := CloneOne(inserted, names[k], work);
        if !o.Ok? {
          return;
        }
        FollowExtends(before, inserted, names);
        if faultFree {
          AllLiveExtends(before, inserted, names[k], running, live);
        }
      }
      o := Ok(());
    }

    /** What `clone_machines` demands of its arguments. */
    static predicate Allowed(
      requested: Option<string>, repository: string, count: nat, machines: Machines, lower: char -> string)
    {
      && ValidRepository(repository, lower)
      && (requested.Some? ==> ValidName(requested.value))
      && (count == 1 && requested.Some? ==> requested.value !in machines)
    }

    /** What success of `clone_machines` means: exactly `count` records, saved, marked as
        repository machines and named as `allocate_clone_names` says, each with its own tree,
        booted and with the repository cloned into its workspace. */
    ghost predicate Cloned(
      requested: Option<string>, repository: string, count: nat, machines: Machines, lower: char -> string,
      inserted: seq<Record>)
      reads this
    {
      && RepositoryDirectory(repository, lower).Some?
      && Cloning(inserted, Workspace(repository, RepositoryDirectory(repository, lower).value))
      && Allocated(requested, repository, count, machines.Keys, lower, NamesOf(inserted))
      && (forall i :: 0 <= i < |inserted| ==> ValidName(inserted[i].name) && inserted[i].repository)
    }

    lemma ClonedBy(
      requested: Option<string>, repository: string, machines: Machines, lower: char -> string,
      inserted: seq<Record>, names: seq<string>)
      requires RepositoryDirectory(repository, lower).Some?
      requires Cloning(inserted, Workspace(repository, RepositoryDirectory(repository, lower).value))
      requires Allocated(requested, repository, |names|, machines.Keys, lower, names)
      requires Follow(inserted, names) && |inserted| == |names|
      requires forall i :: 0 <= i < |names| ==> ValidName(names[i])
      ensures Cloned(requested, repository, |inserted|, machines, lower, inserted)
    {
      FollowAll(inserted, names);
    }

    /** machine.rs `clone_machines`: all or nothing. Success is `Cloned`; failure leaves in
        memory the state it started from plus exactly the records inserted by this run whose
        removal failed. Faults apart it succeeds exactly for allowed arguments, and then all
        new machines run. */
    method CloneMachines(requested: Option<string>, repository: string, count: nat, lower: char -> string)
      returns (o: Outcome<()>, inserted: seq<Record>)
      requires Valid() && LowerCases(lower) && |saved| + count < U32 - FIRST_CID
      modifies this
      ensures Valid()
      ensures o.Ok? ==>
        && |inserted| == count && begin.saved == old(saved)
        && Cloned(requested, repository, count, old(saved), lower, inserted)
      ensures o.Err? ==>
        || (saved == old(saved) && inserted == [])
        || (begin.saved == old(saved) && Aborted(inserted))
      ensures SparesOthers(None)
      ensures faultFree ==> (o.Ok? <==> Allowed(requested, repository, count, old(saved), lower))
      ensures faultFree && o.Ok? ==> AllLive(inserted, live)
    {
      Commence();
      o, inserted := CreateAll(requested, repository, count, lower);
      SparedSince();
    }

    /** `lock` followed by `allocate_clone_names`. */
    method LockAndName(requested: Option<string>, repository: string, count: nat, lower: char -> string)
      returns (o: Outcome<seq<string>>)
      requires Valid() && LowerCases(lower) && |saved| + count < U32 - FIRST_CID
      requires requested.Some? ==> ValidName(requested.value)
      modifies this`live, this`mem
      ensures Valid()
      ensures o.Ok? ==>
        && MemSound() && mem == saved
        && Allocated(requested, repository, count, saved.Keys, lower, o.value)
        && (forall i :: 0 <= i < count ==> ValidName(o.value[i]) && o.value[i] !in saved)
        && (forall i, j :: 0 <= i < j < count ==> o.value[i] != o.value[j])
      ensures faultFree && RepositoryDirectory(repository, lower).Some? ==>
        (o.Ok? <==> !(count == 1 && requested.Some? && requested.value in saved))
    {
      var _ :- Lock();
      assert |mem.Keys| == |mem|;
      var names := AllocateCloneNames(requested, repository, count, mem.Keys, lower);
      return if names.Some? then Ok(names.value) else Err;
    }

    method CreateAll(requested: Option<string>, repository: string, count: nat, lower: char -> string)
      returns (o: Outcome<()>, inserted: seq<Record>)
      requires Valid() && LowerCases(lower) && |saved| + count < U32 - FIRST_CID && begin.saved == saved
      modifies this`live, this`sessions, this`intact, this`trees, this`failed, this`mem, this`saved, this`masked,
        this`nextId, this`booted, this`ready
      ensures Valid()
      ensures o.Ok? ==> |inserted| == count && Cloned(requested, repository, count, old(saved), lower, inserted)
      ensures o.Err? ==> (saved == old(saved) && inserted == []) || Aborted(inserted)
      ensures faultFree ==> (o.Ok? <==> Allowed(requested, repository, count, old(saved), lower))
      ensures faultFree && o.Ok? ==> AllLive(inserted, live)
    {
      inserted := [];
      var accepted := RepositoryAccepted(repository, lower);
      if !accepted || (requested.Some? && !ValidName(requested.value)) {
        return Err, [];
      }
      var names :- LockAndName(requested, repository, count, lower);
      o, inserted := CloneEach(names, Workspace(repository, RepositoryDirectory(repository, lower).value));
      if o.Ok? {
        ClonedBy(requested, repository, old(saved), lower, inserted, names);
      }
    }

    /** `lock` followed by `lookup`. */
    method Find(name: string) returns (o: Outcome<Record>)
      requires Valid()
      modifies this`live, this`mem
      ensures Valid()
      ensures o.Ok? ==> mem == saved && MemSound() && name in saved && o.value == saved[name]
      ensures faultFree && name in saved ==> o.Ok?
    {
      var _ :- Lock();
      return if name in mem then Ok(mem[name]) else Err;
    }

    /** machine.rs `start`: success means that the machine exists and runs; no tree and no
        record changes. */
    method StartMachine(name: string) returns (o: Outcome<()>)
      requires Valid()
      modifies this`live, this`sessions, this`mem, this`booted
      ensures Valid()
      ensures o.Ok? ==> name in saved && saved[name].id in live
      ensures faultFree && name in saved && saved[name].id in intact && saved[name].id in old(sessions) ==> o.Ok?
    {
      var record :- Find(name);
      var _ :- Tick();
      var running: bool := *;
      if running && record.id in live {
        return Ok(());
      }
      o := StartRecord(record.id);
    }

    /** The guard of `rm` without --force: boot the machine unless it runs, ask the guest,
        and stop it again if it was booted. Success means that a live guest reported a clean
        workspace; without faults a machine found stopped is stopped again. */
    method AskGuest(id: nat, reply: GuestReply) returns (o: Outcome<()>, running: bool)
      requires live <= intact
      modifies this`live, this`sessions, this`booted
      ensures live <= intact
      ensures running ==> id in old(live)
      ensures o.Ok? ==> reply.Clean? && (running || id in booted)
      ensures faultFree && id in intact && id in old(sessions) ==>
        (o.Ok? <==> reply.Clean?) && (!running ==> id !in live)
    {
      running := *;
      running := running && id in live;
      if !running {
        o := StartRecord(id);
        if !o.Ok? {
          return;
        }
      }
      var answered := Tick();
      if answered.Interrupt? {
        return Interrupted, running;
      }
      var clean := answered.Proceed? && id in live && reply.Clean?;
      if !running {
        var stopped := StopHelpers(id);
        if stopped.Interrupted? {
          return Interrupted, running;
        }
      }
      return if clean then Ok(()) else Err, running;
    }

    method StopIfRunning(id: nat) returns (o: Outcome<()>)
      modifies this`live, this`sessions
      ensures live <= old(live)
      ensures faultFree && id in intact ==> o.Ok?
    {
      var _ :- Tick();
      var running: bool := *;
      if running && id in live {
        o := StopHelpers(id);
      } else {
        o := Ok(());
      }
    }

    /** The tail of `rm`: delete the tree, drop the record, save. */
    method Destroy(record: Record) returns (o: Outcome<()>)
      requires Valid() && MemSound() && mem == saved
      requires record.name in saved && saved[record.name] == record && Mine(begin, record.id)
      modifies this`live, this`sessions, this`intact, this`trees, this`failed, this`mem, this`saved
      ensures Valid() && OnlyTree(record.id)
      ensures saved == old(saved) || (saved == old(saved) - {record.name} && record.id !in trees)
      ensures o.Ok? ==> mem == saved == old(saved) - {record.name} && record.id !in trees
      ensures faultFree && record.id in old(intact) ==> o.Ok?
      ensures record.id !in old(intact) ==> !o.Ok? && trees == old(trees) && saved == old(saved)
    {
      var _ :- StopIfRunning(record.id);
      o := DropMachine(record);
      if o.Ok? {
        o := Save();
      }
    }

    /** What `rm` does before it deletes anything. */
    method MayRemove(name: string, force: bool, reply: GuestReply) returns (o: Outcome<Record>)
      requires Valid()
      modifies this`live, this`sessions, this`booted, this`mem
      ensures Valid()
      ensures o.Ok? ==> mem == saved && MemSound() && name in saved && o.value == saved[name]
      ensures o.Ok? && o.value.repository && !force ==> reply.Clean?
      ensures
        && faultFree && name in saved && saved[name].id in intact
        && (force || !saved[name].repository || (reply.Clean? && saved[name].id in old(sessions)))
        ==> o.Ok?
    {
      var record :- Find(name);
      var _ :- Tick();
      if record.repository && !force {
        var asked, _ := AskGuest(record.id, reply);
        if !asked.Ok? {
          return asked.PropagateFailure();
        }
      }
      return Ok(record);
    }

    /** machine.rs `remove`. Only the named machine is touched; the record goes only after
        the tree, and a tree without its markers is never deleted; without --force a
        repository machine whose guest does not report a clean workspace keeps its tree. */
    method Remove(name: string, force: bool, reply: GuestReply) returns (o: Outcome<()>)
      requires Valid()
      modifies this`live, this`sessions, this`booted, this`intact, this`trees, this`failed, this`mem, this`saved,
        this`begin
      ensures Valid()
      ensures name !in old(saved) ==> !o.Ok? && saved == old(saved) && trees == old(trees) && intact == old(intact)
      ensures name in old(saved) ==>
        && SparesOthers(Some(old(saved)[name].id)) && trees <= old(trees) && intact <= old(intact)
        && (saved == old(saved) || (saved == old(saved) - {name} && old(saved)[name].id !in trees))
      ensures o.Ok? ==> mem == saved == old(saved) - {name} && old(saved)[name].id !in trees
      ensures name in old(saved) && old(saved)[name].repository && !force && !reply.Clean? ==>
        !o.Ok? && saved == old(saved) && trees == old(trees) && intact == old(intact)
      ensures
        && faultFree && name in old(saved) && old(saved)[name].id in old(intact)
        && (force || !old(saved)[name].repository || (reply.Clean? && old(saved)[name].id in old(sessions)))
        ==> o.Ok?
      ensures name in old(saved) && old(saved)[name].id !in old(intact) ==>
        !o.Ok? && trees == old(trees) && saved == old(saved)
    {
      Commence();
      var record :- MayRemove(name, force, reply);
      begin := begin.(target := Some(record.id));
      o := Destroy(record);
      SparedSince();
    }

    /** The earlier machine a command is about. */
    function Target(command: Command): Option<nat>
      reads this`saved
    {
      if command.Rm? && command.name in saved then Some(saved[command.name].id) else None
    }

    /** One CLI command, each a process of its own. Whatever becomes of it, machines it is
        not about keep record, tree and markers. A command that would leave fewer free CIDs
        than machines to create is not considered. */
    method Run(command: Command, lower: char -> string) returns (o: Outcome<()>, created: seq<Record>)
      requires Valid() && LowerCases(lower)
      modifies this
      ensures Valid()
      ensures SparesOthers(old(Target(command)))
      ensures o.Ok? ==> forall i :: 0 <= i < |created| ==> Stands(Now(), created[i])
      ensures o.Ok? && command.Init? ==> |created| == 1 && created[0].name == command.name
      ensures o.Ok? && command.Clone? ==> |created| == command.count
      ensures o.Ok? && command.Start? ==> command.name in saved && saved[command.name].id in live
    {
      created := [];
      match command
      case Init(name) =>
        if |saved| >= U32 - FIRST_CID {
          return Err, [];
        }
        o := InitMachine(name);
        created := if o.Ok? then [saved[name]] else [];
      case Clone(requested, repository, count) =>
        if |saved| + count >= U32 - FIRST_CID {
          return Err, [];
        }
        o, created := CloneMachines(requested, repository, count, lower);
      case Start(name) =>
        o := StartMachine(name);
      case Rm(name, force, reply) =>
        o := Remove(name, force, reply);
    }

    ghost function Now(): Snapshot
      reads this`saved, this`trees, this`intact
    {
      Snapshot(saved, trees, intact)
    }
  }

  datatype Snapshot = Snapshot(saved: Machines, trees: set<nat>, intact: set<nat>)

  /** The machine has its saved record, its tree and its markers. */
  ghost predicate Stands(s: Snapshot, r: Record) {
    r.name in s.saved && s.saved[r.name] == r && r.id in s.trees && r.id in s.intact
  }

  predicate Removes(command: Command, name: string) {
    command.Rm? && command.name == name
  }

  predicate NeverRemoves(commands: seq<Command>, name: string) {
    forall j :: 0 <= j < |commands| ==> !Removes(commands[j], name)
  }

  /** One command lets every machine stand that it was not told to remove. */
  ghost predicate LetsStand(s: Snapshot, command: Command, t: Snapshot) {
    forall r :: Stands(s, r) && !Removes(command, r.name) ==> Stands(t, r)
  }

  lemma {:induction false} StandsUntilRemoved(
    states: seq<Snapshot>, commands: seq<Command>, r: Record, i: nat, k: nat)
    requires |states| == |commands| + 1 && i <= k < |states|
    requires forall j :: 0 <= j < |commands| ==> LetsStand(states[j], commands[j], states[j + 1])
    requires Stands(states[i], r) && forall j :: i <= j < k ==> !Removes(commands[j], r.name)
    ensures Stands(states[k], r)
  {
    if i < k {
      StandsUntilRemoved(states, commands, r, i, k - 1);
      assert LetsStand(states[k - 1], commands[k - 1], states[k]);
    }
  }

  /** Any history of commands on a new installation, each failing or killed anywhere
      outside its signal-blocked windows: a tree without a saved record is one whose
      removal failed, helpers live only in whole trees, and CIDs stay distinct and legal.
      `states` are the states between the commands: each machine that a successful init or
      clone has filed stands, and what stands goes on standing until an rm names it. */
  method AnyHistory(commands: seq<Command>, lower: char -> string, faultFree: bool)
    returns (store: Store, outcomes: seq<Outcome<()>>, ghost filed: seq<seq<Record>>, ghost states: seq<Snapshot>)
    requires LowerCases(lower)
    ensures store.Valid()
    ensures forall id :: id in store.trees && id !in store.failed ==>
      exists n :: n in store.saved && store.saved[n].id == id
    ensures store.live <= store.intact <= store.trees
    ensures forall n :: n in store.saved ==> store.saved[n].cid >= FIRST_CID
    ensures forall a, b :: a in store.saved && b in store.saved && a != b ==>
      store.saved[a].cid != store.saved[b].cid && store.saved[a].id != store.saved[b].id
    ensures |outcomes| == |filed| == |commands| && |states| == |commands| + 1
    ensures states[0] == Snapshot(map[], {}, {}) && states[|commands|] == store.Now()
    ensures forall j :: 0 <= j < |commands| ==> Files(commands[j], outcomes[j], filed[j], states[j + 1])
    ensures forall j :: 0 <= j < |commands| ==> LetsStand(states[j], commands[j], states[j + 1])
    ensures forall r, i :: 0 <= i < |states| && Stands(states[i], r) && NeverRemoves(commands[i..], r.name) ==>
      Stands(store.Now(), r)
  {
    store := new Store(faultFree);
    outcomes, filed, states := [], [], [store.Now()];
    for k := 0 to |commands|
      invariant store.Valid() && fresh(store)
      invariant |outcomes| == |filed| == k && |states| == k + 1
      invariant states[0] == Snapshot(map[], {}, {}) && states[k] == store.Now()
      invariant forall j :: 0 <= j < k ==> Files(commands[j], outcomes[j], filed[j], states[j + 1])
      invariant forall j :: 0 <= j < k ==> LetsStand(states[j], commands[j], states[j + 1])
    {
      var o, created := RunAndWatch(store, commands[k], lower);
      outcomes, filed, states := outcomes + [o], filed + [created], states + [store.Now()];
    }
    assert forall a, b :: a in store.saved && b in store.saved && a != b ==> !Clash(store.saved, a, b);
    forall r, i | 0 <= i < |states| && Stands(states[i], r) && NeverRemoves(commands[i..], r.name)
      ensures Stands(store.Now(), r)
    {
      assert forall j :: i <= j < |commands| ==> commands[j] == commands[i..][j - i];
      StandsUntilRemoved(states, commands, r, i, |commands|);
    }
  }

  /** What success of `init` and `clone` means for the state after it. */
  ghost predicate Files(command: Command, o: Outcome<()>, created: seq<Record>, after: Snapshot) {
    o.Ok? ==>
      && (forall i :: 0 <= i < |created| ==> Stands(after, created[i]))
      && (command.Init? ==> |created| == 1 && created[0].name == command.name)
      && (command.Clone? ==> |created| == command.count)
  }

  method RunAndWatch(store: Store, command: Command, lower: char -> string)
    returns (o: Outcome<()>, created: seq<Record>)
    requires store.Valid() && LowerCases(lower)
    modifies store
    ensures store.Valid()
    ensures Files(command, o, created, store.Now())
    ensures LetsStand(old(store.Now()), command, store.Now())
  {
    ghost var before := store.Now();
    ghost var target := store.Target(command);
    assert forall r :: Stands(before, r) && target == Some(r.id) ==>
      Clash(before.saved, r.name, command.name);
    assert forall id :: id in store.trees ==> id < store.nextId;
    o, created := store.Run(command, lower);
  }
}
