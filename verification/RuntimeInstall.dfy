/** Verified, atomic installation of the managed runtime (runtime_install.rs).

    The CLI may be killed between any two steps of `setup`. The setup lock serialises
    invocations, so a history is a sequence of runs each of which may stop anywhere.
 */
module RuntimeInstall {
  import opened Bytes
  import opened Outcomes
  import opened RuntimeManifest
  import opened Sequences

  /** What lstat and read show of one file below a runtime root. */
  datatype Node = Node(regular: bool, nlink: nat, mode: nat, data: Blob)

  /** A directory tree as the map from the relative paths of its files. */
  type Tree = map<string, Node>

  /** active.json */
  datatype Active = Active(version: string, manifestSha256: string)

  datatype ActualFile = ActualFile(size: nat, sha256: string, executable: bool)

  const MAX_MANIFEST_BYTES: nat := 2 * 1024 * 1024
  const MAX_UNPACKED_BYTES: nat := 1024 * 1024 * 1024
  const CHUNK: nat := 64 * 1024
  /** 0o444 and 0o555 */
  const READ_ONLY: nat := 0x124
  const EXECUTABLE: nat := 0x16d

  function FileMode(executable: bool): nat {
    if executable then EXECUTABLE else READ_ONLY
  }

  /** `load_installation` succeeds on this tree. */
  predicate Loads(r: Rules, tree: Tree) {
    && MANIFEST in tree
    && tree[MANIFEST].regular
    && |tree[MANIFEST].data| <= MAX_MANIFEST_BYTES
    && r.decode(tree[MANIFEST].data).Some?
    && ManifestValid(r, r.decode(tree[MANIFEST].data).value)
  }

  function ManifestOf(r: Rules, tree: Tree): Manifest
    requires Loads(r, tree)
  {
    r.decode(tree[MANIFEST].data).value
  }

  predicate FileMatches(r: Rules, node: Node, f: RuntimeFile) {
    && node.regular
    && node.nlink == 1
    && |node.data| == f.size
    && node.mode == FileMode(f.executable)
    && r.sha256(node.data) == f.sha256
  }

  predicate BoundTo(r: Rules, tree: Tree, lock: Lock)
    requires Loads(r, tree)
  {
    r.sha256(tree[MANIFEST].data) == lock.manifestSha256 && MatchesLock(r, ManifestOf(r, tree), lock)
  }

  /** The files of the tree are exactly the listed ones, each as listed. */
  predicate HoldsExactly(r: Rules, tree: Tree, files: seq<RuntimeFile>) {
    && tree.Keys - {MANIFEST} == PathSet(files)
    && forall i :: 0 <= i < |files| ==> files[i].path in tree && FileMatches(r, tree[files[i].path], files[i])
  }

  /** What `verify_installation_at` is meant to establish. */
  predicate Verified(r: Rules, tree: Tree, lock: Option<Lock>) {
    && Loads(r, tree)
    && (lock.Some? ==> BoundTo(r, tree, lock.value))
    && tree[MANIFEST].nlink == 1
    && tree[MANIFEST].mode == READ_ONLY
    && (forall p :: p in tree ==> tree[p].regular)
    && HoldsExactly(r, tree, ManifestOf(r, tree).files)
  }

  ghost predicate CollisionFree(f: Blob -> string) {
    forall a, b :: f(a) == f(b) ==> a == b
  }

  /** A lock determines the installed tree, byte for byte and mode for mode. */
  lemma VerifiedTreeUnique(r: Rules, a: Tree, b: Tree, lock: Lock)
    requires CollisionFree(r.sha256)
    requires Verified(r, a, Some(lock)) && Verified(r, b, Some(lock))
    ensures a == b
  {
    assert a[MANIFEST].data == b[MANIFEST].data;
    var files := ManifestOf(r, a).files;
    assert a.Keys == PathSet(files) + {MANIFEST} && b.Keys == PathSet(files) + {MANIFEST};
    forall p | p in a
      ensures a[p] == b[p]
    {
      if p != MANIFEST {
        assert p in PathSet(files);
        var i :| 0 <= i < |files| && files[i].path == p;
        assert FileMatches(r, a[p], files[i]) && FileMatches(r, b[p], files[i]);
      }
    }
  }

  /** Installing a version again, where it was installed, is the identity. */
  lemma ReinstallChangesNothing(r: Rules, before: map<string, Tree>, after: map<string, Tree>, lock: Lock)
    requires CollisionFree(r.sha256)
    requires lock.version in before && Verified(r, before[lock.version], Some(lock))
    requires lock.version in after && Verified(r, after[lock.version], Some(lock))
    requires after - {lock.version} == before - {lock.version} || after == before
    ensures after == before
  {
    VerifiedTreeUnique(r, before[lock.version], after[lock.version], lock);
    assert after == (after - {lock.version})[lock.version := after[lock.version]];
    assert before == (before - {lock.version})[lock.version := before[lock.version]];
  }

  /** Creating `path` fails if it or one of its parents is there as the wrong kind. */
  predicate Obstructed(taken: set<string>, path: string) {
    exists t :: t in taken && (t + "/" <= path || path + "/" <= t)
  }

  /** When `extract_archive` takes the next tar member. */
  predicate Admissible(e: Member, taken: set<string>, total: nat) {
    && e.Member?
    && e.regular
    && (e.path == MANIFEST || ValidRuntimePath(e.path))
    && e.path !in taken
    && e.uid == 0 && e.gid == 0
    && e.mtime == 1
    && (e.mode % 0x1000 == READ_ONLY || e.mode % 0x1000 == EXECUTABLE)
    && e.size > 0
    && total + e.size <= MAX_UNPACKED_BYTES
    && (e.path == MANIFEST ==> e.size <= MAX_MANIFEST_BYTES)
    && !Obstructed(taken, e.path)
    && |e.data| == e.size
  }

  function Place(tree: Tree, e: Member): Tree
    requires e.Member?
  {
    tree[e.path := Node(true, 1, e.mode % 0x1000, e.data)]
  }

  /** The tree and the total size that a list of members describes. */
  function Unpacked(members: seq<Member>): Tree {
    if members == [] then
      map[]
    else
      var before, last := Unpacked(members[..|members| - 1]), members[|members| - 1];
      if last.Member? then Place(before, last) else before
  }

  function Total(members: seq<Member>): nat {
    if members == [] then
      0
    else
      Total(members[..|members| - 1]) + if members[|members| - 1].Member? then members[|members| - 1].size else 0
  }

  ghost predicate AllAdmissible(members: seq<Member>, n: nat)
    requires n <= |members|
  {
    forall k :: 0 <= k < n ==> Admissible(members[k], Unpacked(members[..k]).Keys, Total(members[..k]))
  }

  /** The archive is as a release build makes it. */
  ghost predicate GoodArchive(r: Rules, archive: Blob, lock: Lock) {
    && |archive| == lock.archiveSize
    && r.sha256(archive) == lock.archiveSha256
    && AllAdmissible(r.unpack(archive), |r.unpack(archive)|)
    && Verified(r, Unpacked(r.unpack(archive)), Some(lock))
  }

  lemma OneMore(members: seq<Member>, k: nat)
    requires k < |members| && members[k].Member?
    ensures Unpacked(members[..k + 1]) == Place(Unpacked(members[..k]), members[k])
    ensures Total(members[..k + 1]) == Total(members[..k]) + members[k].size
  {
    var longer := members[..k + 1];
    assert longer[..k] == members[..k] && longer[k] == members[k];
  }

  /** No file of the tree is also a directory of it, so the map of paths is a file tree. */
  ghost predicate IsFileTree(tree: Tree) {
    forall p, q :: p in tree && q in tree ==> !Below(q, p)
  }

  predicate Below(path: string, directory: string) {
    directory + "/" <= path
  }

  lemma {:induction false} AdmissibleIsFileTree(members: seq<Member>, n: nat)
    requires n <= |members| && AllAdmissible(members, n)
    ensures IsFileTree(Unpacked(members[..n]))
  {
    if n > 0 {
      AdmissibleIsFileTree(members, n - 1);
      OneMore(members, n - 1);
      var taken, path := Unpacked(members[..n - 1]).Keys, members[n - 1].path;
      assert !Obstructed(taken, path) && !Below(path, path);
      assert forall t :: t in taken ==> !Below(path, t) && !Below(t, path);
    }
  }

  /** The table kept during extraction describes the files written so far. */
  predicate Describes(r: Rules, actual: map<string, ActualFile>, tree: Tree) {
    && actual.Keys == tree.Keys
    && forall p :: p in tree ==> Described(r, actual[p], tree[p])
  }

  predicate Described(r: Rules, entry: ActualFile, node: Node) {
    && node.regular
    && node.nlink == 1
    && |node.data| == entry.size
    && r.sha256(node.data) == entry.sha256
    && node.mode == FileMode(entry.executable)
  }

  predicate Found(entry: ActualFile, f: RuntimeFile) {
    entry == ActualFile(f.size, f.sha256, f.executable)
  }

  /** Comparing the table with the manifest is comparing the tree with it. */
  lemma TableDecides(r: Rules, actual: map<string, ActualFile>, tree: Tree, files: seq<RuntimeFile>)
    requires Describes(r, actual, tree) && FilesValid(files) && MANIFEST in tree
    ensures
      (&& |actual.Keys - {MANIFEST}| == |files|
       && forall i :: 0 <= i < |files| ==>
         files[i].path in actual.Keys - {MANIFEST} && Found(actual[files[i].path], files[i]))
      <==> HoldsExactly(r, tree, files)
  {
    AscendingIsDistinct(files);
    PathSetSize(files);
    if
      && |actual.Keys - {MANIFEST}| == |files|
      && forall i :: 0 <= i < |files| ==>
        files[i].path in actual.Keys - {MANIFEST} && Found(actual[files[i].path], files[i])
    {
      ExactMembers(files, actual.Keys - {MANIFEST});
      assert forall i :: 0 <= i < |files| ==> Described(r, actual[files[i].path], tree[files[i].path]);
    }
    if HoldsExactly(r, tree, files) {
      forall i | 0 <= i < |files|
        ensures files[i].path in actual.Keys - {MANIFEST} && Found(actual[files[i].path], files[i])
      {
        assert files[i].path in PathSet(files);
        assert Described(r, actual[files[i].path], tree[files[i].path]);
      }
    }
  }

  predicate HexDigest(s: string) {
    |s| == 64 && forall c :: c in s ==> HexDigit(c)
  }

  /** What `discover` looks for. */
  predicate Discoverable(r: Rules, active: Option<Active>, versions: map<string, Tree>) {
    && active.Some?
    && r.semver(active.value.version)
    && HexDigest(active.value.manifestSha256)
    && active.value.version in versions
    && var tree := versions[active.value.version];
    && Loads(r, tree)
    && ManifestOf(r, tree).version == active.value.version
    && r.sha256(tree[MANIFEST].data) == active.value.manifestSha256
    && r.compatible(ManifestOf(r, tree).compatibility)
  }

  /** A pointer written for one lock, over a tree verified for another lock of the same
      version, is good exactly if both locks have the same manifest. */
  lemma PointerAfterExchange(r: Rules, versions: map<string, Tree>, a: Lock, b: Lock)
    requires LockValid(r, a) && LockValid(r, b) && a.version == b.version
    requires b.version in versions && Verified(r, versions[b.version], Some(b))
    ensures Discoverable(r, Some(Active(a.version, a.manifestSha256)), versions)
      <==> a.manifestSha256 == b.manifestSha256
  {
  }

  datatype Request = Request(lock: Lock, archive: Option<Blob>)

  class Runtime {
    const rules: Rules
    const faultFree: bool
    /** runtime/<version> */
    var versions: map<string, Tree>
    var active: Option<Active>
    /** The temporary directory of this invocation. */
    var staging: Option<Tree>

    constructor (rules: Rules, faultFree: bool)
      ensures this.rules == rules && this.faultFree == faultFree
      ensures versions == map[] && active == None
    {
      this.rules := rules;
      this.faultFree := faultFree;
      versions, active, staging := map[], None, None;
    }

    method Tick() returns (s: Step)
      ensures faultFree ==> s.Proceed?
    {
      s := AnyStep(faultFree);
    }

    /** `RuntimeManifest::from_json` on bytes that have been read. */
    method DecodeManifest(data: Blob) returns (m: Option<Manifest>)
      ensures m.Some? <==> rules.decode(data).Some? && ManifestValid(rules, rules.decode(data).value)
      ensures m.Some? ==> m == rules.decode(data)
    {
      m := rules.decode(data);
      if m.None? || !rules.general(m.value) {
        return None;
      }
      var ok := ValidateFiles(m.value.files);
      if !ok {
        m := None;
      }
    }

    /** `load_installation`. */
    method LoadInstallation(tree: Tree) returns (o: Outcome<Manifest>)
      ensures o.Ok? ==> Loads(rules, tree) && o.value == ManifestOf(rules, tree)
      ensures faultFree && Loads(rules, tree) ==> o.Ok?
      ensures faultFree ==> !o.Interrupted?
    {
      var _ :- Tick();
      if MANIFEST !in tree || !tree[MANIFEST].regular || |tree[MANIFEST].data| > MAX_MANIFEST_BYTES {
        return Err;
      }
      var _ :- Tick();
      var m := DecodeManifest(tree[MANIFEST].data);
      return if m.Some? then Ok(m.value) else Err;
    }

    /** `walk_runtime_files`: collect every path, in no particular order. */
    method Walk(tree: Tree) returns (o: Outcome<set<string>>)
      ensures o.Ok? ==> o.value == tree.Keys && forall p :: p in tree ==> tree[p].regular
      ensures faultFree && (forall p :: p in tree ==> tree[p].regular) ==> o.Ok?
      ensures faultFree ==> !o.Interrupted?
    {
      var left, found := tree.Keys, {};
      while left != {}
        invariant left + found == tree.Keys && forall p :: p in found ==> tree[p].regular
        decreases left
      {
        var _ :- Tick();
        var p :| p in left;
        if !tree[p].regular {
          return Err;
        }
        left, found := left - {p}, found + {p};
      }
      return Ok(found);
    }

    /** The last loop of `verify_installation_at`. */
    method VerifyFiles(tree: Tree, files: seq<RuntimeFile>) returns (o: Outcome<()>)
      requires PathSet(files) <= tree.Keys
      ensures o.Ok? ==> forall i :: 0 <= i < |files| ==> FileMatches(rules, tree[files[i].path], files[i])
      ensures faultFree ==>
        (o.Ok? <==> forall i :: 0 <= i < |files| ==> FileMatches(rules, tree[files[i].path], files[i]))
      ensures faultFree ==> !o.Interrupted?
    {
      for k := 0 to |files|
        invariant forall i :: 0 <= i < k ==> FileMatches(rules, tree[files[i].path], files[i])
      {
        var _ :- Tick();
        assert files[k].path in PathSet(files);
        if !FileMatches(rules, tree[files[k].path], files[k]) {
          return Err;
        }
      }
      return Ok(());
    }

    /** `verify_installation_at`: success exactly for verified trees, faults apart. */
    method VerifyInstallation(tree: Tree, lock: Option<Lock>) returns (o: Outcome<()>)
      ensures o.Ok? ==> Verified(rules, tree, lock)
      ensures faultFree && Verified(rules, tree, lock) ==> o.Ok?
      ensures faultFree ==> !o.Interrupted?
    {
      var m :- LoadInstallation(tree);
      if lock.Some? && !BoundTo(rules, tree, lock.value) {
        return Err;
      }
      var _ :- Tick();
      if tree[MANIFEST].nlink != 1 || tree[MANIFEST].mode != READ_ONLY {
        return Err;
      }
      var found :- Walk(tree);
      if found - {MANIFEST} != PathSet(m.files) {
        return Err;
      }
      o := VerifyFiles(tree, m.files);
    }

    /** The copy loop: short reads, and never more than the header announced. */
    method CopyMember(data: Blob, size: nat) returns (o: Outcome<Blob>)
      ensures o.Ok? ==> o.value == data && |data| == size
      ensures faultFree && |data| == size ==> o.Ok?
    {
      var written: Blob := [];
      while |written| < |data|
        invariant written <= data && |written| <= size
      {
        var _ :- Tick();
        var read: int := *;
        if read < 1 || read > CHUNK || read > |data| - |written| {
          read := 1;
        }
        if |written| + read > size {
          return Err;
        }
        var _ :- Tick();
        written := data[..|written| + read];
      }
      return if |written| == size then Ok(written) else Err;
    }

    /** The header checks of one tar member. */
    method CheckHeader(e: Member, taken: set<string>, total: nat) returns (ok: bool)
      requires e.Member?
      ensures ok && !Obstructed(taken, e.path) && |e.data| == e.size <==> Admissible(e, taken, total)
    {
      if !e.regular || (e.path != MANIFEST && !ValidRuntimePath(e.path)) || e.path in taken {
        return false;
      }
      if e.uid != 0 || e.gid != 0 || e.mtime != 1 {
        return false;
      }
      var mode := e.mode % 0x1000;
      if (mode != READ_ONLY && mode != EXECUTABLE) || e.size == 0 || total + e.size > MAX_UNPACKED_BYTES {
        return false;
      }
      return e.path != MANIFEST || e.size <= MAX_MANIFEST_BYTES;
    }

    /** One turn of the loop of `extract_archive`. */
    method ExtractMember(e: Member, actual: map<string, ActualFile>, total: nat)
      returns (o: Outcome<map<string, ActualFile>>)
      requires staging.Some? && Describes(rules, actual, staging.value)
      modifies this`staging
      ensures staging.Some?
      ensures o.Ok? ==>
        && Admissible(e, actual.Keys, total)
        && staging == Some(Place(old(staging.value), e))
        && Describes(rules, o.value, staging.value)
      ensures faultFree && Admissible(e, actual.Keys, total) ==> o.Ok?
    {
      var _ :- Tick();
      if e.Unreadable? {
        return Err;
      }
      var accepted := CheckHeader(e, actual.Keys, total);
      if !accepted || Obstructed(actual.Keys, e.path) {
        return Err;
      }
      var _ :- Tick();
      staging := Some(staging.value[e.path := Node(true, 1, 0x180, [])]);
      var written :- CopyMember(e.data, e.size);
      var _ :- Tick();
      staging := Some(Place(staging.value, e));
      assert staging.value == Place(old(staging.value), e);
      return Ok(actual[e.path := ActualFile(e.size, rules.sha256(written), e.mode % 0x1000 == EXECUTABLE)]);
    }

    /** The member loop of `extract_archive`. */
    method ExtractMembers(members: seq<Member>) returns (o: Outcome<map<string, ActualFile>>)
      requires staging == Some(map[])
      modifies this`staging
      ensures staging.Some?
      ensures o.Ok? ==>
        && AllAdmissible(members, |members|) && Total(members) <= MAX_UNPACKED_BYTES
        && staging == Some(Unpacked(members))
        && Describes(rules, o.value, staging.value)
      ensures faultFree && AllAdmissible(members, |members|) ==> o.Ok?
    {
      var actual: map<string, ActualFile> := map[];
      var total := 0;
      for k := 0 to |members|
        invariant staging == Some(Unpacked(members[..k])) && total == Total(members[..k])
        invariant AllAdmissible(members, k) && total <= MAX_UNPACKED_BYTES
        invariant Describes(rules, actual, staging.value)
      {
        actual :- ExtractMember(members[k], actual, total);
        OneMore(members, k);
        total := total + members[k].size;
      }
      assert members[..|members|] == members;
      return Ok(actual);
    }

    /** The manifest comparison at the end of `extract_archive`. */
    method CompareWithManifest(actual: map<string, ActualFile>, lock: Lock) returns (o: Outcome<()>)
      requires staging.Some? && Describes(rules, actual, staging.value)
      ensures o.Ok? ==> Verified(rules, staging.value, Some(lock))
      ensures faultFree && Verified(rules, staging.value, Some(lock)) ==> o.Ok?
    {
      var m :- LoadInstallation(staging.value);
      if !BoundTo(rules, staging.value, lock) || actual[MANIFEST].executable {
        assert Described(rules, actual[MANIFEST], staging.value[MANIFEST]);
        return Err;
      }
      assert Described(rules, actual[MANIFEST], staging.value[MANIFEST]);
      TableDecides(rules, actual, staging.value, m.files);
      if |actual.Keys - {MANIFEST}| != |m.files| {
        return Err;
      }
      for k := 0 to |m.files|
        invariant forall i :: 0 <= i < k ==>
          m.files[i].path in actual.Keys - {MANIFEST} && Found(actual[m.files[i].path], m.files[i])
      {
        if m.files[k].path !in actual.Keys - {MANIFEST} || !Found(actual[m.files[k].path], m.files[k]) {
          return Err;
        }
      }
      assert forall p :: p in staging.value ==> Described(rules, actual[p], staging.value[p]);
      return Ok(());
    }

    /** runtime_install.rs `extract_archive`. Faults apart it succeeds exactly if every
        member is admissible and the tree they describe verifies; the tree is then that
        one and nothing else. */
    method ExtractArchive(archive: Blob, lock: Lock) returns (o: Outcome<()>)
      requires staging == Some(map[])
      modifies this`staging
      ensures staging.Some?
      ensures o.Ok? ==>
        && staging == Some(Unpacked(rules.unpack(archive)))
        && Verified(rules, staging.value, Some(lock))
        && Total(rules.unpack(archive)) <= MAX_UNPACKED_BYTES
        && AllAdmissible(rules.unpack(archive), |rules.unpack(archive)|)
        && IsFileTree(staging.value)
      ensures faultFree && GoodArchive(rules, archive, lock) ==> o.Ok?
    {
      var _ :- Tick();
      var actual :- ExtractMembers(rules.unpack(archive));
      ghost var members := rules.unpack(archive);
      assert members[..|members|] == members;
      AdmissibleIsFileTree(members, |members|);
      var _ :- CompareWithManifest(actual, lock);
      var _ :- Tick();
      var _ :- Tick();
      return Ok(());
    }

    /** `write_active`: a temporary file renamed over active.json. */
    method WriteActive(lock: Lock) returns (o: Outcome<()>)
      modifies this`active
      ensures active == old(active) || active == Some(Active(lock.version, lock.manifestSha256))
      ensures o.Ok? ==> active == Some(Active(lock.version, lock.manifestSha256))
      ensures faultFree ==> o.Ok?
    {
      var _ :- Tick();
      var _ :- Tick();
      active := Some(Active(lock.version, lock.manifestSha256));
      var _ :- Tick();
      return Ok(());
    }

    /** active.json may have changed only to name the tree of this lock, once verified. */
    ghost predicate ActiveBound(before: Option<Active>, lock: Lock)
      reads this`active, this`versions
    {
      || active == before
      || (active == Some(Active(lock.version, lock.manifestSha256)) && Installed(lock))
    }

    predicate Installed(lock: Lock)
      reads this`versions
    {
      lock.version in versions && Verified(rules, versions[lock.version], Some(lock))
    }

    /** The tree that this run replaces is still there, or active.json names its successor. */
    twostate predicate Kept(lock: Lock)
      reads this`versions, this`active, this`staging
    {
      lock.version in old(versions) ==>
        || versions == old(versions)
        || staging == Some(old(versions)[lock.version])
        || active == Some(Active(lock.version, lock.manifestSha256))
    }

    /** The first half of `install_staging`: the directories change places. */
    method ExchangeStaging(lock: Lock) returns (o: Outcome<()>)
      requires staging.Some?
      modifies this`versions, this`staging
      ensures o.Ok? ==> versions == old(versions)[lock.version := old(staging.value)]
      ensures !o.Ok? ==> versions == old(versions) && staging == old(staging)
      ensures o.Ok? ==>
        staging == if lock.version in old(versions) then Some(old(versions)[lock.version]) else None
      ensures faultFree ==> o.Ok?
    {
      var _ :- Tick();
      var _ :- Tick();
      var replaced := if lock.version in versions then Some(versions[lock.version]) else None;
      versions := versions[lock.version := staging.value];
      staging := replaced;
      return Ok(());
    }

    /** `install_staging`: exchange the directories, then the pointer file, then clean up. */
    method InstallStaging(lock: Lock) returns (o: Outcome<()>)
      requires staging.Some? && Verified(rules, staging.value, Some(lock))
      modifies this`versions, this`active, this`staging
      ensures versions == old(versions) || versions == old(versions)[lock.version := old(staging.value)]
      ensures ActiveBound(old(active), lock)
      ensures o.Ok? ==> Installed(lock) && active == Some(Active(lock.version, lock.manifestSha256))
      ensures faultFree ==> o.Ok?
      ensures Kept(lock)
    {
      var _ :- ExchangeStaging(lock);
      var _ :- WriteActive(lock);
      var _ :- Tick();
      var _ :- Tick();
      staging := None;
      return Ok(());
    }

    /** The archive that was passed, or one that was downloaded, checked against the lock. */
    method Fetch(archive: Option<Blob>, lock: Lock) returns (o: Outcome<Blob>)
      ensures o.Ok? ==> |o.value| == lock.archiveSize && rules.sha256(o.value) == lock.archiveSha256
      ensures o.Ok? && archive.Some? ==> o.value == archive.value
      ensures faultFree && archive.Some? && GoodArchive(rules, archive.value, lock) ==> o.Ok?
    {
      var bytes: Blob := *;
      if archive.Some? {
        bytes := archive.value;
      }
      var _ :- Tick();
      if |bytes| != lock.archiveSize || rules.sha256(bytes) != lock.archiveSha256 {
        return Err;
      }
      return Ok(bytes);
    }

    /** A new staging directory, extraction, verification. */
    method Stage(archive: Blob, lock: Lock) returns (o: Outcome<()>)
      modifies this`staging
      ensures o.Ok? ==> staging.Some? && Verified(rules, staging.value, Some(lock))
      ensures faultFree && GoodArchive(rules, archive, lock) ==> o.Ok?
    {
      var _ :- Tick();
      staging := Some(map[]);
      var _ :- ExtractArchive(archive, lock);
      o := VerifyInstallation(staging.value, Some(lock));
    }

    /** Staging, installation, and verification of what was installed. */
    method InstallArchive(archive: Blob, lock: Lock) returns (o: Outcome<()>)
      modifies this`versions, this`active, this`staging
      ensures versions == old(versions) ||
        (versions - {lock.version} == old(versions) - {lock.version} && Installed(lock))
      ensures ActiveBound(old(active), lock)
      ensures o.Ok? ==> Installed(lock) && active == Some(Active(lock.version, lock.manifestSha256))
      ensures faultFree && GoodArchive(rules, archive, lock) ==> o.Ok?
      ensures Kept(lock)
    {
      var _ :- Stage(archive, lock);
      var _ :- InstallStaging(lock);
      o := VerifyInstallation(versions[lock.version], Some(lock));
    }

    /** runtime_install.rs `setup`. On every exit, being killed included, the version
        directory is what it was or verified, other versions are untouched, active.json is
        what it was or names a verified tree, and a replaced tree is kept until it does. */
    method Setup(lock: Lock, archive: Option<Blob>) returns (o: Outcome<()>)
      modifies this`versions, this`active, this`staging
      ensures versions == old(versions) ||
        (versions - {lock.version} == old(versions) - {lock.version} && Installed(lock))
      ensures ActiveBound(old(active), lock)
      ensures !LockValid(rules, lock) ==> versions == old(versions) && active == old(active)
      ensures o.Ok? ==> Installed(lock) && active == Some(Active(lock.version, lock.manifestSha256))
      ensures o.Ok? ==>
        var m := ManifestOf(rules, versions[lock.version]);
        && m.version == lock.version && m.target == lock.target && m.protocol == lock.protocol
        && m.compatibility == lock.compatibility && rules.compatible(lock.compatibility)
        && rules.general(m) && rules.lockGeneral(lock) && rules.semver(lock.version)
      ensures old(Installed(lock)) && CollisionFree(rules.sha256) ==> versions == old(versions)
      ensures faultFree && LockValid(rules, lock) && old(Installed(lock)) ==> o.Ok? && versions == old(versions)
      ensures faultFree && LockValid(rules, lock) && archive.Some? && GoodArchive(rules, archive.value, lock) ==> o.Ok?
      ensures Kept(lock)
    {
      var _ :- Tick();
      var _ :- Tick();
      if !LockValid(rules, lock) {
        return Err;
      }
      if lock.version in versions {
        var present := VerifyInstallation(versions[lock.version], Some(lock));
        if present.Interrupted? {
          return Interrupted;
        }
        if present.Ok? {
          o := WriteActive(lock);
          return;
        }
      }
      var bytes :- Fetch(archive, lock);
      o := InstallArchive(bytes, lock);
      if CollisionFree(rules.sha256) && old(Installed(lock)) {
        ReinstallChangesNothing(rules, old(versions), versions, lock);
      }
    }

    /** runtime_install.rs `discover`. */
    method Discover() returns (o: Outcome<Option<Manifest>>)
      ensures o.Ok? && o.value.None? ==> active.None?
      ensures o.Ok? && o.value.Some? ==>
        Discoverable(rules, active, versions) && o.value.value == ManifestOf(rules, versions[active.value.version])
      ensures o.Ok? && o.value.Some? ==> rules.compatible(o.value.value.compatibility)
      ensures faultFree && Discoverable(rules, active, versions) ==> o.Ok? && o.value.Some?
      ensures faultFree && active.None? ==> o == Ok(None)
    {
      var _ :- Tick();
      if active.None? {
        return Ok(None);
      }
      var a := active.value;
      if !rules.semver(a.version) || !HexDigest(a.manifestSha256) || a.version !in versions {
        return Err;
      }
      var m :- LoadInstallation(versions[a.version]);
      if
        || m.version != a.version
        || rules.sha256(versions[a.version][MANIFEST].data) != a.manifestSha256
        || !rules.compatible(m.compatibility)
      {
        return Err;
      }
      return Ok(Some(m));
    }
  }

  /** A release never changes the manifest of a version. */
  predicate Immutable(requests: seq<Request>) {
    forall a, b :: a in requests && b in requests && a.lock.version == b.lock.version ==>
      a.lock.manifestSha256 == b.lock.manifestSha256
  }

  predicate Origin(r: Rules, requests: seq<Request>, n: nat, version: string, tree: Tree)
    requires n <= |requests|
  {
    exists i :: 0 <= i < n && Supplies(r, requests[i].lock, version, tree)
  }

  predicate Supplies(r: Rules, lock: Lock, version: string, tree: Tree) {
    LockValid(r, lock) && lock.version == version && Verified(r, tree, Some(lock))
  }

  /** One setup keeps every installed version traceable to a lock. */
  lemma OriginsGrow(r: Rules, requests: seq<Request>, k: nat, before: map<string, Tree>, after: map<string, Tree>)
    requires k < |requests| && forall v :: v in before ==> Origin(r, requests, k, v, before[v])
    requires after == before ||
      (&& after - {requests[k].lock.version} == before - {requests[k].lock.version}
       && requests[k].lock.version in after
       && Supplies(r, requests[k].lock, requests[k].lock.version, after[requests[k].lock.version]))
    ensures forall v :: v in after ==> Origin(r, requests, k + 1, v, after[v])
    ensures before.Keys <= after.Keys
  {
    var installed := requests[k].lock.version;
    if after != before {
      assert after == (after - {installed})[installed := after[installed]];
    }
    forall v | v in after
      ensures Origin(r, requests, k + 1, v, after[v])
    {
      if after == before || v != installed {
        assert v in before && after[v] == before[v] by {
          assert v in after - {installed} ==> (after - {installed})[v] == (before - {installed})[v];
        }
        assert Origin(r, requests, k, v, before[v]);
      } else {
        assert Supplies(r, requests[k].lock, v, after[v]);
      }
    }
    assert before.Keys <= (before - {installed}).Keys + {installed};
  }

  /** With immutable releases the pointer and the tree it names agree. */
  lemma ActiveAgrees(r: Rules, requests: seq<Request>, active: Active, tree: Tree)
    requires Immutable(requests) && Announced(r, requests, |requests|, active)
    requires Origin(r, requests, |requests|, active.version, tree)
    ensures r.semver(active.version) && HexDigest(active.manifestSha256)
    ensures Loads(r, tree) && ManifestOf(r, tree).version == active.version
    ensures r.sha256(tree[MANIFEST].data) == active.manifestSha256
    ensures r.compatible(ManifestOf(r, tree).compatibility)
  {
    var i :| 0 <= i < |requests| && LockValid(r, requests[i].lock) &&
      active == Active(requests[i].lock.version, requests[i].lock.manifestSha256);
    var j :| 0 <= j < |requests| && Supplies(r, requests[j].lock, active.version, tree);
  }

  predicate Announced(r: Rules, requests: seq<Request>, n: nat, active: Active)
    requires n <= |requests|
  {
    exists i :: 0 <= i < n && LockValid(r, requests[i].lock) &&
      active == Active(requests[i].lock.version, requests[i].lock.manifestSha256)
  }

  /** Any history of setups on an empty data directory, each failing or killed anywhere:
      every installed version is verified for a lock that was asked for, active.json names
      an installed version, and if no version ever had two manifests it always names a
      runtime that `discover` accepts. */
  method AnySetups(runtime: Runtime, requests: seq<Request>)
    requires runtime.versions == map[] && runtime.active == None
    modifies runtime
    ensures forall v :: v in runtime.versions ==> Origin(runtime.rules, requests, |requests|, v, runtime.versions[v])
    ensures runtime.active.Some? ==>
      && runtime.active.value.version in runtime.versions
      && Announced(runtime.rules, requests, |requests|, runtime.active.value)
    ensures runtime.active.Some? && Immutable(requests) ==>
      Discoverable(runtime.rules, runtime.active, runtime.versions)
  {
    for k := 0 to |requests|
      invariant forall v :: v in runtime.versions ==> Origin(runtime.rules, requests, k, v, runtime.versions[v])
      invariant runtime.active.Some? ==>
        && runtime.active.value.version in runtime.versions
        && Announced(runtime.rules, requests, k, runtime.active.value)
    {
      ghost var before, named := runtime.versions, runtime.active;
      var _ := runtime.Setup(requests[k].lock, requests[k].archive);
      OriginsGrow(runtime.rules, requests, k, before, runtime.versions);
      assert named.Some? ==> Announced(runtime.rules, requests, k + 1, named.value);
    }
    if runtime.active.Some? && Immutable(requests) {
      ghost var a := runtime.active.value;
      ActiveAgrees(runtime.rules, requests, a, runtime.versions[a.version]);
    }
  }

  /** A run in which no call fails: version installed for `a`, then a setup for `b` that is
      killed between the exchange and the pointer. Afterwards `discover` accepts the
      runtime exactly if the two locks have the same manifest. */
  method KilledBeforePointer(runtime: Runtime, a: Request, b: Request)
    requires runtime.faultFree && LockValid(runtime.rules, a.lock) && LockValid(runtime.rules, b.lock)
    requires a.lock.version == b.lock.version
    requires a.archive.Some? && GoodArchive(runtime.rules, a.archive.value, a.lock)
    requires b.archive.Some? && GoodArchive(runtime.rules, b.archive.value, b.lock)
    modifies runtime
    ensures runtime.active == Some(Active(a.lock.version, a.lock.manifestSha256)) && runtime.Installed(b.lock)
    ensures Discoverable(runtime.rules, runtime.active, runtime.versions)
      <==> a.lock.manifestSha256 == b.lock.manifestSha256
  {
    var _ := runtime.Setup(a.lock, a.archive);
    var _ := runtime.Stage(b.archive.value, b.lock);
    var _ := runtime.ExchangeStaging(b.lock);
    PointerAfterExchange(runtime.rules, runtime.versions, a.lock, b.lock);
  }

  function Digest(c: char): (s: string)
    ensures |s| == 64 && forall d :: d in s ==> d == c
  {
    seq(64, i => c)
  }

  const COMPATIBILITY := Compatibility("0.1.0", "0.2.0")
  const FILE := RuntimeFile("bin/x", 1, Digest('f'), false)

  function LockOf(manifest: char): Lock {
    Lock("1.0.0", "x86_64-linux", 1, COMPATIBILITY, 1, Digest('e'), Digest(manifest))
  }

  function TreeOf(manifest: byte): Tree {
    map[MANIFEST := Node(true, 1, READ_ONLY, [manifest]), "bin/x" := Node(true, 1, READ_ONLY, [9])]
  }

  /** Two manifests of one version that differ in their components only. */
  const SAMPLE := Rules(
    data => if data == [1] then Digest('a') else if data == [2] then Digest('b') else Digest('f'),
    data => if data == [1] || data == [2] then
      Some(Manifest("1.0.0", "x86_64-linux", 1, COMPATIBILITY, data, [FILE]))
    else
      None,
    data => [], v => true, c => true, m => true, lock => true)

  lemma SamplePathIsValid()
    ensures ValidRuntimePath("bin/x")
  {
    assert Split("x", '/') == ["x"] by {
      SplitFirst("x", "", '/');
    }
    assert Split("bin/x", '/') == ["bin", "x"] by {
      SplitFirst("bin", "x", '/');
      assert "bin" + ['/'] + "x" == "bin/x";
      assert ["bin"] + ["x"] == ["bin", "x"];
    }
    assert '/' in "bin/x" by {
      assert "bin/x"[3] == '/';
    }
  }

  lemma SampleFileIsValid()
    ensures ValidFile(FILE)
  {
    SamplePathIsValid();
    assert FILE.path != MANIFEST by {
      assert |FILE.path| == 5 && |MANIFEST| == 13;
    }
    assert ValidDigest('f') by {
      DigestIsValid('f');
    }
  }

  predicate ValidDigest(c: char) {
    ValidSha256(Digest(c))
  }

  lemma DigestIsValid(c: char)
    requires 'a' <= c <= 'f'
    ensures ValidDigest(c)
  {
    assert Digest(c)[0] == c;
    assert c in Digest(c) && c != '0';
  }

  lemma SampleVerified(data: byte, manifest: char)
    requires (data == 1 && manifest == 'a') || (data == 2 && manifest == 'b')
    ensures Verified(SAMPLE, TreeOf(data), Some(LockOf(manifest))) && LockValid(SAMPLE, LockOf(manifest))
  {
    SampleFileIsValid();
    DigestIsValid(manifest);
    var tree := TreeOf(data);
    assert tree[MANIFEST].data == [data];
    assert FilesValid([FILE]);
    assert tree.Keys - {MANIFEST} == {"bin/x"} == PathSet([FILE]) by {
      assert [FILE][0].path == "bin/x";
      assert "bin/x" != MANIFEST by {
        assert |"bin/x"| == 5 && |MANIFEST| == 13;
      }
    }
  }

  /** The hypothesis of immutable releases is needed: a concrete pair of locks of one
      version, each with its verified tree, for which the stale pointer is refused. */
  lemma StalePointerExists()
    ensures exists r, a, b, versions ::
      && LockValid(r, a) && LockValid(r, b) && a.version == b.version
      && b.version in versions && Verified(r, versions[b.version], Some(b))
      && (exists tree :: Verified(r, tree, Some(a)))
      && !Discoverable(r, Some(Active(a.version, a.manifestSha256)), versions)
  {
    SampleVerified(1, 'a');
    SampleVerified(2, 'b');
    var versions := map["1.0.0" := TreeOf(2)];
    assert LockOf('a').manifestSha256[0] != LockOf('b').manifestSha256[0];
    PointerAfterExchange(SAMPLE, versions, LockOf('a'), LockOf('b'));
  }
}
