/** What a runtime manifest promises, and when one is accepted (runtime.rs). */
module RuntimeManifest {
  import opened Bytes
  import opened Outcomes
  import opened Sequences

  datatype RuntimeFile = RuntimeFile(path: string, size: nat, sha256: string, executable: bool)

  datatype Compatibility = Compatibility(minimum: string, maximumExclusive: string)

  /** Components are opaque here; their rules are part of `Rules.general`. */
  datatype Manifest = Manifest(
    version: string,
    target: string,
    protocol: nat,
    compatibility: Compatibility,
    components: Blob,
    files: seq<RuntimeFile>)

  datatype Lock = Lock(
    version: string,
    target: string,
    protocol: nat,
    compatibility: Compatibility,
    archiveSize: nat,
    archiveSha256: string,
    manifestSha256: string)

  datatype Member = Unreadable | Member(
      regular: bool,
      path: string,
      uid: nat,
      gid: nat,
      mtime: nat,
      mode: nat,
      size: nat,
      data: Blob)

  /** Library code: SHA-256 in hexadecimal, serde_json, tar and zstd, semver, and the
      validation of everything but the file list. */
  datatype Rules = Rules(
    sha256: Blob -> string,
    decode: Blob -> Option<Manifest>,
    unpack: Blob -> seq<Member>,
    semver: string -> bool,
    compatible: Compatibility -> bool,
    general: Manifest -> bool,
    lockGeneral: Lock -> bool)

  const MANIFEST := "manifest.json"

  /** char::is_control */
  predicate Control(c: char) {
    c < ' ' || '\U{7f}' <= c <= '\U{9f}'
  }

  predicate CleanComponent(c: string) {
    c != "" && c != "." && c != ".."
  }

  /** runtime.rs `validate_runtime_path` for a file. */
  predicate ValidRuntimePath(path: string) {
    && path != ""
    && path[0] != '/'
    && '\\' !in path
    && (forall c :: c in path ==> !Control(c))
    && (var components := Split(path, '/');
      && (forall i :: 0 <= i < |components| ==> CleanComponent(components[i]))
      && components[0] in {"bin", "guest", "lib", "share"})
    && '/' in path
  }

  /** Where a relative path leads from `at`, or nowhere if it leaves the root. */
  function Resolve(at: seq<string>, components: seq<string>): Option<seq<string>>
    decreases |components|
  {
    if components == [] then
      Some(at)
    else if components[0] == "" || components[0] == "." then
      Resolve(at, components[1..])
    else if components[0] == ".." then
      if at == [] then None else Resolve(at[..|at| - 1], components[1..])
    else
      Resolve(at + [components[0]], components[1..])
  }

  lemma {:induction false} CleanResolve(at: seq<string>, components: seq<string>)
    requires forall i :: 0 <= i < |components| ==> CleanComponent(components[i])
    ensures Resolve(at, components) == Some(at + components)
    decreases |components|
  {
    if components == [] {
      assert at + components == at;
    } else {
      assert CleanComponent(components[0]);
      CleanResolve(at + [components[0]], components[1..]);
      assert at + [components[0]] + components[1..] == at + components;
    }
  }

  lemma ResolveValid(p: string)
    requires ValidRuntimePath(p)
    ensures Resolve([], Split(p, '/')) == Some(Split(p, '/'))
  {
    CleanResolve([], Split(p, '/'));
    assert [] + Split(p, '/') == Split(p, '/');
  }

  /** A valid path stays below the root, is never the manifest, and is the only valid name
      of its file; so a tree may be seen as a map from paths. */
  lemma ValidPathsDoNotAlias(p: string, q: string)
    requires ValidRuntimePath(p) && ValidRuntimePath(q)
    ensures Resolve([], Split(p, '/')).Some? && p != MANIFEST
    ensures Resolve([], Split(p, '/')) == Resolve([], Split(q, '/')) ==> p == q
  {
    ResolveValid(p);
    ResolveValid(q);
    JoinSplit(p, '/');
    JoinSplit(q, '/');
    assert '/' !in MANIFEST;
  }

  /** A component that is the name of a file in each directory it is looked up in. */
  predicate PlainComponent(c: string) {
    CleanComponent(c) && '/' !in c && '\\' !in c && forall x :: x in c ==> !Control(x)
  }

  /** Which paths are valid, without the checks: two or more plain components joined by
      '/', the first of which is one of four directories. */
  lemma ValidPathIs(p: string, parts: seq<string>)
    ensures ValidRuntimePath(p) && parts == Split(p, '/') <==> |parts| >= 2 && ComponentsOf(p, parts)
  {
    SplitSeparates(p, '/');
    JoinSplit(p, '/');
    forall x | x != '/'
      ensures x in p <==> exists i :: 0 <= i < |Split(p, '/')| && x in Split(p, '/')[i]
    {
      JoinHolds(Split(p, '/'), '/', x);
    }
    if |parts| >= 2 && ComponentsOf(p, parts) {
      SplitJoin(parts, '/');
      assert PlainComponent(parts[0]) && PlainComponent(parts[1]);
    }
  }

  predicate ComponentsOf(p: string, parts: seq<string>)
    requires |parts| > 0
  {
    && p == Join(parts, '/')
    && parts[0] in {"bin", "guest", "lib", "share"}
    && forall i :: 0 <= i < |parts| ==> PlainComponent(parts[i])
  }

  /** The order of BTreeSet<&str> and of `<` on &str. */
  predicate LexLess(a: string, b: string) {
    b != [] && (a == [] || a[0] < b[0] || (a[0] == b[0] && LexLess(a[1..], b[1..])))
  }

  /** The first character in which two texts differ decides. */
  lemma {:induction false} LexDecides(common: string, x: char, a: string, y: char, b: string)
    requires x != y
    ensures LexLess(common + [x] + a, common + [y] + b) <==> x < y
  {
    var s, t := common + [x] + a, common + [y] + b;
    if common == [] {
      assert s[0] == x && t[0] == y;
    } else {
      LexDecides(common[1..], x, a, y, b);
      assert s[1..] == common[1..] + [x] + a && t[1..] == common[1..] + [y] + b;
    }
  }

  /** Where none differs, the shorter text comes first. With `LexDecides` this covers every
      pair of texts. */
  lemma {:induction false} LexPrefix(a: string, x: char, b: string)
    ensures LexLess(a, a + [x] + b) && !LexLess(a + [x] + b, a)
  {
    if a != [] {
      LexPrefix(a[1..], x, b);
      assert (a + [x] + b)[1..] == a[1..] + [x] + b;
    }
  }

  lemma {:induction false} LexIrreflexive(a: string)
    ensures !LexLess(a, a)
  {
    if a != [] {
      LexIrreflexive(a[1..]);
    }
  }

  lemma {:induction false} LexTransitive(a: string, b: string, c: string)
    requires LexLess(a, b) && LexLess(b, c)
    ensures LexLess(a, c)
  {
    if a != [] && a[0] == b[0] == c[0] {
      LexTransitive(a[1..], b[1..], c[1..]);
    }
  }

  predicate HexDigit(c: char) {
    '0' <= c <= '9' || 'a' <= c <= 'f'
  }

  predicate ValidSha256(s: string) {
    |s| == 64 && (forall c :: c in s ==> HexDigit(c)) && exists c :: c in s && c != '0'
  }

  predicate ValidFile(f: RuntimeFile) {
    ValidRuntimePath(f.path) && f.path != MANIFEST && f.size > 0 && ValidSha256(f.sha256)
  }

  predicate Ascending(files: seq<RuntimeFile>) {
    forall i, j :: 0 <= i < j < |files| ==> LexLess(files[i].path, files[j].path)
  }

  predicate FilesValid(files: seq<RuntimeFile>) {
    files != [] && (forall i :: 0 <= i < |files| ==> ValidFile(files[i])) && Ascending(files)
  }

  lemma AscendingGrows(files: seq<RuntimeFile>, k: nat)
    requires k < |files| && Ascending(files[..k])
    requires k > 0 ==> LexLess(files[k - 1].path, files[k].path)
    ensures Ascending(files[..k + 1])
  {
    var front, all := files[..k], files[..k + 1];
    forall i, j | 0 <= i < j < |all|
      ensures LexLess(all[i].path, all[j].path)
    {
      if j < k {
        assert LexLess(front[i].path, front[j].path);
      } else if i < k - 1 {
        assert LexLess(front[i].path, front[k - 1].path);
        LexTransitive(files[i].path, files[k - 1].path, files[k].path);
      }
    }
  }

  lemma AscendingIsDistinct(files: seq<RuntimeFile>)
    requires Ascending(files)
    ensures forall i, j :: 0 <= i < j < |files| ==> files[i].path != files[j].path
  {
    forall i, j | 0 <= i < j < |files|
      ensures files[i].path != files[j].path
    {
      LexIrreflexive(files[i].path);
    }
  }

  /** The file loop of `RuntimeManifest::validate`. It accepts exactly the strictly ordered
      lists of valid files; the duplicate test never decides alone. */
  method ValidateFiles(files: seq<RuntimeFile>) returns (ok: bool)
    ensures ok <==> FilesValid(files)
  {
    if files == [] {
      return false;
    }
    var seen: set<string> := {};
    var previous: Option<string> := None;
    for k := 0 to |files|
      invariant forall i :: 0 <= i < k ==> ValidFile(files[i])
      invariant Ascending(files[..k])
      invariant forall p :: p in seen ==> exists i :: 0 <= i < k && files[i].path == p
      invariant previous == if k == 0 then None else Some(files[k - 1].path)
    {
      var file := files[k];
      if !ValidRuntimePath(file.path) || file.path == MANIFEST || file.size == 0 || !ValidSha256(file.sha256) {
        assert !ValidFile(files[k]);
        return false;
      }
      if file.path in seen {
        LexIrreflexive(file.path);
        assert exists i :: 0 <= i < k && files[i].path == file.path && !LexLess(files[i].path, files[k].path);
        return false;
      }
      seen := seen + {file.path};
      if previous.Some? && !LexLess(previous.value, file.path) {
        return false;
      }
      previous := Some(file.path);
      AscendingGrows(files, k);
    }
    assert files[..|files|] == files;
    return true;
  }

  predicate ManifestValid(r: Rules, m: Manifest) {
    r.general(m) && FilesValid(m.files)
  }

  predicate LockValid(r: Rules, lock: Lock) {
    && r.lockGeneral(lock)
    && r.semver(lock.version)
    && r.compatible(lock.compatibility)
    && ValidSha256(lock.manifestSha256)
  }

  /** runtime.rs `validate_against_lock`, for a lock that is itself valid. */
  predicate MatchesLock(r: Rules, m: Manifest, lock: Lock) {
    && ManifestValid(r, m)
    && m.version == lock.version
    && m.target == lock.target
    && m.protocol == lock.protocol
    && m.compatibility == lock.compatibility
  }

  function PathSet(files: seq<RuntimeFile>): set<string> {
    set i | 0 <= i < |files| :: files[i].path
  }

  lemma {:induction false} PathSetSize(files: seq<RuntimeFile>)
    requires forall i, j :: 0 <= i < j < |files| ==> files[i].path != files[j].path
    ensures |PathSet(files)| == |files|
  {
    if files != [] {
      var n := |files| - 1;
      PathSetSize(files[..n]);
      assert PathSet(files) == PathSet(files[..n]) + {files[n].path} by {
        assert forall i :: 0 <= i < n ==> files[i] == files[..n][i];
      }
    }
  }

  lemma {:induction false} EqualBySize<T>(a: set<T>, b: set<T>)
    requires a <= b && |a| == |b|
    ensures a == b
  {
    if a != {} {
      var x :| x in a;
      EqualBySize(a - {x}, b - {x});
    }
  }

  /** As many members as files, and every file among them: nothing else is there. */
  lemma ExactMembers(files: seq<RuntimeFile>, members: set<string>)
    requires Ascending(files) && |members| == |files|
    requires forall i :: 0 <= i < |files| ==> files[i].path in members
    ensures members == PathSet(files)
  {
    AscendingIsDistinct(files);
    PathSetSize(files);
    EqualBySize(PathSet(files), members);
  }
}
