/** The content-addressed OCI image cache under concurrent use (oci.rs).

    A run is any interleaving of the steps of any number of `prepare_environment` calls,
    with builds that fail, CLIs that are killed, files that cannot be read for a moment,
    and tags that move between the inspection and the copy.
 */
module ImageCache {
  import opened Outcomes

  /** A registry reference, or a tag of a local OCI layout. */
  datatype Reference = Registry(name: string) | LocalLayout(name: string)

  /** Manifest digests; equal digests mean equal images. */
  type Digest = nat

  /** `integration_cache_key`: a hash over the CLI's guest tools and the manifest digest,
      represented by its inputs. */
  datatype Key = Key(tools: nat, digest: Digest)

  /** images/<key>: its metadata, whether its ext4 image is whole, and the digest of the
      image it was made from. */
  datatype Entry = Entry(digest: Digest, key: Key, whole: bool, content: Digest)

  datatype Place =
    | Launched
    | Inspected
    | MissedUnlocked
    | Locked
    | MissedLocked
    | Copied
    | Built
    | Done
    | Incomplete
    | Failed
    | Dead

  /** One call of `prepare_environment`. `temporary` is its own temporary directory, which
      stays behind when the call fails or dies; it is whole only once the build has ended
      and is then renamed to images/<key> as it is. `misread` records that a complete entry could
      not be read in the check under the lock. */
  datatype Call = Call(
    at: Place,
    reference: Reference,
    tools: nat,
    digest: Digest,
    copied: Digest,
    temporary: Option<Entry>,
    misread: bool)
  {
    function KeyOf(): Key {
      Key(tools, digest)
    }

    predicate HoldsLock() {
      at.Locked? || at.MissedLocked? || at.Copied? || at.Built?
    }
  }

  datatype Cache = Cache(
    tags: map<Reference, Digest>,
    entries: map<Key, Entry>,
    locks: map<Key, nat>,
    calls: map<nat, Call>,
    installs: seq<Key>)

  datatype Event =
    | MoveTag(reference: Reference, to: Digest)
    | Launch(p: nat, reference: Reference, tools: nat)
    | Inspect(p: nat)
    | CheckUnlocked(p: nat, readable: bool)
    | Acquire(p: nat)
    | CheckLocked(p: nat, readable: bool)
    | Copy(p: nat)
    | Build(p: nat)
    | Install(p: nat)
    | Fail(p: nat)
    | Die(p: nat)

  const EMPTY := Cache(map[], map[], map[], map[], [])

  /** oci.rs `valid_cache`; anything that cannot be read counts as invalid. */
  predicate ValidCache(c: Cache, call: Call, readable: bool) {
    && call.KeyOf() in c.entries
    && readable
    && var entry := c.entries[call.KeyOf()];
    && entry.whole
    && entry.digest == call.digest
    && entry.key == call.KeyOf()
  }

  /** Whether a call can still take steps. */
  predicate Active(c: Cache, p: nat) {
    p in c.calls && !c.calls[p].at.Done? && !c.calls[p].at.Incomplete? && !c.calls[p].at.Failed? && !c.calls[p].at.Dead?
  }

  /** What a copy under the pull reference yields: a registry copy is pinned to the
      digest, a local layout is copied by tag. */
  function CopiedDigest(c: Cache, call: Call): Option<Digest> {
    match call.reference
    case Registry(_) => Some(call.digest)
    case LocalLayout(_) => if call.reference in c.tags then Some(c.tags[call.reference]) else None
  }

  /** Where `prepare_environment` goes next; an event it does not wait for changes
      nothing. */
  function Advance(c: Cache, call: Call, e: Event): Call
    requires !e.MoveTag? && !e.Launch?
  {
    match e
    case Inspect(_) =>
      if call.at.Launched? && call.reference in c.tags then
        call.(at := Inspected, digest := c.tags[call.reference])
      else
        call
    case CheckUnlocked(_, readable) =>
      if call.at.Inspected? then
        call.(at := if ValidCache(c, call, readable) then Done else MissedUnlocked)
      else
        call
    case Acquire(_) =>
      if call.at.MissedUnlocked? && call.KeyOf() !in c.locks then call.(at := Locked) else call
    case CheckLocked(_, readable) =>
      if !call.at.Locked? then
        call
      else if ValidCache(c, call, readable) then
        call.(at := Done)
      else if call.KeyOf() in c.entries then
        call.(at := Incomplete, misread := !readable)
      else
        call.(at := MissedLocked)
    case Copy(_) =>
      var got := CopiedDigest(c, call);
      if call.at.MissedLocked? && got.Some? then
        call.(at := Copied, copied := got.value, temporary := Some(Entry(call.digest, call.KeyOf(), false, got.value)))
      else
        call
    case Build(_) =>
      if !call.at.Copied? || call.temporary.None? then
        call
      else if call.reference.LocalLayout? && call.copied != call.digest then
        call.(at := Failed)
      else
        call.(at := Built, temporary := Some(call.temporary.value.(whole := true)))
    case Install(_) =>
      if call.at.Built? && call.temporary.Some? then
        call.(at := if call.KeyOf() in c.entries then Failed else Done)
      else
        call
    case Fail(_) =>
      call.(at := Failed)
    case Die(_) =>
      call.(at := Dead)
  }

  /** The shared state follows the call: the lock is held in some places and released
      everywhere else, by CacheLock::drop or by the kernel; leaving `Built` for `Done` is
      the rename of the temporary directory. */
  function Commit(c: Cache, p: nat, call: Call, next: Call): Cache {
    var k := call.KeyOf();
    var locks :=
      if next.HoldsLock() then c.locks[k := p] else if call.HoldsLock() then c.locks - {k} else c.locks;
    var installing := call.at.Built? && next.at.Done? && call.temporary.Some?;
    Cache(
      c.tags,
      if installing then c.entries[k := call.temporary.value] else c.entries,
      locks,
      c.calls[p := next],
      if installing then c.installs + [k] else c.installs)
  }

  /** One step of the system. */
  function Step(c: Cache, e: Event): Cache {
    match e
    case MoveTag(reference, to) =>
      c.(tags := c.tags[reference := to])
    case Launch(p, reference, tools) =>
      if p in c.calls then
        c
      else
        c.(calls := c.calls[p := Call(Launched, reference, tools, 0, 0, None, false)])
    case _ =>
      if Active(c, e.p) then Commit(c, e.p, c.calls[e.p], Advance(c, c.calls[e.p], e)) else c
  }

  function Run(events: seq<Event>): Cache {
    if events == [] then EMPTY else Step(Run(events[..|events| - 1]), events[|events| - 1])
  }

  /** A complete entry, made from the image its key and metadata name. */
  predicate Bound(k: Key, entry: Entry) {
    entry.whole && entry.digest == k.digest && entry.key == k && entry.content == k.digest
  }

  predicate CallInv(c: Cache, p: nat)
    requires p in c.calls
  {
    var call := c.calls[p];
    && (call.HoldsLock() ==> call.KeyOf() in c.locks && c.locks[call.KeyOf()] == p)
    && (call.at.MissedLocked? || call.at.Copied? || call.at.Built? ==> call.KeyOf() !in c.entries)
    && (call.at.Copied? ==>
      && call.temporary == Some(Entry(call.digest, call.KeyOf(), false, call.copied))
      && (call.reference.Registry? ==> call.copied == call.digest))
    && (call.at.Built? ==> call.temporary.Some? && Bound(call.KeyOf(), call.temporary.value))
    && (call.at.Done? ==> call.KeyOf() in c.entries)
    && (call.at.Incomplete? ==> call.misread)
  }

  predicate Inv(c: Cache) {
    && (forall k :: k in c.entries ==> Bound(k, c.entries[k]))
    && (forall p :: p in c.calls ==> CallInv(c, p))
    && (forall k :: k in c.installs ==> k in c.entries)
    && (forall i, j :: 0 <= i < j < |c.installs| ==> c.installs[i] != c.installs[j])
  }

  /** A call takes a free lock or keeps its own, never changes its digest under it, and
      finishes a build only if the entry is not there. */
  lemma AdvanceFacts(c: Cache, call: Call, e: Event)
    requires !e.MoveTag? && !e.Launch?
    ensures Advance(c, call, e).HoldsLock() ==>
      Advance(c, call, e).KeyOf() == call.KeyOf() && (call.HoldsLock() || call.KeyOf() !in c.locks)
    ensures call.at.Built? && Advance(c, call, e).at.Done? ==> call.KeyOf() !in c.entries
  {
  }

  /** Nobody else's lock, entry or progress is disturbed. */
  lemma CommitKeepsOthers(c: Cache, p: nat, call: Call, next: Call, q: nat)
    requires p in c.calls && q in c.calls && p != q && call == c.calls[p]
    requires CallInv(c, p) && CallInv(c, q)
    requires next.HoldsLock() ==> call.HoldsLock() || call.KeyOf() !in c.locks
    ensures CallInv(Commit(c, p, call, next), q)
  {
  }

  lemma CommitKeepsOwn(c: Cache, call: Call, e: Event)
    requires !e.MoveTag? && !e.Launch? && e.p in c.calls && c.calls[e.p] == call && Active(c, e.p) && CallInv(c, e.p)
    requires forall k :: k in c.entries ==> Bound(k, c.entries[k])
    ensures CallInv(Commit(c, e.p, call, Advance(c, call, e)), e.p)
  {
    if call.KeyOf() in c.entries {
      assert Bound(call.KeyOf(), c.entries[call.KeyOf()]);
    }
  }

  lemma StepKeepsEntries(c: Cache, e: Event)
    requires Inv(c)
    ensures c.entries.Keys <= Step(c, e).entries.Keys
    ensures forall k :: k in c.entries ==> Step(c, e).entries[k] == c.entries[k]
    ensures forall k :: k in Step(c, e).entries ==> Bound(k, Step(c, e).entries[k])
    ensures forall k :: k in Step(c, e).installs ==> k in Step(c, e).entries
    ensures forall i, j :: 0 <= i < j < |Step(c, e).installs| ==> Step(c, e).installs[i] != Step(c, e).installs[j]
  {
    if !e.MoveTag? && !e.Launch? && Active(c, e.p) {
      assert CallInv(c, e.p);
      AdvanceFacts(c, c.calls[e.p], e);
    }
  }

  lemma StepKeepsInv(c: Cache, e: Event)
    requires Inv(c)
    ensures Inv(Step(c, e))
  {
    StepKeepsEntries(c, e);
    forall q | q in Step(c, e).calls
      ensures CallInv(Step(c, e), q)
    {
      if e.MoveTag? || e.Launch? || !Active(c, e.p) {
        assert q in c.calls ==> CallInv(c, q);
      } else {
        assert CallInv(c, e.p) && CallInv(c, q);
        AdvanceFacts(c, c.calls[e.p], e);
        if q == e.p {
          CommitKeepsOwn(c, c.calls[q], e);
        } else {
          CommitKeepsOthers(c, e.p, c.calls[e.p], Advance(c, c.calls[e.p], e), q);
        }
      }
    }
  }

  lemma {:induction false} RunKeepsInv(events: seq<Event>)
    ensures Inv(Run(events))
  {
    if events != [] {
      RunKeepsInv(events[..|events| - 1]);
      StepKeepsInv(Run(events[..|events| - 1]), events[|events| - 1]);
    }
  }

  function Installs(installs: seq<Key>, k: Key): nat {
    multiset(installs)[k]
  }

  lemma {:induction false} NoDuplicates(s: seq<Key>, k: Key)
    requires forall i, j :: 0 <= i < j < |s| ==> s[i] != s[j]
    ensures Installs(s, k) <= 1
  {
    if s != [] {
      var front := s[..|s| - 1];
      NoDuplicates(front, k);
      assert s == front + [s[|s| - 1]];
      assert s[|s| - 1] !in front;
    }
  }

  /** In every run every cache entry is complete and was made from the image its key
      names, at most one build per key was installed, and a call that succeeded points at
      such an entry for the digest it resolved. */
  lemma CacheIsSound(events: seq<Event>)
    ensures forall k :: k in Run(events).entries ==> Bound(k, Run(events).entries[k])
    ensures forall k :: Installs(Run(events).installs, k) <= 1
    ensures forall p :: p in Run(events).calls && Run(events).calls[p].at.Done? ==>
      var call := Run(events).calls[p];
      call.KeyOf() in Run(events).entries && Run(events).entries[call.KeyOf()].content == call.digest
  {
    RunKeepsInv(events);
    var c := Run(events);
    forall k
      ensures Installs(c.installs, k) <= 1
    {
      NoDuplicates(c.installs, k);
    }
    forall p | p in c.calls && c.calls[p].at.Done?
      ensures c.calls[p].KeyOf() in c.entries && c.entries[c.calls[p].KeyOf()].content == c.calls[p].digest
    {
      assert CallInv(c, p);
      assert Bound(c.calls[p].KeyOf(), c.entries[c.calls[p].KeyOf()]);
    }
  }

  lemma RunStep(events: seq<Event>, e: Event)
    ensures Run(events + [e]) == Step(Run(events), e)
  {
    assert (events + [e])[..|events|] == events;
  }

  lemma Then(run: seq<Event>, before: Cache, e: Event, after: Cache) returns (longer: seq<Event>)
    requires Run(run) == before && Step(before, e) == after
    ensures Run(longer) == after
  {
    longer := run + [e];
    RunStep(run, e);
  }

  /** What the flock is for: of all calls with one key at most one is between its check
      under the lock and the end of its build. */
  lemma OneBuilderPerKey(events: seq<Event>, p: nat, q: nat)
    requires p in Run(events).calls && q in Run(events).calls && p != q
    requires Run(events).calls[p].HoldsLock() && Run(events).calls[q].HoldsLock()
    ensures Run(events).calls[p].KeyOf() != Run(events).calls[q].KeyOf()
  {
    RunKeepsInv(events);
    assert CallInv(Run(events), p) && CallInv(Run(events), q);
  }

  /** So the rename never finds an entry in its way: a finished build is always installed,
      whole and as it was built, and no work is thrown away. */
  lemma InstallNeverCollides(events: seq<Event>, p: nat)
    requires Active(Run(events), p) && Run(events).calls[p].at.Built?
    ensures Run(events).calls[p].KeyOf() !in Run(events).entries
    ensures
      var call := Run(events).calls[p];
      var after := Run(events + [Install(p)]);
      && call.temporary.Some? && call.temporary.value.whole
      && after.calls[p].at.Done?
      && after.entries == Run(events).entries[call.KeyOf() := call.temporary.value]
  {
    RunKeepsInv(events);
    assert CallInv(Run(events), p);
    RunStep(events, Install(p));
  }

  /** Entries are immutable: once there, an entry never changes. */
  lemma {:induction false} EntriesStay(before: seq<Event>, after: seq<Event>, k: Key)
    requires k in Run(before).entries
    ensures k in Run(before + after).entries && Run(before + after).entries[k] == Run(before).entries[k]
  {
    if after == [] {
      assert before + after == before;
    } else {
      var n := |after| - 1;
      EntriesStay(before, after[..n], k);
      RunKeepsInv(before + after[..n]);
      StepKeepsEntries(Run(before + after[..n]), after[n]);
      RunStep(before + after[..n], after[n]);
      assert before + after == before + after[..n] + [after[n]];
    }
  }

  predicate AlwaysReadable(events: seq<Event>) {
    forall i :: 0 <= i < |events| && events[i].CheckLocked? ==> events[i].readable
  }

  lemma StepMisreads(c: Cache, e: Event)
    requires e.CheckLocked? ==> e.readable
    requires forall p :: p in c.calls ==> !c.calls[p].misread
    ensures forall p :: p in Step(c, e).calls ==> !Step(c, e).calls[p].misread
  {
    forall p | p in Step(c, e).calls
      ensures !Step(c, e).calls[p].misread
    {
      if e.MoveTag? || e.p != p {
        assert p in c.calls && Step(c, e).calls[p] == c.calls[p];
      }
    }
  }

  lemma {:induction false} MisreadsComeFromReads(events: seq<Event>)
    requires AlwaysReadable(events)
    ensures forall p :: p in Run(events).calls ==> !Run(events).calls[p].misread
  {
    if events != [] {
      MisreadsComeFromReads(events[..|events| - 1]);
      StepMisreads(Run(events[..|events| - 1]), events[|events| - 1]);
    }
  }

  /** While a complete entry can always be read under the lock, no call ever reports an
      incomplete entry. */
  lemma IncompleteNeedsMisread(events: seq<Event>)
    requires AlwaysReadable(events)
    ensures forall p :: p in Run(events).calls ==> !Run(events).calls[p].at.Incomplete?
  {
    RunKeepsInv(events);
    MisreadsComeFromReads(events);
    assert forall p :: p in Run(events).calls ==> CallInv(Run(events), p);
  }

  /** The whole condition: a call reports an incomplete entry exactly when an entry, which
      is then complete, is there and could not be read in the check under the lock. */
  lemma IncompleteExactly(events: seq<Event>, p: nat, readable: bool)
    requires Active(Run(events), p) && Run(events).calls[p].at.Locked?
    ensures
      Run(events + [CheckLocked(p, readable)]).calls[p].at.Incomplete?
      <==> Run(events).calls[p].KeyOf() in Run(events).entries && !readable
  {
    RunKeepsInv(events);
    var c := Run(events);
    assert (events + [CheckLocked(p, readable)])[..|events|] == events;
    if c.calls[p].KeyOf() in c.entries {
      assert Bound(c.calls[p].KeyOf(), c.entries[c.calls[p].KeyOf()]);
    }
  }

  const IMAGE := Registry("ubuntu")
  const KNOWN := Call(Inspected, IMAGE, 7, 1, 0, None, false)
  const MISSED := KNOWN.(at := MissedUnlocked)

  function Pair(entries: map<Key, Entry>, locks: map<Key, nat>, first: Call, second: Call, installs: seq<Key>): Cache {
    Cache(map[IMAGE := 1], entries, locks, map[1 := first, 2 := second], installs)
  }

  lemma TwoCalls() returns (r: seq<Event>)
    ensures Run(r) == Pair(map[], map[], KNOWN, KNOWN, [])
  {
    var idle := KNOWN.(at := Launched, digest := 0);
    var tagged := EMPTY.(tags := map[IMAGE := 1]);
    r := Then([], EMPTY, MoveTag(IMAGE, 1), tagged);
    r := Then(r, tagged, Launch(1, IMAGE, 7), tagged.(calls := map[1 := idle]));
    r := Then(r, Run(r), Launch(2, IMAGE, 7), Pair(map[], map[], idle, idle, []));
    r := Then(r, Run(r), Inspect(1), Pair(map[], map[], KNOWN, idle, []));
    r := Then(r, Run(r), Inspect(2), Pair(map[], map[], KNOWN, KNOWN, []));
  }

  lemma BothMissed() returns (r: seq<Event>)
    ensures Run(r) == Pair(map[], map[], MISSED, MISSED, [])
  {
    r := TwoCalls();
    r := Then(r, Run(r), CheckUnlocked(1, true), Pair(map[], map[], MISSED, KNOWN, []));
    r := Then(r, Run(r), CheckUnlocked(2, true), Pair(map[], map[], MISSED, MISSED, []));
  }

  /** Call 2 waits while call 1 holds the lock. */
  lemma FirstHoldsLock() returns (r: seq<Event>)
    ensures Run(r) == Pair(map[], map[Key(7, 1) := 1], KNOWN.(at := MissedLocked), MISSED, [])
  {
    var locks := map[Key(7, 1) := 1];
    r := BothMissed();
    r := Then(r, Run(r), Acquire(1), Pair(map[], locks, KNOWN.(at := Locked), MISSED, []));
    r := Then(r, Run(r), CheckLocked(1, true), Pair(map[], locks, KNOWN.(at := MissedLocked), MISSED, []));
  }

  const COPIED := KNOWN.(at := Copied, copied := 1, temporary := Some(Entry(1, Key(7, 1), false, 1)))
  const BUILT := COPIED.(at := Built, temporary := Some(Entry(1, Key(7, 1), true, 1)))

  lemma FirstCopies() returns (r: seq<Event>)
    ensures Run(r) == Pair(map[], map[Key(7, 1) := 1], COPIED, MISSED, [])
  {
    r := FirstHoldsLock();
    r := Then(r, Run(r), Copy(1),
      Pair(map[], map[Key(7, 1) := 1], COPIED, MISSED, []));
  }

  lemma FirstBuilds() returns (r: seq<Event>)
    ensures Run(r) == Pair(map[], map[Key(7, 1) := 1], BUILT, MISSED, [])
  {
    r := FirstCopies();
    r := Then(r, Run(r), Build(1), Pair(map[], map[Key(7, 1) := 1], BUILT, MISSED, []));
  }

  const INSTALLED := map[Key(7, 1) := BUILT.temporary.value]

  lemma FirstInstalls() returns (r: seq<Event>)
    ensures Run(r) == Pair(INSTALLED, map[], BUILT.(at := Done), MISSED, [Key(7, 1)])
  {
    r := FirstBuilds();
    r := Then(r, Run(r), Install(1), Pair(INSTALLED, map[], BUILT.(at := Done), MISSED, [Key(7, 1)]));
  }

  /** Call 1 has installed the entry and call 2 gets the lock. */
  lemma SecondGetsLock() returns (r: seq<Event>)
    ensures Active(Run(r), 2) && Run(r).calls[2].at.Locked? && Run(r).calls[2].KeyOf() in Run(r).entries
  {
    r := FirstInstalls();
    r := Then(r, Run(r), Acquire(2),
      Pair(INSTALLED, map[Key(7, 1) := 2], BUILT.(at := Done), KNOWN.(at := Locked), [Key(7, 1)]));
  }

  /** No tampering is needed for it: two calls race, the second waits for the lock, and
      its read of the entry the first has just installed fails once. */
  lemma IncompleteIsReachable()
    ensures exists run, p {:trigger Run(run).calls[p]} :: p in Run(run).calls && Run(run).calls[p].at.Incomplete?
  {
    var r := SecondGetsLock();
    IncompleteExactly(r, 2, false);
    assert Run(r + [CheckLocked(2, false)]).calls[2].at.Incomplete?;
  }

  // The pull reference

  const DOCKER := "docker://"

  predicate HexDigit(c: char) {
    '0' <= c <= '9' || 'a' <= c <= 'f' || 'A' <= c <= 'F'
  }

  predicate ManifestDigest(digest: string) {
    "sha256:" <= digest && |digest| == 71 && forall i :: 7 <= i < 71 ==> HexDigit(digest[i])
  }

  function Before(s: string, c: char): (r: string)
    ensures r <= s && c !in r
    ensures r != s ==> s[|r|] == c
  {
    if s == "" || s[0] == c then "" else [s[0]] + Before(s[1..], c)
  }

  /** str::rfind, as the length of the text before the match. */
  function LastIndex(s: string, c: char): (r: Option<nat>)
    ensures r.Some? ==> r.value < |s| && s[r.value] == c && c !in s[r.value + 1..]
    ensures r.None? ==> c !in s
  {
    if s == "" then
      None
    else if s[|s| - 1] == c then
      Some(|s| - 1)
    else
      var r := LastIndex(s[..|s| - 1], c);
      assert s == s[..|s| - 1] + [s[|s| - 1]];
      assert r.Some? ==> s[r.value + 1..] == s[..|s| - 1][r.value + 1..] + [s[|s| - 1]];
      r
  }

  function WithoutTag(name: string): string {
    var slash, colon := LastIndex(name, '/'), LastIndex(name, ':');
    if colon.Some? && (slash.None? || colon.value > slash.value) then name[..colon.value] else name
  }

  /** oci.rs `immutable_pull_reference`. */
  function PullReference(reference: string, digest: string): Option<string> {
    if !ManifestDigest(digest) then
      None
    else if !(DOCKER <= reference) then
      Some(reference)
    else
      var name := WithoutTag(Before(reference[|DOCKER|..], '@'));
      if name == "" then None else Some(DOCKER + name + "@" + digest)
  }

  lemma ManifestDigestIs(digest: string)
    ensures ManifestDigest(digest) <==> exists hex :: digest == "sha256:" + hex && Hex64(hex)
  {
    if ManifestDigest(digest) {
      assert digest == "sha256:" + digest[7..] && Hex64(digest[7..]);
    }
  }

  predicate Hex64(hex: string) {
    |hex| == 64 && forall i :: 0 <= i < 64 ==> HexDigit(hex[i])
  }

  /** A malformed digest is refused; references to other transports are left alone; and
      whatever is asked of a registry is pinned to the digest. */
  lemma PullOtherwise(reference: string, digest: string)
    ensures !ManifestDigest(digest) ==> PullReference(reference, digest) == None
    ensures ManifestDigest(digest) && !(DOCKER <= reference) ==> PullReference(reference, digest) == Some(reference)
    ensures DOCKER <= reference && PullReference(reference, digest).Some? ==>
      exists name :: name != "" && PullReference(reference, digest).value == DOCKER + name + "@" + digest
  {
  }

  /** A registry, possibly with a port, and a path; no tag and no digest. */
  predicate Repository(repository: string) {
    && repository != "" && '@' !in repository
    && (':' in repository ==> exists i :: 0 <= i < |repository| && repository[i] == '/' && ':' !in repository[i..])
  }

  lemma {:induction false} BeforeStops(a: string, c: char, rest: string)
    requires c !in a
    ensures Before(a + [c] + rest, c) == a && Before(a, c) == a
  {
    if a == "" {
    } else {
      BeforeStops(a[1..], c, rest);
      assert (a + [c] + rest)[1..] == a[1..] + [c] + rest;
    }
  }

  lemma LastIndexIs(s: string, c: char, i: nat)
    requires i < |s| && s[i] == c && c !in s[i + 1..]
    ensures LastIndex(s, c) == Some(i)
  {
    assert forall j :: i < j < |s| ==> s[j] == s[i + 1..][j - i - 1];
    var r := LastIndex(s, c);
    assert r.Some? ==> forall j :: r.value < j < |s| ==> s[j] == s[r.value + 1..][j - r.value - 1];
  }

  lemma LastIndexBelow(s: string, c: char, n: nat)
    requires n <= |s| && c !in s[n..]
    ensures LastIndex(s, c).Some? ==> LastIndex(s, c).value < n
  {
    assert forall j :: n <= j < |s| ==> s[j] == s[n..][j - n];
  }

  lemma WithoutTagDropsTag(repository: string, tag: string)
    requires Repository(repository) && '/' !in tag && ':' !in tag
    ensures WithoutTag(repository) == repository
    ensures WithoutTag(repository + ":" + tag) == repository
  {
    var tagged := repository + ":" + tag;
    assert tagged[|repository| + 1..] == tag && tagged[|repository|..] == ":" + tag;
    LastIndexIs(tagged, ':', |repository|);
    LastIndexBelow(tagged, '/', |repository|);
    assert tagged[..|repository|] == repository;
    if ':' in repository {
      var i :| 0 <= i < |repository| && repository[i] == '/' && ':' !in repository[i..];
      LastIndexBelow(repository, ':', i);
      var slash := LastIndex(repository, '/');
      assert slash.Some? ==> forall j :: slash.value < j < |repository| ==>
        repository[j] == repository[slash.value + 1..][j - slash.value - 1];
    }
  }

  lemma PullOf(rest: string, name: string, digest: string)
    requires Before(rest, '@') == name && WithoutTag(name) != "" && ManifestDigest(digest)
    ensures PullReference(DOCKER + rest, digest) == Some(DOCKER + WithoutTag(name) + "@" + digest)
  {
    assert (DOCKER + rest)[|DOCKER|..] == rest;
  }

  /** The digest the user wrote, if any, is replaced by the inspected one. */
  lemma PinReplaced(name: string, pin: string, digest: string)
    requires '@' !in name && WithoutTag(name) != "" && ManifestDigest(digest)
    ensures PullReference(DOCKER + name, digest) == Some(DOCKER + WithoutTag(name) + "@" + digest)
    ensures PullReference(DOCKER + (name + "@" + pin), digest) == Some(DOCKER + WithoutTag(name) + "@" + digest)
  {
    BeforeStops(name, '@', pin);
    PullOf(name, name, digest);
    PullOf(name + "@" + pin, name, digest);
  }

  /** Whatever tag or digest the user wrote, the registry is asked for the inspected
      digest of the same repository, so a moving tag cannot change what is copied. */
  lemma PullIsPinned(repository: string, tag: string, pin: string, digest: string)
    requires Repository(repository) && ManifestDigest(digest)
    requires '/' !in tag && ':' !in tag && '@' !in tag
    ensures PullReference(DOCKER + repository, digest) == Some(DOCKER + repository + "@" + digest)
    ensures PullReference(DOCKER + (repository + ":" + tag), digest) == Some(DOCKER + repository + "@" + digest)
    ensures PullReference(DOCKER + (repository + "@" + pin), digest) == Some(DOCKER + repository + "@" + digest)
    ensures
      PullReference(DOCKER + ((repository + ":" + tag) + "@" + pin), digest) == Some(DOCKER + repository + "@" + digest)
  {
    WithoutTagDropsTag(repository, tag);
    PinReplaced(repository, pin, digest);
    PinReplaced(repository + ":" + tag, pin, digest);
  }
}
