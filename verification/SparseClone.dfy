/** Cloning the cached environment image (storage.rs): reflink, else an extent-aware
    sparse copy, committed under its final name by link(2). */
module SparseClone {
  import opened Outcomes
  import opened Bytes

  const CHUNK: nat := 1024 * 1024

  /** An inode. `extent` says which bytes the filesystem reports as data; it may report
      none at all. */
  class File {
    var data: Blob
    const extent: nat -> bool
    const reportsExtents: bool

    constructor ()
      ensures data == []
    {
      data := [];
      extent := i => true;
      reportsExtents := true;
    }

    /** Holes read as zeros. */
    predicate Sparse()
      reads this
    {
      forall i :: 0 <= i < |data| && !extent(i) ==> data[i] == 0
    }
  }

  /** What one positioned write leaves behind: the file grows with zeros if it must. */
  function Patch(d: Blob, offset: nat, bytes: Blob): (r: Blob)
    ensures |r| == if offset + |bytes| <= |d| || bytes == [] then |d| else offset + |bytes|
    ensures forall i :: 0 <= i < |r| ==>
      r[i] == if offset <= i < offset + |bytes| then bytes[i - offset] else if i < |d| then d[i] else 0
  {
    if bytes == [] then d
    else if offset + |bytes| <= |d| then d[..offset] + bytes + d[offset + |bytes|..]
    else if offset <= |d| then d[..offset] + bytes
    else d + Zeros(offset - |d|) + bytes
  }

  /** Writing in two pieces is writing at once. */
  lemma PatchTwice(d: Blob, offset: nat, a: Blob, b: Blob)
    ensures Patch(Patch(d, offset, a), offset + |a|, b) == Patch(d, offset, a + b)
  {
    if a == [] {
      assert a + b == b;
    } else if b == [] {
      assert a + b == a;
    } else {
      var once, twice := Patch(d, offset, a + b), Patch(Patch(d, offset, a), offset + |a|, b);
      assert |once| == |twice|;
      assert forall i :: 0 <= i < |once| ==> once[i] == twice[i];
    }
  }

  /** One more short write of `write_all_at`. */
  lemma PatchGrows(d: Blob, offset: nat, bytes: Blob, done: nat, written: nat)
    requires done + written <= |bytes|
    ensures Patch(Patch(d, offset, bytes[..done]), offset + done, bytes[done..][..written])
         == Patch(d, offset, bytes[..done + written])
  {
    PatchTwice(d, offset, bytes[..done], bytes[done..][..written]);
    assert bytes[..done] + bytes[done..][..written] == bytes[..done + written];
  }

  function Resize(d: Blob, length: nat): (r: Blob)
    ensures |r| == length
  {
    if length <= |d| then d[..length] else d + Zeros(length - |d|)
  }

  datatype Seek = Found(position: nat) | NoMore | Unsupported | SeekError

  /** lseek(SEEK_DATA): the first byte of data from `offset` on. */
  method SeekData(f: File, offset: nat, faultFree: bool) returns (s: Seek)
    requires offset <= |f.data|
    ensures s.Unsupported? ==> !f.reportsExtents
    ensures s.Found? ==>
      offset <= s.position < |f.data| && f.extent(s.position) && forall i :: offset <= i < s.position ==> !f.extent(i)
    ensures s.NoMore? ==> forall i :: offset <= i < |f.data| ==> !f.extent(i)
    ensures s.Found? || s.NoMore? ==> f.reportsExtents
    ensures faultFree ==> !s.SeekError?
  {
    var called := AnyStep(faultFree);
    if !called.Proceed? {
      return SeekError;
    }
    if !f.reportsExtents {
      return Unsupported;
    }
    for p := offset to |f.data|
      invariant forall i :: offset <= i < p ==> !f.extent(i)
    {
      if f.extent(p) {
        return Found(p);
      }
    }
    return NoMore;
  }

  /** lseek(SEEK_HOLE) at a data byte: the end of its extent, strictly behind it. */
  method SeekHole(f: File, position: nat, faultFree: bool) returns (s: Seek)
    requires position < |f.data| && f.extent(position)
    ensures s.Found? ==>
      position < s.position <= |f.data| && forall i :: position <= i < s.position ==> f.extent(i)
    ensures s.Found? || s.SeekError?
    ensures faultFree ==> s.Found?
  {
    var called := AnyStep(faultFree);
    if !called.Proceed? {
      return SeekError;
    }
    var p := position + 1;
    while p < |f.data| && f.extent(p)
      invariant position < p <= |f.data| && forall i :: position <= i < p ==> f.extent(i)
    {
      p := p + 1;
    }
    return Found(p);
  }

  /** pread: any nonempty part of what was asked for, nothing only at the end of file. */
  method ReadAt(f: File, position: nat, count: nat, faultFree: bool) returns (o: Outcome<Blob>)
    requires count > 0
    ensures o.Ok? ==>
      && position + |o.value| <= |f.data| + (if o.value == [] then position else 0)
      && |o.value| <= count
      && (o.value == [] <==> |f.data| <= position)
      && (o.value != [] ==> o.value == f.data[position..position + |o.value|])
    ensures faultFree ==> o.Ok?
  {
    var _ :- AnyStep(faultFree);
    if |f.data| <= position {
      return Ok([]);
    }
    var n: int := *;
    var room := |f.data| - position;
    if n <= 0 || n > count || n > room {
      n := 1;
    }
    return Ok(f.data[position..position + n]);
  }

  /** pwrite: writes any part, without faults a nonempty one. */
  method WriteAt(f: File, bytes: Blob, offset: nat, faultFree: bool) returns (o: Outcome<nat>)
    modifies f
    ensures o.Ok? ==> o.value <= |bytes| && f.data == Patch(old(f.data), offset, bytes[..o.value])
    ensures !o.Ok? ==> f.data == old(f.data)
    ensures faultFree ==> o.Ok? && (bytes != [] ==> o.value > 0)
  {
    var _ :- AnyStep(faultFree);
    var n: int := *;
    if n < 0 || n > |bytes| || (faultFree && n == 0) {
      n := |bytes|;
    }
    f.data := Patch(f.data, offset, bytes[..n]);
    return Ok(n);
  }

  /** storage.rs `write_all_at`. */
  method WriteAllAt(f: File, bytes: Blob, offset: nat, faultFree: bool) returns (o: Outcome<()>)
    modifies f
    ensures o.Ok? ==> f.data == Patch(old(f.data), offset, bytes)
    ensures exists n: nat :: n <= |bytes| && f.data == Patch(old(f.data), offset, bytes[..n])
    ensures faultFree ==> o.Ok?
  {
    var done := 0;
    assert f.data == Patch(old(f.data), offset, bytes[..0]);
    while done < |bytes|
      invariant done <= |bytes| && f.data == Patch(old(f.data), offset, bytes[..done])
    {
      var written :- WriteAt(f, bytes[done..], offset + done, faultFree);
      if written == 0 {
        return Err;
      }
      PatchGrows(old(f.data), offset, bytes, done, written);
      done := done + written;
    }
    assert bytes[..done] == bytes;
    return Ok(());
  }

  /** The fallback of `sparse_copy` for filesystems without extent reports. */
  method CopyWhole(source: File, destination: File, faultFree: bool) returns (o: Outcome<()>)
    requires source != destination
    modifies destination
    ensures o.Ok? ==> destination.data == source.data
    ensures faultFree ==> o.Ok?
  {
    destination.data := [];
    var position := 0;
    while true
      invariant position <= |source.data| && destination.data == source.data[..position]
      decreases |source.data| - position
    {
      var chunk :- ReadAt(source, position, CHUNK, faultFree);
      if chunk == [] {
        return Ok(());
      }
      var _ :- WriteAllAt(destination, chunk, position, faultFree);
      assert source.data[..position] + chunk == source.data[..position + |chunk|];
      position := position + |chunk|;
    }
  }

  /** What a successful `sparse_copy` makes of a destination that held `blank`: data comes
      from the source, and where the source has a hole nothing is written. */
  function Overlaid(source: Blob, extent: nat -> bool, reportsExtents: bool, blank: Blob): (r: Blob)
    requires |blank| == |source|
    ensures |r| == |source|
  {
    seq(|source|, i requires 0 <= i < |source| => if extent(i) || !reportsExtents then source[i] else blank[i])
  }

  /** The result is a copy exactly if the destination was zero wherever the source has a
      hole. */
  lemma OverlaidIsCopy(source: Blob, extent: nat -> bool, reportsExtents: bool, blank: Blob)
    requires |blank| == |source| && forall i :: 0 <= i < |source| && !extent(i) ==> source[i] == 0
    ensures Overlaid(source, extent, reportsExtents, blank) == source <==>
      forall i :: 0 <= i < |source| && reportsExtents && !extent(i) ==> blank[i] == 0
  {
    var r := Overlaid(source, extent, reportsExtents, blank);
    if forall i :: 0 <= i < |source| && reportsExtents && !extent(i) ==> blank[i] == 0 {
      assert forall i :: 0 <= i < |source| ==> r[i] == source[i];
    } else {
      var i :| 0 <= i < |source| && reportsExtents && !extent(i) && blank[i] != 0;
      assert r[i] == blank[i];
    }
  }

  /** `destination` is `goal` up to `position` and still `blank` behind it. */
  ghost predicate CopiedTo(goal: Blob, blank: Blob, destination: Blob, position: nat) {
    && position <= |goal| == |blank| == |destination|
    && (forall i :: 0 <= i < position ==> destination[i] == goal[i])
    && (forall i :: position <= i < |goal| ==> destination[i] == blank[i])
  }

  lemma CopyStep(goal: Blob, blank: Blob, destination: Blob, position: nat, chunk: Blob)
    requires CopiedTo(goal, blank, destination, position) && position + |chunk| <= |goal|
    requires chunk == goal[position..position + |chunk|]
    ensures CopiedTo(goal, blank, Patch(destination, position, chunk), position + |chunk|)
  {
  }

  lemma SkipHole(goal: Blob, blank: Blob, destination: Blob, from: nat, to: nat)
    requires CopiedTo(goal, blank, destination, from) && from <= to <= |goal|
    requires forall i :: from <= i < to ==> goal[i] == blank[i]
    ensures CopiedTo(goal, blank, destination, to)
  {
  }

  /** The inner loop of `sparse_copy`: one data extent. */
  method CopyExtent(
    source: File, destination: File, data: nat, hole: nat, ghost goal: Blob, ghost blank: Blob, faultFree: bool)
    returns (o: Outcome<()>)
    requires source != destination && data <= hole <= |source.data| == |goal|
    requires goal[data..hole] == source.data[data..hole]
    requires CopiedTo(goal, blank, destination.data, data)
    modifies destination
    ensures o.Ok? ==> CopiedTo(goal, blank, destination.data, hole)
    ensures faultFree ==> o.Ok?
  {
    var position := data;
    while position < hole
      invariant data <= position <= hole && CopiedTo(goal, blank, destination.data, position)
    {
      var count := if hole - position < CHUNK then hole - position else CHUNK;
      var chunk :- ReadAt(source, position, count, faultFree);
      if chunk == [] {
        return Err;
      }
      SamePart(goal, source.data, data, hole, position, |chunk|);
      CopyStep(goal, blank, destination.data, position, chunk);
      var _ :- WriteAllAt(destination, chunk, position, faultFree);
      position := position + |chunk|;
    }
    return Ok(());
  }

  lemma SamePart(a: Blob, b: Blob, from: nat, to: nat, position: nat, n: nat)
    requires from <= position <= position + n <= to <= |a| == |b| && a[from..to] == b[from..to]
    ensures a[position..position + n] == b[position..position + n]
  {
    assert forall i :: from <= i < to ==> a[i] == a[from..to][i - from] && b[i] == b[from..to][i - from];
  }

  /** The extent loop of `sparse_copy`. */
  method CopyExtents(source: File, destination: File, ghost goal: Blob, ghost blank: Blob, faultFree: bool)
    returns (o: Outcome<bool>)
    requires source != destination && |blank| == |source.data| && destination.data == blank
    requires goal == Overlaid(source.data, source.extent, source.reportsExtents, blank)
    modifies destination
    ensures o == Ok(true) ==> destination.data == goal
    ensures o == Ok(false) ==> !source.reportsExtents
    ensures faultFree ==> o.Ok?
  {
    var length := |source.data|;
    var offset := 0;
    while offset < length
      invariant CopiedTo(goal, blank, destination.data, offset)
    {
      var data := SeekData(source, offset, faultFree);
      match data {
        case NoMore =>
          SkipHole(goal, blank, destination.data, offset, length);
          break;
        case Unsupported =>
          return Ok(false);
        case SeekError =>
          return Err;
        case Found(position) =>
          var next := SeekHole(source, position, faultFree);
          if !next.Found? {
            return Err;
          }
          var hole := if next.position < length then next.position else length;
          SkipHole(goal, blank, destination.data, offset, position);
          assert goal[position..hole] == source.data[position..hole];
          var _ :- CopyExtent(source, destination, position, hole, goal, blank, faultFree);
          offset := hole;
      }
    }
    assert destination.data == goal;
    return Ok(true);
  }

  /** storage.rs `sparse_copy`. For every extent layout, short reads and short writes,
      success leaves the source's data over what the destination held before; without
      faults it does succeed. */
  method SparseCopy(source: File, destination: File, faultFree: bool) returns (o: Outcome<()>)
    requires source != destination
    modifies destination
    ensures
      var blank := Resize(old(destination.data), |source.data|);
      && (o.Ok? ==> destination.data == Overlaid(source.data, source.extent, source.reportsExtents, blank))
      && (o.Ok? && source.Sparse() ==>
        (destination.data == source.data <==>
         forall i :: 0 <= i < |blank| && source.reportsExtents && !source.extent(i) ==> blank[i] == 0))
    ensures o.Ok? && source.Sparse() && AllZero(old(destination.data), 0, |old(destination.data)|) ==>
      destination.data == source.data
    ensures faultFree ==> o.Ok?
  {
    var _ :- AnyStep(faultFree);
    destination.data := Resize(destination.data, |source.data|);
    ghost var blank := destination.data;
    ghost var goal := Overlaid(source.data, source.extent, source.reportsExtents, blank);
    var byExtents :- CopyExtents(source, destination, goal, blank, faultFree);
    if !byExtents {
      var _ :- CopyWhole(source, destination, faultFree);
      assert destination.data == goal;
    }
    if source.Sparse() {
      OverlaidIsCopy(source.data, source.extent, source.reportsExtents, blank);
    }
    return Ok(());
  }

  datatype Ficlone = Cloned | NotSupported | CloneError

  /** storage.rs `clone_sparse_or_reflink` into a file that was just created. */
  method CloneSparseOrReflink(source: File, destination: File, faultFree: bool) returns (o: Outcome<()>)
    requires source != destination && source.Sparse()
    modifies destination
    ensures o.Ok? ==> destination.data == source.data
    ensures faultFree ==> o.Ok?
  {
    var ficlone: Ficlone := *;
    if faultFree && ficlone.CloneError? {
      ficlone := NotSupported;
    }
    match ficlone {
      case Cloned =>
        destination.data := source.data;
      case NotSupported =>
        var _ :- AnyStep(faultFree);
        destination.data := [];
        var _ :- SparseCopy(source, destination, faultFree);
      case CloneError =>
        return Err;
    }
    var _ :- AnyStep(faultFree);
    return Ok(());
  }

  /** storage.rs `validate_ext4_image`: the superblock magic, little endian, at 1024 + 0x38. */
  predicate Ext4Image(data: Blob) {
    |data| >= 1082 && data[1080] == 0x53 && data[1081] == 0xEF
  }

  /** A directory: names of inodes, so a hard link is a second name. */
  class Directory {
    var files: map<string, File>
    const faultFree: bool

    constructor (faultFree: bool)
      ensures files == map[] && this.faultFree == faultFree
    {
      files := map[];
      this.faultFree := faultFree;
    }

    /** storage.rs `commit_no_replace`: link, drop the temporary name, sync. A failure
        after the link takes the new name away again, if it can. */
    method CommitNoReplace(temporary: string, destination: string) returns (o: Outcome<()>)
      requires temporary in files && temporary != destination
      modifies this
      ensures o.Ok? ==>
        && destination !in old(files)
        && files == old(files)[destination := old(files)[temporary]] - {temporary}
      ensures destination in old(files) ==> files == old(files)
      ensures files - {temporary, destination} == old(files) - {temporary, destination}
      ensures destination in files && destination !in old(files) ==> files[destination] == old(files)[temporary]
      ensures temporary in files ==> files[temporary] == old(files)[temporary]
      ensures faultFree && destination !in old(files) ==> o.Ok?
    {
      var _ :- AnyStep(faultFree);
      if destination in files {
        return Err;
      }
      files := files[destination := files[temporary]];
      var removed := AnyStep(faultFree);
      if removed.Interrupt? {
        return Interrupted;
      }
      if removed.Proceed? {
        files := files - {temporary};
        var synced := AnyStep(faultFree);
        if !synced.Fail? {
          return if synced.Proceed? then Ok(()) else Interrupted;
        }
      }
      var undone := DropName(destination);
      return if undone.Interrupt? then Interrupted else Err;
    }

    /** fs::remove_file, the failure of which is ignored. */
    method DropName(name: string) returns (s: Step)
      modifies this
      ensures files == if s.Proceed? then old(files) - {name} else old(files)
      ensures faultFree ==> s.Proceed?
    {
      s := AnyStep(faultFree);
      if s.Proceed? {
        files := files - {name};
      }
    }

    /** The part of `clone_image_atomic` under the temporary name. */
    method BuildImage(source: File, temporary: string) returns (o: Outcome<()>)
      requires temporary !in files && source.Sparse()
      modifies this
      ensures files - {temporary} == old(files)
      ensures temporary in files ==> fresh(files[temporary])
      ensures o.Ok? ==> temporary in files && files[temporary].data == source.data && Ext4Image(source.data)
      ensures faultFree ==> if Ext4Image(source.data) then o.Ok? else o.Err?
    {
      var _ :- AnyStep(faultFree);
      var image := new File();
      files := files[temporary := image];
      o := CloneSparseOrReflink(source, image, faultFree);
      if o.Ok? && !Ext4Image(image.data) {
        o := Err;
      }
    }

    /** storage.rs `clone_image_atomic`. No file that existed before is touched. The
        destination name never shows a partial image: at every exit, even one caused by a
        kill, it is as before or names a complete, valid copy. Faults apart a refused clone
        leaves nothing behind. */
    method CloneImageAtomic(source: File, temporary: string, destination: string) returns (o: Outcome<()>)
      requires temporary !in files && temporary != destination && source.Sparse()
      modifies this
      ensures o.Ok? ==>
        && destination !in old(files)
        && files.Keys == old(files).Keys + {destination}
        && files[destination].data == source.data && Ext4Image(source.data)
        && fresh(files[destination])
      ensures forall n :: n in old(files) ==> n in files && files[n] == old(files)[n]
      ensures files.Keys <= old(files).Keys + {temporary, destination}
      ensures destination in files && destination !in old(files) ==>
        files[destination].data == source.data && Ext4Image(source.data)
      ensures faultFree ==> (o.Ok? <==> destination !in old(files) && Ext4Image(source.data))
      ensures faultFree && !o.Ok? ==> files == old(files)
    {
      var _ :- AnyStep(faultFree);
      if destination in files {
        return Err;
      }
      o := BuildImage(source, temporary);
      ghost var before := files;
      assert forall n :: n in old(files) ==> n in before - {temporary};
      if o.Ok? {
        o := CommitNoReplace(temporary, destination);
        assert forall n :: n in old(files) ==> n in before - {temporary, destination};
        assert forall n :: n in files && n != temporary && n != destination ==> n in files - {temporary, destination};
      }
      if o.Err? {
        var removed := DropName(temporary);
        o := if removed.Interrupt? then Interrupted else Err;
      }
    }
  }
}
