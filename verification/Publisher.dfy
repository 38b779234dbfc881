/** The FUSE operations of fs/file.cc over mutable tables. */
module Publishers {
  import opened Octets
  import opened Segments
  import opened NameCodec
  import opened Worlds
  import opened Effects

  const ENOENT := 2
  const EIO := 5
  const EEXIST := 17
  const SQLITE_ROW := 100

  class Publisher {
    const prefix: Name
    var fileSystem: map<Path, nat>
    var fileVersions: set<VersionRow>
    var fileSegments: map<SegKey, Signature>
    var files: map<Path, Bytes>
    var clock: nat
    ghost var modified: map<Path, nat>

    /** The tables, the files and the clock as one value. */
    ghost function Value(): World
      reads this
    {
      World(prefix, fileSystem, fileVersions, fileSegments, files, clock, modified)
    }

    ghost predicate Valid()
      reads this
    {
      clock < INT32_LIMIT && forall p :: p in files ==> |files[p]| < INT32_LIMIT
    }

    constructor (prefix: Name, now: nat)
      requires now < INT32_LIMIT
      ensures Valid()
      ensures Value() == World(prefix, map[], {}, map[], map[], now, map[])
    {
      this.prefix := prefix;
      fileSystem, fileVersions, fileSegments := map[], {}, map[];
      files, clock, modified := map[], now, map[];
    }

    /** `fault` is the errno of the operating-system call, 0 when it goes through. */
    method Mknod(p: Path, fault: int) returns (res: int)
      requires Valid() && 0 <= fault
      modifies this
      ensures Valid()
      ensures Value() == MknodOp(old(Value()), p, fault == 0)
      ensures MknodEffect(old(Value()), Value(), p, fault == 0)
      ensures res == if p in old(fileSystem) then -ENOENT
                     else if fault != 0 then -fault
                     else if p in old(files) then -EEXIST else 0
    {
      MknodDoes(Value(), p, fault == 0);
      if p in fileSystem {
        return -ENOENT;
      }
      var ver := clock;
      fileVersions := fileVersions + {VersionRow(p, ver)};
      fileSystem := fileSystem[p := ver];
      if fault != 0 {
        return -fault;
      } else if p in files {
        return -EEXIST;
      }
      files := files[p := []];
      modified := modified[p := clock];
      return 0;
    }

    method Write(p: Path, offset: nat, data: Bytes, fault: int) returns (res: int)
      requires Valid() && 0 <= fault && offset + |data| < INT32_LIMIT
      modifies this
      ensures Valid()
      ensures Value() == WriteOp(old(Value()), p, offset, data, fault == 0)
      ensures WriteEffect(old(Value()), Value(), p, offset, data, fault == 0)
      ensures res > 0 ==> p in files && offset + |data| <= |files[p]| && files[p][offset..offset + |data|] == data
      ensures res == if p !in old(fileSystem) then -ENOENT
                     else if p !in old(files) then -ENOENT
                     else if fault != 0 then -fault else |data|
    {
      WriteDoes(Value(), p, offset, data, fault == 0);
      if p !in fileSystem {
        return -ENOENT;
      }
      if p !in files {
        return -ENOENT;
      }
      if fault != 0 {
        return -fault;
      }
      files := files[p := Written(files[p], offset, data)];
      modified := modified[p := clock];
      return |data|;
    }

    /** On success the result is not 0 but the SQLITE_ROW left over from the lookup. */
    method Truncate(p: Path, length: nat, fault: int) returns (res: int)
      requires Valid() && 0 <= fault && length < INT32_LIMIT
      modifies this
      ensures Valid()
      ensures Value() == TruncateOp(old(Value()), p, length, fault == 0)
      ensures TruncateEffect(old(Value()), Value(), p, length, fault == 0)
      ensures res == if p !in old(fileSystem) then -ENOENT
                     else if p !in old(files) then -ENOENT
                     else if fault != 0 then -fault else SQLITE_ROW
    {
      TruncateDoes(Value(), p, length, fault == 0);
      if p !in fileSystem {
        return -ENOENT;
      }
      if p !in files {
        return -ENOENT;
      }
      if fault != 0 {
        return -fault;
      }
      files := files[p := Resized(files[p], length)];
      modified := modified[p := clock];
      return SQLITE_ROW;
    }

    /** Only the file_system row goes; versions and segments stay behind. */
    method Unlink(p: Path, fault: int) returns (res: int)
      requires Valid() && 0 <= fault
      modifies this
      ensures Valid()
      ensures Value() == UnlinkOp(old(Value()), p, fault == 0)
      ensures UnlinkEffect(old(Value()), Value(), p, fault == 0)
      ensures res == if fault != 0 then -fault else if p !in old(files) then -ENOENT else 0
    {
      UnlinkDoes(Value(), p, fault == 0);
      fileSystem := fileSystem - {p};
      if fault != 0 {
        return -fault;
      } else if p !in files {
        return -ENOENT;
      }
      files := files - {p};
      modified := modified[p := clock];
      return 0;
    }

    /** Signs and stores one segment (fs/segment.cc). */
    method SignSegment(p: Path, ver: nat, seg: nat, data: Bytes)
      modifies this`fileSegments
      ensures fileSegments == old(fileSegments)[SegKey(p, ver, seg) := Signature(SignedName(prefix, p, ver, seg), data)]
    {
      var name := BuildSegmentName(prefix, p, ver, seg);
      fileSegments := fileSegments[SegKey(p, ver, seg) := Signature(name, data)];
    }

    /** The signing loop of a release: it runs until a short read, and has then signed exactly the
        segments that the server counts from the file size. */
    method SignFile(p: Path, ver: nat, failAt: Option<nat>) returns (res: int)
      requires Valid() && p in files
      modifies this`fileSegments
      ensures fileSegments == old(fileSegments) + SignedRows(prefix, p, ver, files[p], SegmentsSigned(files[p], failAt))
      ensures res == if failAt.Some? && failAt.value < TotalSegments(|files[p]|) then -EIO else 0
    {
      var size, seg := SEG_SIZE, 0;
      ghost var file, before := files[p], fileSegments;
      while size == SEG_SIZE
        invariant 0 <= size <= SEG_SIZE
        invariant 0 <= seg
        invariant seg <= TotalSegments(|file|) && (size == SEG_SIZE <==> seg < TotalSegments(|file|))
        invariant failAt.Some? ==> seg <= failAt.value
        invariant fileSegments == before + SignedRows(prefix, p, ver, file, seg)
        decreases TotalSegments(|file|) - seg
      {
        LoopRead(file, seg);
        var buf := Pread(files[p], SegmentToSize(seg));
        if failAt == Some(seg) || buf.None? {
          return -EIO;
        }
        size := |buf.value|;
        SignSegment(p, ver, seg, buf.value);
        SignedRowsNext(before, prefix, p, ver, file, seg);
        seg := seg + 1;
      }
      return 0;
    }

    /** A release of a file that was opened for reading changes nothing. */
    method Release(p: Path, writable: bool, fault: int, failAt: Option<nat>) returns (res: int)
      requires Valid() && 0 <= fault
      modifies this
      ensures Valid()
      ensures Value() == ReleaseOp(old(Value()), p, writable, fault == 0, failAt)
      ensures ReleaseEffect(old(Value()), Value(), p, writable, fault == 0, failAt)
      ensures !writable ==> Value() == old(Value())
      ensures writable && p in old(fileSystem) ==> p in fileSystem && fileSystem[p] == clock && VersionRow(p, clock) in fileVersions
      ensures res == if p !in old(fileSystem) then -ENOENT
                     else if !writable then 0
                     else if fault != 0 then -fault
                     else if p !in old(files) then -ENOENT
                     else if failAt.Some? && failAt.value < TotalSegments(|old(files)[p]|) then -EIO else 0
    {
      ReleaseDoes(Value(), p, writable, fault == 0, failAt);
      var ver := clock;
      if p !in fileSystem {
        return -ENOENT;
      }
      if !writable {
        return 0;
      }
      fileSystem := fileSystem[p := ver];
      fileVersions := fileVersions + {VersionRow(p, ver)};
      if fault != 0 {
        return -fault;
      }
      if p !in files {
        return -ENOENT;
      }
      res := SignFile(p, ver, failAt);
    }

    /** Three independent updates whose outcome nobody looks at, then the file itself. */
    method Rename(from: Path, to: Path, fault: int) returns (res: int)
      requires Valid() && 0 <= fault
      modifies this
      ensures Valid()
      ensures Value() == RenameOp(old(Value()), from, to, fault == 0)
      ensures RenameEffect(old(Value()), Value(), from, to, fault == 0)
      ensures fault == 0 && from in old(files) ==> (to in files && files[to] == old(files)[from] && (from != to ==> from !in files))
      ensures fault != 0 || from !in old(files) ==> files == old(files)
      ensures res == if fault != 0 then -fault else if from !in old(files) then -ENOENT else 0
    {
      RenameDoes(Value(), from, to, fault == 0);
      modified := modified[from := clock][to := clock];
      fileSystem := MovedRow(fileSystem, from, to);
      fileVersions := MovedVersions(fileVersions, from, to);
      fileSegments := MovedSegments(fileSegments, from, to);
      TouchTwice(modified, from, to, clock);
      if fault != 0 {
        return -fault;
      }
      if from !in files {
        return -ENOENT;
      }
      files := (files - {from})[to := files[from]];
      return 0;
    }

    /** Time passes. */
    method Tick(seconds: nat)
      requires Valid() && clock + seconds < INT32_LIMIT
      modifies this`clock
      ensures Valid()
      ensures Value() == old(Value()).(clock := old(clock) + seconds)
    {
      clock := clock + seconds;
    }
  }

  lemma TouchTwice(modified: map<Path, nat>, from: Path, to: Path, now: nat)
    requires from in modified && to in modified && modified[from] == modified[to] == now
    ensures modified[from := now] == modified && modified[to := now] == modified
  {
  }
}
