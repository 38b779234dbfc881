/** The state that publisher and server share: three tables, the file bytes and the clock,
    with the SQL statements and file-system calls of fs/file.cc as functions on it. */
module Worlds {
  import opened Octets
  import opened Segments
  import opened NameCodec

  type Path = Bytes

  /** A row of file_versions. */
  datatype VersionRow = VersionRow(path: Path, version: nat)

  /** The primary key of file_segments. */
  datatype SegKey = SegKey(path: Path, version: nat, segment: nat)

  /** A signature, bound to the name and the content that were signed and to nothing else. */
  datatype Signature = Signature(name: Name, content: Bytes)

  /** `fs` maps a path to its current_version. `modified` records when a path was last created,
      written, truncated, renamed or unlinked; no program variable holds it. */
  datatype World = World(
    prefix: Name,
    fs: map<Path, nat>,
    versions: set<VersionRow>,
    segments: map<SegKey, Signature>,
    files: map<Path, Bytes>,
    clock: nat,
    modified: map<Path, nat>)

  // ---------- SQL statements ----------

  /** UPDATE file_system SET path = to WHERE path = from; a key conflict aborts the statement. */
  function MovedRow(fs: map<Path, nat>, from: Path, to: Path): map<Path, nat> {
    if from !in fs || to in fs then fs else (fs - {from})[to := fs[from]]
  }

  predicate VersionClash(versions: set<VersionRow>, from: Path, to: Path) {
    exists r :: r in versions && r.path == from && r.(path := to) in versions
  }

  /** UPDATE file_versions SET path = to WHERE path = from. */
  function MovedVersions(versions: set<VersionRow>, from: Path, to: Path): (r: set<VersionRow>)
    ensures from == to || VersionClash(versions, from, to) ==> r == versions
    ensures from != to && !VersionClash(versions, from, to) ==>
      forall v :: v in r <==> v.path != from && (v in versions || (v.path == to && v.(path := from) in versions))
  {
    if from == to || VersionClash(versions, from, to) then versions
    else
      (set v | v in versions && v.path != from) + (set v | v in versions && v.path == from :: v.(path := to))
  }

  predicate SegmentClash(segments: map<SegKey, Signature>, from: Path, to: Path) {
    exists k :: k in segments && k.path == from && k.(path := to) in segments
  }

  /** UPDATE file_segments SET path = to WHERE path = from. */
  function MovedSegments(segments: map<SegKey, Signature>, from: Path, to: Path): (r: map<SegKey, Signature>)
    ensures from == to || SegmentClash(segments, from, to) ==> r == segments
    ensures from != to && !SegmentClash(segments, from, to) ==>
      forall k :: k in r <==> k.path != from && (k in segments || (k.path == to && k.(path := from) in segments))
    ensures from != to && !SegmentClash(segments, from, to) ==>
      forall k :: k in r ==> r[k] == if k in segments then segments[k] else segments[k.(path := from)]
  {
    if from == to || SegmentClash(segments, from, to) then segments
    else
      var kept := set k | k in segments && k.path != from;
      var moved := set k | k in segments && k.path == from :: k.(path := to);
      map k | k in kept + moved :: if k in segments then segments[k] else segments[k.(path := from)]
  }

  // ---------- file contents ----------

  function Zeros(n: nat): (z: Bytes)
    ensures |z| == n
  {
    seq(n, _ => '\0')
  }

  /** `truncate`: cut, or extend with zero bytes. */
  function Resized(file: Bytes, length: nat): (r: Bytes)
    ensures |r| == length
    ensures forall i :: 0 <= i < length ==> r[i] == (if i < |file| then file[i] else '\0')
  {
    if length <= |file| then file[..length] else file + Zeros(length - |file|)
  }

  /** `pwrite`: writing nothing changes nothing; a gap before the offset reads as zero bytes. */
  function Written(file: Bytes, offset: nat, data: Bytes): (r: Bytes)
    ensures data == [] ==> r == file
    ensures data != [] ==> |r| == if offset + |data| > |file| then offset + |data| else |file|
    ensures forall i :: 0 <= i < |r| ==>
      r[i] == (if offset <= i < offset + |data| then data[i - offset] else if i < |file| then file[i] else '\0')
  {
    if data == [] then file
    else
      var head := Resized(file, offset);
      head + data + (if offset + |data| < |file| then file[offset + |data|..] else [])
  }

  // ---------- steps on the world ----------

  /** When the path was last modified; -1 for a path that never was. */
  function ModifiedAt(w: World, p: Path): int {
    if p in w.modified then w.modified[p] else -1
  }

  function Touch(w: World, p: Path): World {
    w.(modified := w.modified[p := w.clock])
  }

  function InsertVersion(w: World, p: Path, v: nat): World {
    w.(versions := w.versions + {VersionRow(p, v)})
  }

  function InsertRow(w: World, p: Path, v: nat): World {
    if p in w.fs then w else w.(fs := w.fs[p := v])
  }

  function UpdateRow(w: World, p: Path, v: nat): World {
    if p in w.fs then w.(fs := w.fs[p := v]) else w
  }

  function DeleteRow(w: World, p: Path): World {
    w.(fs := w.fs - {p})
  }

  function CreateFile(w: World, p: Path, ok: bool): World {
    if ok && p !in w.files then Touch(w.(files := w.files[p := []]), p) else w
  }

  function DeleteFile(w: World, p: Path, ok: bool): World {
    if ok && p in w.files then Touch(w.(files := w.files - {p}), p) else w
  }

  function SetFile(w: World, p: Path, content: Bytes): World {
    Touch(w.(files := w.files[p := content]), p)
  }

  function MoveRow(w: World, from: Path, to: Path): World {
    Touch(Touch(w.(fs := MovedRow(w.fs, from, to)), from), to)
  }

  function MoveVersions(w: World, from: Path, to: Path): World {
    Touch(Touch(w.(versions := MovedVersions(w.versions, from, to)), from), to)
  }

  function MoveSegments(w: World, from: Path, to: Path): World {
    Touch(Touch(w.(segments := MovedSegments(w.segments, from, to)), from), to)
  }

  function MoveFile(w: World, from: Path, to: Path, ok: bool): World {
    var files := if ok && from in w.files then (w.files - {from})[to := w.files[from]] else w.files;
    Touch(Touch(w.(files := files), from), to)
  }

  /** INSERT OR REPLACE INTO file_segments of a freshly signed segment. */
  function SignSegment(w: World, p: Path, v: nat, s: nat, content: Bytes): World {
    w.(segments := w.segments[SegKey(p, v, s) := Signature(SignedName(w.prefix, p, v, s), content)])
  }

  // ---------- whole operations ----------

  function MknodOp(w: World, p: Path, ok: bool): World {
    if p in w.fs then w else CreateFile(InsertRow(InsertVersion(w, p, w.clock), p, w.clock), p, ok)
  }

  function WriteOp(w: World, p: Path, offset: nat, data: Bytes, ok: bool): World {
    if p in w.fs && p in w.files && ok then SetFile(w, p, Written(w.files[p], offset, data)) else w
  }

  function TruncateOp(w: World, p: Path, length: nat, ok: bool): World {
    if p in w.fs && p in w.files && ok then SetFile(w, p, Resized(w.files[p], length)) else w
  }

  function UnlinkOp(w: World, p: Path, ok: bool): World {
    DeleteFile(DeleteRow(w, p), p, ok)
  }

  function RenameOp(w: World, from: Path, to: Path, ok: bool): World {
    MoveFile(MoveSegments(MoveVersions(MoveRow(w, from, to), from, to), from, to), from, to, ok)
  }

  /** The rows that signing segments 0..n-1 of a file leaves. */
  function SignedRows(prefix: Name, p: Path, v: nat, file: Bytes, n: nat): map<SegKey, Signature> {
    map k | k in (set s: nat | s < n :: SegKey(p, v, s)) :: Signature(SignedName(prefix, p, v, k.segment), Slice(file, k.segment))
  }

  lemma SignedRowsNext(before: map<SegKey, Signature>, prefix: Name, p: Path, v: nat, file: Bytes, n: nat)
    ensures before + SignedRows(prefix, p, v, file, n + 1) ==
      (before + SignedRows(prefix, p, v, file, n))[SegKey(p, v, n) := Signature(SignedName(prefix, p, v, n), Slice(file, n))]
  {
    var rows, key := SignedRows(prefix, p, v, file, n), SegKey(p, v, n);
    var sig := Signature(SignedName(prefix, p, v, n), Slice(file, n));
    assert (set s: nat | s < n + 1 :: SegKey(p, v, s)) == (set s: nat | s < n :: SegKey(p, v, s)) + {key};
    assert SignedRows(prefix, p, v, file, n + 1) == rows[key := sig];
    PlusUpdate(before, rows, key, sig);
  }

  lemma PlusUpdate(before: map<SegKey, Signature>, rows: map<SegKey, Signature>, key: SegKey, sig: Signature)
    ensures before + rows[key := sig] == (before + rows)[key := sig]
  {
  }

  /** How many segments a release signs: all that the server counts, or those before a failed read. */
  function SegmentsSigned(file: Bytes, failAt: Option<nat>): nat {
    if failAt.Some? then Min(failAt.value, TotalSegments(|file|)) else TotalSegments(|file|)
  }

  /** `failAt` is the segment whose `pread` reports an error, if any. */
  function ReleaseOp(w: World, p: Path, writable: bool, openOk: bool, failAt: Option<nat>): World {
    if p !in w.fs || !writable then w
    else
      var w1 := InsertVersion(UpdateRow(w, p, w.clock), p, w.clock);
      if !openOk || p !in w.files then w1
      else
        w1.(segments := w1.segments + SignedRows(w.prefix, p, w.clock, w.files[p], SegmentsSigned(w.files[p], failAt)))
  }

  /** The row of a segment holds the signature of exactly the bytes now in that segment. */
  predicate RowMatches(w: World, p: Path, v: nat, s: nat) {
    && p in w.files
    && SegKey(p, v, s) in w.segments
    && w.segments[SegKey(p, v, s)] == Signature(SignedName(w.prefix, p, v, s), Slice(w.files[p], s))
  }

  /** Version `v` of `p` is completely published: every segment of the file as it is now
      has a matching row. */
  predicate Published(w: World, p: Path, v: nat) {
    && p in w.files
    && VersionRow(p, v) in w.versions
    && forall s: nat :: s <= SeekSegment(|w.files[p]|) ==> RowMatches(w, p, v, s)
  }
}
