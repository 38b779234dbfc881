/** What each operation of fs/file.cc does to the tables and the files, said without the statements that do it. */
module Effects {
  import opened Octets
  import opened Segments
  import opened NameCodec
  import opened Worlds

  /** The files of the two worlds differ at `p` only. */
  ghost predicate OtherFilesSame(w: World, w': World, p: Path) {
    forall q :: q != p ==> (q in w'.files <==> q in w.files) && (q in w.files ==> w'.files[q] == w.files[q])
  }

  ghost predicate OtherRowsSame(w: World, w': World, p: Path) {
    forall q :: q != p ==> (q in w'.fs <==> q in w.fs) && (q in w.fs ==> w'.fs[q] == w.fs[q])
  }

  /** Nothing but files and the record of their modification may differ. */
  ghost predicate TablesSame(w: World, w': World) {
    && w'.prefix == w.prefix && w'.clock == w.clock
    && w'.fs == w.fs && w'.versions == w.versions && w'.segments == w.segments
  }

  ghost predicate FilesSame(w: World, w': World) {
    w'.prefix == w.prefix && w'.clock == w.clock && w'.files == w.files
  }

  /** mknod: a path with a row is left alone; any other gets a row and a recorded version of this second, and
      an empty file if the system makes one. */
  ghost predicate MknodEffect(w: World, w': World, p: Path, ok: bool) {
    if p in w.fs then w' == w
    else
      && w'.prefix == w.prefix && w'.clock == w.clock && w'.segments == w.segments
      && OtherRowsSame(w, w', p) && p in w'.fs && w'.fs[p] == w.clock
      && (forall r :: r in w'.versions <==> r in w.versions || r == VersionRow(p, w.clock))
      && (if ok && p !in w.files
          then OtherFilesSame(w, w', p) && p in w'.files && w'.files[p] == [] && w'.modified == w.modified[p := w.clock]
          else w'.files == w.files && w'.modified == w.modified)
  }

  /** write: the data stand at the offset, everything else in the file is as it was, a gap reads as zeros, and
      the file ends where the later of the two ends was. */
  ghost predicate WriteEffect(w: World, w': World, p: Path, offset: nat, data: Bytes, ok: bool) {
    && TablesSame(w, w')
    && if p in w.fs && p in w.files && ok then
         && OtherFilesSame(w, w', p) && p in w'.files && w'.modified == w.modified[p := w.clock]
         && (data == [] ==> w'.files[p] == w.files[p])
         && (data != [] ==> DataAt(w.files[p], w'.files[p], offset, data))
       else w' == w
  }

  ghost predicate DataAt(before: Bytes, after: Bytes, offset: nat, data: Bytes) {
    && offset + |data| <= |after| && |before| <= |after|
    && (|after| == |before| || |after| == offset + |data|)
    && after[offset..offset + |data|] == data
    && (forall i :: 0 <= i < |after| && !(offset <= i < offset + |data|) ==>
          after[i] == if i < |before| then before[i] else '\0')
  }

  /** truncate: the file has the given length; what it keeps is as it was, what it gains is zeros. */
  ghost predicate TruncateEffect(w: World, w': World, p: Path, length: nat, ok: bool) {
    && TablesSame(w, w')
    && if p in w.fs && p in w.files && ok then
         && OtherFilesSame(w, w', p) && p in w'.files && w'.modified == w.modified[p := w.clock]
         && |w'.files[p]| == length
         && (length <= |w.files[p]| ==> w'.files[p] == w.files[p][..length])
         && (length > |w.files[p]| ==>
               w.files[p] <= w'.files[p] && forall i :: |w.files[p]| <= i < length ==> w'.files[p][i] == '\0')
       else w' == w
  }

  /** unlink: the row of the path goes, whether or not the file does; recorded versions and signed segments stay. */
  ghost predicate UnlinkEffect(w: World, w': World, p: Path, ok: bool) {
    && w'.prefix == w.prefix && w'.clock == w.clock && w'.versions == w.versions && w'.segments == w.segments
    && OtherRowsSame(w, w', p) && p !in w'.fs
    && if ok && p in w.files
       then OtherFilesSame(w, w', p) && p !in w'.files && w'.modified == w.modified[p := w.clock]
       else w'.files == w.files && w'.modified == w.modified
  }

  /** rename of the file: `to` holds the bytes that `from` held, and `from` is gone. */
  ghost predicate FileMoved(w: World, w': World, from: Path, to: Path, ok: bool) {
    if ok && from in w.files then
      && to in w'.files && w'.files[to] == w.files[from] && (from != to ==> from !in w'.files)
      && forall q :: q != from && q != to ==> (q in w'.files <==> q in w.files) && (q in w.files ==> w'.files[q] == w.files[q])
    else w'.files == w.files
  }

  /** The row of `from` is now that of `to`, if there was one and `to` was free; else nothing has changed. */
  ghost predicate RowMoves(fs: map<Path, nat>, fs': map<Path, nat>, from: Path, to: Path) {
    if from != to && from in fs && to !in fs then
      && from !in fs' && to in fs' && fs'[to] == fs[from]
      && forall q :: q != from && q != to ==> (q in fs' <==> q in fs) && (q in fs ==> fs'[q] == fs[q])
    else fs' == fs
  }

  /** All rows of `from` are now rows of `to`, or, if one of them conflicts with a key, none. */
  ghost predicate VersionsMove(versions: set<VersionRow>, versions': set<VersionRow>, from: Path, to: Path) {
    if from != to && !VersionClash(versions, from, to) then
      forall r :: r in versions' <==> r.path != from && (r in versions || (r.path == to && r.(path := from) in versions))
    else versions' == versions
  }

  /** The same, signatures included. */
  ghost predicate SegmentsMove(segments: map<SegKey, Signature>, segments': map<SegKey, Signature>, from: Path, to: Path) {
    if from != to && !SegmentClash(segments, from, to) then
      && (forall k :: k in segments' <==> k.path != from && (k in segments || (k.path == to && k.(path := from) in segments)))
      && (forall k :: k in segments' ==> segments'[k] == if k in segments then segments[k] else segments[k.(path := from)])
    else segments' == segments
  }

  /** rename: three updates that know nothing of one another, and then the file, whatever they came to. */
  ghost predicate RenameEffect(w: World, w': World, from: Path, to: Path, ok: bool) {
    && w'.prefix == w.prefix && w'.clock == w.clock && w'.modified == w.modified[from := w.clock][to := w.clock]
    && RowMoves(w.fs, w'.fs, from, to) && VersionsMove(w.versions, w'.versions, from, to)
    && SegmentsMove(w.segments, w'.segments, from, to) && FileMoved(w, w', from, to, ok)
  }

  /** The segments that a release signs: up to the one that holds the end of the file, and before a failed read. */
  ghost predicate SignedBy(file: Bytes, failAt: Option<nat>, s: nat) {
    s * SEG_SIZE <= |file| && (failAt.Some? ==> s < failAt.value)
  }

  /** release: without a row or without write access nothing at all; else the row has the version of this second,
      which is recorded, and if the file can be opened its segments are signed under that version. */
  ghost predicate ReleaseEffect(w: World, w': World, p: Path, writable: bool, openOk: bool, failAt: Option<nat>) {
    if p !in w.fs || !writable then w' == w
    else
      && FilesSame(w, w') && w'.modified == w.modified
      && OtherRowsSame(w, w', p) && p in w'.fs && w'.fs[p] == w.clock
      && (forall r :: r in w'.versions <==> r in w.versions || r == VersionRow(p, w.clock))
      && forall k: SegKey ::
           if openOk && p in w.files && k.path == p && k.version == w.clock && SignedBy(w.files[p], failAt, k.segment) then
             k in w'.segments
             && w'.segments[k] == Signature(SignedName(w.prefix, p, w.clock, k.segment), Slice(w.files[p], k.segment))
           else (k in w'.segments <==> k in w.segments) && (k in w.segments ==> w'.segments[k] == w.segments[k])
  }

  lemma MknodDoes(w: World, p: Path, ok: bool)
    ensures MknodEffect(w, MknodOp(w, p, ok), p, ok)
  {
  }

  lemma WriteDoes(w: World, p: Path, offset: nat, data: Bytes, ok: bool)
    ensures WriteEffect(w, WriteOp(w, p, offset, data, ok), p, offset, data, ok)
  {
    if p in w.fs && p in w.files && ok && data != [] {
      assert DataAt(w.files[p], Written(w.files[p], offset, data), offset, data);
    }
  }

  lemma TruncateDoes(w: World, p: Path, length: nat, ok: bool)
    ensures TruncateEffect(w, TruncateOp(w, p, length, ok), p, length, ok)
  {
  }

  lemma UnlinkDoes(w: World, p: Path, ok: bool)
    ensures UnlinkEffect(w, UnlinkOp(w, p, ok), p, ok)
  {
  }

  lemma UpdatesMove(w: World, from: Path, to: Path)
    ensures RowMoves(w.fs, MovedRow(w.fs, from, to), from, to)
    ensures VersionsMove(w.versions, MovedVersions(w.versions, from, to), from, to)
    ensures SegmentsMove(w.segments, MovedSegments(w.segments, from, to), from, to)
  {
  }

  lemma RenameOpTables(w: World, from: Path, to: Path, ok: bool)
    ensures RenameOp(w, from, to, ok).fs == MovedRow(w.fs, from, to)
    ensures RenameOp(w, from, to, ok).versions == MovedVersions(w.versions, from, to)
    ensures RenameOp(w, from, to, ok).segments == MovedSegments(w.segments, from, to)
  {
  }

  lemma RenameOpFiles(w: World, w': World, from: Path, to: Path, ok: bool)
    requires w' == RenameOp(w, from, to, ok)
    ensures FileMoved(w, w', from, to, ok)
    ensures w'.prefix == w.prefix && w'.clock == w.clock && w'.modified == w.modified[from := w.clock][to := w.clock]
  {
    var w1 := MoveRow(w, from, to);
    var w2 := MoveVersions(w1, from, to);
    var w3 := MoveSegments(w2, from, to);
    assert w3.files == w.files && w3.modified == w.modified[from := w.clock][to := w.clock];
  }

  lemma RenameDoes(w: World, from: Path, to: Path, ok: bool)
    ensures RenameEffect(w, RenameOp(w, from, to, ok), from, to, ok)
  {
    UpdatesMove(w, from, to);
    RenameOpTables(w, from, to, ok);
    RenameOpFiles(w, RenameOp(w, from, to, ok), from, to, ok);
  }

  lemma SignedExactly(file: Bytes, failAt: Option<nat>, s: nat)
    ensures SignedBy(file, failAt, s) <==> s < SegmentsSigned(file, failAt)
  {
  }

  lemma ReleaseDoes(w: World, p: Path, writable: bool, openOk: bool, failAt: Option<nat>)
    ensures ReleaseEffect(w, ReleaseOp(w, p, writable, openOk, failAt), p, writable, openOk, failAt)
  {
    if p in w.fs && writable && openOk && p in w.files {
      forall k: SegKey
        ensures SignedBy(w.files[p], failAt, k.segment) <==> k.segment < SegmentsSigned(w.files[p], failAt)
      {
        SignedExactly(w.files[p], failAt, k.segment);
      }
    }
  }
}
