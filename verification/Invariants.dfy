/** What every step of the interleaved machine keeps. */
module Invariants {
  import opened Octets
  import opened Segments
  import opened NameCodec
  import opened NameParser
  import opened NameRoundTrip
  import opened Worlds
  import opened Machines

  /** Nothing is dated later than the clock, and sizes and segment numbers fit 32-bit arithmetic. */
  ghost predicate Bounded(w: World) {
    && w.clock < INT32_LIMIT
    && (forall p :: p in w.fs ==> w.fs[p] <= w.clock)
    && (forall r :: r in w.versions ==> r.version <= w.clock)
    && (forall k :: k in w.segments ==> k.version <= w.clock && k.segment < SEG_LIMIT)
    && (forall p :: p in w.files ==> |w.files[p]| < INT32_LIMIT)
    && (forall p :: p in w.modified ==> w.modified[p] <= w.clock)
  }

  /** The segment numbers stored for a path and version form an initial interval 0..k. */
  ghost predicate Intervals(segments: map<SegKey, Signature>) {
    forall k, j: nat :: k in segments && j <= k.segment ==> k.(segment := j) in segments
  }

  /** The timestamp invariant: a row whose version is strictly later than the last modification of
      its path matches the bytes that the file holds now. */
  ghost predicate Timely(w: World) {
    forall k :: k in w.segments && k.version > ModifiedAt(w, k.path) ==> RowMatches(w, k.path, k.version, k.segment)
  }

  /** A mknod in progress is for a path without a row; a release in progress has a version no older than
      the row, and has already signed all earlier segments of the file as it stands. */
  ghost predicate ActivityOk(m: Machine) {
    match m.publisher
    case MknodVersion(p, v) => v <= m.w.clock && p !in m.w.fs
    case MknodRow(p, v) => v <= m.w.clock && p !in m.w.fs
    case ReleaseStamp(p, v) => v <= m.w.clock && p in m.w.fs && m.w.fs[p] <= v
    case ReleaseVersion(p, v) => v <= m.w.clock && p in m.w.fs && m.w.fs[p] == v
    case ReleaseOpen(p, v) => v <= m.w.clock && p in m.w.fs && m.w.fs[p] == v && VersionRow(p, v) in m.w.versions
    case ReleaseSign(p, v, s) =>
      && v <= m.w.clock && p in m.w.fs && m.w.fs[p] == v && VersionRow(p, v) in m.w.versions
      && p in m.w.files && s <= SeekSegment(|m.w.files[p]|)
      && forall j: nat :: j < s ==> RowMatches(m.w, p, v, j)
    case _ => true
  }

  /** A signature that the server selected earlier, for a version later than the last modification,
      is still the signature of the present bytes. */
  ghost predicate SelectedOk(w: World, name: Name, p: Path, v: nat, s: nat, sig: Signature) {
    && v <= w.clock && s < SEG_LIMIT
    && ParsesTo(w.prefix, name, v, s, p)
    && (v > ModifiedAt(w, p) ==> p in w.files && sig == Signature(SignedName(w.prefix, p, v, s), Slice(w.files[p], s)))
  }

  /** A final block that the server computed earlier, for a version later than the last modification,
      is still the last segment of the file. */
  ghost predicate SizedOk(w: World, p: Path, v: nat, finalBlock: Option<nat>) {
    v <= w.clock && (v > ModifiedAt(w, p) ==> p in w.files && finalBlock == Some(TotalSegments(|w.files[p]|) - 1))
  }

  ghost predicate ServiceOk(m: Machine) {
    match m.server
    case HaveFile(name, p, v) => NoEmptyComponent(name) && Parse(PathText(m.w.prefix), name) == NameParser.Request(2, v, -1, p)
    case HaveRow(name, p, v, s, sig) => SelectedOk(m.w, name, p, v, s, sig)
    case HaveSize(name, p, v, s, sig, finalBlock) => SelectedOk(m.w, name, p, v, s, sig) && SizedOk(m.w, p, v, finalBlock)
    case _ => true
  }

  ghost predicate Invariant(m: Machine) {
    Bounded(m.w) && Intervals(m.w.segments) && Timely(m.w) && ActivityOk(m) && ServiceOk(m)
  }

  lemma InitialInvariant(m: Machine)
    requires Initial(m)
    ensures Invariant(m)
  {
  }

  // ---------- the table of segments ----------

  /** A rename keeps the intervals whether or not its target is free: two non-empty intervals of
      one version share segment 0, so the update either aborts or joins disjoint versions. */
  lemma MoveKeepsIntervals(segments: map<SegKey, Signature>, from: Path, to: Path)
    requires Intervals(segments)
    ensures Intervals(MovedSegments(segments, from, to))
  {
  }

  /** Whether the update of a rename aborts can be read off segment 0 alone. */
  lemma ClashAtZero(segments: map<SegKey, Signature>, from: Path, to: Path)
    requires Intervals(segments)
    ensures SegmentClash(segments, from, to) <==>
      exists v: nat :: SegKey(from, v, 0) in segments && SegKey(to, v, 0) in segments
  {
    if SegmentClash(segments, from, to) {
      var k :| k in segments && k.path == from && k.(path := to) in segments;
      assert k.(segment := 0) in segments && k.(path := to).(segment := 0) in segments;
      assert k.(segment := 0) == SegKey(from, k.version, 0);
      assert k.(path := to).(segment := 0) == SegKey(to, k.version, 0);
    }
    if v: nat :| SegKey(from, v, 0) in segments && SegKey(to, v, 0) in segments {
      assert SegKey(from, v, 0).(path := to) == SegKey(to, v, 0);
    }
  }

  lemma SignKeepsIntervals(segments: map<SegKey, Signature>, p: Path, v: nat, s: nat, sig: Signature)
    requires Intervals(segments)
    requires forall j: nat :: j < s ==> SegKey(p, v, j) in segments
    ensures Intervals(segments[SegKey(p, v, s) := sig])
  {
  }

  // ---------- steps that modify a path ----------

  /** Everything that concerns paths other than `p` is the same in both worlds. */
  ghost predicate SameBut(w: World, w': World, p: Path, q: Path) {
    && w'.prefix == w.prefix && w'.clock == w.clock
    && (forall k: SegKey :: k.path != p && k.path != q ==> (k in w'.segments <==> k in w.segments))
    && (forall k :: k in w'.segments && k.path != p && k.path != q ==> w'.segments[k] == w.segments[k])
    && (forall r :: r != p && r != q ==> (r in w'.files <==> r in w.files) && (r in w.files ==> w'.files[r] == w.files[r]))
    && (forall r :: r != p && r != q ==> ModifiedAt(w', r) == ModifiedAt(w, r))
  }

  /** What the server selected and computed in the first world is still good in the second. */
  ghost predicate KeepsSelected(w: World, w': World) {
    && (forall name, r, v: nat, s: nat, sig :: SelectedOk(w, name, r, v, s, sig) ==> SelectedOk(w', name, r, v, s, sig))
    && (forall r, v: nat, finalBlock :: SizedOk(w, r, v, finalBlock) ==> SizedOk(w', r, v, finalBlock))
  }

  ghost predicate Keeps(w: World, w': World) {
    Bounded(w') && Intervals(w'.segments) && Timely(w') && w'.prefix == w.prefix && KeepsSelected(w, w')
  }

  lemma KeepsInvariant(m: Machine, m': Machine)
    requires Invariant(m) && Keeps(m.w, m'.w) && m'.server == m.server && ActivityOk(m')
    ensures Invariant(m') && m'.w.prefix == m.w.prefix
  {
  }

  /** The modified path is stamped with the present time, which no stored version exceeds. */
  lemma ModifyKeepsTimely(w: World, w': World, p: Path, q: Path)
    requires Timely(w) && SameBut(w, w', p, q) && Bounded(w')
    requires ModifiedAt(w', p) == w.clock && ModifiedAt(w', q) == w.clock
    ensures Timely(w') && KeepsSelected(w, w')
  {
  }

  lemma MoveRowIsLocal(w: World, from: Path, to: Path)
    requires Bounded(w)
    ensures Bounded(MoveRow(w, from, to)) && SameBut(w, MoveRow(w, from, to), from, to)
  {
  }

  lemma MoveVersionsIsLocal(w: World, from: Path, to: Path)
    requires Bounded(w)
    ensures Bounded(MoveVersions(w, from, to)) && SameBut(w, MoveVersions(w, from, to), from, to)
  {
  }

  lemma MoveSegmentsIsLocal(w: World, from: Path, to: Path)
    requires Bounded(w)
    ensures Bounded(MoveSegments(w, from, to)) && SameBut(w, MoveSegments(w, from, to), from, to)
  {
  }

  lemma MoveFileIsLocal(w: World, from: Path, to: Path, ok: bool)
    requires Bounded(w)
    ensures Bounded(MoveFile(w, from, to, ok)) && SameBut(w, MoveFile(w, from, to, ok), from, to)
  {
  }

  /** The four steps of a rename. */
  lemma MoveStep(w: World, w': World, from: Path, to: Path, ok: bool)
    requires Bounded(w) && Intervals(w.segments) && Timely(w)
    requires w' == MoveRow(w, from, to) || w' == MoveVersions(w, from, to) || w' == MoveSegments(w, from, to)
             || w' == MoveFile(w, from, to, ok)
    ensures Keeps(w, w')
  {
    assert Bounded(w') && SameBut(w, w', from, to) by {
      MoveRowIsLocal(w, from, to);
      MoveVersionsIsLocal(w, from, to);
      MoveSegmentsIsLocal(w, from, to);
      MoveFileIsLocal(w, from, to, ok);
    }
    MoveKeepsIntervals(w.segments, from, to);
    ModifyKeepsTimely(w, w', from, to);
  }

  /** A step that changes the bytes of one file and stamps it. */
  lemma FileStep(w: World, w': World, p: Path)
    requires Bounded(w) && Intervals(w.segments) && Timely(w)
    requires w' == w || (w' == Touch(w.(files := w'.files), p) && Bounded(w') && w'.files - {p} == w.files - {p})
    ensures Keeps(w, w')
  {
    if w' != w {
      forall r | r != p
        ensures (r in w'.files <==> r in w.files) && (r in w.files ==> w'.files[r] == w.files[r])
      {
        assert r in w'.files - {p} <==> r in w.files - {p};
        assert r in w.files ==> (w'.files - {p})[r] == (w.files - {p})[r];
      }
      assert SameBut(w, w', p, p);
      ModifyKeepsTimely(w, w', p, p);
    }
  }

  /** A step of the tables file_system and file_versions, or of the clock, moves nothing else. */
  lemma RowStep(w: World, w': World)
    requires Bounded(w) && Intervals(w.segments) && Timely(w)
    requires w' == w.(fs := w'.fs, versions := w'.versions, clock := w'.clock) && w'.clock >= w.clock && Bounded(w')
    ensures Keeps(w, w')
    ensures forall p, v: nat, s: nat :: RowMatches(w, p, v, s) ==> RowMatches(w', p, v, s)
  {
  }

  lemma SignedRowMatches(w: World, p: Path, v: nat, s: nat)
    requires p in w.files && Timely(w) && Intervals(w.segments) && forall j: nat :: j < s ==> RowMatches(w, p, v, j)
    ensures
      var w' := SignSegment(w, p, v, s, Slice(w.files[p], s));
      && RowMatches(w', p, v, s) && Timely(w') && Intervals(w'.segments) && KeepsSelected(w, w')
      && forall q, u: nat, j: nat :: RowMatches(w, q, u, j) ==> RowMatches(w', q, u, j)
  {
    var w' := SignSegment(w, p, v, s, Slice(w.files[p], s));
    forall j: nat | j < s
      ensures SegKey(p, v, j) in w.segments
    {
      assert RowMatches(w, p, v, j);
    }
    SignKeepsIntervals(w.segments, p, v, s, Signature(SignedName(w.prefix, p, v, s), Slice(w.files[p], s)));
    forall k | k in w'.segments && k.version > ModifiedAt(w', k.path)
      ensures RowMatches(w', k.path, k.version, k.segment)
    {
      assert k != SegKey(p, v, s) ==> RowMatches(w, k.path, k.version, k.segment);
    }
  }

  /** The next segment of a release is signed over the bytes that are in the file. */
  lemma SignStep(m: Machine, ok: bool)
    requires Invariant(m) && m.publisher.ReleaseSign?
    ensures Invariant(PublisherEffect(m, ok)) && PublisherEffect(m, ok).w.prefix == m.w.prefix
  {
    var ReleaseSign(p, v, s) := m.publisher;
    PreadIsSlice(m.w.files[p], s);
    if ok {
      SignedRowMatches(m.w, p, v, s);
      NextSegmentOk(m.w, SignSegment(m.w, p, v, s, Slice(m.w.files[p], s)), p, v, s);
    }
    KeepsInvariant(m, PublisherEffect(m, ok));
  }

  lemma NextSegmentOk(w: World, w': World, p: Path, v: nat, s: nat)
    requires p in w.files && |w.files[p]| < INT32_LIMIT && s <= SeekSegment(|w.files[p]|)
    requires w'.files == w.files && RowMatches(w', p, v, s) && forall j: nat :: j < s ==> RowMatches(w', p, v, j)
    ensures s < SEG_LIMIT
    ensures |Slice(w.files[p], s)| == SEG_SIZE ==>
      s + 1 <= SeekSegment(|w.files[p]|) && forall j: nat :: j < s + 1 ==> RowMatches(w', p, v, j)
  {
    SliceSize(w.files[p], s);
  }

  lemma RenameStepInvariant(m: Machine, ok: bool)
    requires Invariant(m)
    requires m.publisher.RenameVersions? || m.publisher.RenameSegments? || m.publisher.RenameFile?
    ensures Invariant(PublisherEffect(m, ok)) && PublisherEffect(m, ok).w.prefix == m.w.prefix
  {
    MoveStep(m.w, PublisherEffect(m, ok).w, m.publisher.from, m.publisher.to, ok);
    KeepsInvariant(m, PublisherEffect(m, ok));
  }

  lemma PublisherStepInvariant(m: Machine, ok: bool)
    requires Invariant(m) && !m.publisher.Idle?
    ensures Invariant(PublisherEffect(m, ok)) && PublisherEffect(m, ok).w.prefix == m.w.prefix
  {
    match m.publisher
    case ReleaseSign(_, _, _) => SignStep(m, ok);
    case MknodFile(_) => FileStepInvariant(m, ok);
    case UnlinkFile(_) => FileStepInvariant(m, ok);
    case RenameVersions(_, _) => RenameStepInvariant(m, ok);
    case RenameSegments(_, _) => RenameStepInvariant(m, ok);
    case RenameFile(_, _) => RenameStepInvariant(m, ok);
    case _ => RowStepInvariant(m, ok);
  }

  lemma RowStepInvariant(m: Machine, ok: bool)
    requires Invariant(m)
    requires m.publisher.MknodVersion? || m.publisher.MknodRow? || m.publisher.ReleaseStamp? || m.publisher.ReleaseVersion?
             || m.publisher.ReleaseOpen?
    ensures Invariant(PublisherEffect(m, ok)) && PublisherEffect(m, ok).w.prefix == m.w.prefix
  {
    RowStep(m.w, PublisherEffect(m, ok).w);
    KeepsInvariant(m, PublisherEffect(m, ok));
  }

  lemma FileStepInvariant(m: Machine, ok: bool)
    requires Invariant(m) && (m.publisher.MknodFile? || m.publisher.UnlinkFile?)
    ensures Invariant(PublisherEffect(m, ok)) && PublisherEffect(m, ok).w.prefix == m.w.prefix
  {
    FileStep(m.w, PublisherEffect(m, ok).w, m.publisher.path);
    KeepsInvariant(m, PublisherEffect(m, ok));
  }

  lemma ReceiveOk(w: World, name: Name)
    requires Bounded(w) && Timely(w) && NoEmptyComponent(name)
    ensures ServiceOk(Machine(w, Idle, Receive(w, name), []))
  {
  }

  lemma FirstSegmentSelected(m: Machine, around: Surroundings)
    requires Invariant(m) && m.server.HaveFile?
    ensures ServiceOk(ServerEffect(m, around))
  {
    var HaveFile(name, p, v) := m.server;
    FirstSegment(PathText(m.w.prefix), name, v, p);
    if v >= 0 {
      var k := SegKey(p, v, 0);
      assert k in m.w.segments && k.version > ModifiedAt(m.w, k.path) ==> RowMatches(m.w, k.path, k.version, k.segment);
    }
  }

  lemma ServerStepInvariant(m: Machine, around: Surroundings)
    requires Invariant(m) && !m.server.Waiting?
    ensures Invariant(ServerEffect(m, around)) && ServerEffect(m, around).w == m.w
  {
    var m' := ServerEffect(m, around);
    assert m'.w == m.w && m'.publisher == m.publisher;
    if m.server.HaveFile? {
      FirstSegmentSelected(m, around);
    }
  }

  lemma OtherStep(m: Machine, a: Action)
    requires Invariant(m) && Enabled(m, a)
    requires a.Tick? || a.Mknod? || a.Unlink? || a.Release?
    ensures Invariant(Next(m, a)) && Next(m, a).w.prefix == m.w.prefix
  {
    var m' := Next(m, a);
    RowStep(m.w, m'.w);
    assert ActivityOk(m') by {
      if m.publisher.ReleaseSign? {
        var ReleaseSign(p, v, s) := m.publisher;
        forall j: nat | j < s
          ensures RowMatches(m'.w, p, v, j)
        {
          assert RowMatches(m.w, p, v, j);
        }
      }
    }
    KeepsInvariant(m, m');
  }

  lemma ContentStep(m: Machine, a: Action, p: Path)
    requires Invariant(m) && Enabled(m, a) && (a.Write? || a.Truncate?) && a.path == p
    ensures Invariant(Next(m, a)) && Next(m, a).w.prefix == m.w.prefix
  {
    FileStep(m.w, Next(m, a).w, p);
    KeepsInvariant(m, Next(m, a));
  }

  /** Every step of every interleaving keeps the invariant: writes, truncates, colliding renames,
      releases cut short by a read error, and the server in between. */
  lemma NextInvariant(m: Machine, a: Action)
    requires Invariant(m)
    ensures Invariant(Next(m, a)) && Next(m, a).w.prefix == m.w.prefix
  {
    if Enabled(m, a) {
      var m' := Next(m, a);
      match a
      case Write(p, _, _, _) => ContentStep(m, a, p);
      case Truncate(p, _, _) => ContentStep(m, a, p);
      case Rename(from, to) => MoveStep(m.w, m'.w, from, to, true); KeepsInvariant(m, m');
      case PublisherStep(ok) => PublisherStepInvariant(m, ok);
      case Interest(name) => ReceiveOk(m.w, name);
      case ServerStep(around) => ServerStepInvariant(m, around);
      case _ => OtherStep(m, a);
    }
  }

  lemma {:induction false} RunInvariant(m: Machine, actions: seq<Action>)
    requires Invariant(m)
    ensures Invariant(Run(m, actions)) && Run(m, actions).w.prefix == m.w.prefix
    decreases |actions|
  {
    if actions != [] {
      NextInvariant(m, actions[0]);
      RunInvariant(Next(m, actions[0]), actions[1..]);
    }
  }
}
