/** How the three tables agree with one another, and what a rename does to that. */
module Integrity {
  import opened Octets
  import opened Segments
  import opened NameCodec
  import opened NameParser
  import opened Worlds
  import opened Effects
  import opened Machines
  import opened Invariants
  import Listing

  /** The current version of every live path, and the version of every signed segment, is recorded
      in file_versions. */
  ghost predicate Consistent(w: World) {
    && (forall p :: p in w.fs ==> VersionRow(p, w.fs[p]) in w.versions)
    && (forall k :: k in w.segments ==> VersionRow(k.path, k.version) in w.versions)
  }

  /** No recorded version of a live path is later than its current one. */
  ghost predicate Newest(w: World) {
    forall r :: r in w.versions && r.path in w.fs ==> r.version <= w.fs[r.path]
  }

  // ---------- one rename ----------

  /** What a caller can read off the tables before a rename. */
  ghost predicate RenameSafe(w: World, from: Path, to: Path) {
    || from == to
    || (if VersionClash(w.versions, from, to) then
          && (from in w.fs && to !in w.fs ==> VersionRow(to, w.fs[from]) in w.versions)
          && (SegmentClash(w.segments, from, to)
              || forall k :: k in w.segments && k.path == from ==> VersionRow(to, k.version) in w.versions)
        else !(from in w.fs && to in w.fs))
  }

  /** A rename, colliding or not, keeps the tables consistent exactly when `RenameSafe` holds before it. */
  lemma RenameConsistent(w: World, from: Path, to: Path, ok: bool)
    requires Consistent(w)
    ensures Consistent(RenameOp(w, from, to, ok)) <==> RenameSafe(w, from, to)
  {
    RenameOpTables(w, from, to, ok);
    RenameTables(w, RenameOp(w, from, to, ok), from, to);
  }

  lemma RenameTables(w: World, w': World, from: Path, to: Path)
    requires Consistent(w)
    requires w'.fs == MovedRow(w.fs, from, to) && w'.versions == MovedVersions(w.versions, from, to)
    requires w'.segments == MovedSegments(w.segments, from, to)
    ensures Consistent(w') <==> RenameSafe(w, from, to)
  {
    if from == to {
      assert w'.fs == w.fs;
    } else if VersionClash(w.versions, from, to) {
      ClashingRename(w, w', from, to);
    } else {
      FreeRename(w, w', from, to);
    }
  }

  lemma ClashingRename(w: World, w': World, from: Path, to: Path)
    requires Consistent(w) && from != to && VersionClash(w.versions, from, to)
    requires w'.fs == MovedRow(w.fs, from, to) && w'.versions == w.versions
    requires w'.segments == MovedSegments(w.segments, from, to)
    ensures Consistent(w') <==> RenameSafe(w, from, to)
  {
    if Consistent(w') {
      assert from in w.fs && to !in w.fs ==> to in w'.fs && w'.fs[to] == w.fs[from];
      if !SegmentClash(w.segments, from, to) {
        forall k | k in w.segments && k.path == from
          ensures VersionRow(to, k.version) in w.versions
        {
          assert k.(path := to).(path := from) == k;
          assert k.(path := to) in w'.segments;
        }
      }
    }
    if RenameSafe(w, from, to) {
      forall k | k in w'.segments
        ensures VersionRow(k.path, k.version) in w'.versions
      {
        assert k in w.segments || k.(path := from) in w.segments;
      }
    }
  }

  lemma FreeRename(w: World, w': World, from: Path, to: Path)
    requires Consistent(w) && from != to && !VersionClash(w.versions, from, to)
    requires w'.fs == MovedRow(w.fs, from, to) && w'.versions == MovedVersions(w.versions, from, to)
    requires w'.segments == MovedSegments(w.segments, from, to)
    ensures Consistent(w') <==> !(from in w.fs && to in w.fs)
  {
  }

  lemma MknodTables(w: World, p: Path, ok: bool)
    requires p !in w.fs
    ensures MknodOp(w, p, ok).fs == w.fs[p := w.clock]
    ensures MknodOp(w, p, ok).versions == w.versions + {VersionRow(p, w.clock)}
    ensures MknodOp(w, p, ok).segments == w.segments
  {
  }

  /** Two live files made in different seconds, one renamed over the other, as an editor does when it
      saves: the tables are left inconsistent. */
  lemma ReplacingBreaksTables(w: World, saved: Path, draft: Path, ok: bool)
    requires Consistent(w) && saved != draft && saved !in w.fs && draft !in w.fs
    requires forall r :: r in w.versions ==> r.path != saved && r.path != draft
    ensures
      var w1 := MknodOp(w, saved, ok);
      var w2 := MknodOp(w1.(clock := w.clock + 1), draft, ok);
      Consistent(w2) && !Consistent(RenameOp(w2, draft, saved, ok))
  {
    var w1 := MknodOp(w, saved, ok);
    MknodTables(w, saved, ok);
    MknodTables(w1.(clock := w.clock + 1), draft, ok);
    var w2 := MknodOp(w1.(clock := w.clock + 1), draft, ok);
    assert w2.fs == w.fs[saved := w.clock][draft := w.clock + 1];
    assert w2.versions == w.versions + {VersionRow(saved, w.clock), VersionRow(draft, w.clock + 1)};
    assert w2.segments == w.segments;
    assert !VersionClash(w2.versions, draft, saved);
    RenameConsistent(w2, draft, saved, ok);
  }

  // ---------- rename to a fresh target ----------

  /** No row of any table mentions the path. */
  ghost predicate FreshTarget(w: World, to: Path) {
    && to !in w.fs
    && (forall r :: r in w.versions ==> r.path != to)
    && (forall k :: k in w.segments ==> k.path != to)
  }

  lemma {:induction false} InjectionSize<A, B>(a: set<A>, b: set<B>, f: A -> B)
    requires forall x, y :: x in a && y in a && f(x) == f(y) ==> x == y
    requires b == set x | x in a :: f(x)
    ensures |b| == |a|
  {
    if a != {} {
      var x :| x in a;
      var a' := a - {x};
      var b' := b - {f(x)};
      assert b' == set y | y in a' :: f(y);
      InjectionSize(a', b', f);
    }
  }

  function Relabelled(p: Path, from: Path, to: Path): Path {
    if p == from then to else p
  }

  /** Renaming to a fresh target is a relabelling: every table keeps its number of rows, each row of
      `from` is found under `to` with the same version, segment and signature, and no other row
      changes. */
  lemma RenameRelabels(w: World, from: Path, to: Path, ok: bool)
    requires FreshTarget(w, to) && from != to
    ensures
      var w' := RenameOp(w, from, to, ok);
      && |w'.fs| == |w.fs| && |w'.versions| == |w.versions| && |w'.segments| == |w.segments|
      && (forall p :: p in w.fs ==> Relabelled(p, from, to) in w'.fs && w'.fs[Relabelled(p, from, to)] == w.fs[p])
      && (forall r :: r in w.versions ==> r.(path := Relabelled(r.path, from, to)) in w'.versions)
      && (forall k :: k in w.segments ==>
            var k' := k.(path := Relabelled(k.path, from, to)); k' in w'.segments && w'.segments[k'] == w.segments[k])
  {
    RenameOpTables(w, from, to, ok);
    RowsRelabelled(w.fs, from, to);
    VersionsRelabelled(w.versions, from, to);
    SegmentsRelabelled(w.segments, from, to);
  }

  lemma RowsRelabelled(fs: map<Path, nat>, from: Path, to: Path)
    requires from != to && to !in fs
    ensures |MovedRow(fs, from, to)| == |fs|
    ensures forall p :: p in fs ==> Relabelled(p, from, to) in MovedRow(fs, from, to)
    ensures forall p :: p in fs ==> MovedRow(fs, from, to)[Relabelled(p, from, to)] == fs[p]
  {
    if from in fs {
      assert MovedRow(fs, from, to).Keys == fs.Keys - {from} + {to};
      assert |fs.Keys - {from}| == |fs.Keys| - 1;
      assert |MovedRow(fs, from, to).Keys| == |fs.Keys|;
    }
  }

  lemma VersionsRelabelled(versions: set<VersionRow>, from: Path, to: Path)
    requires from != to && forall r :: r in versions ==> r.path != to
    ensures |MovedVersions(versions, from, to)| == |versions|
    ensures forall r :: r in versions ==> r.(path := Relabelled(r.path, from, to)) in MovedVersions(versions, from, to)
  {
    var move := (r: VersionRow) => r.(path := Relabelled(r.path, from, to));
    var moved := MovedVersions(versions, from, to);
    assert !VersionClash(versions, from, to);
    forall r | r in versions
      ensures move(r) in moved
    {
      assert r.path == from ==> r.(path := to).(path := from) == r;
    }
    forall r | r in moved
      ensures exists x :: x in versions && move(x) == r
    {
      var x := if r.path == to then r.(path := from) else r;
      assert x in versions && move(x) == r;
    }
    assert moved == set x | x in versions :: move(x);
    InjectionSize(versions, moved, move);
  }

  lemma SegmentsRelabelled(segments: map<SegKey, Signature>, from: Path, to: Path)
    requires from != to && forall k :: k in segments ==> k.path != to
    ensures |MovedSegments(segments, from, to)| == |segments|
    ensures forall k :: k in segments ==>
      var k' := k.(path := Relabelled(k.path, from, to));
      k' in MovedSegments(segments, from, to) && MovedSegments(segments, from, to)[k'] == segments[k]
  {
    var move := (k: SegKey) => k.(path := Relabelled(k.path, from, to));
    var moved := MovedSegments(segments, from, to);
    assert !SegmentClash(segments, from, to);
    forall k | k in segments
      ensures move(k) in moved && moved[move(k)] == segments[k]
    {
      assert k.path == from ==> k.(path := to).(path := from) == k;
    }
    MovedKeys(segments, from, to);
    InjectionSize(segments.Keys, moved.Keys, move);
  }

  lemma MovedKeys(segments: map<SegKey, Signature>, from: Path, to: Path)
    requires from != to && forall k :: k in segments ==> k.path != to
    ensures MovedSegments(segments, from, to).Keys == set x | x in segments.Keys :: x.(path := Relabelled(x.path, from, to))
  {
  }

  /** Renaming back restores all three tables. */
  lemma RenameBack(w: World, there: World, back: World, from: Path, to: Path, ok: bool)
    requires FreshTarget(w, to)
    requires there == RenameOp(w, from, to, ok) && back == RenameOp(there, to, from, ok)
    ensures back.fs == w.fs && back.versions == w.versions && back.segments == w.segments
  {
    RenameOpTables(w, from, to, ok);
    RenameOpTables(there, to, from, ok);
    TablesBack(w, there, back, from, to);
  }

  lemma TablesBack(w: World, there: World, back: World, from: Path, to: Path)
    requires FreshTarget(w, to)
    requires there.fs == MovedRow(w.fs, from, to) && back.fs == MovedRow(there.fs, to, from)
    requires there.versions == MovedVersions(w.versions, from, to) && back.versions == MovedVersions(there.versions, to, from)
    requires there.segments == MovedSegments(w.segments, from, to) && back.segments == MovedSegments(there.segments, to, from)
    ensures back.fs == w.fs && back.versions == w.versions && back.segments == w.segments
  {
    if from != to {
      VersionsBack(w.versions, from, to);
      SegmentsBack(w.segments, from, to);
    }
  }

  lemma VersionsBack(versions: set<VersionRow>, from: Path, to: Path)
    requires from != to && forall r :: r in versions ==> r.path != to
    ensures MovedVersions(MovedVersions(versions, from, to), to, from) == versions
  {
  }

  lemma SegmentsBack(segments: map<SegKey, Signature>, from: Path, to: Path)
    requires from != to && forall k :: k in segments ==> k.path != to
    ensures MovedSegments(MovedSegments(segments, from, to), to, from) == segments
  {
    var there := MovedSegments(segments, from, to);
    assert !SegmentClash(segments, from, to) && !SegmentClash(there, to, from);
    var back := MovedSegments(there, to, from);
    forall k
      ensures k in back <==> k in segments
      ensures k in segments ==> back[k] == segments[k]
    {
      assert k.path == from ==> k.(path := to).(path := from) == k;
    }
  }

  // ---------- whole runs: consistency ----------

  /** The first update of a rename of consistent tables is done; `safe` says whether the rename was. */
  ghost predicate RowMoved(w: World, from: Path, to: Path, safe: bool) {
    exists w0: World :: Consistent(w0) && (RenameSafe(w0, from, to) <==> safe)
      && w.fs == MovedRow(w0.fs, from, to) && w.versions == w0.versions && w.segments == w0.segments
  }

  /** The first two are. */
  ghost predicate VersionsMoved(w: World, from: Path, to: Path, safe: bool) {
    exists w0: World :: Consistent(w0) && (RenameSafe(w0, from, to) <==> safe)
      && w.fs == MovedRow(w0.fs, from, to) && w.versions == MovedVersions(w0.versions, from, to) && w.segments == w0.segments
  }

  lemma SecondUpdate(w: World, from: Path, to: Path, safe: bool)
    requires RowMoved(w, from, to, safe)
    ensures VersionsMoved(MoveVersions(w, from, to), from, to, safe)
  {
    var w0: World :| Consistent(w0) && (RenameSafe(w0, from, to) <==> safe)
      && w.fs == MovedRow(w0.fs, from, to) && w.versions == w0.versions && w.segments == w0.segments;
    assert MoveVersions(w, from, to).versions == MovedVersions(w0.versions, from, to);
  }

  lemma ThirdUpdate(w: World, from: Path, to: Path, safe: bool)
    requires VersionsMoved(w, from, to, safe)
    ensures Consistent(MoveSegments(w, from, to)) <==> safe
  {
    var w0: World :| Consistent(w0) && (RenameSafe(w0, from, to) <==> safe)
      && w.fs == MovedRow(w0.fs, from, to) && w.versions == MovedVersions(w0.versions, from, to) && w.segments == w0.segments;
    RenameTables(w0, MoveSegments(w, from, to), from, to);
  }

  /** Agreement of the tables in every state, with what each half-done operation still owes. */
  ghost predicate Agreement(m: Machine) {
    match m.publisher
    case MknodRow(p, v) => Consistent(m.w) && VersionRow(p, v) in m.w.versions
    case ReleaseVersion(p, v) => Consistent(InsertVersion(m.w, p, v))
    case RenameVersions(from, to) => RowMoved(m.w, from, to, true)
    case RenameSegments(from, to) => VersionsMoved(m.w, from, to, true)
    case _ => Consistent(m.w)
  }

  /** A rename meets the condition of `RenameConsistent` when it is issued. */
  ghost predicate SafeRename(m: Machine, a: Action) {
    a.Rename? && m.publisher.Idle? ==> RenameSafe(m.w, a.from, a.to)
  }

  ghost predicate SafeRun(m: Machine, actions: seq<Action>)
    decreases |actions|
  {
    actions == [] || (SafeRename(m, actions[0]) && SafeRun(Next(m, actions[0]), actions[1..]))
  }

  lemma PublisherAgreement(m: Machine, ok: bool)
    requires Agreement(m) && Invariant(m) && !m.publisher.Idle?
    ensures Agreement(PublisherEffect(m, ok))
  {
    match m.publisher
    case RenameVersions(from, to) => SecondUpdate(m.w, from, to, true);
    case RenameSegments(from, to) => ThirdUpdate(m.w, from, to, true);
    case _ =>
  }

  lemma SameTables(m: Machine, m': Machine)
    requires m'.publisher == m.publisher
    requires m'.w.fs == m.w.fs && m'.w.versions == m.w.versions && m'.w.segments == m.w.segments
    ensures Agreement(m) ==> Agreement(m')
    ensures Latest(m) ==> Latest(m')
  {
  }

  lemma RenameRowAgreement(m: Machine, from: Path, to: Path)
    requires Agreement(m) && m.publisher.Idle? && RenameSafe(m.w, from, to)
    ensures Agreement(Next(m, Rename(from, to)))
  {
    assert RowMoved(MoveRow(m.w, from, to), from, to, true);
  }

  lemma OtherAgreement(m: Machine, a: Action)
    requires Agreement(m) && Enabled(m, a) && !a.Rename? && !a.PublisherStep?
    ensures Agreement(Effect(m, a))
  {
    if !a.Mknod? && !a.Unlink? && !a.Release? {
      SameTables(m, Effect(m, a));
    }
  }

  /** With only safe renames, the agreement survives every step. */
  lemma NextAgreement(m: Machine, a: Action)
    requires Agreement(m) && Invariant(m) && SafeRename(m, a)
    ensures Agreement(Next(m, a))
  {
    if Enabled(m, a) {
      match a
      case Rename(from, to) => RenameRowAgreement(m, from, to);
      case PublisherStep(ok) => PublisherAgreement(m, ok);
      case _ => OtherAgreement(m, a);
    }
  }

  lemma {:induction false} RunAgreement(m: Machine, actions: seq<Action>)
    requires Agreement(m) && Invariant(m) && SafeRun(m, actions)
    ensures Agreement(Run(m, actions)) && Invariant(Run(m, actions))
    decreases |actions|
  {
    if actions != [] {
      NextInvariant(m, actions[0]);
      NextAgreement(m, actions[0]);
      RunAgreement(Next(m, actions[0]), actions[1..]);
    }
  }

  /** Between operations of a run whose renames are all safe when they are issued, colliding ones included,
      every current version and the version of every signed segment is recorded. */
  lemma TablesAgree(start: Machine, actions: seq<Action>, m: Machine)
    requires Reachable(start, actions, m) && SafeRun(start, actions)
    ensures Agreement(m) && Invariant(m)
    ensures m.publisher.Idle? ==> Consistent(m.w)
  {
    InitialInvariant(start);
    RunAgreement(start, actions);
  }

  /** The tables are consistent in every state of the run that lies between two operations. */
  ghost predicate ConsistentBetween(m: Machine, actions: seq<Action>)
    decreases |actions|
  {
    && (m.publisher.Idle? ==> Consistent(m.w))
    && (actions == [] || ConsistentBetween(Next(m, actions[0]), actions[1..]))
  }

  /** Inside a rename that was not safe. */
  ghost predicate Doomed(m: Machine) {
    match m.publisher
    case RenameVersions(from, to) => RowMoved(m.w, from, to, false)
    case RenameSegments(from, to) => VersionsMoved(m.w, from, to, false)
    case RenameFile(_, _) => !Consistent(m.w)
    case _ => false
  }

  lemma DoomedStep(m: Machine, a: Action)
    requires Doomed(m)
    ensures Doomed(Next(m, a)) || (Next(m, a).publisher.Idle? && !Consistent(Next(m, a).w))
  {
    if !a.PublisherStep? {
      DoomedMeanwhile(m, a);
    } else if m.publisher.RenameVersions? {
      SecondUpdate(m.w, m.publisher.from, m.publisher.to, false);
    } else if m.publisher.RenameSegments? {
      ThirdUpdate(m.w, m.publisher.from, m.publisher.to, false);
    }
  }

  lemma DoomedMeanwhile(m: Machine, a: Action)
    requires Doomed(m) && !a.PublisherStep?
    ensures Doomed(Next(m, a))
  {
    var w, w' := m.w, Next(m, a).w;
    assert Next(m, a).publisher == m.publisher;
    assert w'.fs == w.fs && w'.versions == w.versions && w'.segments == w.segments;
  }

  lemma {:induction false} DoomedRun(m: Machine, actions: seq<Action>)
    requires Doomed(m) && Run(m, actions).publisher.Idle?
    ensures !ConsistentBetween(m, actions)
    decreases |actions|
  {
    var m1 := Next(m, actions[0]);
    DoomedStep(m, actions[0]);
    if Doomed(m1) {
      DoomedRun(m1, actions[1..]);
    }
  }

  lemma UnsafeIsDoomed(m: Machine, a: Action)
    requires Agreement(m) && !SafeRename(m, a)
    ensures Doomed(Next(m, a))
  {
    assert RowMoved(MoveRow(m.w, a.from, a.to), a.from, a.to, false);
  }

  lemma {:induction false} SafeExactly(m: Machine, actions: seq<Action>)
    requires Agreement(m) && Invariant(m) && Run(m, actions).publisher.Idle?
    ensures ConsistentBetween(m, actions) <==> SafeRun(m, actions)
    decreases |actions|
  {
    if actions != [] {
      if SafeRename(m, actions[0]) {
        NextInvariant(m, actions[0]);
        NextAgreement(m, actions[0]);
        SafeExactly(Next(m, actions[0]), actions[1..]);
      } else {
        UnsafeIsDoomed(m, actions[0]);
        DoomedRun(Next(m, actions[0]), actions[1..]);
      }
    }
  }

  /** A run that ends between operations keeps the tables consistent between all its operations if and only
      if each of its renames is safe when it is issued. */
  lemma ConsistentExactlyIfSafe(start: Machine, actions: seq<Action>, m: Machine)
    requires Reachable(start, actions, m) && m.publisher.Idle?
    ensures ConsistentBetween(start, actions) <==> SafeRun(start, actions)
  {
    InitialInvariant(start);
    SafeExactly(start, actions);
  }

  // ---------- whole runs: the latest version ----------

  /** The current version of a live path is the latest recorded, with what half-done operations owe. */
  ghost predicate Latest(m: Machine) {
    && Newest(m.w)
    && match m.publisher
       case MknodVersion(p, v) => forall r :: r in m.w.versions && r.path == p ==> r.version <= v
       case MknodRow(p, v) => forall r :: r in m.w.versions && r.path == p ==> r.version <= v
       case ReleaseStamp(p, v) => forall r :: r in m.w.versions && r.path == p ==> r.version <= v
       case RenameVersions(from, to) =>
         && from != to && from !in m.w.fs && (forall r :: r in m.w.versions ==> r.path != to)
         && (to in m.w.fs ==> forall r :: r in m.w.versions && r.path == from ==> r.version <= m.w.fs[to])
       case _ => true
  }

  /** Every rename of the run goes to a fresh target. */
  ghost predicate FreshRename(m: Machine, a: Action) {
    a.Rename? && m.publisher.Idle? ==> FreshTarget(m.w, a.to) && a.from != a.to
  }

  ghost predicate FreshRun(m: Machine, actions: seq<Action>)
    decreases |actions|
  {
    actions == [] || (FreshRename(m, actions[0]) && FreshRun(Next(m, actions[0]), actions[1..]))
  }

  /** Fresh renames are safe. */
  lemma {:induction false} FreshIsSafe(m: Machine, actions: seq<Action>)
    requires FreshRun(m, actions)
    ensures SafeRun(m, actions)
    decreases |actions|
  {
    if actions != [] {
      FreshIsSafe(Next(m, actions[0]), actions[1..]);
    }
  }

  lemma RenameVersionsLatest(m: Machine, ok: bool)
    requires Latest(m) && m.publisher.RenameVersions?
    ensures Latest(PublisherEffect(m, ok))
  {
    var RenameVersions(from, to) := m.publisher;
    var w' := MoveVersions(m.w, from, to);
    assert w'.fs == m.w.fs && w'.versions == MovedVersions(m.w.versions, from, to);
    assert !VersionClash(m.w.versions, from, to);
    forall r | r in w'.versions && r.path in w'.fs
      ensures r.version <= w'.fs[r.path]
    {
      assert r.path == to ==> r.(path := from) in m.w.versions;
    }
  }

  lemma PublisherLatest(m: Machine, ok: bool)
    requires Latest(m) && ActivityOk(m) && !m.publisher.Idle?
    ensures Latest(PublisherEffect(m, ok))
  {
    match m.publisher
    case RenameVersions(_, _) => RenameVersionsLatest(m, ok);
    case _ =>
  }

  lemma NextLatest(m: Machine, a: Action)
    requires Latest(m) && Invariant(m) && FreshRename(m, a)
    ensures Latest(Next(m, a))
  {
    if Enabled(m, a) {
      match a
      case Mknod(_) =>
      case Unlink(_) =>
      case Release(_, _) =>
      case Rename(_, _) =>
      case PublisherStep(ok) => PublisherLatest(m, ok);
      case _ => SameTables(m, Next(m, a));
    }
  }

  lemma {:induction false} RunLatest(m: Machine, actions: seq<Action>)
    requires Latest(m) && Invariant(m) && FreshRun(m, actions)
    ensures Latest(Run(m, actions))
    decreases |actions|
  {
    if actions != [] {
      NextInvariant(m, actions[0]);
      NextLatest(m, actions[0]);
      RunLatest(Next(m, actions[0]), actions[1..]);
    }
  }

  /** In every state of a run whose renames all go to fresh targets, no recorded version of a live path is
      later than its current one, not even across an unlink and a new creation, which leave the old
      version rows in place. */
  lemma LatestRecorded(start: Machine, actions: seq<Action>, m: Machine)
    requires Reachable(start, actions, m) && FreshRun(start, actions)
    ensures Newest(m.w) && Latest(m)
  {
    InitialInvariant(start);
    RunLatest(start, actions);
  }

  // ---------- versions only grow ----------

  /** The action renames a path with an older version onto `p`, which is free. */
  ghost predicate OlderOnto(m: Machine, a: Action, p: Path, x: nat) {
    a.Rename? && m.publisher.Idle? && a.to == p && p !in m.w.fs && a.from in m.w.fs && m.w.fs[a.from] < x
  }

  ghost predicate NoOlderOnto(m: Machine, actions: seq<Action>, p: Path, x: nat)
    decreases |actions|
  {
    actions == [] || (!OlderOnto(m, actions[0], p, x) && NoOlderOnto(Next(m, actions[0]), actions[1..], p, x))
  }

  /** In no state of the run has `p` a row with an older version. */
  ghost predicate NeverBelow(m: Machine, actions: seq<Action>, p: Path, x: nat)
    decreases |actions|
  {
    && (p in m.w.fs ==> m.w.fs[p] >= x)
    && (actions == [] || NeverBelow(Next(m, actions[0]), actions[1..], p, x))
  }

  /** Neither the row of `p` nor a version that is about to be put into it is older than `x`. */
  ghost predicate Floor(m: Machine, p: Path, x: nat) {
    && x <= m.w.clock && (p in m.w.fs ==> m.w.fs[p] >= x)
    && match m.publisher
       case MknodVersion(q, v) => q == p ==> v >= x
       case MknodRow(q, v) => q == p ==> v >= x
       case ReleaseStamp(q, v) => q == p ==> v >= x
       case _ => true
  }

  lemma FloorStep(m: Machine, a: Action, p: Path, x: nat)
    requires Floor(m, p, x) && !OlderOnto(m, a, p, x)
    ensures Floor(Next(m, a), p, x)
  {
  }

  lemma OlderOntoFalls(m: Machine, a: Action, p: Path, x: nat)
    requires OlderOnto(m, a, p, x)
    ensures p in Next(m, a).w.fs && Next(m, a).w.fs[p] < x
  {
  }

  lemma {:induction false} FloorRun(m: Machine, actions: seq<Action>, p: Path, x: nat)
    requires Floor(m, p, x)
    ensures NeverBelow(m, actions, p, x) <==> NoOlderOnto(m, actions, p, x)
    ensures NoOlderOnto(m, actions, p, x) ==> Floor(Run(m, actions), p, x)
    decreases |actions|
  {
    if actions != [] {
      var m1 := Next(m, actions[0]);
      if OlderOnto(m, actions[0], p, x) {
        OlderOntoFalls(m, actions[0], p, x);
        assert !NeverBelow(m1, actions[1..], p, x);
      } else {
        FloorStep(m, actions[0], p, x);
        FloorRun(m1, actions[1..], p, x);
      }
    }
  }

  /** From any reachable state on, inside operations too, the version of a live path never falls below what
      it is then, across unlinks, new creations and colliding renames, if and only if no rename moves
      an older version onto the path while it is free. */
  lemma VersionsGrow(start: Machine, before: seq<Action>, m: Machine, after: seq<Action>, p: Path)
    requires Reachable(start, before, m) && p in m.w.fs
    ensures NeverBelow(m, after, p, m.w.fs[p]) <==> NoOlderOnto(m, after, p, m.w.fs[p])
  {
    InitialInvariant(start);
    RunInvariant(start, before);
    FloorRun(m, after, p, m.w.fs[p]);
  }

  predicate NotATarget(actions: seq<Action>, p: Path) {
    forall i :: 0 <= i < |actions| && actions[i].Rename? && actions[i].to == p ==> actions[i].from == p
  }

  lemma {:induction false} NotATargetNoOlder(m: Machine, actions: seq<Action>, p: Path, x: nat)
    requires NotATarget(actions, p)
    ensures NoOlderOnto(m, actions, p, x)
    decreases |actions|
  {
    if actions != [] {
      assert !OlderOnto(m, actions[0], p, x);
      NotATargetNoOlder(Next(m, actions[0]), actions[1..], p, x);
    }
  }

  /** What is enough: nothing else is renamed to the path. */
  lemma VersionsGrowUntargeted(start: Machine, before: seq<Action>, m: Machine, after: seq<Action>, p: Path)
    requires Reachable(start, before, m) && p in m.w.fs && NotATarget(after, p)
    ensures p in Run(m, after).w.fs ==> Run(m, after).w.fs[p] >= m.w.fs[p]
  {
    InitialInvariant(start);
    RunInvariant(start, before);
    FloorRun(m, after, p, m.w.fs[p]);
    NotATargetNoOlder(m, after, p, m.w.fs[p]);
  }

  lemma MovedAway(w: World, from: Path, to: Path, ok: bool)
    requires FreshTarget(w, to) && from != to
    ensures FreshTarget(RenameOp(w, from, to, ok), from)
    ensures RenameOp(w, from, to, ok).fs == MovedRow(w.fs, from, to)
  {
    RenameOpTables(w, from, to, ok);
    assert !VersionClash(w.versions, from, to) && !SegmentClash(w.segments, from, to);
  }

  lemma RenameStepsFresh(w: World, from: Path, to: Path, ok: bool)
    requires FreshTarget(w, to) && from != to
    ensures FreshRun(Alone(w), RenameSteps(from, to, ok))
  {
    var step := PublisherStep(true);
    assert RenameSteps(from, to, ok)[1..] == [step, step, PublisherStep(ok)];
    NoRenames(Next(Alone(w), Rename(from, to)), [step, step, PublisherStep(ok)]);
  }

  lemma {:induction false} NoRenames(m: Machine, actions: seq<Action>)
    requires forall i :: 0 <= i < |actions| ==> !actions[i].Rename?
    ensures FreshRun(m, actions)
    decreases |actions|
  {
    if actions != [] {
      assert !actions[0].Rename?;
      NoRenames(Next(m, actions[0]), actions[1..]);
    }
  }

  lemma {:induction false} FreshAppend(m: Machine, a: seq<Action>, b: seq<Action>)
    ensures FreshRun(m, a + b) <==> FreshRun(m, a) && FreshRun(Run(m, a), b)
    decreases |a|
  {
    if a == [] {
      assert a + b == b;
    } else {
      assert (a + b)[1..] == a[1..] + b;
      FreshAppend(Next(m, a[0]), a[1..], b);
    }
  }

  /** The condition is needed even where every rename goes to a fresh target. Make `p` and later `q`, move `q`
      out of the way and `p` to its place: the version of `q` falls from the later time to the earlier. */
  lemma VersionFalls(start: Machine, p: Path, q: Path, aside: Path, seconds: nat, ok: bool)
    returns (before: seq<Action>, m: Machine, after: seq<Action>)
    requires Initial(start) && start.w.clock + seconds < INT32_LIMIT
    requires p != q && p != aside && q != aside
    ensures Reachable(start, before, m) && FreshRun(start, before) && FreshRun(m, after)
    ensures q in m.w.fs && m.w.fs[q] == start.w.clock + seconds
    ensures q in Run(m, after).w.fs && Run(m, after).w.fs[q] == start.w.clock
  {
    before, m := MadeLater(start, p, q, seconds, ok);
    after := RenameSteps(q, aside, ok) + RenameSteps(p, q, ok);
    SwapAside(m.w, p, q, aside, ok);
  }

  lemma MadeLater(start: Machine, p: Path, q: Path, seconds: nat, ok: bool) returns (before: seq<Action>, m: Machine)
    requires Initial(start) && start.w.clock + seconds < INT32_LIMIT && p != q
    ensures Reachable(start, before, m) && FreshRun(start, before) && m == Alone(m.w)
    ensures m.w.fs == map[p := start.w.clock, q := start.w.clock + seconds] && m.w.segments == map[]
    ensures m.w.versions == {VersionRow(p, start.w.clock), VersionRow(q, start.w.clock + seconds)}
  {
    var w1 := MknodOp(start.w, p, ok);
    var later := w1.(clock := start.w.clock + seconds);
    MknodTables(start.w, p, ok);
    MknodTables(later, q, ok);
    before := MknodSteps(p, ok) + ([Tick(seconds)] + MknodSteps(q, ok));
    MknodAlone(start.w, p, ok);
    MknodAlone(later, q, ok);
    RunAppend(start, MknodSteps(p, ok), [Tick(seconds)] + MknodSteps(q, ok));
    assert Next(Alone(w1), Tick(seconds)) == Alone(later);
    RunCons(Alone(w1), Tick(seconds), MknodSteps(q, ok));
    NoRenames(start, before);
    m := Alone(MknodOp(later, q, ok));
  }

  lemma SwapAside(w: World, p: Path, q: Path, aside: Path, ok: bool)
    requires FreshTarget(w, aside) && p != q && p != aside && q != aside && p in w.fs && q in w.fs
    ensures FreshRun(Alone(w), RenameSteps(q, aside, ok) + RenameSteps(p, q, ok))
    ensures
      var w' := Run(Alone(w), RenameSteps(q, aside, ok) + RenameSteps(p, q, ok)).w;
      q in w'.fs && w'.fs[q] == w.fs[p]
  {
    var w1 := RenameOp(w, q, aside, ok);
    MovedAway(w, q, aside, ok);
    RenameAlone(w, q, aside, ok);
    RenameStepsFresh(w, q, aside, ok);
    MovedAway(w1, p, q, ok);
    RenameAlone(w1, p, q, ok);
    RenameStepsFresh(w1, p, q, ok);
    RunAppend(Alone(w), RenameSteps(q, aside, ok), RenameSteps(p, q, ok));
    FreshAppend(Alone(w), RenameSteps(q, aside, ok), RenameSteps(p, q, ok));
  }

  // ---------- metadata ----------

  /** In runs with fresh renames the current version of a live path is missing from file_versions at exactly two
      points: inside a rename to the path, between the first two updates, and inside a release in a
      later second than any recorded version, between its first update and its insert. */
  lemma CurrentVersionRecorded(start: Machine, actions: seq<Action>, m: Machine, p: Path)
    requires Reachable(start, actions, m) && FreshRun(start, actions) && p in m.w.fs
    ensures VersionRow(p, m.w.fs[p]) !in m.w.versions <==>
      || (m.publisher.RenameVersions? && m.publisher.to == p)
      || (m.publisher.ReleaseVersion? && m.publisher.path == p
          && forall r :: r in m.w.versions && r.path == p ==> r.version < m.publisher.version)
  {
    FreshIsSafe(start, actions);
    TablesAgree(start, actions, m);
    LatestRecorded(start, actions, m);
    match m.publisher
    case RenameVersions(from, to) =>
      if p != to {
        OtherRowRecorded(m.w, from, to, p);
      }
    case ReleaseVersion(q, v) =>
      assert InsertVersion(m.w, q, v).fs == m.w.fs;
    case _ =>
  }

  lemma OtherRowRecorded(w: World, from: Path, to: Path, p: Path)
    requires RowMoved(w, from, to, true) && p in w.fs && p != to
    ensures VersionRow(p, w.fs[p]) in w.versions
  {
    var w0: World :| Consistent(w0) && RenameSafe(w0, from, to)
      && w.fs == MovedRow(w0.fs, from, to) && w.versions == w0.versions && w.segments == w0.segments;
    assert p in w0.fs && w0.fs[p] == w.fs[p];
  }

  /** The rows of `p` in file_versions are moved away. */
  predicate MovesVersionsOf(m: Machine, a: Action, p: Path) {
    a.PublisherStep? && m.publisher.RenameVersions? && m.publisher.from == p
  }

  predicate VersionsStay(m: Machine, actions: seq<Action>, p: Path)
    decreases |actions|
  {
    actions == [] || (!MovesVersionsOf(m, actions[0], p) && VersionsStay(Next(m, actions[0]), actions[1..], p))
  }

  lemma VersionRowStays(m: Machine, a: Action, p: Path, v: nat)
    requires VersionRow(p, v) in m.w.versions && !MovesVersionsOf(m, a, p)
    ensures VersionRow(p, v) in Next(m, a).w.versions
  {
    if Enabled(m, a) {
      match a
      case PublisherStep(ok) =>
        if m.publisher.RenameVersions? {
          assert VersionRow(p, v) in MovedVersions(m.w.versions, m.publisher.from, m.publisher.to);
        }
      case ServerStep(around) => assert ServerEffect(m, around).w == m.w;
      case _ => assert Effect(m, a).w.versions == m.w.versions;
    }
  }

  lemma {:induction false} VersionRowStaysInRun(m: Machine, actions: seq<Action>, p: Path, v: nat)
    requires VersionRow(p, v) in m.w.versions && VersionsStay(m, actions, p)
    ensures VersionRow(p, v) in Run(m, actions).w.versions
    decreases |actions|
  {
    if actions != [] {
      VersionRowStays(m, actions[0], p, v);
      VersionRowStaysInRun(Next(m, actions[0]), actions[1..], p, v);
    }
  }

  predicate AsksForInfo(prefix: Name, name: Name, p: Path) {
    NoEmptyComponent(name) && Parse(PathText(prefix), name).Request? && Parse(PathText(prefix), name).kind == 1
    && Parse(PathText(prefix), name).path == p
  }

  lemma InfoSelected(m: Machine, name: Name, p: Path)
    requires m.server.Waiting? && p in m.w.fs && AsksForInfo(m.w.prefix, name, p)
    ensures Next(m, Interest(name)) == m.(server := HaveCurrent(p, m.w.fs[p]))
  {
    assert Receive(m.w, name) == HaveCurrent(p, m.w.fs[p]);
  }

  /** A metadata request for a live path that comes between operations of a run with safe renames is answered
      with the version of that moment, whatever the publisher does meanwhile, as long as it does not move
      the recorded versions of the path away before the server has looked; a file need not be there.
      Size and segment count are those of the file at the time of the answer. */
  lemma MetadataAnswered(start: Machine, actions: seq<Action>, m: Machine, name: Name, p: Path,
                         a: seq<Action>, around1: Surroundings, b: seq<Action>, around2: Surroundings)
    requires Reachable(start, actions, m) && SafeRun(start, actions)
    requires m.publisher.Idle? && m.server.Waiting? && p in m.w.fs && AsksForInfo(m.w.prefix, name, p)
    requires NoServerStep(a) && NoServerStep(b) && VersionsStay(Next(m, Interest(name)), a, p)
    ensures
      var v, end := m.w.fs[p], Run(m, Exchange(name, a, around1, b, around2));
      var size := SizeOf(end.w, p, around2.garbage);
      && end.sent == m.sent + [Info(MetaName(m.w.prefix, p, v), p, size, TotalSegments(size), v)]
      && (p in end.w.files ==> size == |end.w.files[p]| && Reassembled(end.w.files[p], TotalSegments(size)) == end.w.files[p])
  {
    TablesAgree(start, actions, m);
    InfoExchange(m, name, p, a, around1, b, around2);
  }

  lemma InfoExchange(m: Machine, name: Name, p: Path, a: seq<Action>, around1: Surroundings, b: seq<Action>, around2: Surroundings)
    requires Invariant(m) && m.server.Waiting? && p in m.w.fs && AsksForInfo(m.w.prefix, name, p)
    requires VersionRow(p, m.w.fs[p]) in m.w.versions
    requires NoServerStep(a) && NoServerStep(b) && VersionsStay(Next(m, Interest(name)), a, p)
    ensures
      var v, end := m.w.fs[p], Run(m, Exchange(name, a, around1, b, around2));
      var size := SizeOf(end.w, p, around2.garbage);
      && end.sent == m.sent + [Info(MetaName(m.w.prefix, p, v), p, size, TotalSegments(size), v)]
      && (p in end.w.files ==> size == |end.w.files[p]| && Reassembled(end.w.files[p], TotalSegments(size)) == end.w.files[p])
  {
    VersionSelected(m, name, p, a, around1);
    var m2 := Next(Run(Next(m, Interest(name)), a), ServerStep(around1));
    RunExchange(m, name, a, around1, b, around2);
    HeldMeanwhile(m2, b);
    RunInvariant(m, Exchange(name, a, around1, b, around2));
    InfoSent(Run(m2, b), p, m.w.fs[p], around2);
    CoversIfThere(Run(m2, b).w, p, around2.garbage);
  }

  lemma InfoSent(m: Machine, p: Path, v: nat, around: Surroundings)
    requires m.server == HaveVersion(p, v)
    ensures
      var size := SizeOf(m.w, p, around.garbage);
      Next(m, ServerStep(around)) == m.(server := Waiting,
        sent := m.sent + [Info(MetaName(m.w.prefix, p, v), p, size, TotalSegments(size), v)])
  {
  }

  lemma CoversIfThere(w: World, p: Path, garbage: int)
    ensures p in w.files ==> (SizeOf(w, p, garbage) == |w.files[p]|
      && Reassembled(w.files[p], TotalSegments(SizeOf(w, p, garbage))) == w.files[p])
  {
    if p in w.files {
      SegmentsCoverFile(w.files[p]);
    }
  }

  lemma VersionSelected(m: Machine, name: Name, p: Path, a: seq<Action>, around: Surroundings)
    requires m.server.Waiting? && p in m.w.fs && AsksForInfo(m.w.prefix, name, p)
    requires VersionRow(p, m.w.fs[p]) in m.w.versions && NoServerStep(a) && VersionsStay(Next(m, Interest(name)), a, p)
    ensures
      var m2 := Next(Run(Next(m, Interest(name)), a), ServerStep(around));
      m2.server == HaveVersion(p, m.w.fs[p]) && m2.sent == m.sent
  {
    InfoSelected(m, name, p);
    HeldMeanwhile(Next(m, Interest(name)), a);
    VersionRowStaysInRun(Next(m, Interest(name)), a, p, m.w.fs[p]);
  }

  /** A request of that kind for a path without a row is answered, after one more step, with the page of the directory
      there, named by its path, marker and time, or not at all. */
  lemma PageAnswered(m: Machine, name: Name, p: Path, a: seq<Action>, around: Surroundings)
    requires m.server.Waiting? && p !in m.w.fs && AsksForInfo(m.w.prefix, name, p) && NoServerStep(a)
    requires Invariant(m)
    ensures
      var end := Run(m, [Interest(name)] + (a + [ServerStep(around)]));
      && end.server.Waiting?
      && end.sent == m.sent + match around.directory
                              case None => []
                              case Some(directory) =>
                                [Page(m.w.prefix + NameFromUri(p) + [DIR_COMPONENT, VersionComponent(directory.modified)],
                                      Listing.PageOf(Listing.QueryPath(p), directory.entries))]
  {
    var m1 := Next(m, Interest(name));
    assert Receive(m.w, name) == NoRow(p);
    NextInvariant(m, Interest(name));
    RunCons(m, Interest(name), a + [ServerStep(around)]);
    RunAppend(m1, a, [ServerStep(around)]);
    RunOne(Run(m1, a), ServerStep(around));
    HeldMeanwhile(m1, a);
    RunInvariant(m1, a);
  }

  /** At a point where the current version is unrecorded a metadata request is not answered. */
  lemma UnrecordedUnanswered(m: Machine, name: Name, p: Path, around: Surroundings)
    requires m.server.Waiting? && p in m.w.fs && AsksForInfo(m.w.prefix, name, p)
    requires VersionRow(p, m.w.fs[p]) !in m.w.versions
    ensures Run(m, [Interest(name), ServerStep(around)]) == m
  {
    InfoSelected(m, name, p);
    assert [Interest(name), ServerStep(around)] == [Interest(name)] + [ServerStep(around)];
    RunCons(m, Interest(name), [ServerStep(around)]);
    RunOne(Next(m, Interest(name)), ServerStep(around));
  }

  /** A run to the one point: a request between the first two updates of a fresh rename. */
  lemma UnansweredInRename(start: Machine, from: Path, to: Path, name: Name, around: Surroundings)
    returns (actions: seq<Action>, m: Machine)
    requires Initial(start) && from != to && AsksForInfo(start.w.prefix, name, to)
    ensures Reachable(start, actions, m) && FreshRun(start, actions)
    ensures to in m.w.fs && m.publisher == RenameVersions(from, to) && m.sent == []
    ensures Run(m, [Interest(name), ServerStep(around)]) == m
  {
    var w := MknodOp(start.w, from, true);
    MknodTables(start.w, from, true);
    MknodAlone(start.w, from, true);
    actions := MknodSteps(from, true) + [Rename(from, to)];
    RunAppend(start, MknodSteps(from, true), [Rename(from, to)]);
    RunOne(Alone(w), Rename(from, to));
    m := Alone(MoveRow(w, from, to)).(publisher := RenameVersions(from, to));
    assert m == Next(Alone(w), Rename(from, to));
    NoRenames(start, MknodSteps(from, true));
    assert FreshRun(Alone(w), [Rename(from, to)]) by {
      assert [Rename(from, to)][1..] == [];
    }
    FreshAppend(start, MknodSteps(from, true), [Rename(from, to)]);
    UnrecordedUnanswered(m, name, to, around);
  }

  /** And to the other: a request between the first update of a release in a later second and its insert. */
  lemma UnansweredInRelease(start: Machine, p: Path, name: Name, around: Surroundings)
    returns (actions: seq<Action>, m: Machine)
    requires Initial(start) && start.w.clock + 1 < INT32_LIMIT && AsksForInfo(start.w.prefix, name, p)
    ensures Reachable(start, actions, m) && FreshRun(start, actions)
    ensures p in m.w.fs && m.publisher == ReleaseVersion(p, m.w.clock) && m.sent == []
    ensures Run(m, [Interest(name), ServerStep(around)]) == m
  {
    var w := MknodOp(start.w, p, true);
    MknodTables(start.w, p, true);
    MknodAlone(start.w, p, true);
    var rest := [Tick(1), Release(p, true), PublisherStep(true)];
    actions := MknodSteps(p, true) + rest;
    RunAppend(start, MknodSteps(p, true), rest);
    Run3(Alone(w), Tick(1), Release(p, true), PublisherStep(true));
    m := Run(start, actions);
    var later := w.(clock := w.clock + 1);
    assert Next(Alone(w), Tick(1)) == Alone(later);
    assert m == Machine(UpdateRow(later, p, later.clock), ReleaseVersion(p, later.clock), Waiting, []);
    NoRenames(start, actions);
    UnrecordedUnanswered(m, name, p, around);
  }
}
