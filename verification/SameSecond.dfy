/** Two releases of one path within a second share a version: what the second leaves of the first. */
module SameSecond {
  import opened Octets
  import opened Segments
  import opened NameCodec
  import opened NameRoundTrip
  import opened Worlds
  import opened Machines
  import opened Guarantees

  lemma ReleaseRows(w: World, p: Path)
    requires p in w.fs && p in w.files
    ensures
      var w' := ReleaseOp(w, p, true, true, None);
      && w'.files == w.files && w'.fs == w.fs[p := w.clock] && w'.clock == w.clock && w'.prefix == w.prefix
      && VersionRow(p, w.clock) in w'.versions
      && w'.segments == w.segments + SignedRows(w.prefix, p, w.clock, w.files[p], TotalSegments(|w.files[p]|))
  {
  }

  /** An undisturbed release publishes the file and touches no row but its own. */
  lemma ReleasePublishes(w: World, p: Path)
    requires p in w.fs && p in w.files
    ensures Published(ReleaseOp(w, p, true, true, None), p, w.clock)
    ensures forall k: SegKey :: !(k.path == p && k.version == w.clock && k.segment <= SeekSegment(|w.files[p]|)) ==>
      (k in ReleaseOp(w, p, true, true, None).segments <==> k in w.segments)
      && (k in w.segments ==> ReleaseOp(w, p, true, true, None).segments[k] == w.segments[k])
  {
  }

  /** Release, cut the file, release again within the second: the rows past the new end stay, with
      signatures of bytes that are gone; but each of them is for a segment that now reads as
      nothing, and everything up to the new end matches. */
  lemma ShrinkWithinSecond(w: World, w1: World, w2: World, w3: World, p: Path, length: nat, s: nat)
    requires p in w.fs && p in w.files && length < |w.files[p]|
    requires w1 == ReleaseOp(w, p, true, true, None) && w2 == TruncateOp(w1, p, length, true)
    requires w3 == ReleaseOp(w2, p, true, true, None)
    ensures Published(w3, p, w.clock)
    ensures s <= SeekSegment(|w.files[p]|) ==> SegKey(p, w.clock, s) in w3.segments
    ensures s <= SeekSegment(length) ==> RowMatches(w3, p, w.clock, s)
    ensures SeekSegment(length) < s && s * SEG_SIZE < |w.files[p]| ==>
      SegKey(p, w.clock, s) in w3.segments && !RowMatches(w3, p, w.clock, s)
    ensures SeekSegment(length) < s ==> Slice(w3.files[p], s) == []
  {
    ReleaseRows(w, p);
    ReleasePublishes(w, p);
    ReleaseRows(w2, p);
    ReleasePublishes(w2, p);
    SliceSize(w.files[p], s);
    SliceSize(w3.files[p], s);
    if s <= SeekSegment(|w.files[p]|) {
      assert RowMatches(w1, p, w.clock, s);
    }
  }

  /** Strictly later is needed in the timestamp invariant: a write in the second of the release leaves
      the row of every segment that it changes with a signature of other bytes. */
  lemma WriteWithinSecond(w: World, w1: World, w2: World, p: Path, offset: nat, data: Bytes, s: nat)
    requires p in w.fs && p in w.files
    requires w1 == ReleaseOp(w, p, true, true, None) && w2 == WriteOp(w1, p, offset, data, true)
    requires s <= SeekSegment(|w.files[p]|)
    ensures p in w2.files && SegKey(p, w.clock, s) in w2.segments && ModifiedAt(w2, p) == w.clock
    ensures RowMatches(w2, p, w.clock, s) <==> Slice(w2.files[p], s) == Slice(w.files[p], s)
  {
  }

  // ---------- a request between the two releases ----------

  /** Writes one byte to a file of at most one byte and releases it. */
  function SaveSteps(p: Path, b: Octet): seq<Action> {
    [Write(p, 0, [b], true)] + ([Release(p, true)] + Repeat(PublisherStep(true), 4))
  }

  lemma SaveAlone(w: World, p: Path, b: Octet)
    requires p in w.fs && p in w.files && |w.files[p]| <= 1
    ensures
      var w' := ReleaseOp(WriteOp(w, p, 0, [b], true), p, true, true, None);
      && Run(Alone(w), SaveSteps(p, b)) == Alone(w')
      && Published(w', p, w.clock) && p in w'.fs && w'.files[p] == [b] && w'.clock == w.clock && w'.prefix == w.prefix
  {
    var w1 := WriteOp(w, p, 0, [b], true);
    assert w1.files[p] == [b];
    RunCons(Alone(w), Write(p, 0, [b], true), [Release(p, true)] + Repeat(PublisherStep(true), 4));
    assert Next(Alone(w), Write(p, 0, [b], true)) == Alone(w1);
    ReleaseAlone(w1, p);
    ReleaseRows(w1, p);
    ReleasePublishes(w1, p);
  }

  lemma SaveStepsBlind(p: Path, b: Octet)
    ensures NoServerAction(SaveSteps(p, b))
  {
  }

  lemma OldRowNewBytes(m: Machine, name: Name, p: Path, v: nat, sig: Signature, around1: Surroundings, around2: Surroundings)
    requires m.server == HaveRow(name, p, v, 0, sig) && p in m.w.files && 0 < |m.w.files[p]| < SEG_SIZE
    ensures Run(m, [ServerStep(around1), ServerStep(around2)]).sent == m.sent + [Content(name, m.w.files[p], sig, Some(0))]
  {
    var size := HaveSize(name, p, v, 0, sig, Some(0));
    assert Next(m, ServerStep(around1)) == m.(server := size);
    RunCons(m, ServerStep(around1), [ServerStep(around2)]);
    RunOne(m.(server := size), ServerStep(around2));
    assert Slice(m.w.files[p], 0) == m.w.files[p];
    PreadIsSlice(m.w.files[p], 0);
  }

  lemma SavedTwice(w: World, name: Name, p: Path, b1: Octet, b2: Octet) returns (w': World)
    requires PlainPrefix(w.prefix) && FilePath(p) && PlainPath(p) && w.clock < INT32_LIMIT
    requires p in w.fs && p in w.files && |w.files[p]| <= 1 && name == SignedName(w.prefix, p, w.clock, 0)
    ensures Run(Alone(w), SaveSteps(p, b1) + ([Interest(name)] + SaveSteps(p, b2))) ==
      Alone(w').(server := HaveRow(name, p, w.clock, 0, Signature(name, [b1])))
    ensures Published(w', p, w.clock) && w'.files[p] == [b2] && w'.prefix == w.prefix
  {
    SaveAlone(w, p, b1);
    var w1 := ReleaseOp(WriteOp(w, p, 0, [b1], true), p, true, true, None);
    SaveAlone(w1, p, b2);
    w' := ReleaseOp(WriteOp(w1, p, 0, [b2], true), p, true, true, None);
    RowSelected(w1, name, p, w.clock, b1);
    SaveStepsBlind(p, b2);
    PublisherBlind(Alone(w1), SaveSteps(p, b2), HaveRow(name, p, w.clock, 0, Signature(name, [b1])), []);
    RunAppend(Alone(w), SaveSteps(p, b1), [Interest(name)] + SaveSteps(p, b2));
    RunCons(Alone(w1), Interest(name), SaveSteps(p, b2));
  }

  /** The condition on the selection in `PublishedAnswers` is needed. Release one byte, let the server select
      its row, write another byte and release within the second: the version is completely published,
      and the server then sends the second byte with the signature of the first. */
  lemma SelectedBetweenReleases(start: Machine, p: Path, b1: Octet, b2: Octet, around1: Surroundings, around2: Surroundings)
    returns (actions: seq<Action>, m: Machine)
    requires Initial(start) && PlainPrefix(start.w.prefix) && FilePath(p) && PlainPath(p)
    requires p !in start.w.files && b1 != b2
    ensures Reachable(start, actions, m) && Published(m.w, p, start.w.clock)
    ensures
      var name := SignedName(start.w.prefix, p, start.w.clock, 0);
      Run(m, [ServerStep(around1), ServerStep(around2)]).sent == [Content(name, [b2], Signature(name, [b1]), Some(0))]
    ensures !SelectionGood(m, p, start.w.clock)
  {
    var v := start.w.clock;
    var name := SignedName(start.w.prefix, p, v, 0);
    var rest := SaveSteps(p, b1) + ([Interest(name)] + SaveSteps(p, b2));
    MknodAlone(start.w, p, true);
    var w := MknodOp(start.w, p, true);
    assert w.files[p] == [] && w.clock == v && w.prefix == start.w.prefix;
    var w' := SavedTwice(w, name, p, b1, b2);
    actions := MknodSteps(p, true) + rest;
    RunAppend(start, MknodSteps(p, true), rest);
    m := Alone(w').(server := HaveRow(name, p, v, 0, Signature(name, [b1])));
    OldRowNewBytes(m, name, p, v, Signature(name, [b1]), around1, around2);
    assert Slice([b2], 0) == [b2];
  }

  lemma RowSelected(w: World, name: Name, p: Path, v: nat, b: Octet)
    requires PlainPrefix(w.prefix) && FilePath(p) && PlainPath(p) && v < INT32_LIMIT
    requires Published(w, p, v) && w.files[p] == [b] && name == SignedName(w.prefix, p, v, 0)
    ensures Next(Alone(w), Interest(name)) == Alone(w).(server := HaveRow(name, p, v, 0, Signature(name, [b])))
  {
    assert RowMatches(w, p, v, 0);
    assert Slice([b], 0) == [b];
    SignedNameRoundTrip(w.prefix, p, v, 0);
    InterestSelects(Alone(w), name, p, v, 0);
  }
}
