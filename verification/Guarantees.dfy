/** What reaches the network: which packets pair bytes with their own signature, and for how long. */
module Guarantees {
  import opened Octets
  import opened Segments
  import opened NameCodec
  import opened NameParser
  import opened NameRoundTrip
  import opened Worlds
  import opened Machines
  import opened Invariants

  /** The signature was made over this name and this content. */
  predicate Verifies(packet: Packet) {
    packet.Content? && packet.signature == Signature(packet.name, packet.content)
  }

  lemma ReachableInvariant(start: Machine, actions: seq<Action>, m: Machine)
    requires Reachable(start, actions, m)
    ensures Invariant(m)
  {
    InitialInvariant(start);
    RunInvariant(start, actions);
  }

  /** In every reachable state, inside operations too, a row dated later than the last modification of
      its path matches the file, and the segments stored for a path and version start at 0 without a
      gap. */
  lemma RowsAreTimely(start: Machine, actions: seq<Action>, m: Machine, k: SegKey, j: nat)
    requires Reachable(start, actions, m) && k in m.w.segments
    ensures k.version > ModifiedAt(m.w, k.path) ==> RowMatches(m.w, k.path, k.version, k.segment)
    ensures j <= k.segment ==> SegKey(k.path, k.version, j) in m.w.segments
  {
    ReachableInvariant(start, actions, m);
    assert j <= k.segment ==> k.(segment := j) in m.w.segments;
  }

  /** In every reachable state, whatever happened between the server's SELECT and its `pread`: if the
      version is strictly later than the last modification of the path, the packet holds exactly the
      bytes of the segment, the signature over those bytes and the number of the last segment; it
      verifies if and only if the request was spelled canonically. */
  lemma TimelyPacket(start: Machine, actions: seq<Action>, m: Machine, around: Surroundings)
    requires Reachable(start, actions, m) && m.server.HaveSize?
    requires m.server.version > ModifiedAt(m.w, m.server.path)
    ensures m.server.path in m.w.files
    ensures
      var HaveSize(name, p, v, s, sig, finalBlock) := m.server;
      var bytes := Slice(m.w.files[p], s);
      var packet := Content(name, bytes, sig, finalBlock);
      && Next(m, ServerStep(around)).sent == m.sent + (if bytes == [] then [] else [packet])
      && sig == Signature(SignedName(m.w.prefix, p, v, s), bytes)
      && finalBlock == Some(TotalSegments(|m.w.files[p]|) - 1)
      && (PlainPrefix(m.w.prefix) && m.w.prefix <= name ==> (Verifies(packet) <==> CanonicalName(name)))
  {
    ReachableInvariant(start, actions, m);
    var HaveSize(name, p, v, s, sig, finalBlock) := m.server;
    PreadIsSlice(m.w.files[p], s);
    if PlainPrefix(m.w.prefix) && m.w.prefix <= name {
      RequestIsSignedName(m.w.prefix, name, v, s, p);
    }
  }

  // ---------- a complete release and what ends it ----------

  /** The action changes, or may change, the file at `p` or the rows of `p`. */
  predicate Touches(m: Machine, a: Action, p: Path) {
    match a
    case Write(q, _, _, _) => q == p
    case Truncate(q, _, _) => q == p
    case Unlink(q) => q == p
    case Rename(from, to) => from == p || to == p
    case PublisherStep(_) =>
      (match m.publisher
       case MknodFile(q) => q == p
       case UnlinkFile(q) => q == p
       case RenameVersions(from, to) => from == p || to == p
       case RenameSegments(from, to) => from == p || to == p
       case RenameFile(from, to) => from == p || to == p
       case _ => false)
    case _ => false
  }

  predicate Quiet(m: Machine, actions: seq<Action>, p: Path)
    decreases |actions|
  {
    actions == [] || (!Touches(m, actions[0], p) && Quiet(Next(m, actions[0]), actions[1..], p))
  }

  lemma OtherPathRows(w: World, w': World, from: Path, to: Path, p: Path, v: nat)
    requires Published(w, p, v) && p != from && p != to
    requires w'.prefix == w.prefix && p in w'.files && w'.files[p] == w.files[p]
    requires w'.versions == w.versions || w'.versions == MovedVersions(w.versions, from, to)
    requires w'.segments == w.segments || w'.segments == MovedSegments(w.segments, from, to)
    ensures Published(w', p, v)
  {
    assert VersionRow(p, v) in w'.versions;
    forall s: nat | s <= SeekSegment(|w'.files[p]|)
      ensures RowMatches(w', p, v, s)
    {
      assert RowMatches(w, p, v, s);
      assert SegKey(p, v, s) in w'.segments;
    }
  }

  lemma PublishedSignStep(m: Machine, ok: bool, p: Path, v: nat)
    requires Invariant(m) && Published(m.w, p, v) && m.publisher.ReleaseSign?
    ensures Published(PublisherEffect(m, ok).w, p, v)
    ensures PublisherEffect(m, ok).w.files == m.w.files
  {
    var ReleaseSign(q, u, s) := m.publisher;
    PreadIsSlice(m.w.files[q], s);
    forall j: nat | j <= SeekSegment(|m.w.files[p]|)
      ensures RowMatches(PublisherEffect(m, ok).w, p, v, j)
    {
      assert RowMatches(m.w, p, v, j);
    }
  }

  lemma PublishedPublisherStep(m: Machine, ok: bool, p: Path, v: nat)
    requires Invariant(m) && Published(m.w, p, v) && !m.publisher.Idle? && !Touches(m, PublisherStep(ok), p)
    ensures Published(PublisherEffect(m, ok).w, p, v)
    ensures PublisherEffect(m, ok).w.files[p] == m.w.files[p]
  {
    var w' := PublisherEffect(m, ok).w;
    match m.publisher
    case ReleaseSign(q, u, s) => PublishedSignStep(m, ok, p, v);
    case RenameVersions(from, to) => OtherPathRows(m.w, w', from, to, p, v);
    case RenameSegments(from, to) => OtherPathRows(m.w, w', from, to, p, v);
    case _ => SameRows(m.w, w', p, v);
  }

  /** Publication survives every step that leaves the path alone, even a half-done release of the
      same path, in the same second or a later one. */
  lemma PublishedStep(m: Machine, a: Action, p: Path, v: nat)
    requires Invariant(m) && Published(m.w, p, v) && !Touches(m, a, p)
    ensures Published(Next(m, a).w, p, v)
    ensures Next(m, a).w.files[p] == m.w.files[p]
  {
    if Enabled(m, a) {
      match a
      case PublisherStep(ok) => PublishedPublisherStep(m, ok, p, v);
      case ServerStep(around) => assert ServerEffect(m, around).w == m.w;
      case _ => PublishedOtherStep(m, a, p, v);
    }
  }

  lemma PublishedOtherStep(m: Machine, a: Action, p: Path, v: nat)
    requires Published(m.w, p, v) && Enabled(m, a) && !Touches(m, a, p) && !a.PublisherStep? && !a.ServerStep?
    ensures Published(Effect(m, a).w, p, v)
    ensures Effect(m, a).w.files[p] == m.w.files[p]
  {
    SameRows(m.w, Effect(m, a).w, p, v);
  }

  lemma SameRows(w: World, w': World, p: Path, v: nat)
    requires Published(w, p, v)
    requires w'.prefix == w.prefix && p in w'.files && w'.files[p] == w.files[p]
    requires w.versions <= w'.versions && w'.segments == w.segments
    ensures Published(w', p, v)
  {
    forall s: nat | s <= SeekSegment(|w'.files[p]|)
      ensures RowMatches(w', p, v, s)
    {
      assert RowMatches(w, p, v, s);
    }
  }

  /** The last signing step of a release publishes the file under the version it has just been
      given. */
  lemma LastSegmentPublishes(m: Machine)
    requires Invariant(m) && m.publisher.ReleaseSign?
    requires Next(m, PublisherStep(true)).publisher.Idle?
    ensures
      var m' := Next(m, PublisherStep(true));
      var p, v := m.publisher.path, m.publisher.version;
      && Published(m'.w, p, v) && p in m'.w.fs && m'.w.fs[p] == v
      && p in m.w.files && m'.w.files == m.w.files
  {
    var ReleaseSign(p, v, s) := m.publisher;
    var file := m.w.files[p];
    PreadIsSlice(file, s);
    SliceSize(file, s);
    assert s == SeekSegment(|file|);
    var w' := Next(m, PublisherStep(true)).w;
    forall j: nat | j <= SeekSegment(|file|)
      ensures RowMatches(w', p, v, j)
    {
      assert j < s ==> RowMatches(m.w, p, v, j);
    }
  }

  /** A release that ran to its end publishes everything: every segment of the file has a row that
      matches, the segments together are the file, and so it stays in every later state, with
      anything interleaved, until the path is next written, truncated, renamed or unlinked. */
  lemma ReleasePublishesEverything(start: Machine, before: seq<Action>, m: Machine, after: seq<Action>)
    requires Reachable(start, before, m) && m.publisher.ReleaseSign?
    requires Next(m, PublisherStep(true)).publisher.Idle?
    requires Quiet(Next(m, PublisherStep(true)), after, m.publisher.path)
    ensures
      var p, v := m.publisher.path, m.publisher.version;
      var later := Run(Next(m, PublisherStep(true)), after).w;
      && Published(later, p, v)
      && p in m.w.files && later.files[p] == m.w.files[p]
      && Reassembled(later.files[p], TotalSegments(|later.files[p]|)) == later.files[p]
  {
    ReachableInvariant(start, before, m);
    NextInvariant(m, PublisherStep(true));
    LastSegmentPublishes(m);
    PublishedWhole(Next(m, PublisherStep(true)), after, m.publisher.path, m.publisher.version);
  }

  lemma PublishedWhole(m: Machine, after: seq<Action>, p: Path, v: nat)
    requires Invariant(m) && Published(m.w, p, v) && Quiet(m, after, p)
    ensures
      var later := Run(m, after).w;
      && Published(later, p, v) && later.files[p] == m.w.files[p]
      && Reassembled(later.files[p], TotalSegments(|later.files[p]|)) == later.files[p]
  {
    QuietKeepsPublished(m, after, p, v);
    SegmentsCoverFile(m.w.files[p]);
  }

  lemma {:induction false} QuietKeepsPublished(m: Machine, actions: seq<Action>, p: Path, v: nat)
    requires Invariant(m) && Published(m.w, p, v) && Quiet(m, actions, p)
    ensures Published(Run(m, actions).w, p, v)
    ensures Run(m, actions).w.files[p] == m.w.files[p]
    decreases |actions|
  {
    if actions != [] {
      NextInvariant(m, actions[0]);
      PublishedStep(m, actions[0], p, v);
      QuietKeepsPublished(Next(m, actions[0]), actions[1..], p, v);
    }
  }

  lemma {:induction false} QuietAppend(m: Machine, a: seq<Action>, b: seq<Action>, p: Path)
    ensures Quiet(m, a + b, p) <==> Quiet(m, a, p) && Quiet(Run(m, a), b, p)
    decreases |a|
  {
    if a == [] {
      assert a + b == b;
    } else {
      assert (a + b)[1..] == a[1..] + b;
      QuietAppend(Next(m, a[0]), a[1..], b, p);
    }
  }

  // ---------- the bytes that the server sends for a published file ----------

  /** A content packet for a segment of the version holds the bytes of that segment, and some; metadata of
      the path, of whatever version, gives the size of the file and its segment count. */
  ghost predicate BytesOk(prefix: Name, packet: Packet, p: Path, v: nat, file: Bytes) {
    match packet
    case Content(name, content, _, _) =>
      forall s: nat :: ParsesTo(prefix, name, v, s, p) ==> content == Slice(file, s) && content != []
    case Info(name, q, size, total, u) =>
      q == p ==> name == MetaName(prefix, p, u) && size == |file| && total == TotalSegments(|file|)
    case Page(_, _) => true
  }

  ghost predicate BytesWindow(m: Machine, p: Path, v: nat, file: Bytes, first: nat) {
    && Invariant(m) && Published(m.w, p, v) && m.w.files[p] == file && first <= |m.sent|
    && forall i :: first <= i < |m.sent| ==> BytesOk(m.w.prefix, m.sent[i], p, v, file)
  }

  lemma ServerStepBytes(m: Machine, around: Surroundings, p: Path, v: nat)
    requires Invariant(m) && Published(m.w, p, v) && !m.server.Waiting?
    ensures
      var m' := ServerEffect(m, around);
      && m.sent <= m'.sent && m'.w == m.w
      && forall i :: |m.sent| <= i < |m'.sent| ==> BytesOk(m.w.prefix, m'.sent[i], p, v, m.w.files[p])
  {
    if m.server.HaveSize? && m.server.path in m.w.files {
      PreadIsSlice(m.w.files[m.server.path], m.server.segment);
    }
  }

  lemma BytesStep(m: Machine, a: Action, p: Path, v: nat, file: Bytes, first: nat)
    requires BytesWindow(m, p, v, file, first) && !Touches(m, a, p)
    ensures BytesWindow(Next(m, a), p, v, file, first)
  {
    NextInvariant(m, a);
    PublishedStep(m, a, p, v);
    if Enabled(m, a) {
      if a.ServerStep? {
        ServerStepBytes(m, a.around, p, v);
      } else {
        assert Effect(m, a).sent == m.sent;
      }
    }
  }

  lemma {:induction false} BytesRun(m: Machine, actions: seq<Action>, p: Path, v: nat, file: Bytes, first: nat)
    requires BytesWindow(m, p, v, file, first) && Quiet(m, actions, p)
    ensures BytesWindow(Run(m, actions), p, v, file, first)
    decreases |actions|
  {
    if actions != [] {
      BytesStep(m, actions[0], p, v, file, first);
      BytesRun(Next(m, actions[0]), actions[1..], p, v, file, first);
    }
  }

  /** From the moment a version is completely published until its path is next touched, and whatever the
      server had in hand at that moment: every packet for a segment of it holds exactly the bytes of that
      segment, none is ever for a segment past the last byte, although rows of such segments may be left
      from a longer file released in the same second, and all metadata replies give the same count. */
  lemma PublishedBytes(start: Machine, before: seq<Action>, m: Machine, after: seq<Action>, p: Path, v: nat, i: nat)
    requires Reachable(start, before, m) && Published(m.w, p, v) && Quiet(m, after, p)
    requires |m.sent| <= i < |Run(m, after).sent|
    ensures BytesOk(m.w.prefix, Run(m, after).sent[i], p, v, m.w.files[p])
  {
    ReachableInvariant(start, before, m);
    BytesRun(m, after, p, v, m.w.files[p], |m.sent|);
    RunInvariant(m, after);
  }

  // ---------- everything else that it says about a published file ----------

  /** The one good answer to a request for segment `s`. */
  predicate IsAnswer(prefix: Name, packet: Packet, p: Path, v: nat, s: nat, file: Bytes) {
    && packet.Content?
    && packet.content == Slice(file, s) && packet.content != []
    && packet.signature == Signature(SignedName(prefix, p, v, s), packet.content)
    && packet.finalBlock == Some(TotalSegments(|file|) - 1)
  }

  /** A packet that speaks of version `v` of `p` speaks of this file, with the signature and the final block. */
  ghost predicate PacketOk(prefix: Name, packet: Packet, p: Path, v: nat, file: Bytes) {
    && BytesOk(prefix, packet, p, v, file)
    && (packet.Content? ==> forall s: nat :: ParsesTo(prefix, packet.name, v, s, p) ==> IsAnswer(prefix, packet, p, v, s, file))
  }

  /** Of a stale row, left by an earlier release of the same second, only its emptiness is known. */
  predicate SelectedOrStale(prefix: Name, p: Path, v: nat, s: nat, sig: Signature, file: Bytes) {
    Slice(file, s) == [] || sig == Signature(SignedName(prefix, p, v, s), Slice(file, s))
  }

  /** What the server has in hand for the version leads to the good answer, or to none. */
  ghost predicate SelectionGood(m: Machine, p: Path, v: nat)
    requires p in m.w.files
  {
    var file := m.w.files[p];
    match m.server
    case HaveRow(_, q, u, s, sig) => q == p && u == v ==> SelectedOrStale(m.w.prefix, p, v, s, sig, file)
    case HaveSize(_, q, u, s, sig, finalBlock) =>
      q == p && u == v && Slice(file, s) != [] ==>
        sig == Signature(SignedName(m.w.prefix, p, v, s), Slice(file, s)) && finalBlock == Some(TotalSegments(|file|) - 1)
    case _ => true
  }

  ghost predicate WindowOk(m: Machine, p: Path, v: nat, file: Bytes, first: nat) {
    && Invariant(m) && Published(m.w, p, v) && m.w.files[p] == file && first <= |m.sent|
    && SelectionGood(m, p, v)
    && forall i :: first <= i < |m.sent| ==> PacketOk(m.w.prefix, m.sent[i], p, v, file)
  }

  lemma FoundRowIsGood(w: World, p: Path, v: nat, s: nat)
    requires Published(w, p, v) && SegKey(p, v, s) in w.segments
    ensures SelectedOrStale(w.prefix, p, v, s, w.segments[SegKey(p, v, s)], w.files[p])
  {
    if s <= SeekSegment(|w.files[p]|) {
      assert RowMatches(w, p, v, s);
    }
  }

  lemma InterestSelection(m: Machine, name: Name, p: Path, v: nat)
    requires Published(m.w, p, v) && NoEmptyComponent(name)
    ensures SelectionGood(m.(server := Receive(m.w, name)), p, v)
  {
    var server := Receive(m.w, name);
    if server.HaveRow? && server.path == p && server.version == v {
      FoundRowIsGood(m.w, p, v, server.segment);
    }
  }

  lemma FirstSegmentSelection(m: Machine, around: Surroundings, p: Path, v: nat)
    requires Published(m.w, p, v) && m.server.HaveFile?
    ensures SelectionGood(ServerEffect(m, around), p, v)
  {
    if m.server.path == p && m.server.requested == v && SegKey(p, v, 0) in m.w.segments {
      FoundRowIsGood(m.w, p, v, 0);
    }
  }

  lemma WindowServerStep(m: Machine, around: Surroundings, p: Path, v: nat)
    requires Invariant(m) && Published(m.w, p, v) && SelectionGood(m, p, v) && !m.server.Waiting?
    ensures
      var m' := ServerEffect(m, around);
      && SelectionGood(m', p, v) && m.sent <= m'.sent
      && forall i :: |m.sent| <= i < |m'.sent| ==> PacketOk(m.w.prefix, m'.sent[i], p, v, m.w.files[p])
  {
    match m.server
    case HaveFile(_, _, _) => FirstSegmentSelection(m, around, p, v);
    case HaveSize(_, q, _, s, _, _) =>
      if q in m.w.files {
        PreadIsSlice(m.w.files[q], s);
      }
    case _ =>
  }

  lemma WindowStep(m: Machine, a: Action, p: Path, v: nat, file: Bytes, first: nat)
    requires WindowOk(m, p, v, file, first) && !Touches(m, a, p)
    ensures WindowOk(Next(m, a), p, v, file, first)
  {
    NextInvariant(m, a);
    PublishedStep(m, a, p, v);
    if Enabled(m, a) {
      match a
      case ServerStep(around) => WindowServerStep(m, around, p, v);
      case Interest(name) => InterestSelection(m, name, p, v);
      case _ => assert Effect(m, a).sent == m.sent && Effect(m, a).server == m.server;
    }
  }

  lemma {:induction false} WindowRun(m: Machine, actions: seq<Action>, p: Path, v: nat, file: Bytes, first: nat)
    requires WindowOk(m, p, v, file, first) && Quiet(m, actions, p)
    ensures WindowOk(Run(m, actions), p, v, file, first)
    decreases |actions|
  {
    if actions != [] {
      WindowStep(m, actions[0], p, v, file, first);
      WindowRun(Next(m, actions[0]), actions[1..], p, v, file, first);
    }
  }

  /** Every packet of every run that leaves the path alone is a good answer. */
  ghost predicate AnswersGood(m: Machine, p: Path, v: nat)
    requires p in m.w.files
  {
    forall after, i :: Quiet(m, after, p) && |m.sent| <= i < |Run(m, after).sent| ==>
      PacketOk(m.w.prefix, Run(m, after).sent[i], p, v, m.w.files[p])
  }

  lemma BadSelectionIsSent(m: Machine, p: Path, v: nat)
    requires Invariant(m) && Published(m.w, p, v) && !SelectionGood(m, p, v)
    ensures !AnswersGood(m, p, v)
  {
    var step, k := ServerStep(Surroundings(0, None)), |m.sent|;
    PreadIsSlice(m.w.files[p], m.server.segment);
    var m1 := Next(m, step);
    RunOne(m, step);
    assert Quiet(m, [step], p) by {
      assert [step][1..] == [];
    }
    if m.server.HaveSize? {
      assert !PacketOk(m.w.prefix, Run(m, [step]).sent[k], p, v, m.w.files[p]) by {
        assert ParsesTo(m.w.prefix, m1.sent[k].name, v, m.server.segment, p);
      }
    } else {
      RunCons(m, step, [step]);
      RunOne(m1, step);
      QuietAppend(m, [step], [step], p);
      assert Quiet(m1, [step], p) by {
        assert [step][1..] == [];
      }
      assert !PacketOk(m.w.prefix, Run(m, [step] + [step]).sent[k], p, v, m.w.files[p]) by {
        assert ParsesTo(m.w.prefix, Next(m1, step).sent[k].name, v, m.server.segment, p);
      }
    }
  }

  /** From the moment a version is completely published until its path is next touched, every packet that
      the server puts for it is the good answer, with the right bytes, signature and final block, and
      every metadata reply for the path gives the same segment count, if and only if what the server
      has in hand at that moment leads to a good answer or to none. */
  lemma PublishedAnswers(start: Machine, before: seq<Action>, m: Machine, p: Path, v: nat)
    requires Reachable(start, before, m) && Published(m.w, p, v)
    ensures SelectionGood(m, p, v) <==> AnswersGood(m, p, v)
  {
    ReachableInvariant(start, before, m);
    if SelectionGood(m, p, v) {
      forall after, i | Quiet(m, after, p) && |m.sent| <= i < |Run(m, after).sent|
        ensures PacketOk(m.w.prefix, Run(m, after).sent[i], p, v, m.w.files[p])
      {
        WindowRun(m, after, p, v, m.w.files[p], |m.sent|);
        RunInvariant(m, after);
      }
    } else {
      BadSelectionIsSent(m, p, v);
    }
  }

  lemma InterestSelects(m: Machine, name: Name, p: Path, v: nat, s: nat)
    requires m.server.Waiting? && RowMatches(m.w, p, v, s) && ParsesTo(m.w.prefix, name, v, s, p)
    ensures Next(m, Interest(name)) == m.(server := HaveRow(name, p, v, s, m.w.segments[SegKey(p, v, s)]))
  {
    assert Receive(m.w, name) == HaveRow(name, p, v, s, m.w.segments[SegKey(p, v, s)]);
  }

  /** A request for a segment that holds a byte is answered, with anything of the publisher between the
      steps of the server that leaves the path alone. */
  lemma SegmentIsAnswered(m: Machine, name: Name, p: Path, v: nat, s: nat,
                          a: seq<Action>, around1: Surroundings, b: seq<Action>, around2: Surroundings) returns (packet: Packet)
    requires Invariant(m) && Published(m.w, p, v) && m.server.Waiting?
    requires ParsesTo(m.w.prefix, name, v, s, p) && s * SEG_SIZE < |m.w.files[p]|
    requires NoServerStep(a) && NoServerStep(b) && Quiet(m, Exchange(name, a, around1, b, around2), p)
    ensures Run(m, Exchange(name, a, around1, b, around2)).sent == m.sent + [packet]
    ensures Run(m, Exchange(name, a, around1, b, around2)).server.Waiting?
    ensures packet.name == name && IsAnswer(m.w.prefix, packet, p, v, s, m.w.files[p])
  {
    assert RowMatches(m.w, p, v, s);
    InterestSelects(m, name, p, v, s);
    NextInvariant(m, Interest(name));
    RunCons(m, Interest(name), Serve(a, around1, b, around2));
    assert Exchange(name, a, around1, b, around2)[1..] == Serve(a, around1, b, around2);
    packet := RowIsServed(Next(m, Interest(name)), name, p, v, s, a, around1, b, around2);
  }

  /** A version request without a segment, for a path with a row: segment 0 is sent, under the name of that segment,
      with anything of the publisher between the steps of the server that leaves the path alone. */
  lemma VersionIsAnswered(m: Machine, name: Name, p: Path, v: nat, a: seq<Action>, around1: Surroundings,
                          b: seq<Action>, around2: Surroundings, c: seq<Action>, around3: Surroundings) returns (packet: Packet)
    requires Invariant(m) && Published(m.w, p, v) && m.server.Waiting? && p in m.w.fs && m.w.files[p] != []
    requires NoEmptyComponent(name) && Parse(PathText(m.w.prefix), name) == NameParser.Request(2, v, -1, p)
    requires NoServerStep(a) && NoServerStep(b) && NoServerStep(c)
    requires Quiet(m, LongExchange(name, a, around1, b, around2, c, around3), p)
    ensures
      var end := Run(m, LongExchange(name, a, around1, b, around2, c, around3));
      end.sent == m.sent + [packet] && end.server.Waiting?
    ensures packet.name == name + [SegmentComponent(0)] && ParsesTo(m.w.prefix, packet.name, v, 0, p)
    ensures IsAnswer(m.w.prefix, packet, p, v, 0, m.w.files[p])
  {
    var m1, rest := Next(m, Interest(name)), Serve(b, around2, c, around3);
    NextInvariant(m, Interest(name));
    assert Receive(m.w, name) == HaveFile(name, p, v);
    RunLongExchange(m, name, a, around1, b, around2, c, around3);
    assert LongExchange(name, a, around1, b, around2, c, around3)[1..] == a + ([ServerStep(around1)] + rest);
    QuietAppend(m1, a, [ServerStep(around1)] + rest, p);
    assert ([ServerStep(around1)] + rest)[1..] == rest;
    BusyMeanwhile(m1, a, p, v);
    FirstRowFound(Run(m1, a), name, p, v, around1);
    NextInvariant(Run(m1, a), ServerStep(around1));
    SliceSize(m.w.files[p], 0);
    packet := RowIsServed(Next(Run(m1, a), ServerStep(around1)), name + [SegmentComponent(0)], p, v, 0, b, around2, c, around3);
    FirstSegment(PathText(m.w.prefix), name, v, p);
  }

  lemma FirstRowFound(m: Machine, name: Name, p: Path, v: nat, around: Surroundings)
    requires Published(m.w, p, v) && m.server == HaveFile(name, p, v)
    ensures Next(m, ServerStep(around)) == m.(server := HaveRow(name + [SegmentComponent(0)], p, v, 0,
      Signature(SignedName(m.w.prefix, p, v, 0), Slice(m.w.files[p], 0))))
  {
    assert RowMatches(m.w, p, v, 0);
  }

  /** From the selection of the good row on, two steps of the server. */
  lemma RowIsServed(m: Machine, name: Name, p: Path, v: nat, s: nat,
                    a: seq<Action>, around1: Surroundings, b: seq<Action>, around2: Surroundings) returns (packet: Packet)
    requires Invariant(m) && Published(m.w, p, v) && s * SEG_SIZE < |m.w.files[p]|
    requires m.server == HaveRow(name, p, v, s, Signature(SignedName(m.w.prefix, p, v, s), Slice(m.w.files[p], s)))
    requires NoServerStep(a) && NoServerStep(b) && Quiet(m, Serve(a, around1, b, around2), p)
    ensures Run(m, Serve(a, around1, b, around2)).sent == m.sent + [packet]
    ensures Run(m, Serve(a, around1, b, around2)).server.Waiting?
    ensures packet.name == name && IsAnswer(m.w.prefix, packet, p, v, s, m.w.files[p])
  {
    RunServe(m, a, around1, b, around2);
    QuietServe(m, a, around1, b, around2, p);
    BusyMeanwhile(m, a, p, v);
    var m2 := Next(Run(m, a), ServerStep(around1));
    RowIsSized(Run(m, a), name, p, v, s, around1);
    BusyMeanwhile(m2, b, p, v);
    SliceSize(m.w.files[p], s);
    packet := SizedIsSent(Run(m2, b), name, p, v, s, around2);
  }

  /** What is not there is not answered: a name that does not parse, a segment without a row, and a version of a
      path without a row leave the server waiting. */
  lemma NothingToAnswer(m: Machine, name: Name)
    requires m.server.Waiting? && NoEmptyComponent(name)
    requires
      match Parse(PathText(m.w.prefix), name)
      case Request(3, v, s, p) => v < 0 || s < 0 || SegKey(p, v, s) !in m.w.segments
      case Request(2, _, _, p) => p !in m.w.fs
      case Request(_, _, _, _) => false
      case _ => true
    ensures Next(m, Interest(name)) == m
  {
  }

  /** The server has selected the good signature for the request and computed the final block. */
  ghost predicate Selected(m: Machine, name: Name, p: Path, v: nat, s: nat) {
    && Invariant(m) && Published(m.w, p, v)
    && m.server.HaveSize? && m.server == HaveSize(name, p, v, s, Signature(SignedName(m.w.prefix, p, v, s), Slice(m.w.files[p], s)),
      m.server.finalBlock)
    && m.server.finalBlock == Some(TotalSegments(|m.w.files[p]|) - 1)
  }

  lemma RowIsSized(m: Machine, name: Name, p: Path, v: nat, s: nat, around: Surroundings)
    requires Invariant(m) && Published(m.w, p, v)
    requires m.server == HaveRow(name, p, v, s, Signature(SignedName(m.w.prefix, p, v, s), Slice(m.w.files[p], s)))
    ensures Selected(Next(m, ServerStep(around)), name, p, v, s)
    ensures Next(m, ServerStep(around)).sent == m.sent && Next(m, ServerStep(around)).w == m.w
  {
    NextInvariant(m, ServerStep(around));
  }

  lemma SizedIsSent(m: Machine, name: Name, p: Path, v: nat, s: nat, around: Surroundings) returns (packet: Packet)
    requires Selected(m, name, p, v, s) && Slice(m.w.files[p], s) != []
    ensures Next(m, ServerStep(around)) == m.(server := Waiting, sent := m.sent + [packet])
    ensures packet.name == name && IsAnswer(m.w.prefix, packet, p, v, s, m.w.files[p])
  {
    PreadIsSlice(m.w.files[p], s);
    packet := Content(name, Slice(m.w.files[p], s), m.server.signature, m.server.finalBlock);
  }

  lemma BusyMeanwhile(m: Machine, actions: seq<Action>, p: Path, v: nat)
    requires Invariant(m) && Published(m.w, p, v) && Quiet(m, actions, p)
    requires !m.server.Waiting? && NoServerStep(actions)
    ensures
      var m' := Run(m, actions);
      && Invariant(m') && Published(m'.w, p, v) && m'.w.files[p] == m.w.files[p]
      && m'.server == m.server && m'.sent == m.sent && m'.w.prefix == m.w.prefix
  {
    HeldMeanwhile(m, actions);
    QuietKeepsPublished(m, actions, p, v);
    RunInvariant(m, actions);
  }

  lemma QuietServe(m: Machine, a: seq<Action>, around1: Surroundings, b: seq<Action>, around2: Surroundings, p: Path)
    ensures
      var m2 := Next(Run(m, a), ServerStep(around1));
      Quiet(m, Serve(a, around1, b, around2), p) <==> Quiet(m, a, p) && Quiet(m2, b, p)
  {
    var m2 := Next(Run(m, a), ServerStep(around1));
    var first, last := [ServerStep(around1)], [ServerStep(around2)];
    QuietAppend(m, a, first + (b + last), p);
    assert (first + (b + last))[1..] == b + last;
    QuietAppend(m2, b, last, p);
    assert last[1..] == [];
  }
}
