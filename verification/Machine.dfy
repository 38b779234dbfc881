/** Publisher and server as one state machine: every SQL statement and every file-system call is a
    step of its own, and the steps of the two processes interleave freely. */
module Machines {
  import opened Octets
  import opened Segments
  import opened NameCodec
  import opened NameParser
  import opened Worlds
  import opened Effects
  import Listing

  /** What the publisher is in the middle of. FUSE runs single-threaded, so one operation at a time. */
  datatype Activity =
    | Idle
    | MknodVersion(path: Path, version: nat)
    | MknodRow(path: Path, version: nat)
    | MknodFile(path: Path)
    | UnlinkFile(path: Path)
    | ReleaseStamp(path: Path, version: nat)
    | ReleaseVersion(path: Path, version: nat)
    | ReleaseOpen(path: Path, version: nat)
    | ReleaseSign(path: Path, version: nat, segment: nat)
    | RenameVersions(from: Path, to: Path)
    | RenameSegments(from: Path, to: Path)
    | RenameFile(from: Path, to: Path)

  /** What the server is in the middle of; `name` is the name of the packet under construction. */
  datatype Service =
    | Waiting
    | HaveFile(name: Name, path: Path, requested: int)
    | HaveRow(name: Name, path: Path, version: nat, segment: nat, signature: Signature)
    | HaveSize(name: Name, path: Path, version: nat, segment: nat, signature: Signature, finalBlock: Option<nat>)
    | NoRow(path: Path)
    | HaveCurrent(path: Path, version: nat)
    | HaveVersion(path: Path, version: nat)

  datatype Packet =
    | Content(name: Name, content: Bytes, signature: Signature, finalBlock: Option<nat>)
    | Info(name: Name, path: Path, size: int, totalSegments: int, version: nat)
    | Page(name: Name, content: Bytes)

  datatype Machine = Machine(w: World, publisher: Activity, server: Service, sent: seq<Packet>)

  /** A directory as `lstat` and `readdir` give it. */
  datatype Directory = Directory(modified: nat, entries: seq<Bytes>)

  /** What a step of the server takes from outside the model: the value that an uninitialised `stat`
      buffer has, and the directory at the path that was asked for, if there is one. */
  datatype Surroundings = Surroundings(garbage: int, directory: Option<Directory>)

  datatype Action =
    | Tick(seconds: nat)
    | Mknod(path: Path)
    | Write(path: Path, offset: nat, data: Bytes, ok: bool)
    | Truncate(path: Path, length: nat, ok: bool)
    | Unlink(path: Path)
    | Release(path: Path, writable: bool)
    | Rename(from: Path, to: Path)
    | PublisherStep(ok: bool)
    | Interest(name: Name)
    | ServerStep(around: Surroundings)

  predicate Enabled(m: Machine, a: Action) {
    match a
    case Tick(seconds) => m.w.clock + seconds < INT32_LIMIT
    case Write(_, offset, data, _) => m.publisher.Idle? && offset + |data| < INT32_LIMIT
    case Truncate(_, length, _) => m.publisher.Idle? && length < INT32_LIMIT
    case PublisherStep(_) => !m.publisher.Idle?
    case Interest(name) => m.server.Waiting? && NoEmptyComponent(name)
    case ServerStep(_) => !m.server.Waiting?
    case _ => m.publisher.Idle?
  }

  /** SELECT from file_segments by the parsed, possibly negative, numbers. */
  function FindRow(w: World, p: Path, v: int, s: int): Option<Signature> {
    if v >= 0 && s >= 0 && SegKey(p, v, s) in w.segments then Some(w.segments[SegKey(p, v, s)]) else None
  }

  /** One more step of the operation that the publisher is in; `ok` is the fate of a system call. */
  function PublisherEffect(m: Machine, ok: bool): Machine
    requires !m.publisher.Idle?
  {
    match m.publisher
    case MknodVersion(p, v) => m.(w := InsertVersion(m.w, p, v), publisher := MknodRow(p, v))
    case MknodRow(p, v) => m.(w := InsertRow(m.w, p, v), publisher := MknodFile(p))
    case MknodFile(p) => m.(w := CreateFile(m.w, p, ok), publisher := Idle)
    case UnlinkFile(p) => m.(w := DeleteFile(m.w, p, ok), publisher := Idle)
    case ReleaseStamp(p, v) => m.(w := UpdateRow(m.w, p, v), publisher := ReleaseVersion(p, v))
    case ReleaseVersion(p, v) => m.(w := InsertVersion(m.w, p, v), publisher := ReleaseOpen(p, v))
    case ReleaseOpen(p, v) => m.(publisher := if ok && p in m.w.files then ReleaseSign(p, v, 0) else Idle)
    case ReleaseSign(p, v, s) =>
      var read := if p in m.w.files then Pread(m.w.files[p], SegmentToSize(s)) else None;
      if !ok || read.None? then m.(publisher := Idle)
      else m.(w := SignSegment(m.w, p, v, s, read.value),
              publisher := if |read.value| == SEG_SIZE then ReleaseSign(p, v, s + 1) else Idle)
    case RenameVersions(from, to) => m.(w := MoveVersions(m.w, from, to), publisher := RenameSegments(from, to))
    case RenameSegments(from, to) => m.(w := MoveSegments(m.w, from, to), publisher := RenameFile(from, to))
    case RenameFile(from, to) => m.(w := MoveFile(m.w, from, to, ok), publisher := Idle)
  }

  /** `onInterestCallback` up to its first SELECT. */
  function Receive(w: World, name: Name): Service
    requires NoEmptyComponent(name)
  {
    match Parse(PathText(w.prefix), name)
    case Request(kind, v, s, p) =>
      if kind == 3 then
        var row := FindRow(w, p, v, s);
        if row.Some? then HaveRow(name, p, v, s, row.value) else Waiting
      else if kind == 2 then
        if p in w.fs then HaveFile(name, p, v) else Waiting
      else
        if p in w.fs then HaveCurrent(p, w.fs[p]) else NoRow(p)
    case _ => Waiting
  }

  /** `stat`; a failed one leaves the size as it was on the stack. */
  function SizeOf(w: World, p: Path, garbage: int): int {
    if p in w.files then |w.files[p]| else garbage
  }

  const FILE_COMPONENT: Component := [META_MARKER] + ".FS.file"

  const DIR_COMPONENT: Component := [META_MARKER] + ".FS.dir"

  /** The name of a metadata reply. */
  function MetaName(prefix: Name, p: Path, v: nat): Name {
    prefix + NameFromUri(p) + [FILE_COMPONENT, VersionComponent(v)]
  }

  /** The reply for a path without a row: the page of the directory there. */
  function DirectoryReply(prefix: Name, p: Path, directory: Option<Directory>): seq<Packet> {
    if directory.None? then []
    else
      [Page(prefix + NameFromUri(p) + [DIR_COMPONENT, VersionComponent(directory.value.modified)],
            Listing.PageOf(Listing.QueryPath(p), directory.value.entries))]
  }

  /** One more SELECT, `stat`, `pread` or `readdir` loop of the server. */
  function ServerEffect(m: Machine, around: Surroundings): Machine
    requires !m.server.Waiting?
  {
    match m.server
    case HaveFile(name, p, v) =>
      var row := FindRow(m.w, p, v, 0);
      m.(server := if row.Some? then HaveRow(name + [SegmentComponent(0)], p, v, 0, row.value) else Waiting)
    case HaveRow(name, p, v, s, sig) =>
      var total := TotalSegments(SizeOf(m.w, p, around.garbage));
      m.(server := HaveSize(name, p, v, s, sig, if total > 0 then Some(total - 1) else None))
    case HaveSize(name, p, v, s, sig, finalBlock) =>
      var read := if p in m.w.files then Pread(m.w.files[p], SegmentToSize(s)) else None;
      if read.Some? && read.value != [] then
        m.(server := Waiting, sent := m.sent + [Content(name, read.value, sig, finalBlock)])
      else m.(server := Waiting)
    case NoRow(p) => m.(server := Waiting, sent := m.sent + DirectoryReply(m.w.prefix, p, around.directory))
    case HaveCurrent(p, v) => m.(server := if VersionRow(p, v) in m.w.versions then HaveVersion(p, v) else Waiting)
    case HaveVersion(p, v) =>
      var size := SizeOf(m.w, p, around.garbage);
      m.(server := Waiting,
         sent := m.sent + [Info(MetaName(m.w.prefix, p, v), p, size, TotalSegments(size), v)])
  }

  function Effect(m: Machine, a: Action): Machine
    requires Enabled(m, a)
  {
    match a
    case Tick(seconds) => m.(w := m.w.(clock := m.w.clock + seconds))
    case Mknod(p) => if p in m.w.fs then m else m.(publisher := MknodVersion(p, m.w.clock))
    case Write(p, offset, data, ok) => m.(w := WriteOp(m.w, p, offset, data, ok))
    case Truncate(p, length, ok) => m.(w := TruncateOp(m.w, p, length, ok))
    case Unlink(p) => m.(w := DeleteRow(m.w, p), publisher := UnlinkFile(p))
    case Release(p, writable) => if p in m.w.fs && writable then m.(publisher := ReleaseStamp(p, m.w.clock)) else m
    case Rename(from, to) => m.(w := MoveRow(m.w, from, to), publisher := RenameVersions(from, to))
    case PublisherStep(ok) => PublisherEffect(m, ok)
    case Interest(name) => m.(server := Receive(m.w, name))
    case ServerStep(around) => ServerEffect(m, around)
  }

  /** An action that is not enabled does nothing. */
  function Next(m: Machine, a: Action): Machine {
    if Enabled(m, a) then Effect(m, a) else m
  }

  function Run(m: Machine, actions: seq<Action>): Machine
    decreases |actions|
  {
    if actions == [] then m else Run(Next(m, actions[0]), actions[1..])
  }

  /** Empty tables over a directory of files below 2 GiB. */
  predicate Initial(m: Machine) {
    && m.publisher == Idle && m.server == Waiting && m.sent == []
    && m.w.fs == map[] && m.w.versions == {} && m.w.segments == map[] && m.w.modified == map[]
    && m.w.clock < INT32_LIMIT
    && forall p :: p in m.w.files ==> |m.w.files[p]| < INT32_LIMIT
  }

  predicate Reachable(start: Machine, actions: seq<Action>, m: Machine) {
    Initial(start) && m == Run(start, actions)
  }

  lemma {:induction false} RunAppend(m: Machine, a: seq<Action>, b: seq<Action>)
    ensures Run(m, a + b) == Run(Run(m, a), b)
    decreases |a|
  {
    if a == [] {
      assert a + b == b;
    } else {
      assert (a + b)[1..] == a[1..] + b;
      RunAppend(Next(m, a[0]), a[1..], b);
    }
  }

  lemma RunOne(m: Machine, a: Action)
    ensures Run(m, [a]) == Next(m, a)
  {
    assert [a][1..] == [];
  }

  // ---------- the two processes between one another's steps ----------

  predicate NoServerStep(actions: seq<Action>) {
    forall i :: 0 <= i < |actions| ==> !actions[i].ServerStep?
  }

  /** What the server has in hand stays in its hand until its next step. */
  lemma {:induction false} HeldMeanwhile(m: Machine, actions: seq<Action>)
    requires !m.server.Waiting? && NoServerStep(actions)
    ensures Run(m, actions).server == m.server && Run(m, actions).sent == m.sent
    decreases |actions|
  {
    if actions != [] {
      assert !actions[0].ServerStep?;
      HeldMeanwhile(Next(m, actions[0]), actions[1..]);
    }
  }

  predicate NoServerAction(actions: seq<Action>) {
    forall i :: 0 <= i < |actions| ==> !actions[i].ServerStep? && !actions[i].Interest?
  }

  lemma StepBlind(m: Machine, a: Action, server: Service, sent: seq<Packet>)
    requires !a.ServerStep? && !a.Interest?
    ensures Next(m.(server := server, sent := sent), a) == Next(m, a).(server := server, sent := sent)
  {
  }

  /** The publisher does not see the server. */
  lemma {:induction false} PublisherBlind(m: Machine, actions: seq<Action>, server: Service, sent: seq<Packet>)
    requires NoServerAction(actions)
    ensures Run(m.(server := server, sent := sent), actions) == Run(m, actions).(server := server, sent := sent)
    decreases |actions|
  {
    if actions != [] {
      assert !actions[0].ServerStep? && !actions[0].Interest?;
      StepBlind(m, actions[0], server, sent);
      PublisherBlind(Next(m, actions[0]), actions[1..], server, sent);
    }
  }

  /** Two steps of the server, with anything of the publisher before each of them. */
  function Serve(a: seq<Action>, around1: Surroundings, b: seq<Action>, around2: Surroundings): seq<Action> {
    a + ([ServerStep(around1)] + (b + [ServerStep(around2)]))
  }

  lemma RunServe(m: Machine, a: seq<Action>, around1: Surroundings, b: seq<Action>, around2: Surroundings)
    ensures Run(m, Serve(a, around1, b, around2)) ==
      Next(Run(Next(Run(m, a), ServerStep(around1)), b), ServerStep(around2))
  {
    var last := [ServerStep(around2)];
    var m2 := Next(Run(m, a), ServerStep(around1));
    RunAppend(m, a, [ServerStep(around1)] + (b + last));
    RunCons(Run(m, a), ServerStep(around1), b + last);
    RunAppend(m2, b, last);
    RunOne(Run(m2, b), ServerStep(around2));
  }

  /** A request that takes two steps of the server. */
  function Exchange(name: Name, a: seq<Action>, around1: Surroundings, b: seq<Action>, around2: Surroundings): seq<Action> {
    [Interest(name)] + Serve(a, around1, b, around2)
  }

  lemma RunExchange(m: Machine, name: Name, a: seq<Action>, around1: Surroundings, b: seq<Action>, around2: Surroundings)
    ensures Run(m, Exchange(name, a, around1, b, around2)) ==
      Next(Run(Next(Run(Next(m, Interest(name)), a), ServerStep(around1)), b), ServerStep(around2))
  {
    RunCons(m, Interest(name), Serve(a, around1, b, around2));
    RunServe(Next(m, Interest(name)), a, around1, b, around2);
  }

  /** A request that takes three. */
  function LongExchange(name: Name, a: seq<Action>, around1: Surroundings, b: seq<Action>, around2: Surroundings,
                        c: seq<Action>, around3: Surroundings): seq<Action> {
    [Interest(name)] + (a + ([ServerStep(around1)] + Serve(b, around2, c, around3)))
  }

  lemma RunLongExchange(m: Machine, name: Name, a: seq<Action>, around1: Surroundings, b: seq<Action>, around2: Surroundings,
                        c: seq<Action>, around3: Surroundings)
    ensures Run(m, LongExchange(name, a, around1, b, around2, c, around3)) ==
      Run(Next(Run(Next(m, Interest(name)), a), ServerStep(around1)), Serve(b, around2, c, around3))
  {
    var rest := Serve(b, around2, c, around3);
    RunCons(m, Interest(name), a + ([ServerStep(around1)] + rest));
    RunAppend(Next(m, Interest(name)), a, [ServerStep(around1)] + rest);
    RunCons(Run(Next(m, Interest(name)), a), ServerStep(around1), rest);
  }

  lemma RunCons(m: Machine, a: Action, rest: seq<Action>)
    ensures Run(m, [a] + rest) == Run(Next(m, a), rest)
  {
    assert ([a] + rest)[1..] == rest;
  }

  // ---------- the version of an operation ----------

  /** The publisher is in a release of `p` under version `v`. */
  predicate Releasing(m: Machine, p: Path, v: nat) {
    match m.publisher
    case ReleaseStamp(q, u) => q == p && u == v
    case ReleaseVersion(q, u) => q == p && u == v
    case ReleaseOpen(q, u) => q == p && u == v
    case ReleaseSign(q, u, _) => q == p && u == v
    case _ => false
  }

  /** The version of a release is the time at which it began: it stamps, records and signs under that, however the
      clock and the server go on. */
  lemma ReleaseKeepsVersion(m: Machine, a: Action, p: Path, v: nat)
    ensures m.publisher.Idle? && p in m.w.fs && a == Release(p, true) ==> Releasing(Next(m, a), p, m.w.clock)
    ensures Releasing(m, p, v) ==>
      var m' := Next(m, a);
      && (Releasing(m', p, v) || m'.publisher.Idle?)
      && (m'.w.fs == m.w.fs || (p in m.w.fs && m'.w.fs == m.w.fs[p := v]))
      && (m'.w.versions == m.w.versions || m'.w.versions == m.w.versions + {VersionRow(p, v)})
      && forall k: SegKey :: !(k.path == p && k.version == v) ==>
           (k in m'.w.segments <==> k in m.w.segments) && (k in m.w.segments ==> m'.w.segments[k] == m.w.segments[k])
  {
  }

  // ---------- operations that nothing interrupts ----------

  function Alone(w: World): Machine {
    Machine(w, Idle, Waiting, [])
  }

  lemma RenameBegins(w: World, w1: World, w2: World, from: Path, to: Path)
    requires w1 == MoveRow(w, from, to) && w2 == MoveVersions(w1, from, to)
    ensures Next(Next(Alone(w), Rename(from, to)), PublisherStep(true)) == Machine(w2, RenameSegments(from, to), Waiting, [])
  {
    assert Next(Alone(w), Rename(from, to)) == Machine(w1, RenameVersions(from, to), Waiting, []);
  }

  lemma RenameEnds(w2: World, w3: World, w4: World, from: Path, to: Path, ok: bool)
    requires w3 == MoveSegments(w2, from, to) && w4 == MoveFile(w3, from, to, ok)
    ensures Next(Next(Machine(w2, RenameSegments(from, to), Waiting, []), PublisherStep(true)), PublisherStep(ok)) == Alone(w4)
  {
    assert Next(Machine(w2, RenameSegments(from, to), Waiting, []), PublisherStep(true)) ==
      Machine(w3, RenameFile(from, to), Waiting, []);
  }

  function RenameSteps(from: Path, to: Path, ok: bool): seq<Action> {
    [Rename(from, to), PublisherStep(true), PublisherStep(true), PublisherStep(ok)]
  }

  /** Run without interruption, the four steps of a rename are `RenameOp`, and move rows and bytes. */
  lemma RenameAlone(w: World, from: Path, to: Path, ok: bool)
    ensures Run(Alone(w), RenameSteps(from, to, ok)) == Alone(RenameOp(w, from, to, ok))
    ensures RenameEffect(w, Run(Alone(w), RenameSteps(from, to, ok)).w, from, to, ok)
  {
    RenameDoes(w, from, to, ok);
    var w1 := MoveRow(w, from, to);
    var w2 := MoveVersions(w1, from, to);
    var w3 := MoveSegments(w2, from, to);
    RenameBegins(w, w1, w2, from, to);
    RenameEnds(w2, w3, MoveFile(w3, from, to, ok), from, to, ok);
    Run4(Alone(w), Rename(from, to), PublisherStep(true), PublisherStep(true), PublisherStep(ok));
  }

  lemma Run3(m: Machine, a: Action, b: Action, c: Action)
    ensures Run(m, [a, b, c]) == Next(Next(Next(m, a), b), c)
  {
    assert [a, b, c][1..] == [b, c] && [b, c][1..] == [c] && [c][1..] == [];
    var m1 := Next(m, a);
    assert Run(m1, [b, c]) == Run(Next(m1, b), [c]) == Next(Next(m1, b), c);
  }

  lemma Run4(m: Machine, a: Action, b: Action, c: Action, d: Action)
    ensures Run(m, [a, b, c, d]) == Next(Next(Next(Next(m, a), b), c), d)
  {
    assert [a, b, c, d][1..] == [b, c, d] && [b, c, d][1..] == [c, d] && [c, d][1..] == [d] && [d][1..] == [];
    var m1 := Next(m, a);
    var m2 := Next(m1, b);
    assert Run(m2, [c, d]) == Run(Next(m2, c), [d]) == Next(Next(m2, c), d);
  }

  function MknodSteps(p: Path, ok: bool): seq<Action> {
    [Mknod(p), PublisherStep(true), PublisherStep(true), PublisherStep(ok)]
  }

  lemma MknodAlone(w: World, p: Path, ok: bool)
    ensures Run(Alone(w), MknodSteps(p, ok)) == Alone(MknodOp(w, p, ok))
    ensures MknodEffect(w, Run(Alone(w), MknodSteps(p, ok)).w, p, ok)
  {
    MknodDoes(w, p, ok);
    Run4(Alone(w), Mknod(p), PublisherStep(true), PublisherStep(true), PublisherStep(ok));
  }

  lemma UnlinkAlone(w: World, p: Path, ok: bool)
    ensures Run(Alone(w), [Unlink(p), PublisherStep(ok)]) == Alone(UnlinkOp(w, p, ok))
    ensures UnlinkEffect(w, Run(Alone(w), [Unlink(p), PublisherStep(ok)]).w, p, ok)
  {
    UnlinkDoes(w, p, ok);
    assert [Unlink(p), PublisherStep(ok)][1..] == [PublisherStep(ok)] && [PublisherStep(ok)][1..] == [];
    var m1 := Next(Alone(w), Unlink(p));
    assert Run(m1, [PublisherStep(ok)]) == Next(m1, PublisherStep(ok));
  }

  function Repeat(a: Action, n: nat): seq<Action> {
    seq(n, _ => a)
  }

  lemma {:induction false} SignAlone(w: World, p: Path, v: nat, n: nat)
    requires p in w.files && |w.files[p]| < INT32_LIMIT && n <= TotalSegments(|w.files[p]|)
    ensures Run(Machine(w, ReleaseSign(p, v, 0), Waiting, []), Repeat(PublisherStep(true), n)) ==
      Machine(w.(segments := w.segments + SignedRows(w.prefix, p, v, w.files[p], n)),
              if n < TotalSegments(|w.files[p]|) then ReleaseSign(p, v, n) else Idle, Waiting, [])
    decreases n
  {
    var file, start, step := w.files[p], Machine(w, ReleaseSign(p, v, 0), Waiting, []), PublisherStep(true);
    if n == 0 {
      assert SignedRows(w.prefix, p, v, file, 0) == map[];
      assert w.segments + map[] == w.segments;
    } else {
      SignAlone(w, p, v, n - 1);
      LoopRead(file, n - 1);
      SignedRowsNext(w.segments, w.prefix, p, v, file, n - 1);
      assert Repeat(step, n) == Repeat(step, n - 1) + [step];
      RunAppend(start, Repeat(step, n - 1), [step]);
      RunOne(Run(start, Repeat(step, n - 1)), step);
    }
  }

  /** The steps that change the bytes of a file are whole operations, between any two steps of the server. */
  lemma WriteStep(m: Machine, p: Path, offset: nat, data: Bytes, ok: bool)
    requires m.publisher.Idle? && offset + |data| < INT32_LIMIT
    ensures Next(m, Write(p, offset, data, ok)) == m.(w := Next(m, Write(p, offset, data, ok)).w)
    ensures WriteEffect(m.w, Next(m, Write(p, offset, data, ok)).w, p, offset, data, ok)
  {
    WriteDoes(m.w, p, offset, data, ok);
  }

  lemma TruncateStep(m: Machine, p: Path, length: nat, ok: bool)
    requires m.publisher.Idle? && length < INT32_LIMIT
    ensures Next(m, Truncate(p, length, ok)) == m.(w := Next(m, Truncate(p, length, ok)).w)
    ensures TruncateEffect(m.w, Next(m, Truncate(p, length, ok)).w, p, length, ok)
  {
    TruncateDoes(m.w, p, length, ok);
  }

  /** A release without a row or without write access is no step at all. */
  lemma ReleaseRefused(m: Machine, p: Path, writable: bool)
    requires p !in m.w.fs || !writable
    ensures Next(m, Release(p, writable)) == m
  {
  }

  /** A release whose file is missing or cannot be opened stamps and records the version, and signs nothing. */
  lemma ReleaseUnopened(w: World, p: Path, ok: bool)
    requires p in w.fs && (!ok || p !in w.files)
    ensures
      var m' := Run(Alone(w), [Release(p, true)] + Repeat(PublisherStep(true), 2) + [PublisherStep(ok)]);
      && m' == Alone(ReleaseOp(w, p, true, ok, None)) && ReleaseEffect(w, m'.w, p, true, ok, None)
      && m'.w.segments == w.segments
  {
    var step := PublisherStep(true);
    assert [Release(p, true)] + Repeat(step, 2) + [PublisherStep(ok)] == [Release(p, true), step, step, PublisherStep(ok)];
    Run4(Alone(w), Release(p, true), step, step, PublisherStep(ok));
    ReleaseDoes(w, p, true, ok, None);
  }

  /** Run without interruption, a release takes exactly as many signing steps as the server counts
      segments, and ends in `ReleaseOp`. */
  lemma ReleaseAlone(w: World, p: Path)
    requires p in w.fs && p in w.files && |w.files[p]| < INT32_LIMIT
    ensures Run(Alone(w), [Release(p, true)] + Repeat(PublisherStep(true), 3 + TotalSegments(|w.files[p]|)))
      == Alone(ReleaseOp(w, p, true, true, None))
    ensures ReleaseEffect(w, ReleaseOp(w, p, true, true, None), p, true, true, None)
  {
    ReleaseDoes(w, p, true, true, None);
    SignedSoFar(w, p, TotalSegments(|w.files[p]|));
  }

  /** A release whose read of segment `k` fails has signed the segments before it, and ends. */
  lemma ReleaseCutShort(w: World, p: Path, k: nat)
    requires p in w.fs && p in w.files && |w.files[p]| < INT32_LIMIT && k < TotalSegments(|w.files[p]|)
    ensures Run(Alone(w), [Release(p, true)] + Repeat(PublisherStep(true), 3 + k) + [PublisherStep(false)])
      == Alone(ReleaseOp(w, p, true, true, Some(k)))
    ensures ReleaseEffect(w, ReleaseOp(w, p, true, true, Some(k)), p, true, true, Some(k))
  {
    ReleaseDoes(w, p, true, true, Some(k));
    var before := [Release(p, true)] + Repeat(PublisherStep(true), 3 + k);
    RunAppend(Alone(w), before, [PublisherStep(false)]);
    SignedSoFar(w, p, k);
    RunOne(Run(Alone(w), before), PublisherStep(false));
  }

  lemma SignedSoFar(w: World, p: Path, k: nat)
    requires p in w.fs && p in w.files && |w.files[p]| < INT32_LIMIT && k <= TotalSegments(|w.files[p]|)
    ensures Run(Alone(w), [Release(p, true)] + Repeat(PublisherStep(true), 3 + k)) ==
      Alone(ReleaseOp(w, p, true, true, Some(k))).(
        publisher := if k < TotalSegments(|w.files[p]|) then ReleaseSign(p, w.clock, k) else Idle)
    ensures k == TotalSegments(|w.files[p]|) ==> ReleaseOp(w, p, true, true, Some(k)) == ReleaseOp(w, p, true, true, None)
  {
    var step := PublisherStep(true);
    var w1 := InsertVersion(UpdateRow(w, p, w.clock), p, w.clock);
    var start := [Release(p, true), step, step, step];
    assert [Release(p, true)] + Repeat(step, 3 + k) == start + Repeat(step, k);
    RunAppend(Alone(w), start, Repeat(step, k));
    Run4(Alone(w), Release(p, true), step, step, step);
    assert Run(Alone(w), start) == Machine(w1, ReleaseSign(p, w.clock, 0), Waiting, []);
    SignAlone(w1, p, w.clock, k);
  }
}
