/** The stop-and-wait client of test/handler.cc, and a whole fetch from release to local file. */
module Fetch {
  import opened Octets
  import opened Segments
  import opened NameCodec
  import opened NameParser
  import opened NameRoundTrip
  import opened Worlds
  import opened Machines
  import opened Invariants
  import opened Guarantees
  import Listing

  /** The fields of a handler, its local file, the interests it has expressed for metadata and for file
      data, and whether it has reported the last segment. */
  datatype FetchState = FetchState(
    local: Bytes, asked: seq<Name>, expressed: seq<Name>, current: int, total: int, done: bool, finished: bool)

  const UINT64_LIMIT := 0x1_0000_0000_0000_0000

  /** `toSegment` of the last component, as an int; without the marker it is an exception. */
  function LastSegment(name: Name): Option<int> {
    if name == [] || name[|name| - 1] == [] || name[|name| - 1][0] != SEGMENT_MARKER then None
    else Some(AsInt32(Number(name[|name| - 1][1..])))
  }

  /** Conversion of an int to 64 bits without a sign. */
  function AsUint64(n: int): nat {
    n % UINT64_LIMIT
  }

  /** The fields of a file's metadata that the client uses. */
  datatype FileInfo = FileInfo(total: int, version: int)

  predicate Marked(name: Name) {
    exists i :: 0 <= i < |name| && (name[i] == FILE_COMPONENT || name[i] == DIR_COMPONENT)
  }

  /** The interest that is tried when the reply is neither metadata of a file nor a directory page. */
  function ModifiedInterest(interest: Name, name: Name): Name {
    interest + [if |name| > |interest| + 2 then Listing.META_SUFFIX else FILE_COMPONENT]
  }

  /** `onAttrData`; `info` is the decoded content, if it decodes. */
  function AfterInfo(st: FetchState, interest: Name, name: Name, info: Option<FileInfo>, fetchFile: bool): FetchState
    requires |name| >= 2
  {
    if name[|name| - 2] == FILE_COMPONENT && info.Some? then
      var request := name[..|name| - 2] + [VersionComponent(AsUint64(info.value.version)), SegmentComponent(0)];
      st.(total := info.value.total, done := true, expressed := if fetchFile then st.expressed + [request] else st.expressed)
    else if Marked(name) then st.(done := true)
    else st.(asked := st.asked + [ModifiedInterest(interest, name)])
  }

  /** `onFileData`. */
  function AfterData(st: FetchState, name: Name, content: Bytes, keep: bool): FetchState
    requires name != []
  {
    var received := st.(local := if keep then st.local + content else st.local);
    if LastSegment(name).None? then received
    else
      var current := AsInt32(LastSegment(name).value + 1);
      if current == st.total then received.(current := current, finished := true)
      else
        var request := name[..|name| - 1] + [SegmentComponent(AsUint64(current))];
        received.(current := current, expressed := st.expressed + [request])
  }

  /** The markers as the client spells them. */
  const FILE_NAME: Bytes := "%C1.FS.file"
  const DIR_NAME: Bytes := "%C1.FS.dir"

  lemma EscapedMarkers(c: Component)
    ensures ToEscapedString(c) == FILE_NAME <==> c == FILE_COMPONENT
    ensures ToEscapedString(c) == DIR_NAME <==> c == DIR_COMPONENT
  {
    EscapedStringRoundTrip(c);
    EscapedStringRoundTrip(FILE_COMPONENT);
    EscapedStringRoundTrip(DIR_COMPONENT);
    MarkersEscaped();
  }

  lemma MarkersEscaped()
    ensures ToEscapedString(FILE_COMPONENT) == FILE_NAME
    ensures ToEscapedString(DIR_COMPONENT) == DIR_NAME
  {
    var file: Bytes, dir: Bytes := ".FS.file", ".FS.dir";
    MarkedText(file);
    MarkedText(dir);
  }

  lemma MarkedText(s: Bytes)
    requires AllUnreserved(s)
    ensures ToEscapedString([META_MARKER] + s) == ['%', 'C', '1'] + s
  {
    var marked := [META_MARKER] + s;
    assert marked[0] != '.' && marked[1..] == s;
    EscapeFixed(s);
  }

  class Handler {
    const fileName: Bytes
    const fetchFile: bool
    var done: bool
    var currentSegment: int
    var totalSegment: int
    var localFile: Bytes
    var asked: seq<Name>
    var expressed: seq<Name>
    var finished: bool

    ghost function Value(): FetchState
      reads this
    {
      FetchState(localFile, asked, expressed, currentSegment, totalSegment, done, finished)
    }

    constructor (fileName: Bytes, fetchFile: bool, onDisk: Bytes)
      ensures Value() == FetchState(onDisk, [], [], 0, 0, false, false)
      ensures this.fileName == fileName && this.fetchFile == fetchFile
    {
      this.fileName, this.fetchFile := fileName, fetchFile;
      done, currentSegment, totalSegment := false, 0, 0;
      localFile, asked, expressed, finished := onDisk, [], [], false;
    }

    /** The loop over the components of a reply that looks for a marker. */
    static method HasMarker(name: Name) returns (marked: bool)
      ensures marked <==> Marked(name)
    {
      for i := 0 to |name|
        invariant forall j :: 0 <= j < i ==> name[j] != FILE_COMPONENT && name[j] != DIR_COMPONENT
      {
        var marker := ToEscapedString(name[i]);
        EscapedMarkers(name[i]);
        if marker == FILE_NAME || marker == DIR_NAME {
          return true;
        }
      }
      return false;
    }

    /** A reply to the first interest, or to one of those that `ModifiedInterest` gives. */
    method OnAttrData(interest: Name, name: Name, info: Option<FileInfo>)
      requires |name| >= 2
      modifies this
      ensures Value() == AfterInfo(old(Value()), interest, name, info, fetchFile)
      ensures name[|name| - 2] == FILE_COMPONENT && info.Some? ==>
        && done && totalSegment == info.value.total && asked == old(asked)
        && expressed == old(expressed) + (if !fetchFile then [] else
             [name[..|name| - 2] + [VersionComponent(AsUint64(info.value.version)), SegmentComponent(0)]])
      ensures Marked(name) && !(name[|name| - 2] == FILE_COMPONENT && info.Some?) ==> Value() == old(Value()).(done := true)
      ensures !Marked(name) ==>
        var hint: Component := if |name| > |interest| + 2 then "_list" else FILE_COMPONENT;
        Value() == old(Value()).(asked := old(asked) + [interest + [hint]])
      ensures localFile == old(localFile) && currentSegment == old(currentSegment) && finished == old(finished)
    {
      var marker := ToEscapedString(name[|name| - 2]);
      EscapedMarkers(name[|name| - 2]);
      if marker == DIR_NAME {
        assert Marked(name);
      } else if marker == FILE_NAME {
        assert Marked(name);
        if info.Some? {
          totalSegment := info.value.total;
          if fetchFile {
            var request := name[..|name| - 2];
            request := request + [VersionComponent(AsUint64(info.value.version)), SegmentComponent(0)];
            expressed := expressed + [request];
          }
        }
      } else {
        var marked := HasMarker(name);
        if marked {
          done := true;
          return;
        }
        var modifiedInterestName := interest;
        if |name| > |interest| + 2 {
          modifiedInterestName := modifiedInterestName + [Listing.META_SUFFIX];
        } else {
          modifiedInterestName := modifiedInterestName + [FILE_COMPONENT];
        }
        asked := asked + [modifiedInterestName];
        return;
      }
      done := true;
    }

    /** The content goes to the end of the local file byte by byte; then the next segment is asked for. When
        the last component is no segment, `toSegment` throws, after the content has been kept. */
    method OnFileData(name: Name, content: Bytes) returns (thrown: bool)
      requires name != []
      modifies this
      ensures Value() == AfterData(old(Value()), name, content, fileName != [])
      ensures thrown <==> LastSegment(name).None?
      ensures localFile == old(localFile) + (if fileName != [] then content else [])
      ensures done == old(done) && totalSegment == old(totalSegment) && asked == old(asked)
      ensures thrown ==>
        && currentSegment == old(currentSegment) && finished == old(finished) && expressed == old(expressed)
      ensures !thrown ==>
        && currentSegment == AsInt32(LastSegment(name).value + 1)
        && (currentSegment == totalSegment ==> finished && expressed == old(expressed))
        && (currentSegment != totalSegment ==> (finished == old(finished) && expressed ==
              old(expressed) + [name[..|name| - 1] + [SegmentComponent(AsUint64(currentSegment))]]))
    {
      if fileName != [] {
        var i := 0;
        while i < |content|
          invariant 0 <= i <= |content|
          invariant Value() == old(Value()).(local := old(localFile) + content[..i])
        {
          localFile := localFile + [content[i]];
          i := i + 1;
        }
        assert content[..|content|] == content;
      }
      var segment := LastSegment(name);
      if segment.None? {
        return true;
      }
      currentSegment := segment.value;
      currentSegment := AsInt32(currentSegment + 1);
      if currentSegment == totalSegment {
        finished := true;
      } else {
        expressed := expressed + [name[..|name| - 1] + [SegmentComponent(AsUint64(currentSegment))]];
      }
      return false;
    }

    method OnTimeout()
      modifies this`done
      ensures Value() == old(Value()).(done := true)
    {
      done := true;
    }
  }

  // ---------- sessions ----------

  /** The packet is what the client waits for. */
  predicate Awaits(st: FetchState, packet: Packet) {
    && packet.Content? && !st.finished && st.expressed != []
    && packet.name == st.expressed[|st.expressed| - 1]
    && packet.name != []
  }

  /** The state after the packets have been delivered, each of them awaited; a packet that is not
      awaited changes nothing. */
  function Delivered(st: FetchState, packets: seq<Packet>): FetchState {
    if packets == [] then st
    else
      var soFar := Delivered(st, packets[..|packets| - 1]);
      var packet := packets[|packets| - 1];
      if Awaits(soFar, packet) then AfterData(soFar, packet.name, packet.content, true) else soFar
  }

  predicate Session(st: FetchState, packets: seq<Packet>) {
    packets != [] ==>
      && Session(st, packets[..|packets| - 1])
      && Awaits(Delivered(st, packets[..|packets| - 1]), packets[|packets| - 1])
  }

  lemma SignedNameEnd(prefix: Name, p: Path, v: nat, s: nat)
    requires s < INT32_LIMIT
    ensures LastSegment(SignedName(prefix, p, v, s)) == Some(s)
    ensures forall t: nat ::
      SignedName(prefix, p, v, s)[..|SignedName(prefix, p, v, s)| - 1] + [SegmentComponent(t)] == SignedName(prefix, p, v, t)
  {
    NumberTokens(s);
    NumberDigits(s);
    var name := SignedName(prefix, p, v, s);
    assert name[|name| - 1] == SegmentComponent(s);
    assert SegmentComponent(s)[1..] == Digits(s);
  }

  lemma {:induction false} UnreservedPiecesDecode(pieces: seq<Bytes>)
    requires forall i :: 0 <= i < |pieces| ==> AllUnreserved(pieces[i])
    ensures DecodeEach(pieces) == KeepEach(pieces)
  {
    if pieces != [] {
      EscapeFixed(pieces[0]);
      UnescapeEscape(pieces[0]);
      UnreservedPiecesDecode(pieces[1..]);
    }
  }

  lemma PlainPathFromUri(p: Path)
    requires FilePath(p) && PlainPath(p)
    ensures NameFromUri(p) == KeepEach(Split(p)[1..])
  {
    FilePathComponents(p);
    var components := Split(p)[1..];
    assert forall i :: 0 <= i < |components| ==> ComesBack(components[i]);
    assert forall i :: 0 < i < |Split(p)| ==> Split(p)[i] == components[i - 1];
    UnreservedPiecesDecode(Split(p));
  }

  /** The metadata reply for a plain path sends the client to the name that was signed. */
  lemma InfoLeadsToSignedName(st: FetchState, interest: Name, prefix: Name, p: Path, info: FileInfo)
    requires PlainPrefix(prefix) && FilePath(p) && PlainPath(p) && 0 <= info.version < INT32_LIMIT
    ensures |MetaName(prefix, p, info.version)| >= 2
    ensures AfterInfo(st, interest, MetaName(prefix, p, info.version), Some(info), true) ==
      st.(total := info.total, done := true, expressed := st.expressed + [SignedName(prefix, p, info.version, 0)])
  {
    var components, name := Split(p)[1..], MetaName(prefix, p, info.version);
    FilePathComponents(p);
    PlainPathFromUri(p);
    SignedNameParts(prefix, components, info.version, 0);
    assert name[..|name| - 2] == prefix + KeepEach(components);
  }

  /** What the names that the two sides build for a plain path ask for, as the server parses them: bare or with a file
      marker, metadata of the path; with a version, that version; and the names of metadata and of directory
      pages, metadata again. */
  lemma NamesAskFor(prefix: Name, p: Path, v: nat)
    requires PlainPrefix(prefix) && FilePath(p) && PlainPath(p) && v < INT32_LIMIT
    ensures
      var base, text := prefix + NameFromUri(p), PathText(prefix);
      var version := [VersionComponent(v)];
      && NoEmptyComponent(base) && NoEmptyComponent(base + [FILE_COMPONENT]) && NoEmptyComponent(base + version)
      && NoEmptyComponent(base + [DIR_COMPONENT] + version) && NoEmptyComponent(MetaName(prefix, p, v))
      && Parse(text, base) == NameParser.Request(1, -1, -1, p)
      && Parse(text, base + [FILE_COMPONENT]) == NameParser.Request(1, -1, -1, p)
      && Parse(text, base + version) == NameParser.Request(2, v, -1, p)
      && Parse(text, base + [DIR_COMPONENT] + version) == NameParser.Request(1, v, -1, p)
      && Parse(text, MetaName(prefix, p, v)) == NameParser.Request(1, v, -1, p)
  {
    var base, text, version := prefix + NameFromUri(p), PathText(prefix), [VersionComponent(v)];
    PlainBase(prefix, p);
    HeadTextPlain(base);
    assert base + [] == base && base + [FILE_COMPONENT] + [] == base + [FILE_COMPONENT];
    ParseUnsegmented(text, base, None);
    ParseUnsegmented(text, base, Some(v));
    MetaLast(base, FILE_COMPONENT);
    ParseUnsegmented(text, base + [FILE_COMPONENT], None);
    ParseUnsegmented(text, base + [FILE_COMPONENT], Some(v));
    assert MetaName(prefix, p, v) == base + [FILE_COMPONENT] + version;
    MetaLast(base, DIR_COMPONENT);
    ParseUnsegmented(text, base + [DIR_COMPONENT], Some(v));
  }

  lemma PlainBase(prefix: Name, p: Path)
    requires PlainPrefix(prefix) && FilePath(p) && PlainPath(p)
    ensures AllPlain(prefix + NameFromUri(p)) && UnreservedName(prefix + NameFromUri(p))
    ensures HeadText(prefix + NameFromUri(p)) == PathText(prefix) + p && p != []
  {
    var components, kept := Split(p)[1..], NameFromUri(p);
    FilePathComponents(p);
    PlainPathFromUri(p);
    KeptPrintsBack(components);
    UnreservedIsPlain(kept);
    PlainPrefixIsPlain(prefix);
    HeadTextPlain(prefix);
    HeadTextPlain(kept);
    HeadTextAppend(prefix, kept);
    assert forall i :: 0 <= i < |prefix| ==> PlainComponent(prefix[i]);
  }

  /** A client that asked for the bare path and got a segment of the file asks for metadata next, and a directory page
      ends its search. */
  lemma SearchGoesOn(st: FetchState, prefix: Name, p: Path, v: nat, s: nat, info: Option<FileInfo>, fetchFile: bool)
    requires PlainPrefix(prefix) && FilePath(p) && PlainPath(p)
    ensures
      var base, name := prefix + NameFromUri(p), SignedName(prefix, p, v, s);
      |name| >= 2 && AfterInfo(st, base, name, info, fetchFile) == st.(asked := st.asked + [base + [FILE_COMPONENT]])
    ensures
      var base := prefix + NameFromUri(p);
      AfterInfo(st, base, base + [DIR_COMPONENT, VersionComponent(v)], info, fetchFile) == st.(done := true)
  {
    var base, numbers := prefix + NameFromUri(p), [VersionComponent(v), SegmentComponent(s)];
    FilePathComponents(p);
    PlainPathFromUri(p);
    SignedNameParts(prefix, Split(p)[1..], v, s);
    PlainBase(prefix, p);
    var name := SignedName(prefix, p, v, s);
    assert name == base + numbers;
    forall i | 0 <= i < |name|
      ensures name[i][0] != META_MARKER
    {
      assert i < |base| ==> name[i] == base[i] && base[i] != [] && TokenOf(base[i]).Plain?;
    }
    assert FILE_COMPONENT[0] == META_MARKER && DIR_COMPONENT[0] == META_MARKER;
    var page := base + [DIR_COMPONENT, VersionComponent(v)];
    assert page[|base|] == DIR_COMPONENT && |DIR_COMPONENT| != |FILE_COMPONENT|;
  }

  /** A client that starts from a metadata reply of the published version is ready for `EndToEndFetch`. */
  lemma InfoStartsFetch(start: Machine, before: seq<Action>, m: Machine, after: seq<Action>, p: Path, v: nat, i: nat,
                        st: FetchState, interest: Name)
    requires Reachable(start, before, m) && Published(m.w, p, v) && Quiet(m, after, p)
    requires PlainPrefix(m.w.prefix) && FilePath(p) && PlainPath(p)
    requires |m.sent| <= i < |Run(m, after).sent|
    requires Run(m, after).sent[i].Info? && Run(m, after).sent[i].path == p && Run(m, after).sent[i].version == v
    ensures |Run(m, after).sent[i].name| >= 2
    ensures
      var info := Run(m, after).sent[i];
      AfterInfo(st, interest, info.name, Some(FileInfo(info.totalSegments, v)), true) ==
        st.(total := TotalSegments(|m.w.files[p]|), done := true,
            expressed := st.expressed + [SignedName(m.w.prefix, p, v, 0)])
  {
    ReachableInvariant(start, before, m);
    assert v < INT32_LIMIT by {
      assert VersionRow(p, v) in m.w.versions;
    }
    PublishedBytes(start, before, m, after, p, v, i);
    InfoLeadsToSignedName(st, interest, m.w.prefix, p, FileInfo(TotalSegments(|m.w.files[p]|), v));
  }

  lemma AskNext(prefix: Name, p: Path, v: nat, st: FetchState, n: nat, content: Bytes)
    requires n + 1 < INT32_LIMIT
    ensures SignedName(prefix, p, v, n) != []
    ensures AfterData(st, SignedName(prefix, p, v, n), content, true) ==
      var received := st.(local := st.local + content, current := n + 1);
      if n + 1 == st.total then received.(finished := true)
      else received.(expressed := st.expressed + [SignedName(prefix, p, v, n + 1)])
  {
    SignedNameEnd(prefix, p, v, n);
  }

  /** `n` segments after `st`: the local file is what was there before plus the first `n` segments, and the
      last segment has been reported exactly when `n` is the segment count; until then segment `n` is
      being asked for. */
  predicate Progress(prefix: Name, p: Path, v: nat, file: Bytes, st: FetchState, n: nat, end: FetchState) {
    && end.total == st.total && n <= st.total
    && end.local == st.local + file[..Min(n * SEG_SIZE, |file|)]
    && (end.finished <==> n == st.total)
    && (n > 0 ==> (n - 1) * SEG_SIZE < |file|)
    && (!end.finished ==> end.expressed != [] && end.expressed[|end.expressed| - 1] == SignedName(prefix, p, v, n))
  }

  /** One awaited packet with the right bytes moves the client one segment on. */
  lemma DeliverStep(prefix: Name, p: Path, v: nat, file: Bytes, st: FetchState, n: nat, soFar: FetchState, packet: Packet)
    requires PlainPrefix(prefix) && FilePath(p) && PlainPath(p) && v < INT32_LIMIT && |file| < INT32_LIMIT
    requires st.total == TotalSegments(|file|)
    requires Progress(prefix, p, v, file, st, n, soFar)
    requires Awaits(soFar, packet) && BytesOk(prefix, packet, p, v, file)
    ensures Progress(prefix, p, v, file, st, n + 1, AfterData(soFar, packet.name, packet.content, true))
    ensures PacketOk(prefix, packet, p, v, file) ==> Verifies(packet)
  {
    SignedNameRoundTrip(prefix, p, v, n);
    assert PacketOk(prefix, packet, p, v, file) ==> IsAnswer(prefix, packet, p, v, n, file);
    AskNext(prefix, p, v, soFar, n, packet.content);
    SliceSize(file, n);
    GrowByOne(st.local, file, n);
  }

  lemma GrowByOne(onDisk: Bytes, file: Bytes, n: nat)
    ensures onDisk + file[..Min(n * SEG_SIZE, |file|)] + Slice(file, n) == onDisk + file[..Min((n + 1) * SEG_SIZE, |file|)]
  {
    assert file[..Min(n * SEG_SIZE, |file|)] + Slice(file, n) == file[..Min((n + 1) * SEG_SIZE, |file|)];
    Associative(onDisk, file[..Min(n * SEG_SIZE, |file|)], Slice(file, n));
  }

  /** Every delivery of a packet with the right bytes is progress by one segment; packets that are good
      answers verified. */
  lemma {:induction false} SessionProgress(prefix: Name, p: Path, v: nat, file: Bytes, st: FetchState, packets: seq<Packet>)
    requires PlainPrefix(prefix) && FilePath(p) && PlainPath(p) && v < INT32_LIMIT && |file| < INT32_LIMIT
    requires st.total == TotalSegments(|file|) && !st.finished
    requires st.expressed != [] && st.expressed[|st.expressed| - 1] == SignedName(prefix, p, v, 0)
    requires Session(st, packets)
    requires forall i :: 0 <= i < |packets| ==> BytesOk(prefix, packets[i], p, v, file)
    ensures Progress(prefix, p, v, file, st, |packets|, Delivered(st, packets))
    ensures forall i :: 0 <= i < |packets| && PacketOk(prefix, packets[i], p, v, file) ==> Verifies(packets[i])
    decreases |packets|
  {
    var n := |packets|;
    if n == 0 {
      assert st.local + file[..0] == st.local;
    } else {
      var earlier := packets[..n - 1];
      assert forall i :: 0 <= i < n - 1 ==> packets[i] == earlier[i];
      SessionProgress(prefix, p, v, file, st, earlier);
      DeliverStep(prefix, p, v, file, st, n - 1, Delivered(st, earlier), packets[n - 1]);
      forall i | 0 <= i < n && PacketOk(prefix, packets[i], p, v, file)
        ensures Verifies(packets[i])
      {
        assert i < n - 1 ==> packets[i] == earlier[i];
      }
    }
  }

  predicate SentSince(m: Machine, later: Machine, packet: Packet) {
    exists j :: |m.sent| <= j < |later.sent| && later.sent[j] == packet
  }

  /** A fetch of a published file that nobody touches meanwhile, with publisher and server interleaved
      in any way and each awaited packet taken from what the server has put since: the local file
      grows by exactly the fetched prefix, and "last segment" is reported only for a file whose size is not
      a multiple of the segment size, and then with the whole file. Unless the server had a stale
      selection in hand at the start, every packet verifies. */
  lemma EndToEndFetch(start: Machine, before: seq<Action>, m: Machine, after: seq<Action>,
                      p: Path, v: nat, st: FetchState, packets: seq<Packet>)
    requires Reachable(start, before, m) && Published(m.w, p, v) && Quiet(m, after, p)
    requires PlainPrefix(m.w.prefix) && FilePath(p) && PlainPath(p)
    requires st.total == TotalSegments(|m.w.files[p]|) && !st.finished
    requires st.expressed != [] && st.expressed[|st.expressed| - 1] == SignedName(m.w.prefix, p, v, 0)
    requires Session(st, packets)
    requires forall i :: 0 <= i < |packets| ==> SentSince(m, Run(m, after), packets[i])
    ensures
      var file, n, end := m.w.files[p], |packets|, Delivered(st, packets);
      && end.local == st.local + file[..Min(n * SEG_SIZE, |file|)]
      && (end.finished ==> end.local == st.local + file && |file| % SEG_SIZE != 0)
      && (n * SEG_SIZE >= |file| ==> end.local == st.local + file && (end.finished <==> |file| % SEG_SIZE != 0))
    ensures SelectionGood(m, p, v) ==> forall i :: 0 <= i < |packets| ==> Verifies(packets[i])
  {
    var file := m.w.files[p];
    ReachableInvariant(start, before, m);
    assert v < INT32_LIMIT by {
      assert VersionRow(p, v) in m.w.versions;
    }
    forall i | 0 <= i < |packets|
      ensures BytesOk(m.w.prefix, packets[i], p, v, file)
      ensures SelectionGood(m, p, v) ==> PacketOk(m.w.prefix, packets[i], p, v, file)
    {
      var j :| |m.sent| <= j < |Run(m, after).sent| && Run(m, after).sent[j] == packets[i];
      PublishedBytes(start, before, m, after, p, v, j);
      PublishedAnswers(start, before, m, p, v);
    }
    SessionProgress(m.w.prefix, p, v, file, st, packets);
    WholeFile(file, |packets|);
  }

  lemma WholeFile(file: Bytes, n: nat)
    requires n > 0 ==> (n - 1) * SEG_SIZE < |file|
    ensures n * SEG_SIZE >= |file| ==> file[..Min(n * SEG_SIZE, |file|)] == file
    ensures n == TotalSegments(|file|) ==> n * SEG_SIZE >= |file| && |file| % SEG_SIZE != 0
    ensures n * SEG_SIZE >= |file| && |file| % SEG_SIZE != 0 ==> n == TotalSegments(|file|)
  {
    assert file[..|file|] == file;
  }

  /** The request with which a fetch of an aligned or empty file ends is never answered, whatever the server
      has in hand when the version is published. */
  lemma PastTheEndUnanswered(start: Machine, before: seq<Action>, m: Machine, after: seq<Action>, p: Path, v: nat, n: nat, i: nat)
    requires Reachable(start, before, m) && Published(m.w, p, v) && Quiet(m, after, p)
    requires PlainPrefix(m.w.prefix) && FilePath(p) && PlainPath(p) && n < INT32_LIMIT
    requires n * SEG_SIZE >= |m.w.files[p]|
    requires |m.sent| <= i < |Run(m, after).sent| && Run(m, after).sent[i].Content?
    ensures Run(m, after).sent[i].name != SignedName(m.w.prefix, p, v, n)
  {
    ReachableInvariant(start, before, m);
    assert v < INT32_LIMIT by {
      assert VersionRow(p, v) in m.w.versions;
    }
    PublishedBytes(start, before, m, after, p, v, i);
    SignedNameRoundTrip(m.w.prefix, p, v, n);
    SliceSize(m.w.files[p], n);
  }

  /** What the client may rely on while it fetches a published file of plain path. */
  ghost predicate Fetchable(m: Machine, p: Path, v: nat) {
    && Invariant(m) && Published(m.w, p, v) && m.server.Waiting?
    && PlainPrefix(m.w.prefix) && FilePath(p) && PlainPath(p)
  }

  lemma AnswerNext(m: Machine, p: Path, v: nat, n: nat) returns (actions: seq<Action>, packet: Packet)
    requires Fetchable(m, p, v) && v < INT32_LIMIT && n * SEG_SIZE < |m.w.files[p]|
    ensures Quiet(m, actions, p)
    ensures Run(m, actions) == m.(sent := m.sent + [packet])
    ensures packet.Content? && packet.name == SignedName(m.w.prefix, p, v, n)
    ensures PacketOk(m.w.prefix, packet, p, v, m.w.files[p])
  {
    var name, around := SignedName(m.w.prefix, p, v, n), Surroundings(0, None);
    SignedNameRoundTrip(m.w.prefix, p, v, n);
    actions := Exchange(name, [], around, [], around);
    QuietServe(Next(m, Interest(name)), [], around, [], around, p);
    assert actions[1..] == Serve([], around, [], around);
    RunExchange(m, name, [], around, [], around);
    packet := SegmentIsAnswered(m, name, p, v, n, [], around, [], around);
    var m1 := Next(m, Interest(name));
    var m2 := Next(m1, ServerStep(around));
    ServerOnly(m, Interest(name));
    ServerOnly(m1, ServerStep(around));
    ServerOnly(m2, ServerStep(around));
  }

  lemma ServerOnly(m: Machine, a: Action)
    requires a.Interest? || a.ServerStep?
    ensures Next(m, a).w == m.w && Next(m, a).publisher == m.publisher
  {
  }

  /** Some run of the server alone answers the first `n` segments, as long as each holds a byte. */
  lemma {:induction false} ServeAll(m: Machine, p: Path, v: nat, n: nat) returns (actions: seq<Action>, packets: seq<Packet>)
    requires Fetchable(m, p, v) && v < INT32_LIMIT
    requires n > 0 ==> (n - 1) * SEG_SIZE < |m.w.files[p]|
    ensures Quiet(m, actions, p)
    ensures |packets| == n && Run(m, actions) == m.(sent := m.sent + packets)
    ensures forall i :: 0 <= i < n ==> packets[i].Content? && packets[i].name == SignedName(m.w.prefix, p, v, i)
    ensures forall i :: 0 <= i < n ==> PacketOk(m.w.prefix, packets[i], p, v, m.w.files[p])
  {
    if n == 0 {
      actions, packets := [], [];
      assert m.sent + [] == m.sent;
    } else {
      var actions0, packets0 := ServeAll(m, p, v, n - 1);
      RunInvariant(m, actions0);
      var m0 := Run(m, actions0);
      var more, packet := AnswerNext(m0, p, v, n - 1);
      actions, packets := actions0 + more, packets0 + [packet];
      QuietAppend(m, actions0, more, p);
      RunAppend(m, actions0, more);
      assert (m.sent + packets0) + [packet] == m.sent + packets;
    }
  }

  /** Answers in order of their segment numbers are what the client waits for, one after the other. */
  lemma {:induction false} OrderedAnswersAwaited(prefix: Name, p: Path, v: nat, file: Bytes, st: FetchState, packets: seq<Packet>)
    requires PlainPrefix(prefix) && FilePath(p) && PlainPath(p) && v < INT32_LIMIT && |file| < INT32_LIMIT
    requires st.total == TotalSegments(|file|) && !st.finished
    requires st.expressed != [] && st.expressed[|st.expressed| - 1] == SignedName(prefix, p, v, 0)
    requires forall i :: 0 <= i < |packets| ==> packets[i].Content? && packets[i].name == SignedName(prefix, p, v, i)
    requires forall i :: 0 <= i < |packets| ==> BytesOk(prefix, packets[i], p, v, file)
    requires |packets| <= st.total
    ensures Session(st, packets)
    decreases |packets|
  {
    if packets != [] {
      var n := |packets| - 1;
      var earlier := packets[..n];
      assert forall i :: 0 <= i < n ==> earlier[i] == packets[i];
      OrderedAnswersAwaited(prefix, p, v, file, st, earlier);
      SessionProgress(prefix, p, v, file, st, earlier);
      SignedNameEnd(prefix, p, v, n);
      assert Awaits(Delivered(st, earlier), packets[n]);
    }
  }

  /** A published file can be fetched: some run serves every segment that holds a byte, the local file
      then holds the whole file, every packet verifies, and the last segment is reported if and only if the
      size is not a multiple of the segment size. */
  lemma FetchCompletes(m: Machine, p: Path, v: nat, st: FetchState) returns (actions: seq<Action>, packets: seq<Packet>)
    requires Fetchable(m, p, v)
    requires st.total == TotalSegments(|m.w.files[p]|) && !st.finished
    requires st.expressed != [] && st.expressed[|st.expressed| - 1] == SignedName(m.w.prefix, p, v, 0)
    ensures Quiet(m, actions, p)
    ensures Run(m, actions) == m.(sent := m.sent + packets) && Session(st, packets)
    ensures Delivered(st, packets).local == st.local + m.w.files[p]
    ensures Delivered(st, packets).finished <==> |m.w.files[p]| % SEG_SIZE != 0
    ensures forall i :: 0 <= i < |packets| ==> Verifies(packets[i])
  {
    var file := m.w.files[p];
    assert v < INT32_LIMIT by {
      assert VersionRow(p, v) in m.w.versions;
    }
    var n := (|file| + SEG_SIZE - 1) / SEG_SIZE;
    actions, packets := ServeAll(m, p, v, n);
    OrderedAnswersAwaited(m.w.prefix, p, v, file, st, packets);
    SessionProgress(m.w.prefix, p, v, file, st, packets);
    assert file[..|file|] == file;
  }
}
