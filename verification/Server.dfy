/** `onInterestCallback` and the functions it calls, as the code has them, over a publisher's tables;
    each agrees with the steps of the interleaved machine when nothing comes in between. */
module Server {
  import opened Octets
  import opened Segments
  import opened NameCodec
  import opened NameParser
  import opened Worlds
  import opened Machines
  import opened Guarantees
  import opened Publishers
  import Listing

  function Sent(reply: Option<Packet>): seq<Packet> {
    if reply.Some? then [reply.value] else []
  }

  /** The reply to a request for a segment: there is one exactly if the segment is stored and the file has a byte at
      the offset that the shift gives, which below segment 2^18 is the segment's own. It holds the bytes from there
      on, the stored signature and the number of the last segment. */
  function ContentReply(w: World, name: Name, p: Path, v: int, s: int): Option<Packet> {
    if v < 0 || s < 0 || SegKey(p, v, s) !in w.segments || p !in w.files then None
    else
      var offset := SegmentToSize(s);
      if !(0 <= offset < |w.files[p]|) then None
      else
        Some(Content(name, w.files[p][offset..Min(offset + SEG_SIZE, |w.files[p]|)], w.segments[SegKey(p, v, s)],
                     Some(|w.files[p]| / SEG_SIZE)))
  }

  lemma ContentSentIs(w: World, name: Name, p: Path, v: int, s: int, around: Surroundings)
    ensures Sent(ContentReply(w, name, p, v, s)) == ContentSent(w, name, p, v, s, around)
  {
  }

  /** For a published version the reply is the good answer if the segment holds a byte, and else there is none. */
  lemma PublishedReply(w: World, name: Name, p: Path, v: nat, s: nat)
    requires Published(w, p, v) && s < SEG_LIMIT && |w.files[p]| < INT32_LIMIT
    ensures s * SEG_SIZE < |w.files[p]| ==>
      (ContentReply(w, name, p, v, s).Some? && IsAnswer(w.prefix, ContentReply(w, name, p, v, s).value, p, v, s, w.files[p]))
    ensures s * SEG_SIZE >= |w.files[p]| ==> ContentReply(w, name, p, v, s).None?
  {
    ShiftExact(s);
    if s * SEG_SIZE < |w.files[p]| {
      assert RowMatches(w, p, v, s);
    }
  }

  /** The reply to a metadata request for a path with a row: there is one exactly if the current version is recorded,
      and it says the version, and the size of the file or, without one, the value left in the buffer. */
  predicate InfoReply(w: World, reply: Option<Packet>, p: Path, garbage: int)
    requires p in w.fs
  {
    && (reply.Some? <==> VersionRow(p, w.fs[p]) in w.versions)
    && (reply.Some? ==>
          && reply.value.Info? && reply.value.path == p && reply.value.version == w.fs[p]
          && reply.value.name == w.prefix + NameFromUri(p) + [FILE_COMPONENT, VersionComponent(w.fs[p])]
          && reply.value.size == (if p in w.files then |w.files[p]| else garbage)
          && (reply.value.totalSegments - 1) * SEG_SIZE <= reply.value.size < reply.value.totalSegments * SEG_SIZE)
  }

  /** The reply for a path without a row: the page of the directory there, if there is one, dated with its time. */
  predicate PageReply(w: World, reply: Option<Packet>, p: Path, directory: Option<Directory>) {
    && (reply.Some? <==> directory.Some?)
    && (reply.Some? ==>
          && reply.value.Page?
          && reply.value.name == w.prefix + NameFromUri(p) + [DIR_COMPONENT, VersionComponent(directory.value.modified)]
          && reply.value.content == Listing.PageOf(Listing.QueryPath(p), directory.value.entries))
  }

  /** What the machine sends for a segment, from the SELECT on. */
  function ContentSent(w: World, name: Name, p: Path, v: int, s: int, around: Surroundings): seq<Packet> {
    var row := FindRow(w, p, v, s);
    if row.None? then []
    else ServerEffect(ServerEffect(Machine(w, Idle, HaveRow(name, p, v, s, row.value), []), around), around).sent
  }

  /** What the machine sends as metadata, from the SELECT in file_versions on. */
  function InfoSent(w: World, p: Path, v: nat, around: Surroundings): seq<Packet> {
    if VersionRow(p, v) !in w.versions then []
    else ServerEffect(Machine(w, Idle, HaveVersion(p, v), []), around).sent
  }

  function ServiceSent(w: World, service: Service, around: Surroundings): seq<Packet> {
    match service
    case HaveFile(name, p, v) => ContentSent(w, name + [SegmentComponent(0)], p, v, 0, around)
    case HaveRow(name, p, v, s, sig) =>
      ServerEffect(ServerEffect(Machine(w, Idle, service, []), around), around).sent
    case NoRow(p) => DirectoryReply(w.prefix, p, around.directory)
    case HaveCurrent(p, v) => InfoSent(w, p, v, around)
    case _ => []
  }

  lemma RestAlone(w: World, service: Service, around: Surroundings)
    requires !service.HaveSize? && !service.HaveVersion?
    ensures
      var step := ServerStep(around);
      Next(Next(Next(Machine(w, Idle, service, []), step), step), step).sent == ServiceSent(w, service, around)
  {
  }

  lemma ServedAlone(w: World, name: Name, around: Surroundings)
    requires NoEmptyComponent(name)
    ensures Run(Alone(w), [Interest(name), ServerStep(around), ServerStep(around), ServerStep(around)]).sent
      == ServiceSent(w, Receive(w, name), around)
  {
    var step := ServerStep(around);
    Run4(Alone(w), Interest(name), step, step, step);
    RestAlone(w, Receive(w, name), around);
    assert Next(Alone(w), Interest(name)) == Machine(w, Idle, Receive(w, name), []);
  }

  /** `readFileSize`. Of a file that is there, the segments counted make up the file, the last of them holds
      less than a whole segment, and as many are signed by a release; without a file the size is what
      was on the stack. */
  method ReadFileSize(db: Publisher, path: Path, garbage: int) returns (size: int, total: int)
    ensures path in db.files ==> (total > 0 && Reassembled(db.files[path], total) == db.files[path]
      && size == |db.files[path]| && total == SegmentsSigned(db.files[path], None))
    ensures path !in db.files ==> size == garbage
    ensures (total - 1) * SEG_SIZE <= size < total * SEG_SIZE
  {
    if path in db.files {
      SegmentsCoverFile(db.files[path]);
    }
    size := if path in db.files then |db.files[path]| else garbage;
    total := SeekSegment(size) + 1;
  }

  /** `seg` is -1 when the request named no segment. */
  method SendFileContent(db: Publisher, interest: Name, path: Path, version: int, seg: int, around: Surroundings)
    returns (reply: Option<Packet>)
    ensures
      var first := if seg == -1 then 0 else seg;
      var name := if seg == -1 then interest + [SegmentComponent(0)] else interest;
      Sent(reply) == ContentSent(db.Value(), name, path, version, first, around)
      && reply == ContentReply(db.Value(), name, path, version, first)
    ensures reply.Some? ==> reply.value.content != []
  {
    var name, first := interest, seg;
    if first == -1 {
      name := name + [SegmentComponent(0)];
      first := 0;
    }
    ContentSentIs(db.Value(), name, path, version, first, around);
    if version < 0 || first < 0 || SegKey(path, version, first) !in db.fileSegments {
      return None;
    }
    var signature := db.fileSegments[SegKey(path, version, first)];
    var size, total := ReadFileSize(db, path, around.garbage);
    var finalBlock := None;
    if total > 0 {
      finalBlock := Some(total - 1);
    }
    if path !in db.files {
      return None;
    }
    var output := Pread(db.files[path], SegmentToSize(first));
    if output.None? || output.value == [] {
      return None;
    }
    reply := Some(Content(name, output.value, signature, finalBlock));
  }

  method SendFileMeta(db: Publisher, path: Path, version: nat, around: Surroundings) returns (reply: Option<Packet>)
    ensures Sent(reply) == InfoSent(db.Value(), path, version, around)
    ensures reply.Some? <==> VersionRow(path, version) in db.fileVersions
    ensures path in db.fileSystem && db.fileSystem[path] == version ==> InfoReply(db.Value(), reply, path, around.garbage)
  {
    if VersionRow(path, version) !in db.fileVersions {
      return None;
    }
    var size, total := ReadFileSize(db, path, around.garbage);
    reply := Some(Info(MetaName(db.prefix, path, version), path, size, total, version));
  }

  /** `sendDirMetaBrowserFriendly`; `directory` is what `opendir` finds at the path. */
  method SendDirMetaBrowserFriendly(db: Publisher, path: Path, directory: Option<Directory>) returns (reply: Option<Packet>)
    ensures Sent(reply) == DirectoryReply(db.prefix, path, directory)
    ensures PageReply(db.Value(), reply, path, directory)
    ensures reply.Some? ==> (reply.value.Page?
      && Listing.IsPage(reply.value.content, Listing.QueryPath(path), multiset(directory.value.entries)))
  {
    if directory.None? {
      return None;
    }
    var page := Listing.DirectoryPage(path, directory.value.entries);
    var name := db.prefix + NameFromUri(path);
    name := name + [DIR_COMPONENT, VersionComponent(directory.value.modified)];
    reply := Some(Page(name, page));
  }

  /** The dispatch on the parsed name: a segment request is answered from its stored row; a version request for a path
      with a row, from the row of segment 0 and under the name of that segment; any other request with metadata, or
      with the page of a directory. Without interleaving, it puts what the machine puts. */
  method OnInterest(db: Publisher, name: Name, around: Surroundings) returns (reply: Option<Packet>)
    requires NoEmptyComponent(name)
    ensures Sent(reply) ==
      Run(Alone(db.Value()), [Interest(name), ServerStep(around), ServerStep(around), ServerStep(around)]).sent
    ensures
      var w := db.Value();
      match Parse(PathText(db.prefix), name)
      case Request(3, v, s, p) => reply == ContentReply(w, name, p, v, s)
      case Request(2, v, _, p) =>
        if p in w.fs then reply == ContentReply(w, name + [SegmentComponent(0)], p, v, 0) else reply.None?
      case Request(_, _, _, p) =>
        if p in w.fs then InfoReply(w, reply, p, around.garbage) else PageReply(w, reply, p, around.directory)
      case _ => reply.None?
  {
    ServedAlone(db.Value(), name, around);
    var parsed := ParseName(PathText(db.prefix), name);
    if !parsed.Request? {
      return None;
    }
    if parsed.kind == 3 {
      reply := SendFileContent(db, name, parsed.path, parsed.version, parsed.segment, around);
    } else if parsed.kind == 2 {
      if parsed.path !in db.fileSystem {
        return None;
      }
      reply := SendFileContent(db, name, parsed.path, parsed.version, -1, around);
    } else {
      if parsed.path !in db.fileSystem {
        reply := SendDirMetaBrowserFriendly(db, parsed.path, around.directory);
        return;
      }
      reply := SendFileMeta(db, parsed.path, db.fileSystem[parsed.path], around);
    }
  }
}
