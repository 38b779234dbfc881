# NDNFS in Dafny

NDNFS publishes the files of a directory over NDN. A FUSE process keeps three database tables beside
the files; on release it stamps a new version from the clock, cuts the file into 8192-byte segments
and stores one signature per segment. A separate server parses requested names, looks the signature
up and sends it with whatever bytes the file holds at that moment. Clients fetch metadata and then
segments, one at a time or eight at a time.

The project models these processes as one system and proves when the pieces agree.

| file | models |
|---|---|
| `Octets.dfy`, `Segments.dfy` | byte strings, 32-bit ints, the shift arithmetic of segments |
| `NameCodec.dfy` | percent-encoding, the `%2F` loop, splitting into components, the name that is signed |
| `NameParser.dfy`, `NameRoundTrip.dfy` | `parseName` as an automaton, its language, and the round trip between the two processes |
| `Worlds.dfy`, `Effects.dfy`, `Publisher.dfy` | tables, files and clock as a value with the SQL statements on it; what each operation does, entry by entry and byte by byte; the FUSE operations as methods of a class |
| `Machine.dfy`, `Invariants.dfy` | every SQL statement and system call of publisher and server as a step; what all interleavings keep |
| `Guarantees.dfy`, `SameSecond.dfy` | which packets carry matching bytes and signatures, and for how long |
| `Integrity.dfy` | agreement of the three tables, renames, versions, metadata |
| `Server.dfy` | the interest callback as sequential code over a publisher's tables |
| `Fetch.dfy`, `Pipeline.dfy` | the stop-and-wait client with the end-to-end fetch; the pipelined client |
| `Listing.dfy` | the HTML page for a directory |

A `World` is the shared state. A `Machine` adds what the publisher and the server are in the middle of
and the packets sent so far; `Run` applies any sequence of actions, so "for every run" is a
quantification over action sequences. FUSE operations do not overlap one another (the `-s` flag), but
the server's SELECT, `stat` and `pread` fall between any two statements of a publisher operation,
including the three updates of a rename. `modified` and `sent` are records for the proofs; no program
variable holds them. A signature is bound to a name and a content.

## Results that go against the documentation or the expectation

* A name parses back to the path that was signed if and only if no character of the path needs escaping and
  no component is made of one to three periods (`SignedNameRoundTrip`). A path with a character that does
  is looked up in its escaped spelling (`EscapedPathComesBackEscaped`); a component of one or two periods
  is left out of the signed name, one of three is empty in it (`PeriodPaths`).
* While a version is completely published every answer for it is good, if and only if the server had no
  stale selection for it in hand when the publication was complete (`PublishedAnswers`).
  `SelectedBetweenReleases` is the run that shows the condition is needed: two releases in one second and
  a request selected in between. Bytes past the end are never sent, with or without it
  (`PublishedBytes`).
* A rename over a live file, as an editor does when it saves, leaves the tables inconsistent
  (`ReplacingBreaksTables`); `RenameConsistent` says exactly which renames do not, and
  `ConsistentExactlyIfSafe` carries that through whole runs.
* The version of a live path can fall although every rename goes to a fresh target (`VersionFalls`). It never
  does if and only if no rename moves an older version onto the path while it is free (`VersionsGrow`).
* Metadata of a live path can go unanswered not only inside a release but also inside a rename to that
  path, between the first two updates. `CurrentVersionRecorded` is an equivalence; the runs
  `UnansweredInRename` and `UnansweredInRelease` reach both points.
* The stop-and-wait client reports the last segment only for a file whose size is not a multiple of
  8192, the pipelined one in addition only if the file does not have exactly nine segments; it never
  asks for segment 8 (`FetchCompletes`, `FinishesExactly`, `SegmentEightNeverRequested`).
* A version as old as the last modification may have rows that do not match (`WriteWithinSecond`).
* `ndnfs_truncate` returns the row code of its lookup, 100, on success; the model keeps that.

## Model

| member | source | states |
|---|---|---|
| Segments.ShiftExact | fs/segment.h:31-34 | `seg << 13` in a signed 32-bit int is the true byte offset if and only if the segment number is below 2^18 |
| Segments.SeekRoundTrip | fs/segment.h:26-34 | for every offset below 2^31, seeking and shifting back gives the start of the 8192-byte segment that holds it, and no segment up to that one overflows |
| Segments.LoopRead | fs/file.cc:367-375 | each read of the signing loop is the segment's slice, short exactly at the last segment that the server counts |
| Segments.SliceSize | server/servermodule.cc:273-283 | a segment reads as nothing exactly from the end of the file on, and is full exactly while 8192 bytes remain |
| Segments.SegmentsCoverFile | server/servermodule.cc:47-57 | the segments counted from the file size, laid end to end, are the file; every later segment is empty |
| NameCodec.UnescapeEscape | fs/segment.cc:44-58 | decoding an escaped string gives back the raw one |
| NameCodec.EscapedStringRoundTrip | server/servermodule.cc:110 | decoding what `toEscapedString` prints gives back the component, the empty one and those of periods only included |
| NameCodec.EscapedStringFixed | server/servermodule.cc:110 | printing leaves a component as it is, and as long as it is, exactly when nothing in it is reserved and it is not of periods only |
| NameCodec.FindEscapedSlash | fs/segment.cc:53 | the first position of `%2F`, or none exactly when there is none |
| NameCodec.RestoreSlashes | fs/segment.cc:50-57 | the replacement loop ends, leaves no `%2F`, and equals one left-to-right rewriting pass |
| NameCodec.RestoreEscape | fs/segment.cc:50-57 | for every byte string, escaping it whole and then restoring slashes is escaping each piece between slashes and joining them |
| NameCodec.SignedUriComponents | fs/segment.cc:44-58 | the signed name has the raw pieces of prefix and path as components, less what the library drops of pieces made of periods only; a literal `%2F` in a file name never separates |
| NameCodec.BuildSegmentName | fs/segment.cc:44-61 | the step-by-step construction yields the components of the raw pieces, followed by the version and segment components |
| NameCodec.DigitsShortest | server/servermodule.cc:86-101 | no other big-endian spelling of a version or segment number is shorter than the one that is built |
| NameCodec.DigitsInOrder | server/servermodule.cc:86-101 | version and segment components, ordered by length and then by bytes, are ordered as their numbers are |
| NameParser.ParseName | server/servermodule.cc:64-144 | it accepts a name if and only if it has the shape head, optional version, blanks, optional segment, and returns kind, numbers and path read off that shape |
| NameParser.ShapeIsParsed | server/servermodule.cc:76-143 | every name of the language is accepted, with the outcome of its shape |
| NameParser.AcceptedShape | server/servermodule.cc:76-122 | every name that the scan accepts has a shape |
| NameParser.ParsedLanguage | server/servermodule.cc:76-143 | the automaton and the regular language accept the same names with the same outcome, for all names and with 32-bit truncation of the numbers |
| NameRoundTrip.SignedNameRoundTrip | server/servermodule.cc:64-144 | for every path of non-empty components, parsing the signed name gives kind 3 with exactly that path, version and segment if and only if every character is a slash or unreserved and no component is of one to three periods |
| NameRoundTrip.PeriodPaths | fs/segment.cc:44-58 | a path of one component of periods comes back exactly from four periods on; with one or two it is signed under the bare prefix |
| NameRoundTrip.RequestIsSignedName | server/servermodule.cc:64-144 | a request under the prefix that parses to kind 3 is the name signed for what it parses to if and only if it is canonical |
| NameRoundTrip.MetaIsInvisible | server/servermodule.cc:101-108 | a name with a 0xC1 component, which was never signed, parses to the same triple as a signed one |
| NameRoundTrip.EscapedPathComesBackEscaped | server/servermodule.cc:109-116 | the name signed for "/a b" parses to the path "/a%20b" |
| NameRoundTrip.FirstSegment | server/servermodule.cc:219-223 | a version request with segment 0 appended is the request for segment 0 of the same path and version |
| Worlds.MovedVersions | fs/file.cc:522-525 | the update moves every row of `from` to `to` and nothing else, or, on any key conflict, nothing |
| Worlds.MovedSegments | fs/file.cc:533-536 | the same for segment rows, signatures included |
| Worlds.Written | fs/file.cc:248 | byte by byte, what a write leaves: the data, the old bytes, and zeros in a gap; writing nothing changes nothing |
| Worlds.Resized | fs/file.cc:277 | byte by byte, what a truncate leaves: a cut, or an extension by zeros |
| Effects.MknodDoes | fs/file.cc:83-181 | the whole effect of a mknod on tables and files |
| Effects.WriteDoes | fs/file.cc:223-257 | the whole effect of a write |
| Effects.TruncateDoes | fs/file.cc:260-285 | the whole effect of a truncate |
| Effects.UnlinkDoes | fs/file.cc:287-311 | the whole effect of an unlink |
| Effects.RenameDoes | fs/file.cc:506-558 | the whole effect of a rename, colliding or not |
| Effects.ReleaseDoes | fs/file.cc:313-381 | the whole effect of a release, for every mode, fault and failed read |
| Publishers.Publisher.Mknod | fs/file.cc:83-181 | an existing row leaves everything as it is; else exactly one row and one recorded version of this second are added, and an empty file unless the call fails; with the result for every case |
| Publishers.Publisher.Write | fs/file.cc:223-257 | on success the data stand at the offset, every other byte is the old one or zero in a gap, the file ends at the later of the two ends, and nothing else changes; a failed write changes nothing; with the result for every case |
| Publishers.Publisher.Truncate | fs/file.cc:260-285 | on success the file has the given length, keeps its bytes up to there and gains zeros, and nothing else changes; the result on success is 100 |
| Publishers.Publisher.Unlink | fs/file.cc:287-311 | the file_system row goes whether or not the file does; versions, segments and other files stay |
| Publishers.Publisher.SignSegment | fs/segment.cc:40-86 | exactly one row is inserted or replaced, with the signature over the signed name and the data |
| Publishers.Publisher.SignFile | fs/file.cc:363-375 | the loop that reads until a short read signs exactly the segments counted from the size, or those before a failed read |
| Publishers.Publisher.Release | fs/file.cc:313-381 | opened for reading, or without a row, it changes nothing; else the row has the version of this second, which is recorded, the segments up to the end of the file or to a failed read are signed, and all other rows and the files stay |
| Publishers.Publisher.Rename | fs/file.cc:506-558 | three updates of the tables, each moving all rows or none, and the bytes of `from` under `to` with `from` gone, or all files unchanged after a fault or without `from` |
| Machines.MknodAlone | fs/file.cc:83-181 | the steps of a mknod, run without interruption, are the whole operation and have its effect |
| Machines.UnlinkAlone | fs/file.cc:287-311 | the same for an unlink |
| Machines.RenameAlone | fs/file.cc:506-558 | the four interleavable steps of a rename, run without interruption, are the whole operation and have its effect: `to` holds the bytes of `from` |
| Machines.ReleaseAlone | fs/file.cc:313-381 | run without interruption, a release takes three steps and then as many signing steps as the server counts segments, and is the whole operation |
| Machines.ReleaseCutShort | fs/file.cc:367-375 | a release whose read of a segment fails ends with exactly the earlier segments signed, under the new version |
| Machines.ReleaseUnopened | fs/file.cc:329-361 | a release whose file is missing or cannot be opened stamps and records the version and signs nothing |
| Machines.ReleaseRefused | fs/file.cc:319-329 | a release without a row or without write access is no step at all, in any state |
| Machines.ReleaseKeepsVersion | fs/file.cc:316-377 | a release stamps, records and signs under the time at which it began, whatever clock and server do meanwhile |
| Machines.WriteStep | fs/file.cc:223-257 | a write has its effect in one step, whatever the server is in the middle of |
| Machines.TruncateStep | fs/file.cc:260-285 | the same for a truncate |
| Invariants.MoveKeepsIntervals | fs/file.cc:533-542 | a rename onto any target keeps the stored segment numbers of every path and version an interval from 0 |
| Invariants.ClashAtZero | fs/file.cc:533-542 | the segment update of a rename aborts if and only if both paths have segment 0 of some version |
| Invariants.SignKeepsIntervals | fs/file.cc:367-375 | signing the next segment keeps the intervals |
| Invariants.NextInvariant | fs/file.cc:313-381 | every step of every interleaving keeps the timestamp invariant, the intervals and the goodness of signatures already selected |
| Invariants.RunInvariant | fs/file.cc:313-381 | hence every run does |
| Guarantees.RowsAreTimely | fs/file.cc:313-381 | in every reachable state a row dated later than the last modification of its path matches the file as it is, and stored segment numbers have no gap |
| Guarantees.TimelyPacket | server/servermodule.cc:215-295 | in every reachable state, a packet for a version later than the last modification pairs exactly the segment's bytes with their signature and the number of the last segment, although the row was selected earlier; it verifies if and only if the request was canonical |
| Guarantees.LastSegmentPublishes | fs/file.cc:363-380 | the signing step with a short read completes the publication of the current version |
| Guarantees.PublishedStep | fs/file.cc:313-381 | no step that leaves the path alone ends its publication, a half-done release of the same path included |
| Guarantees.ReleasePublishesEverything | fs/file.cc:313-381 | after a complete release every segment has a matching row, the segments make up the file, and this lasts through any run until the path is touched |
| Guarantees.PublishedBytes | server/servermodule.cc:215-295 | while a version stays published, and whatever the server had in hand, every packet for a segment of it holds exactly the bytes of that segment, so none is for a segment past the end, and every metadata packet for the path has the same count |
| Guarantees.PublishedAnswers | server/servermodule.cc:215-355 | while a version stays published, every packet for it has the right bytes, signature and final block, and every metadata packet for the path the same count, if and only if the selection that the server had in hand at first leads to a good answer or to none |
| Guarantees.SegmentIsAnswered | server/servermodule.cc:215-295 | a request for a published segment that holds a byte is answered with it, in every run that leaves the path alone, with anything of the publisher between the steps of the server |
| Guarantees.VersionIsAnswered | server/servermodule.cc:162-182 | a version request for a published, non-empty file with a row is answered with segment 0 under the name of that segment, with anything of the publisher between the steps of the server |
| Guarantees.NothingToAnswer | server/servermodule.cc:146-240 | a name that does not parse, a segment without a row and a version of a path without a row are not answered |
| SameSecond.ReleasePublishes | fs/file.cc:313-381 | an undisturbed release publishes the file and changes no row but its own |
| SameSecond.ShrinkWithinSecond | server/servermodule.cc:274-291 | after a release, a cut and a release in one second, rows past the end remain and mismatch, but each reads as nothing; everything up to the end matches |
| SameSecond.WriteWithinSecond | fs/file.cc:313-381 | after a write in the second of the release, a row matches if and only if its segment did not change |
| SameSecond.SelectedBetweenReleases | server/servermodule.cc:215-295 | a reachable state in which a version is published and the server then sends the new bytes with the signature of the old ones |
| Integrity.RenameConsistent | fs/file.cc:506-558 | a rename keeps the tables consistent if and only if a condition on the tables before it holds |
| Integrity.ReplacingBreaksTables | fs/file.cc:506-558 | renaming one live file over another made in a different second breaks consistency |
| Integrity.RenameRelabels | fs/file.cc:511-542 | to a fresh target a rename keeps all row counts, versions, segments and signatures, under the new path |
| Integrity.RenameBack | fs/file.cc:511-542 | renaming back restores the three tables |
| Integrity.NextAgreement | fs/file.cc:83-558 | every step of runs with safe renames keeps what the tables and the half-done operation owe one another |
| Integrity.TablesAgree | fs/file.cc:83-558 | between operations of a run whose every rename meets the condition of `RenameConsistent` when it is issued, colliding ones included, every current version and every signed version is recorded |
| Integrity.ConsistentExactlyIfSafe | fs/file.cc:83-558 | a run that ends between operations has consistent tables between all its operations if and only if each of its renames meets that condition when it is issued |
| Integrity.LatestRecorded | fs/file.cc:105-122 | in every state of a run whose renames go to fresh targets, the current version of a live path is the latest recorded for it, across unlink and re-creation too |
| Integrity.VersionsGrow | fs/file.cc:105-122 | from any reachable state on, the version of a live path never falls below what it is then, if and only if no rename moves an older version onto the path while it has no row |
| Integrity.VersionsGrowUntargeted | fs/file.cc:105-122 | hence it never falls in a run that renames nothing else to the path, colliding renames elsewhere and renames of the path away included |
| Integrity.VersionFalls | fs/file.cc:511-514 | a run with fresh renames only in which the version of a live path falls by any number of seconds |
| Integrity.CurrentVersionRecorded | server/servermodule.cc:189-211 | in runs with fresh renames the current version of a live path is unrecorded if and only if a rename to it is past its first update, or a release, later than every recorded version, is past its first |
| Integrity.UnrecordedUnanswered | server/servermodule.cc:297-308 | a metadata request for a live path whose current version is unrecorded changes nothing and sends nothing |
| Integrity.UnansweredInRename | server/servermodule.cc:189-211 | a run from empty tables to the point inside a rename, and a request there that is not answered |
| Integrity.UnansweredInRelease | server/servermodule.cc:189-211 | the same for the point inside a release |
| Integrity.MetadataAnswered | server/servermodule.cc:189-211 | a metadata request for a live path, with or without a file, that comes between operations of a run with safe renames is answered with the version of that moment and the size and count at the time of the answer, whatever comes in between, as long as the recorded versions of the path are not moved away |
| Integrity.PageAnswered | server/servermodule.cc:189-201 | a request for a path without a row is answered with the page of the directory there, under its path, marker and time, or not at all |
| Server.ReadFileSize | server/servermodule.cc:47-57 | the segments counted of a file that is there make up the file, and as many are signed by a release; the count brackets the size; without a file the size is whatever the buffer held |
| Server.SendFileContent | server/servermodule.cc:215-295 | a reply exactly if the segment is stored and the file has a byte at the shifted offset, with the bytes from there on, the stored signature and the last segment number; the machine steps send the same |
| Server.PublishedReply | server/servermodule.cc:215-295 | for a published version the reply is the good answer if the segment holds a byte, and else there is none |
| Server.SendFileMeta | server/servermodule.cc:297-355 | a reply if and only if the version is recorded, with that version, the size and the count; the machine steps send the same |
| Server.SendDirMetaBrowserFriendly | server/servermodule.cc:366-471 | a reply if and only if there is a directory, with the page of its entries, named by path, marker and time |
| Server.OnInterest | server/servermodule.cc:146-213 | for every name the reply in full: a segment from its row; for a version, segment 0 under its own name, or nothing without a row; metadata or the directory page otherwise; and the uninterrupted machine sends the same |
| Fetch.EscapedMarkers | test/handler.cc:35-40 | comparing the escaped component with a marker's text is comparing the component with the marker |
| Fetch.Handler.OnAttrData | test/handler.cc:35-131 | every field after a reply of any kind: metadata that decodes or not, with or without fetching; a directory; a marker elsewhere in the name; or a name without one, which leads to one more interest |
| Fetch.Handler.OnFileData | test/handler.cc:133-170 | every field after a delivery: the byte-wise append, the exception for a last component that is no segment, and the choice between finishing and asking on, with the casts |
| Fetch.Handler.OnTimeout | test/handler.cc:172-175 | nothing but `done_` changes |
| Fetch.NamesAskFor | server/servermodule.cc:64-144 | how the server parses the names that the two sides build for a plain path: bare or with a file marker, and the names of metadata and pages, ask for metadata of that path; with a version, for that version |
| Fetch.SearchGoesOn | test/handler.cc:87-127 | a client that asked for the bare path and got a segment asks for metadata of the path next; a directory page ends its search |
| Fetch.InfoStartsFetch | test/handler.cc:62-86 | a metadata packet of a published version sends the client to the name that was signed |
| Fetch.SessionProgress | test/handler.cc:133-170 | after n packets with the right bytes the local file has grown by exactly the first n segments, and the last segment is reported exactly at the segment count; every packet that is a good answer verified |
| Fetch.EndToEndFetch | test/handler.cc:133-170 | the same for packets of any interleaved run on an untouched published file, with the file whole at the end; every packet verifies unless the server had a stale selection in hand at the start |
| Fetch.PastTheEndUnanswered | test/handler.cc:159-169 | the final request of a fetch of an aligned or empty file is never answered, whatever the server had in hand |
| Fetch.FetchCompletes | test/handler.cc:133-170 | every published file of plain path can be fetched whole, with every packet verifying; the last segment is reported if and only if the size is not a multiple of 8192 |
| Pipeline.PipeClient.OnMetaData | test/cat_file_pipe.cc:58-90 | decoded metadata sends interests 0..7 and leaves the counter at 8; any other reply changes nothing |
| Pipeline.PipeClient.OnFileData | test/cat_file_pipe.cc:100-126 | every field after a delivery: the counter is advanced before it is used, and the last segment sets `done` |
| Pipeline.PipeClient.OnTimeout | test/cat_file_pipe.cc:128-131 | every field after a timeout: `done` is set and one interest is out of flight |
| Pipeline.AnyOrder | test/cat_file_pipe.cc:84-131 | after any events at all, requests strictly grow, skip segment 8, and cover what is in flight |
| Pipeline.DoneExactly | test/cat_file_pipe.cc:100-131 | after any events the main loop has ended if and only if an interest in flight timed out or was answered by the last segment, and the last segment is reported if and only if that came |
| Pipeline.InFlightExactly | test/cat_file_pipe.cc:84-131 | after any events a segment is in flight if and only if it was requested and not yet answered |
| Pipeline.WindowStaysFull | test/cat_file_pipe.cc:84-126 | after n deliveries in any order, none the last segment, exactly 0..7 and 9..8+n were requested, and eight interests are in flight |
| Pipeline.SegmentEightNeverRequested | test/cat_file_pipe.cc:84-126 | in no run is segment 8 requested, and none is requested twice |
| Pipeline.FinishesExactly | test/cat_file_pipe.cc:100-126 | some run reports the last segment if and only if the file does not have nine segments and its size is not a multiple of 8192 |
| Listing.Sort | server/servermodule.cc:437 | a sorted permutation of the names |
| Listing.LeqTotal | server/servermodule.cc:437 | the byte order of names is total, and antisymmetric |
| Listing.PrependParentLink | server/servermodule.cc:426-428 | three prepends make one parent link in front of the page |
| Listing.AppendLines | server/servermodule.cc:439-449 | one line for each name, in order, after what is there |
| Listing.Collect | server/servermodule.cc:394-435 | the readdir loop: one parent link in front for each "..", every other name kept as often as it came |
| Listing.DirectoryPage | server/servermodule.cc:366-451 | the page shows the parent links and then the other names in ascending order |
| Listing.QueryPathCuts | server/servermodule.cc:357-373 | the suffix "_list" is cut off once, and exactly from the paths that end in it |
| Listing.ParentLinkShown | server/servermodule.cc:424-429 | the page of the root starts without a parent link, that of any other directory with one |
| Listing.SortedUnique | server/servermodule.cc:437 | two sorted permutations of the same names are equal, so any sort gives this page |
| Listing.PageIndependentOfOrder | server/servermodule.cc:394-451 | directory orders that are permutations of each other give the same bytes |

## Left out

- TimelyPacket: `Verifies` compares name and content only. The server also sets a final block id and a freshness period that the publisher never signed, so nothing is claimed about the verification of whole packets.
- NextInvariant: the server's `open` and `pread` are one step, so an inode that is unlinked or replaced between the two is not followed; the server reads the files directly, not through the mount point.
- EndToEndFetch: speaks of plain paths, because by `SignedNameRoundTrip` no other path is found under its signed name; each interest gets at most one packet, of exactly its name, so duplicate deliveries and name-prefix matching by the network are not modelled.
- OnAttrData: names of fewer than two components are left out; what the client prints is not modelled.
- OnFileData: the increment of the largest int, which C++ does not define, wraps around.
- OnInterest: what `opendir`, `readdir` and `lstat` give is a parameter, not tied to the files of the model; the entry types, which do not reach the page, are left out.
- FUSE, SQLite, Boost.Asio, the NDN face, key chain and protobuf are outside; their effects on tables, files and messages are in the model.
- ndn-cpp is not part of this model. Escaping follows section 2.1 of RFC 3986 with the unreserved characters of section 2.3, and for components of periods only the rule of the NDN URI format: three more periods when printing, three fewer when reading, and up to two of them are no component. Version and segment components are a marker byte and the shortest big-endian digits.
- Files of 2 GiB and more and clock values past 2^31 - 1: writes, truncates and ticks that would lead there are not enabled.
- Empty name components: the parser reads their first byte without a check, so names are taken to have none.
- The exception of `substr` on a path shorter than the prefix is the outcome `OutOfRange`, after which the server sends nothing.
- Database failures other than key conflicts are not modelled; a short write counts as a write of the bytes that were written.
- Special files, symbolic and hard links, and directories in the publisher: paths stand for regular files, so renames of directories are not modelled.
- `ndnfs_open`, `ndnfs_read`, attributes, `sendDirMeta` and fs/version.cc: system-call wrappers, stubs or unreachable code.
- The mime type is absent: the server tests a column that its SELECT does not return.
