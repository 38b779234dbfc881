/** The name that one process signs against the request that the other process parses out of it. */
module NameRoundTrip {
  import opened Octets
  import opened NameCodec
  import opened NameParser

  /** A served prefix whose components look the same in a URI, such as /ndn/broadcast/ndnfs. */
  predicate PlainPrefix(prefix: Name) {
    forall i :: 0 <= i < |prefix| ==> PlainComponent(prefix[i])
  }

  predicate PlainComponent(c: Component) {
    AllUnreserved(c) && !AllPeriods(c)
  }

  /** The path of a file: a slash before each of its components, none of them empty. */
  predicate FilePath(path: Bytes) {
    |Split(path)| > 1 && Split(path)[0] == [] && PathComponents(Split(path)[1..])
  }

  predicate PathLetter(c: Octet) {
    c == '/' || Unreserved(c)
  }

  /** One to three periods and nothing else: the library reads these as no component or as an empty one. */
  predicate ShortPeriods(c: Bytes) {
    c != [] && AllPeriods(c) && |c| <= 3
  }

  /** Only slashes and unreserved characters, and no component of one to three periods. */
  predicate PlainPath(path: Bytes) {
    (forall c :: c in path ==> PathLetter(c)) && forall i :: 0 <= i < |Split(path)| ==> !ShortPeriods(Split(path)[i])
  }

  /** The letters that can come out of the parser. */
  predicate TextLetter(c: Octet) {
    PathLetter(c) || c == '%'
  }

  predicate TextLetters(s: Bytes) {
    forall i :: 0 <= i < |s| ==> TextLetter(s[i])
  }

  // ---------- texts of heads ----------

  lemma HeadTextStep(head: Name, first: Component, rest: Name)
    requires NoEmptyComponent(head) && head != [] && head[0] == first && head[1..] == rest
    ensures HeadText(head) == ComponentText(first) + HeadText(rest)
  {
  }

  lemma AppendStep(a: Name, b: Name, rest: Name)
    requires a != [] && rest == a[1..]
    ensures (a + b)[0] == a[0] && (a + b)[1..] == rest + b
  {
  }

  lemma {:induction false} HeadTextAppend(a: Name, b: Name)
    requires NoEmptyComponent(a) && NoEmptyComponent(b)
    ensures HeadText(a + b) == HeadText(a) + HeadText(b)
    decreases |a|
  {
    if a == [] {
      assert a + b == b;
      assert [] + HeadText(b) == HeadText(b);
    } else {
      var rest := a[1..];
      HeadTextAppend(rest, b);
      AppendStep(a, b, rest);
      HeadTextStep(a + b, a[0], rest + b);
      HeadTextStep(a, a[0], rest);
      Associative(ComponentText(a[0]), HeadText(rest), HeadText(b));
    }
  }

  lemma {:induction false} HeadTextLetters(head: Name)
    requires NoEmptyComponent(head)
    ensures TextLetters(HeadText(head))
    decreases |head|
  {
    if head != [] {
      HeadTextLetters(head[1..]);
      EscapedStringShape(head[0]);
      var text := ComponentText(head[0]);
      assert forall i :: 0 <= i < |text| ==> text[i] == '/' || text[i] in ToEscapedString(head[0]);
      assert TextLetters(text);
    }
  }

  predicate AllPlain(head: Name) {
    forall i :: 0 <= i < |head| ==> head[i] != [] && TokenOf(head[i]).Plain?
  }

  /** Of plain components, the text is the escaped components joined; it is at least as long as
      the raw path and equally long exactly when nothing in it looks different in a URI. */
  lemma {:induction false} HeadTextPlain(head: Name)
    requires AllPlain(head)
    ensures HeadText(head) == PathText(ToEscapedEach(head))
    ensures |HeadText(head)| >= |PathText(head)|
    ensures |HeadText(head)| == |PathText(head)| <==> PlainPrefix(head)
    ensures PlainPrefix(head) ==> HeadText(head) == PathText(head)
    ensures AllHeadLike(head) && !HasMeta(head)
    decreases |head|
  {
    if head != [] {
      HeadTextPlain(head[1..]);
      EscapedStringFixed(head[0]);
      assert ToEscapedEach(head)[1..] == ToEscapedEach(head[1..]);
      assert PlainPrefix(head) <==> PlainComponent(head[0]) && PlainPrefix(head[1..]) by {
        assert forall i :: 0 < i < |head| ==> head[i] == head[1..][i - 1];
      }
      HasMetaCons(head);
    }
  }

  lemma PlainComponentToken(c: Component)
    requires c != [] && TextLetter(c[0])
    ensures TokenOf(c).Plain?
  {
  }

  lemma PlainPrefixIsPlain(head: Name)
    requires PlainPrefix(head)
    ensures AllPlain(head)
    ensures PathComponents(head)
  {
    forall i | 0 <= i < |head|
      ensures head[i] != [] && TokenOf(head[i]).Plain?
    {
      assert PlainComponent(head[i]);
      assert head[i] != [] && head[i][0] in head[i];
      PlainComponentToken(head[i]);
    }
    forall c | c in head
      ensures PathComponent(c)
    {
      var i :| 0 <= i < |head| && head[i] == c;
      assert PlainComponent(head[i]);
    }
  }

  lemma {:induction false} PathTextLetters(components: seq<Bytes>)
    requires TextLetters(PathText(components))
    ensures forall i :: 0 <= i < |components| ==> TextLetters(components[i])
  {
    if components != [] {
      var text, rest := PathText(components), PathText(components[1..]);
      var c := components[0];
      assert forall i :: 0 <= i < |c| ==> c[i] == text[i + 1];
      assert forall i :: 0 <= i < |rest| ==> rest[i] == text[1 + |c| + i];
      PathTextLetters(components[1..]);
    }
  }

  /** A component that comes back as it was: unreserved, and not of one to three periods. */
  predicate ComesBack(c: Bytes) {
    AllUnreserved(c) && !ShortPeriods(c)
  }

  predicate AllComeBack(components: seq<Bytes>) {
    forall i :: 0 <= i < |components| ==> ComesBack(components[i])
  }

  lemma AllComeBackCons(components: seq<Bytes>)
    requires components != []
    ensures AllComeBack(components) <==> ComesBack(components[0]) && AllComeBack(components[1..])
  {
    assert forall i :: 0 < i < |components| ==> components[i] == components[1..][i - 1];
  }

  lemma LettersOfText(c: Bytes, rest: Bytes)
    requires '/' !in c
    ensures (forall x :: x in ['/'] + c + rest ==> PathLetter(x)) <==>
      AllUnreserved(c) && forall x :: x in rest ==> PathLetter(x)
  {
    var text := ['/'] + c + rest;
    assert forall x :: x in text <==> x == '/' || x in c || x in rest;
    if forall x :: x in text ==> PathLetter(x) {
      assert forall x :: x in c ==> x in text;
      assert forall x :: x in rest ==> x in text;
    }
  }

  lemma {:induction false} PathTextPlain(components: seq<Bytes>)
    requires PathComponents(components)
    ensures (forall c :: c in PathText(components) ==> PathLetter(c)) <==>
      forall i :: 0 <= i < |components| ==> AllUnreserved(components[i])
  {
    if components != [] {
      var c, rest := components[0], PathText(components[1..]);
      assert PathComponent(c);
      PathTextPlain(components[1..]);
      LettersOfText(c, rest);
      assert forall i :: 0 < i < |components| ==> components[i] == components[1..][i - 1];
    }
  }

  /** A file path is its components joined, and it is plain exactly when they all come back. */
  lemma FilePathComponents(path: Bytes)
    requires FilePath(path)
    ensures path == PathText(Split(path)[1..]) && Split(path) == [[]] + Split(path)[1..]
    ensures PlainPath(path) <==> AllComeBack(Split(path)[1..])
  {
    var components := Split(path)[1..];
    assert Split(path) == [[]] + components;
    JoinSplit(path);
    JoinIsPathText(components);
    PathTextPlain(components);
    assert forall i :: 0 < i < |Split(path)| ==> Split(path)[i] == components[i - 1];
    assert forall i :: 0 <= i < |components| ==> components[i] == Split(path)[i + 1];
  }

  lemma {:induction false} JoinIsPathText(components: seq<Bytes>)
    requires components != []
    ensures Join([[]] + components) == PathText(components)
  {
    var all := [[]] + components;
    assert all[1..] == components;
    if |components| > 1 {
      JoinIsPathText(components[1..]);
      assert ([[]] + components[1..])[1..] == components[1..];
    } else {
      assert components[1..] == [];
    }
  }

  // ---------- what signing keeps of the pieces ----------

  lemma {:induction false} KeepPlain(prefix: Name)
    requires PlainPrefix(prefix)
    ensures KeepEach(prefix) == prefix
  {
    if prefix != [] {
      assert PlainComponent(prefix[0]);
      KeepPlain(prefix[1..]);
    }
  }

  /** Printing what was kept gives the pieces back exactly when they all come back. */
  lemma {:induction false} KeptPrintsBack(components: seq<Bytes>)
    requires PathComponents(components)
    ensures |KeepEach(components)| <= |components|
    ensures NoEmptyComponent(KeepEach(components)) && ToEscapedEach(KeepEach(components)) == components
      <==> AllComeBack(components)
    ensures AllComeBack(components) ==> UnreservedName(KeepEach(components))
  {
    if components != [] {
      var c, rest := components[0], components[1..];
      assert PathComponent(c);
      KeptPrintsBack(rest);
      AllComeBackCons(components);
      var k := KeepPiece(c);
      var kept := KeepEach(components);
      if k.Some? {
        KeptPieceBack(c);
        assert kept[1..] == KeepEach(rest) && kept[0] == k.value;
        assert NoEmptyComponent(kept) <==> k.value != [] && NoEmptyComponent(KeepEach(rest));
        assert ToEscapedEach(kept) == [ToEscapedString(k.value)] + ToEscapedEach(KeepEach(rest));
        assert components == [c] + rest;
      }
    }
  }

  lemma KeptPieceBack(c: Bytes)
    requires PathComponent(c) && KeepPiece(c).Some?
    ensures KeepPiece(c).value != [] && ToEscapedString(KeepPiece(c).value) == c <==> ComesBack(c)
    ensures ComesBack(c) ==> AllUnreserved(KeepPiece(c).value)
  {
    EscapedStringFixed(c);
    if AllPeriods(c) {
      assert c == "..." + c[3..];
    }
  }

  predicate UnreservedName(name: Name) {
    forall i :: 0 <= i < |name| ==> name[i] != [] && AllUnreserved(name[i])
  }

  lemma {:induction false} KeptLetters(pieces: seq<Bytes>)
    requires forall i :: 0 <= i < |pieces| ==> TextLetters(pieces[i])
    ensures forall i :: 0 <= i < |KeepEach(pieces)| ==> TextLetters(KeepEach(pieces)[i])
  {
    if pieces != [] {
      KeptLetters(pieces[1..]);
      assert TextLetters(pieces[0]);
    }
  }

  lemma EscapedNotPeriods(c: Component)
    requires !AllPeriods(c)
    ensures !AllPeriods(Escape(c))
  {
    UnescapeEscape(c);
    if AllPeriods(Escape(c)) {
      PeriodsUnescaped(Escape(c));
    }
  }

  /** What the parser prints of a component, the signer reads as that component exactly when nothing in
      it is reserved. */
  lemma {:induction false} PrintedIsKept(name: Name)
    ensures PathComponents(ToEscapedEach(name))
    ensures |KeepEach(ToEscapedEach(name))| == |name|
    ensures KeepEach(ToEscapedEach(name)) == name <==> forall i :: 0 <= i < |name| ==> AllUnreserved(name[i])
    decreases |name|
  {
    if name != [] {
      var c, rest := name[0], name[1..];
      PrintedIsKept(rest);
      var printed := ToEscapedEach(name);
      assert printed[1..] == ToEscapedEach(rest) && printed[0] == ToEscapedString(c);
      EscapedStringShape(c);
      assert PathComponent(printed[0]);
      PrintedPieceKept(c);
      assert KeepEach(printed) == [KeepPiece(printed[0]).value] + KeepEach(printed[1..]);
      assert name == [c] + rest;
      assert forall i :: 0 < i < |name| ==> name[i] == rest[i - 1];
    }
  }

  lemma PrintedPieceKept(c: Component)
    ensures KeepPiece(ToEscapedString(c)).Some?
    ensures KeepPiece(ToEscapedString(c)).value == c <==> AllUnreserved(c)
  {
    EscapeFixed(c);
    if AllPeriods(c) {
      assert ("..." + c)[3..] == c;
    } else {
      EscapedNotPeriods(c);
    }
  }

  lemma NumberTokens(n: nat)
    requires n < INT32_LIMIT
    ensures TokenOf(VersionComponent(n)) == Version(n)
    ensures TokenOf(SegmentComponent(n)) == Segment(n)
  {
    NumberDigits(n);
    assert VersionComponent(n)[1..] == Digits(n);
    assert SegmentComponent(n)[1..] == Digits(n);
  }

  /** A name of head components with a version and a segment behind them. */
  lemma ParseNumberedHead(prefix: Bytes, head: Name, version: nat, segment: nat)
    requires AllHeadLike(head) && version < INT32_LIMIT && segment < INT32_LIMIT
    ensures NoEmptyComponent(head + [VersionComponent(version), SegmentComponent(segment)])
    ensures Parse(prefix, head + [VersionComponent(version), SegmentComponent(segment)]) ==
      if |HeadText(head)| < |prefix| then OutOfRange
      else Request(3, version, segment, if |HeadText(head)| == |prefix| then ['/'] else HeadText(head)[|prefix|..])
  {
    NumberTokens(version);
    NumberTokens(segment);
    var sh := Shape(head, Some(VersionComponent(version)), [], Some(SegmentComponent(segment)));
    var name := head + [VersionComponent(version), SegmentComponent(segment)];
    assert name == head + Optional(sh.version) + sh.blanks + Optional(sh.segment);
    assert HasShape(name, sh);
    ShapeIsParsed(prefix, name, sh);
  }

  /** A name of head components with at most a version behind them. */
  lemma ParseUnsegmented(prefix: Bytes, head: Name, version: Option<nat>)
    requires AllHeadLike(head) && (version.Some? ==> version.value < INT32_LIMIT) && |HeadText(head)| >= |prefix|
    ensures
      var name := head + (if version.Some? then [VersionComponent(version.value)] else []);
      var path := if |HeadText(head)| == |prefix| then ['/'] else HeadText(head)[|prefix|..];
      && NoEmptyComponent(name)
      && Parse(prefix, name) ==
        if version.None? then Request(1, -1, -1, path)
        else Request(if HasMeta(head) then 1 else 2, version.value, -1, path)
  {
    var last := if version.Some? then Some(VersionComponent(version.value)) else None;
    if version.Some? {
      NumberTokens(version.value);
    }
    var sh := Shape(head, last, [], None);
    var name := head + (if version.Some? then [VersionComponent(version.value)] else []);
    assert name == head + Optional(sh.version) + sh.blanks + Optional(sh.segment);
    assert HasShape(name, sh);
    ShapeIsParsed(prefix, name, sh);
  }

  lemma RequestPathLetters(prefix: Bytes, name: Name)
    requires NoEmptyComponent(name) && Parse(prefix, name).Request?
    ensures TextLetters(Parse(prefix, name).path)
  {
    var sh := AcceptedShape(INITIAL, name);
    ShapeIsParsed(prefix, name, sh);
    HeadTextLetters(sh.head);
  }

  lemma RequestNumbers(prefix: Bytes, name: Name)
    requires NoEmptyComponent(name) && Parse(prefix, name).Request?
    ensures Parse(prefix, name).version < INT32_LIMIT && Parse(prefix, name).segment < INT32_LIMIT
  {
    var sh := AcceptedShape(INITIAL, name);
    ShapeIsParsed(prefix, name, sh);
  }

  lemma SignedNameParts(prefix: Name, components: seq<Bytes>, version: nat, segment: nat)
    requires PlainPrefix(prefix) && PathComponents(components)
    ensures components != [] ==> (SignedName(prefix, PathText(components), version, segment) ==
      prefix + KeepEach(components) + [VersionComponent(version), SegmentComponent(segment)])
    ensures SignedName(prefix, ['/'], version, segment) ==
      prefix + [VersionComponent(version), SegmentComponent(segment)]
  {
    PlainPrefixIsPlain(prefix);
    KeepPlain(prefix);
    BareComponents(prefix);
    if components != [] {
      PathTextAppend(prefix, components);
      KeepAppend(prefix, components);
      UriOfPathText(prefix + components);
    }
  }

  lemma UriOfPathText(components: seq<Bytes>)
    requires PathComponents(components) && components != []
    ensures UriComponents(PathText(components)) == KeepEach(components)
  {
    var text := PathText(components);
    SplitPathText(components);
    assert text[0] == '/' && !AllPeriods(text);
    KeepBlankFirst(components);
  }

  lemma KeepBlankFirst(components: seq<Bytes>)
    ensures KeepEach([[]] + components) == KeepEach(components)
  {
    var blank: Bytes := [];
    var all := [blank] + components;
    assert all[0] == blank && all[1..] == components && KeepPiece(blank).None?;
    assert [] + KeepEach(components) == KeepEach(components);
  }

  lemma BareComponents(prefix: Name)
    requires PathComponents(prefix) && KeepEach(prefix) == prefix
    ensures UriComponents(PathText(prefix) + ['/']) == prefix
  {
    var bare := PathText(prefix) + ['/'];
    SplitPathText(prefix);
    SplitTrailingSlash(PathText(prefix));
    var blank: seq<Bytes> := [[]];
    assert Split(bare) == blank + (prefix + blank);
    KeepBlankFirst(prefix + blank);
    KeepAppend(prefix, blank);
    assert blank[1..] == [] && KeepEach(blank) == [];
    assert bare[|bare| - 1] == '/';
  }

  lemma {:induction false} SplitTrailingSlash(s: Bytes)
    ensures Split(s + ['/']) == Split(s) + [[]]
  {
    if s == [] {
      assert Split([]) == [[]];
      assert s + ['/'] == ['/'] && ['/'][1..] == [];
    } else {
      SplitTrailingSlash(s[1..]);
      assert (s + ['/'])[1..] == s[1..] + ['/'];
    }
  }

  // ---------- the round trip ----------

  /** Parsing the name that signing builds gives back exactly the signed path, version and segment
      if and only if every character of the path is a slash or unreserved and no component is made of
      one to three periods. */
  lemma SignedNameRoundTrip(prefix: Name, path: Bytes, version: nat, segment: nat)
    requires PlainPrefix(prefix) && FilePath(path)
    requires version < INT32_LIMIT && segment < INT32_LIMIT
    ensures ParsesTo(prefix, SignedName(prefix, path, version, segment), version, segment, path) <==> PlainPath(path)
  {
    var components := Split(path)[1..];
    FilePathComponents(path);
    SignedNameParts(prefix, components, version, segment);
    var kept := KeepEach(components);
    KeptPrintsBack(components);
    var name := SignedName(prefix, path, version, segment);
    assert name == prefix + kept + [VersionComponent(version), SegmentComponent(segment)];
    if PlainPath(path) {
      UnreservedIsPlain(kept);
      SignedNameParsed(prefix, kept, version, segment);
      HeadTextPlain(kept);
    }
    if ParsesTo(prefix, name, version, segment, path) {
      BackMeansPrinted(prefix, path, components, version, segment);
    }
  }

  /** A name without empty components that parses to the given segment request. */
  predicate ParsesTo(prefix: Name, name: Name, version: int, segment: int, path: Bytes) {
    NoEmptyComponent(name) && Parse(PathText(prefix), name) == Request(3, version, segment, path)
  }

  lemma BackMeansPrinted(prefix: Name, path: Bytes, components: seq<Bytes>, version: nat, segment: nat)
    requires PlainPrefix(prefix) && PathComponents(components) && components != [] && path == PathText(components)
    requires version < INT32_LIMIT && segment < INT32_LIMIT
    requires ParsesTo(prefix, prefix + KeepEach(components) + [VersionComponent(version), SegmentComponent(segment)],
                      version, segment, path)
    ensures NoEmptyComponent(KeepEach(components)) && ToEscapedEach(KeepEach(components)) == components
  {
    var kept := KeepEach(components);
    var name := prefix + kept + [VersionComponent(version), SegmentComponent(segment)];
    assert forall i :: 0 <= i < |kept| ==> name[|prefix| + i] == kept[i];
    RequestPathLetters(PathText(prefix), name);
    PathTextLetters(components);
    KeptLetters(components);
    forall i | 0 <= i < |kept|
      ensures TokenOf(kept[i]).Plain?
    {
      PlainComponentToken(kept[i]);
    }
    SignedNameParsed(prefix, kept, version, segment);
    HeadTextPlain(kept);
    PrintedIsKept(kept);
    assert PathComponent(components[0]);
    assert |path| > 1;
    SplitPathText(components);
    SplitPathText(ToEscapedEach(kept));
    assert components == ([[]] + components)[1..];
    assert ToEscapedEach(kept) == ([[]] + ToEscapedEach(kept))[1..];
  }

  lemma UnreservedIsPlain(name: Name)
    requires UnreservedName(name)
    ensures AllPlain(name)
  {
    forall i | 0 <= i < |name|
      ensures name[i] != [] && TokenOf(name[i]).Plain?
    {
      assert name[i][0] in name[i];
      PlainComponentToken(name[i]);
    }
  }

  lemma SignedNameParsed(prefix: Name, components: Name, version: nat, segment: nat)
    requires PlainPrefix(prefix) && AllPlain(components)
    requires version < INT32_LIMIT && segment < INT32_LIMIT
    ensures ParsesTo(prefix, prefix + components + [VersionComponent(version), SegmentComponent(segment)],
                     version, segment, if components == [] then ['/'] else HeadText(components))
  {
    PlainPrefixIsPlain(prefix);
    HeadTextPlain(prefix);
    HeadTextAppend(prefix, components);
    HeadTextPlain(prefix + components);
    ParseNumberedHead(PathText(prefix), prefix + components, version, segment);
    assert components != [] ==> |HeadText(components)| > 0;
    assert (PathText(prefix) + HeadText(components))[|PathText(prefix)|..] == HeadText(components);
  }

  // ---------- the converse ----------

  /** A component spelled the one way in which the publisher spells it. */
  predicate CanonicalComponent(c: Component) {
    c != [] &&
    match TokenOf(c)
    case Plain => AllUnreserved(c)
    case Meta => false
    case Version(n) => n >= 0 && c == VersionComponent(n)
    case Segment(n) => n >= 0 && c == SegmentComponent(n)
  }

  predicate CanonicalName(name: Name) {
    forall i :: 0 <= i < |name| ==> CanonicalComponent(name[i])
  }

  /** A request under the served prefix that parses as a segment request carries the very name
      that was signed for what it parses to if and only if it is canonical: free of meta
      components, of reserved characters and of numbers in any but their shortest spelling. */
  lemma RequestIsSignedName(prefix: Name, name: Name, version: int, segment: int, path: Bytes)
    requires PlainPrefix(prefix) && prefix <= name && NoEmptyComponent(name)
    requires Parse(PathText(prefix), name) == Request(3, version, segment, path)
    ensures version >= 0 && segment >= 0 && name == SignedName(prefix, path, version, segment) <==> CanonicalName(name)
  {
    RequestNumbers(PathText(prefix), name);
    if CanonicalName(name) {
      CanonicalIsSigned(prefix, name, version, segment, path);
    }
    if version >= 0 && segment >= 0 && name == SignedName(prefix, path, version, segment) {
      SignedIsCanonical(prefix, name, version, segment, path);
    }
  }

  lemma CanonicalShape(name: Name, sh: Shape)
    requires NoEmptyComponent(name) && CanonicalName(name)
    requires HasShape(name, sh) && sh.segment.Some?
    ensures UnreservedName(sh.head)
    ensures TokenOf(sh.version.value).n >= 0 && TokenOf(sh.segment.value).n >= 0
    ensures name == sh.head + [VersionComponent(TokenOf(sh.version.value).n), SegmentComponent(TokenOf(sh.segment.value).n)]
  {
    var k := |sh.head|;
    assert name[k] == sh.version.value && CanonicalComponent(name[k]);
    assert CanonicalComponent(name[k + 1]);
    assert sh.blanks == [];
    assert name[k + 1] == sh.segment.value;
    forall i | 0 <= i < k
      ensures sh.head[i] != [] && AllUnreserved(sh.head[i])
    {
      assert sh.head[i] == name[i] && CanonicalComponent(name[i]) && HeadLike(sh.head[i]);
    }
  }

  lemma PrefixBeforeVersion(prefix: Name, name: Name, k: nat)
    requires PlainPrefix(prefix) && prefix <= name && k < |name| && name[k] != [] && TokenOf(name[k]).Version?
    ensures |prefix| <= k
  {
    PlainPrefixIsPlain(prefix);
    assert forall i :: 0 <= i < |prefix| ==> name[i] == prefix[i] && TokenOf(name[i]).Plain?;
  }

  lemma CanonicalIsSigned(prefix: Name, name: Name, version: int, segment: int, path: Bytes)
    requires PlainPrefix(prefix) && prefix <= name && NoEmptyComponent(name)
    requires Parse(PathText(prefix), name) == Request(3, version, segment, path)
    requires CanonicalName(name)
    ensures version >= 0 && segment >= 0 && name == SignedName(prefix, path, version, segment)
  {
    var sh := AcceptedShape(INITIAL, name);
    ShapeIsParsed(PathText(prefix), name, sh);
    CanonicalShape(name, sh);
    assert name[|sh.head|] == sh.version.value;
    PrefixBeforeVersion(prefix, name, |sh.head|);
    var rest := sh.head[|prefix|..];
    assert sh.head == prefix + rest;
    assert UnreservedName(rest) by {
      assert forall i :: 0 <= i < |rest| ==> rest[i] == sh.head[|prefix| + i];
    }
    UnreservedIsPlain(rest);
    SignedNameParsed(prefix, rest, version, segment);
    UnreservedIsSigned(prefix, rest, version, segment);
  }

  lemma UnreservedIsSigned(prefix: Name, rest: Name, version: nat, segment: nat)
    requires PlainPrefix(prefix) && UnreservedName(rest) && AllPlain(rest)
    ensures SignedName(prefix, if rest == [] then ['/'] else HeadText(rest), version, segment) ==
      prefix + rest + [VersionComponent(version), SegmentComponent(segment)]
  {
    HeadTextPlain(rest);
    PrintedIsKept(rest);
    SignedNameParts(prefix, ToEscapedEach(rest), version, segment);
    assert prefix + [] == prefix;
  }

  lemma PrefixLetters(prefix: Name)
    requires PlainPrefix(prefix)
    ensures TextLetters(PathText(prefix))
  {
    PlainPrefixIsPlain(prefix);
    HeadTextPlain(prefix);
    HeadTextLetters(prefix);
  }

  /** The components before the numbers of a signed name that parses back are plain, and start with the prefix. */
  lemma SignedHeadIsPlain(prefix: Name, name: Name, version: nat, segment: nat, path: Bytes)
    requires PlainPrefix(prefix) && prefix <= name && NoEmptyComponent(name)
    requires Parse(PathText(prefix), name) == Request(3, version, segment, path)
    requires name == SignedName(prefix, path, version, segment)
    requires version < INT32_LIMIT && segment < INT32_LIMIT
    ensures |prefix| <= |name| - 2 && AllPlain(name[..|name| - 2])
  {
    var head := name[..|name| - 2];
    var full := PathText(prefix) + path;
    assert head == UriComponents(full);
    NumberTokens(version);
    assert name[|head|] == VersionComponent(version);
    PrefixBeforeVersion(prefix, name, |head|);
    PrefixLetters(prefix);
    RequestPathLetters(PathText(prefix), name);
    UriLetters(full);
    assert forall i :: 0 <= i < |head| ==> head[i] == name[i];
    forall i | 0 <= i < |head|
      ensures head[i] != [] && TokenOf(head[i]).Plain?
    {
      PlainComponentToken(head[i]);
    }
  }

  /** What the parser escapes, the signer did not: a name that is both is free of escapes. */
  lemma SignedRestUnreserved(prefix: Name, rest: Name, version: nat, segment: nat, path: Bytes)
    requires PlainPrefix(prefix) && AllPlain(rest) && rest != []
    requires path == HeadText(rest)
    requires SignedName(prefix, path, version, segment) == prefix + rest + [VersionComponent(version), SegmentComponent(segment)]
    ensures UnreservedName(rest)
  {
    HeadTextPlain(rest);
    PrintedIsKept(rest);
    var kept := KeepEach(ToEscapedEach(rest));
    SignedNameParts(prefix, ToEscapedEach(rest), version, segment);
    var a, b := prefix + rest, prefix + kept;
    var numbers := [VersionComponent(version), SegmentComponent(segment)];
    assert a + numbers == b + numbers;
    assert a == (a + numbers)[..|a|] && b == (b + numbers)[..|b|];
    assert rest == a[|prefix|..] && kept == b[|prefix|..];
  }

  lemma SignedIsCanonical(prefix: Name, name: Name, version: nat, segment: nat, path: Bytes)
    requires PlainPrefix(prefix) && prefix <= name && NoEmptyComponent(name)
    requires Parse(PathText(prefix), name) == Request(3, version, segment, path)
    requires name == SignedName(prefix, path, version, segment)
    requires version < INT32_LIMIT && segment < INT32_LIMIT
    ensures CanonicalName(name)
  {
    SignedHeadIsPlain(prefix, name, version, segment, path);
    var head := name[..|name| - 2];
    var rest := head[|prefix|..];
    assert head == prefix + rest;
    assert name == head + [VersionComponent(version), SegmentComponent(segment)];
    assert AllPlain(rest) by {
      assert forall i :: 0 <= i < |rest| ==> rest[i] == head[|prefix| + i];
    }
    SignedNameParsed(prefix, rest, version, segment);
    if rest != [] {
      SignedRestUnreserved(prefix, rest, version, segment, path);
    }
    PartsAreCanonical(prefix, rest, version, segment);
  }

  lemma PartsAreCanonical(prefix: Name, rest: Name, version: nat, segment: nat)
    requires PlainPrefix(prefix) && UnreservedName(rest) && AllPlain(rest)
    requires version < INT32_LIMIT && segment < INT32_LIMIT
    ensures CanonicalName(prefix + rest + [VersionComponent(version), SegmentComponent(segment)])
  {
    NumberTokens(version);
    NumberTokens(segment);
    PlainPrefixIsPlain(prefix);
    forall i | 0 <= i < |prefix|
      ensures CanonicalComponent(prefix[i])
    {
      assert PlainComponent(prefix[i]);
    }
  }

  lemma {:induction false} SplitLetters(s: Bytes)
    requires TextLetters(s)
    ensures forall i :: 0 <= i < |Split(s)| ==> TextLetters(Split(s)[i])
  {
    if s != [] {
      SplitLetters(s[1..]);
      assert TextLetter(s[0]);
      var rest := Split(s[1..]);
      forall i | 0 <= i < |Split(s)|
        ensures TextLetters(Split(s)[i])
      {
        if s[0] == '/' {
          assert i > 0 ==> Split(s)[i] == rest[i - 1];
        } else {
          assert Split(s)[i] == if i == 0 then [s[0]] + rest[0] else rest[i];
          assert TextLetters(rest[i]);
        }
      }
    }
  }

  lemma UriLetters(s: Bytes)
    requires TextLetters(s)
    ensures forall i :: 0 <= i < |UriComponents(s)| ==> TextLetters(UriComponents(s)[i])
  {
    SplitLetters(s);
    KeptLetters(Split(s));
  }

  // ---------- requests without a segment ----------

  /** Appending segment 0 to a version request turns it into the request for its first segment. */
  lemma FirstSegment(prefix: Bytes, name: Name, version: int, path: Bytes)
    requires NoEmptyComponent(name)
    requires Parse(prefix, name) == Request(2, version, -1, path)
    ensures Parse(prefix, name + [SegmentComponent(0)]) == Request(3, version, 0, path)
  {
    var sh := AcceptedShape(INITIAL, name);
    ShapeIsParsed(prefix, name, sh);
    NumberTokens(0);
    var sh0 := sh.(segment := Some(SegmentComponent(0)));
    var name0 := name + [SegmentComponent(0)];
    assert name == sh.head + Optional(sh.version) + sh.blanks + [];
    assert name0 == sh0.head + Optional(sh0.version) + sh0.blanks + Optional(sh0.segment);
    ShapeIsParsed(prefix, name0, sh0);
  }

  /** A meta component leaves no trace in the triple: two names, one of them never signed,
      parse to the same path, version and segment. */
  lemma MetaIsInvisible(prefix: Name, version: nat, segment: nat)
    requires PlainPrefix(prefix) && version < INT32_LIMIT && segment < INT32_LIMIT
    ensures
      var signed := SignedName(prefix, "/a", version, segment);
      var other := prefix + ["a", [META_MARKER]] + [VersionComponent(version), SegmentComponent(segment)];
      && NoEmptyComponent(signed) && NoEmptyComponent(other) && signed != other
      && Parse(PathText(prefix), signed) == Request(3, version, segment, "/a")
      && Parse(PathText(prefix), other) == Parse(PathText(prefix), signed)
  {
    var file: Component, meta: Component := "a", [META_MARKER];
    assert file[0] == 'a' && PlainComponent(file);
    PlainPrefixIsPlain([file]);
    OneComponent(file);
    assert ['/'] + file == "/a";
    PlainPrefixIsPlain(prefix);
    SignedNameParts(prefix, [file], version, segment);
    SignedNameParsed(prefix, [file], version, segment);
    HeadTextPlain([file]);
    MetaSkipped(prefix, file, meta, version, segment);
  }

  lemma MetaSkipped(prefix: Name, file: Component, meta: Component, version: nat, segment: nat)
    requires PlainPrefix(prefix) && PlainPrefix([file]) && meta == [META_MARKER]
    requires version < INT32_LIMIT && segment < INT32_LIMIT
    ensures
      var other := prefix + [file, meta] + [VersionComponent(version), SegmentComponent(segment)];
      && NoEmptyComponent(other)
      && Parse(PathText(prefix), other) == Request(3, version, segment, PathText([file]))
  {
    var head := prefix + [file, meta];
    PlainPrefixIsPlain(prefix);
    PlainPrefixIsPlain([file]);
    HeadTextPlain(prefix);
    HeadTextPlain([file]);
    assert TokenOf(meta).Meta?;
    assert AllHeadLike(head);
    MetaHasNoText(prefix, file, meta);
    assert |HeadText([file])| > 0;
    ParseNumberedHead(PathText(prefix), head, version, segment);
  }

  lemma MetaLast(head: Name, meta: Component)
    requires AllPlain(head) && meta != [] && TokenOf(meta).Meta?
    ensures AllHeadLike(head + [meta]) && HasMeta(head + [meta]) && HeadText(head + [meta]) == HeadText(head)
  {
    HeadTextPlain(head);
    HeadTextAppend(head, [meta]);
    HeadTextStep([meta], meta, []);
    assert (head + [meta])[|head|] == meta;
  }

  lemma MetaHasNoText(prefix: Name, file: Component, meta: Component)
    requires NoEmptyComponent(prefix) && file != [] && meta == [META_MARKER]
    ensures HeadText(prefix + [file, meta]) == HeadText(prefix) + HeadText([file])
  {
    HeadTextAppend(prefix, [file, meta]);
    HeadTextStep([file, meta], file, [meta]);
    HeadTextStep([file], file, []);
    HeadTextStep([meta], meta, []);
  }

  /** A path that needs escaping comes back escaped, and so is not found: "/a b" returns as "/a%20b". */
  lemma EscapedPathComesBackEscaped(prefix: Name, version: nat, segment: nat)
    requires PlainPrefix(prefix) && version < INT32_LIMIT && segment < INT32_LIMIT
    ensures FilePath("/a b")
    ensures ParsesTo(prefix, SignedName(prefix, "/a b", version, segment), version, segment, "/a%20b")
  {
    var file: Component := "a b";
    OneComponent(file);
    SpaceEscaped();
    WithSlash();
    SignedNameParts(prefix, [file], version, segment);
    SignedNameParsed(prefix, [file], version, segment);
  }

  lemma OneComponent(file: Component)
    requires file != [] && TokenOf(file).Plain? && '/' !in file && !AllPeriods(file)
    ensures PathComponents([file]) && AllPlain([file]) && KeepEach([file]) == [file]
    ensures PathText([file]) == ['/'] + file && FilePath(['/'] + file)
    ensures HeadText([file]) == ['/'] + Escape(file)
  {
    assert PathText([]) == [] && HeadText([]) == [] && KeepEach([]) == [];
    assert [file][1..] == [];
    SplitPathText([file]);
    assert ([[]] + [file])[1..] == [file];
    HeadTextStep([file], file, []);
  }

  lemma WithSlash()
    ensures
      var raw: Bytes, escaped: Bytes := "a b", "a%20b";
      ['/'] + raw == "/a b" && ['/'] + escaped == "/a%20b"
  {
  }

  lemma SpaceEscaped()
    ensures Escape("a b") == "a%20b"
  {
  }

  /** Components of periods only: up to three are lost on the way, four and more come back. */
  lemma PeriodPaths(prefix: Name, periods: Bytes, version: nat, segment: nat)
    requires PlainPrefix(prefix) && version < INT32_LIMIT && segment < INT32_LIMIT
    requires AllPeriods(periods) && periods != []
    ensures FilePath(['/'] + periods)
    ensures ParsesTo(prefix, SignedName(prefix, ['/'] + periods, version, segment), version, segment, ['/'] + periods)
      <==> |periods| >= 4
    ensures |periods| <= 2 ==>
      SignedName(prefix, ['/'] + periods, version, segment) == SignedName(prefix, ['/'], version, segment)
  {
    assert PathText([]) == [] && [periods][1..] == [] && KeepEach([]) == [];
    assert PathComponents([periods]);
    assert PathText([periods]) == ['/'] + periods;
    SplitPathText([periods]);
    var path := ['/'] + periods;
    assert Split(path) == [[]] + [periods] && ([[]] + [periods])[1..] == [periods];
    SignedNameRoundTrip(prefix, path, version, segment);
    FilePathComponents(path);
    AllComeBackCons([periods]);
    SignedNameParts(prefix, [periods], version, segment);
    assert prefix + [] == prefix;
  }
}
