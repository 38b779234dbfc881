/** `parseName` of the server: a left-to-right automaton over name components. */
module NameParser {
  import opened Octets
  import opened NameCodec

  /** What a component is to the parser; numbers arrive truncated to a 32-bit int. */
  datatype Token = Plain | Meta | Version(n: int) | Segment(n: int)

  predicate NoEmptyComponent(name: Name) {
    forall i :: 0 <= i < |name| ==> name[i] != []
  }

  function TokenOf(c: Component): Token
    requires c != []
  {
    if c[0] == VERSION_MARKER then Version(AsInt32(Number(c[1..])))
    else if c[0] == SEGMENT_MARKER then Segment(AsInt32(Number(c[1..])))
    else if c[0] == META_MARKER then Meta
    else Plain
  }

  /** `OutOfRange` is the exception of `substr` on a path shorter than the served prefix. */
  datatype Parsed = Rejected | OutOfRange | Request(kind: int, version: int, segment: int, path: Bytes)

  /** The local variables of the scan; -1 stands for "not seen". */
  datatype ScanState = ScanState(version: int, segment: int, meta: bool, text: Bytes)

  const INITIAL := ScanState(-1, -1, false, [])

  function Advance(st: ScanState, c: Component): Option<ScanState>
    requires c != []
  {
    match TokenOf(c)
    case Version(n) => if st.version == -1 then Some(st.(version := n)) else None
    case Segment(n) => if st.version == -1 || st.segment != -1 then None else Some(st.(segment := n))
    case Meta => if st.version != -1 || st.segment != -1 then None else Some(st.(meta := true))
    case Plain =>
      if st.version == -1 && st.segment == -1 then Some(st.(text := st.text + ['/'] + ToEscapedString(c))) else None
  }

  function Scan(st: ScanState, name: Name): Option<ScanState>
    requires NoEmptyComponent(name)
    decreases |name|
  {
    if name == [] then Some(st)
    else
      var next := Advance(st, name[0]);
      if next.None? then None else Scan(next.value, name[1..])
  }

  function Finish(prefix: Bytes, st: ScanState): Parsed {
    if |st.text| < |prefix| then OutOfRange
    else
      var path := if |st.text| == |prefix| then ['/'] else st.text[|prefix|..];
      var kind := if st.version != -1 && st.segment != -1 then 3 else if st.version != -1 && !st.meta then 2 else 1;
      Request(kind, st.version, st.segment, path)
  }

  function Parse(prefix: Bytes, name: Name): Parsed
    requires NoEmptyComponent(name)
  {
    var end := Scan(INITIAL, name);
    if end.None? then Rejected else Finish(prefix, end.value)
  }

  // ---------- the language that the automaton recognises ----------

  /** `head version blanks segment`, where a version or segment number that truncates to -1 reads
      as "not seen": such a version may stand anywhere in the head, such a segment after the version. */
  datatype Shape = Shape(head: Name, version: Option<Component>, blanks: Name, segment: Option<Component>)

  predicate HeadLike(c: Component) {
    c != [] && (TokenOf(c).Plain? || TokenOf(c).Meta? || TokenOf(c) == Version(-1))
  }

  predicate Blank(c: Component) {
    c != [] && TokenOf(c) == Segment(-1)
  }

  predicate AllHeadLike(head: Name) {
    forall i :: 0 <= i < |head| ==> HeadLike(head[i])
  }

  predicate AllBlank(blanks: Name) {
    forall i :: 0 <= i < |blanks| ==> Blank(blanks[i])
  }

  function Optional(c: Option<Component>): Name {
    if c.Some? then [c.value] else []
  }

  predicate WellShaped(sh: Shape) {
    && AllHeadLike(sh.head)
    && (sh.version.Some? ==> sh.version.value != [] && TokenOf(sh.version.value).Version? && TokenOf(sh.version.value).n != -1)
    && AllBlank(sh.blanks)
    && (sh.segment.Some? ==> sh.segment.value != [] && TokenOf(sh.segment.value).Segment? && TokenOf(sh.segment.value).n != -1)
    && (sh.version.None? ==> sh.blanks == [] && sh.segment.None?)
  }

  predicate HasShape(name: Name, sh: Shape) {
    WellShaped(sh) && name == sh.head + Optional(sh.version) + sh.blanks + Optional(sh.segment)
  }

  /** What one head component adds to the string stream. */
  function ComponentText(c: Component): Bytes
    requires c != []
  {
    if TokenOf(c).Plain? then ['/'] + ToEscapedString(c) else []
  }

  /** The text that the head leaves in the string stream: its escaped plain components, in order. */
  function HeadText(head: Name): Bytes
    requires NoEmptyComponent(head)
  {
    if head == [] then [] else ComponentText(head[0]) + HeadText(head[1..])
  }

  predicate HasMeta(head: Name)
    requires NoEmptyComponent(head)
  {
    exists i :: 0 <= i < |head| && TokenOf(head[i]).Meta?
  }

  /** The parse of a well-shaped name, read off its shape: the path is the ordered join of the
      escaped plain components, cut after the prefix. */
  function Outcome(prefix: Bytes, sh: Shape): (r: Parsed)
    requires WellShaped(sh)
    ensures !r.Rejected?
  {
    var text := HeadText(sh.head);
    if |text| < |prefix| then OutOfRange
    else
      var path := if |text| == |prefix| then ['/'] else text[|prefix|..];
      if sh.segment.Some? then Request(3, TokenOf(sh.version.value).n, TokenOf(sh.segment.value).n, path)
      else if sh.version.Some? then Request(if HasMeta(sh.head) then 1 else 2, TokenOf(sh.version.value).n, -1, path)
      else Request(1, -1, -1, path)
  }

  lemma HasMetaCons(head: Name)
    requires head != [] && NoEmptyComponent(head)
    ensures HasMeta(head) <==> TokenOf(head[0]).Meta? || HasMeta(head[1..])
  {
  }

  function HeadEffect(st: ScanState, head: Name): ScanState
    requires NoEmptyComponent(head)
  {
    ScanState(-1, -1, st.meta || HasMeta(head), st.text + HeadText(head))
  }

  lemma HeadEffectCons(st: ScanState, next: ScanState, head: Name)
    requires head != [] && NoEmptyComponent(head)
    requires next == ScanState(-1, -1, st.meta || TokenOf(head[0]).Meta?, st.text + ComponentText(head[0]))
    ensures HeadEffect(next, head[1..]) == HeadEffect(st, head)
  {
    HasMetaCons(head);
    Associative(st.text, ComponentText(head[0]), HeadText(head[1..]));
  }

  lemma AdvanceHead(st: ScanState, c: Component)
    requires st.version == -1 && st.segment == -1 && HeadLike(c)
    ensures Advance(st, c) == Some(ScanState(-1, -1, st.meta || TokenOf(c).Meta?, st.text + ComponentText(c)))
  {
    if TokenOf(c).Plain? {
      assert st.text + ['/'] + ToEscapedString(c) == st.text + (['/'] + ToEscapedString(c));
    } else {
      assert st.text + [] == st.text;
    }
  }

  lemma {:induction false} ScanHead(st: ScanState, head: Name, rest: Name)
    requires st.version == -1 && st.segment == -1
    requires AllHeadLike(head)
    requires NoEmptyComponent(rest)
    ensures Scan(st, head + rest) == Scan(HeadEffect(st, head), rest)
    decreases |head|
  {
    if head == [] {
      assert head + rest == rest;
      assert HeadEffect(st, head) == st by {
        assert st.text + [] == st.text;
      }
    } else {
      assert HeadLike(head[0]);
      AdvanceHead(st, head[0]);
      var next := Advance(st, head[0]).value;
      assert Scan(st, head + rest) == Scan(next, head[1..] + rest) by {
        assert (head + rest)[0] == head[0] && (head + rest)[1..] == head[1..] + rest;
      }
      ScanHead(next, head[1..], rest);
      HeadEffectCons(st, next, head);
    }
  }

  lemma {:induction false} ScanBlanks(st: ScanState, blanks: Name, rest: Name)
    requires st.version != -1 && st.segment == -1
    requires AllBlank(blanks)
    requires NoEmptyComponent(rest)
    ensures Scan(st, blanks + rest) == Scan(st, rest)
    decreases |blanks|
  {
    if blanks == [] {
      assert blanks + rest == rest;
    } else {
      assert Blank(blanks[0]);
      assert (blanks + rest)[1..] == blanks[1..] + rest;
      ScanBlanks(st, blanks[1..], rest);
    }
  }

  lemma ScanTail(st: ScanState, sh: Shape)
    requires WellShaped(sh) && st.version == -1 && st.segment == -1
    ensures Scan(st, Optional(sh.version) + sh.blanks + Optional(sh.segment)) == Some(st.(
      version := if sh.version.Some? then TokenOf(sh.version.value).n else -1,
      segment := if sh.segment.Some? then TokenOf(sh.segment.value).n else -1))
  {
    var tail := Optional(sh.version) + sh.blanks + Optional(sh.segment);
    if sh.version.Some? {
      var st1 := st.(version := TokenOf(sh.version.value).n);
      assert tail[1..] == sh.blanks + Optional(sh.segment);
      ScanBlanks(st1, sh.blanks, Optional(sh.segment));
    } else {
      assert tail == [];
    }
  }

  /** Every well-shaped name is accepted, with the outcome read off its shape. */
  lemma ShapeIsParsed(prefix: Bytes, name: Name, sh: Shape)
    requires NoEmptyComponent(name)
    requires HasShape(name, sh)
    ensures Parse(prefix, name) == Outcome(prefix, sh)
  {
    var tail := Optional(sh.version) + sh.blanks + Optional(sh.segment);
    assert name == sh.head + tail;
    ScanHead(INITIAL, sh.head, tail);
    assert [] + HeadText(sh.head) == HeadText(sh.head);
    ScanTail(ScanState(-1, -1, HasMeta(sh.head), HeadText(sh.head)), sh);
  }

  lemma {:induction false} TailShape(st: ScanState, name: Name) returns (blanks: Name, segment: Option<Component>)
    requires NoEmptyComponent(name)
    requires st.version != -1 && st.segment == -1
    requires Scan(st, name).Some?
    ensures name == blanks + Optional(segment)
    ensures AllBlank(blanks)
    ensures segment.Some? ==> segment.value != [] && TokenOf(segment.value).Segment? && TokenOf(segment.value).n != -1
  {
    if name == [] {
      blanks, segment := [], None;
    } else if Blank(name[0]) {
      blanks, segment := TailShape(st, name[1..]);
      blanks := [name[0]] + blanks;
    } else {
      assert name[0] in name;
      blanks, segment := [], Some(name[0]);
    }
  }

  /** Every accepted name is well-shaped. */
  lemma {:induction false} AcceptedShape(st: ScanState, name: Name) returns (sh: Shape)
    requires NoEmptyComponent(name)
    requires st.version == -1 && st.segment == -1
    requires Scan(st, name).Some?
    ensures HasShape(name, sh)
    decreases |name|
  {
    if name == [] {
      sh := Shape([], None, [], None);
    } else {
      assert name[0] in name;
      var next := Advance(st, name[0]).value;
      if HeadLike(name[0]) {
        sh := AcceptedShape(next, name[1..]);
        sh := sh.(head := [name[0]] + sh.head);
      } else {
        var blanks, segment := TailShape(next, name[1..]);
        sh := Shape([], Some(name[0]), blanks, segment);
      }
    }
  }

  /** The names accepted are exactly the well-shaped ones, and the outcome is read off the shape. */
  lemma ParsedLanguage(prefix: Bytes, name: Name)
    requires NoEmptyComponent(name)
    ensures forall sh :: HasShape(name, sh) ==> Parse(prefix, name) == Outcome(prefix, sh)
    ensures Parse(prefix, name).Rejected? <==> !exists sh :: HasShape(name, sh)
  {
    forall sh | HasShape(name, sh)
      ensures Parse(prefix, name) == Outcome(prefix, sh)
    {
      ShapeIsParsed(prefix, name, sh);
    }
    if Scan(INITIAL, name).Some? {
      var sh := AcceptedShape(INITIAL, name);
    }
  }

  lemma ScanAt(st: ScanState, name: Name, i: nat)
    requires NoEmptyComponent(name) && i < |name|
    ensures name[i] != []
    ensures Scan(st, name[i..]) == if Advance(st, name[i]).None? then None else Scan(Advance(st, name[i]).value, name[i + 1..])
  {
    assert name[i..][0] == name[i] && name[i..][1..] == name[i + 1..];
  }

  /** The scanning loop of `parseName`. */
  method ScanComponents(name: Name) returns (end: Option<ScanState>)
    requires NoEmptyComponent(name)
    ensures end == Scan(INITIAL, name)
  {
    var version, segment, hasMeta, text: Bytes := -1, -1, false, [];
    var i := 0;
    while i < |name|
      invariant 0 <= i <= |name|
      invariant Scan(INITIAL, name) == Scan(ScanState(version, segment, hasMeta, text), name[i..])
    {
      ScanAt(ScanState(version, segment, hasMeta, text), name, i);
      var c := name[i];
      if c[0] == VERSION_MARKER {
        if version != -1 {
          return None;
        }
        version := AsInt32(Number(c[1..]));
      } else if c[0] == SEGMENT_MARKER {
        if version == -1 {
          return None;
        } else if segment != -1 {
          return None;
        }
        segment := AsInt32(Number(c[1..]));
      } else if c[0] == META_MARKER {
        if version != -1 || segment != -1 {
          return None;
        }
        hasMeta := true;
      } else {
        if version != -1 || segment != -1 {
          return None;
        }
        text := text + ['/'] + ToEscapedString(c);
      }
      i := i + 1;
    }
    end := Some(ScanState(version, segment, hasMeta, text));
  }

  /** `parseName`. Its verdict is the regular language of shapes, both ways. */
  method ParseName(prefix: Bytes, name: Name) returns (r: Parsed)
    requires NoEmptyComponent(name)
    ensures r == Parse(prefix, name)
    ensures forall sh :: HasShape(name, sh) ==> r == Outcome(prefix, sh)
    ensures r.Rejected? <==> !exists sh :: HasShape(name, sh)
  {
    ParsedLanguage(prefix, name);
    var end := ScanComponents(name);
    if end.None? {
      return Rejected;
    }
    var ScanState(version, segment, hasMeta, text) := end.value;
    if |text| < |prefix| {
      return OutOfRange;
    }
    var path := text[|prefix|..];
    if path == [] {
      path := ['/'];
    }
    if version != -1 && segment != -1 {
      r := Request(3, version, segment, path);
    } else if version != -1 && !hasMeta {
      r := Request(2, version, segment, path);
    } else {
      r := Request(1, version, segment, path);
    }
  }
}
