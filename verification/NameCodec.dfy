/** Names as lists of byte-string components, and how `sign_segment` prints and splits them. */
module NameCodec {
  import opened Octets

  type Component = Bytes
  type Name = seq<Component>

  const VERSION_MARKER: Octet := '\U{FD}'
  const SEGMENT_MARKER: Octet := '\0'
  const META_MARKER: Octet := '\U{C1}'

  // ---------- percent-encoding ----------

  /** The unreserved characters of section 2.3 of RFC 3986. */
  predicate Unreserved(c: Octet) {
    'A' <= c <= 'Z' || 'a' <= c <= 'z' || '0' <= c <= '9' || c == '-' || c == '.' || c == '_' || c == '~'
  }

  predicate AllUnreserved(s: Bytes) {
    forall c :: c in s ==> Unreserved(c)
  }

  function HexDigit(d: nat): (c: Octet)
    requires d < 16
    ensures Unreserved(c)
    ensures HexValue(c) == Some(d)
  {
    if d < 10 then (d + '0' as int) as char else (d - 10 + 'A' as int) as char
  }

  function HexValue(c: Octet): (d: Option<nat>)
    ensures d.Some? ==> d.value < 16
  {
    if '0' <= c <= '9' then Some(c as int - '0' as int)
    else if 'A' <= c <= 'F' then Some(c as int - 'A' as int + 10)
    else None
  }

  function EscapeOctet(c: Octet): Bytes {
    if Unreserved(c) then [c] else ['%', HexDigit(c as int / 16), HexDigit(c as int % 16)]
  }

  /** Every reserved byte as `%` and two upper-case hex digits. */
  function Escape(s: Bytes): Bytes {
    if s == [] then [] else EscapeOctet(s[0]) + Escape(s[1..])
  }

  /** Percent-decoding; a `%` that starts no valid escape stays as it is. */
  function Unescape(s: Bytes): Bytes {
    if s == [] then []
    else if s[0] == '%' && |s| >= 3 && HexValue(s[1]).Some? && HexValue(s[2]).Some? then
      [(HexValue(s[1]).value * 16 + HexValue(s[2]).value) as char] + Unescape(s[3..])
    else [s[0]] + Unescape(s[1..])
  }

  lemma {:induction false} UnescapeEscape(s: Bytes)
    ensures Unescape(Escape(s)) == s
    ensures Escape(s) == [] <==> s == []
  {
    if s != [] {
      UnescapeEscape(s[1..]);
      var e := EscapeOctet(s[0]);
      assert Escape(s)[|e|..] == Escape(s[1..]);
      assert Escape(s)[..|e|] == e;
      if !Unreserved(s[0]) {
        assert Escape(s)[1] == e[1] && Escape(s)[2] == e[2];
      }
    }
  }

  /** Escaping never shrinks a string, and leaves it as it is exactly when nothing in it is reserved. */
  lemma {:induction false} EscapeFixed(s: Bytes)
    ensures |Escape(s)| >= |s|
    ensures |Escape(s)| == |s| <==> AllUnreserved(s)
    ensures Escape(s) == s <==> AllUnreserved(s)
  {
    if s != [] {
      EscapeFixed(s[1..]);
      assert s == [s[0]] + s[1..];
      assert AllUnreserved(s) <==> Unreserved(s[0]) && AllUnreserved(s[1..]);
    }
  }

  /** An escaped string holds unreserved characters and `%` only. */
  lemma {:induction false} EscapeAlphabet(s: Bytes)
    ensures forall c :: c in Escape(s) ==> Unreserved(c) || c == '%'
  {
    if s != [] {
      EscapeAlphabet(s[1..]);
    }
  }

  // ---------- components of periods only ----------

  predicate AllPeriods(s: Bytes) {
    forall i :: 0 <= i < |s| ==> s[i] == '.'
  }

  /** `Component::toEscapedString`: a component of periods only gets three more of them. */
  function ToEscapedString(c: Component): Bytes {
    if AllPeriods(c) then "..." + c else Escape(c)
  }

  /** What a decoded piece of a URI stands for: of periods only, up to two are no component at all,
      and of more, three are taken off. */
  function KeepPiece(piece: Bytes): Option<Component> {
    if !AllPeriods(piece) then Some(piece)
    else if |piece| <= 2 then None
    else Some(piece[3..])
  }

  /** `Name::fromEscapedString`. */
  function FromEscapedString(s: Bytes): Option<Component> {
    KeepPiece(Unescape(s))
  }

  lemma PeriodsUnescaped(s: Bytes)
    requires AllPeriods(s)
    ensures Escape(s) == s && Unescape(s) == s
  {
    EscapeFixed(s);
    UnescapeEscape(s);
  }

  /** Every component, the empty one and those of periods only included, survives escaping and decoding. */
  lemma EscapedStringRoundTrip(c: Component)
    ensures FromEscapedString(ToEscapedString(c)) == Some(c)
  {
    if AllPeriods(c) {
      PeriodsUnescaped("..." + c);
    } else {
      UnescapeEscape(c);
    }
  }

  /** A component looks the same in a URI, and is as long there, exactly when nothing in it is reserved and it
      is not made of periods only; else its escaped form is longer. */
  lemma EscapedStringFixed(c: Component)
    ensures |ToEscapedString(c)| >= |c|
    ensures |ToEscapedString(c)| == |c| <==> AllUnreserved(c) && !AllPeriods(c)
    ensures ToEscapedString(c) == c <==> AllUnreserved(c) && !AllPeriods(c)
  {
    EscapeFixed(c);
  }

  /** The escaped form is never empty and holds no slash, only unreserved characters and `%`. */
  lemma EscapedStringShape(c: Component)
    ensures ToEscapedString(c) != [] && '/' !in ToEscapedString(c)
    ensures forall x :: x in ToEscapedString(c) ==> Unreserved(x) || x == '%'
  {
    EscapeAlphabet(c);
    UnescapeEscape(c);
  }

  // ---------- turning "%2F" back into "/" ----------

  predicate EscapedSlashAt(s: Bytes, i: nat) {
    i + 3 <= |s| && s[i] == '%' && s[i + 1] == '2' && s[i + 2] == 'F'
  }

  /** `s.find("%2F")`. */
  function FindEscapedSlash(s: Bytes): (found: Option<nat>)
    ensures found.Some? ==> EscapedSlashAt(s, found.value) && forall j: nat :: j < found.value ==> !EscapedSlashAt(s, j)
    ensures found.None? ==> forall j: nat :: !EscapedSlashAt(s, j)
  {
    if s == [] then None
    else if EscapedSlashAt(s, 0) then Some(0)
    else
      var rest := FindEscapedSlash(s[1..]);
      assert forall j: nat :: EscapedSlashAt(s, j) ==> j > 0 && EscapedSlashAt(s[1..], j - 1);
      assert forall j: nat :: EscapedSlashAt(s[1..], j) ==> EscapedSlashAt(s, j + 1);
      if rest.Some? then Some(rest.value + 1) else None
  }

  /** One left-to-right pass that rewrites every `%2F`. */
  function SlashesRestored(s: Bytes): Bytes {
    if s == [] then []
    else if EscapedSlashAt(s, 0) then ['/'] + SlashesRestored(s[3..])
    else [s[0]] + SlashesRestored(s[1..])
  }

  lemma {:induction false} RestoreOne(s: Bytes, i: nat)
    requires EscapedSlashAt(s, i) && forall j: nat :: j < i ==> !EscapedSlashAt(s, j)
    ensures SlashesRestored(s[..i] + ['/'] + s[i + 3..]) == SlashesRestored(s)
  {
    var t := s[..i] + ['/'] + s[i + 3..];
    if i == 0 {
      assert t[1..] == s[3..];
    } else {
      assert !EscapedSlashAt(s, 0);
      assert !EscapedSlashAt(t, 0);
      forall j: nat | j < i - 1
        ensures !EscapedSlashAt(s[1..], j)
      {
        assert !EscapedSlashAt(s, j + 1);
      }
      assert t[1..] == s[1..][..i - 1] + ['/'] + s[1..][i - 1 + 3..];
      RestoreOne(s[1..], i - 1);
    }
  }

  lemma {:induction false} RestoreNone(s: Bytes)
    requires forall j: nat :: !EscapedSlashAt(s, j)
    ensures SlashesRestored(s) == s
  {
    if s != [] {
      assert !EscapedSlashAt(s, 0);
      forall j: nat
        ensures !EscapedSlashAt(s[1..], j)
      {
        assert !EscapedSlashAt(s, j + 1);
      }
      RestoreNone(s[1..]);
    }
  }

  /** The replacement loop of `sign_segment`: it ends because every round removes two bytes. */
  method RestoreSlashes(s: Bytes) returns (r: Bytes)
    ensures r == SlashesRestored(s)
    ensures forall j: nat :: !EscapedSlashAt(r, j)
  {
    r := s;
    var found := FindEscapedSlash(r);
    while found.Some?
      invariant found == FindEscapedSlash(r)
      invariant SlashesRestored(r) == SlashesRestored(s)
      decreases |r|
    {
      RestoreOne(r, found.value);
      r := r[..found.value] + ['/'] + r[found.value + 3..];
      found := FindEscapedSlash(r);
    }
    RestoreNone(r);
  }

  // ---------- splitting at "/" ----------

  /** The pieces between the slashes, empty ones included. */
  function Split(s: Bytes): (pieces: seq<Bytes>)
    ensures |pieces| > 0
    ensures forall p :: p in pieces ==> '/' !in p
  {
    if s == [] then [[]]
    else
      var rest := Split(s[1..]);
      if s[0] == '/' then [[]] + rest else [[s[0]] + rest[0]] + rest[1..]
  }

  /** The components that the decoded pieces of a URI stand for. */
  function KeepEach(pieces: seq<Bytes>): Name {
    if pieces == [] then []
    else
      var first := KeepPiece(pieces[0]);
      (if first.Some? then [first.value] else []) + KeepEach(pieces[1..])
  }

  /** The components of a raw string that is printed as one component, gets its slashes back, and
      is read as a URI. */
  function UriComponents(s: Bytes): Name {
    if AllPeriods(s) then [s] else KeepEach(Split(s))
  }

  function EscapeEach(pieces: seq<Bytes>): (r: seq<Bytes>)
    ensures |r| == |pieces|
  {
    if pieces == [] then [] else [Escape(pieces[0])] + EscapeEach(pieces[1..])
  }

  function ToEscapedEach(components: Name): (r: seq<Bytes>)
    ensures |r| == |components|
  {
    if components == [] then [] else [ToEscapedString(components[0])] + ToEscapedEach(components[1..])
  }

  function DecodeEach(pieces: seq<Bytes>): Name {
    if pieces == [] then []
    else
      var first := FromEscapedString(pieces[0]);
      (if first.Some? then [first.value] else []) + DecodeEach(pieces[1..])
  }

  function Join(pieces: seq<Bytes>): Bytes
    requires |pieces| > 0
  {
    if |pieces| == 1 then pieces[0] else pieces[0] + ['/'] + Join(pieces[1..])
  }

  /** `Name(uri)`: split and decode each piece; those that stand for no component are skipped. */
  function NameFromUri(uri: Bytes): Name {
    DecodeEach(Split(uri))
  }

  lemma {:induction false} SplitAfterPiece(u: Bytes, rest: Bytes)
    requires '/' !in u
    ensures Split(u + rest) == [u + Split(rest)[0]] + Split(rest)[1..]
  {
    if u == [] {
      assert u + rest == rest;
      assert u + Split(rest)[0] == Split(rest)[0];
    } else {
      assert u[0] in u;
      SplitAfterPiece(u[1..], rest);
      assert (u + rest)[1..] == u[1..] + rest;
      var tail := Split(rest);
      assert ([u[1..] + tail[0]] + tail[1..])[1..] == tail[1..];
      assert [u[0]] + (u[1..] + tail[0]) == u + tail[0];
    }
  }

  lemma {:induction false} JoinSplit(s: Bytes)
    ensures Join(Split(s)) == s
  {
    if s != [] {
      JoinSplit(s[1..]);
      var rest := Split(s[1..]);
      if s[0] == '/' {
        assert Split(s)[1..] == rest;
      } else if |rest| > 1 {
        assert Split(s)[1..] == rest[1..];
      }
    }
  }

  /** Escaping the whole string as one component and then restoring the slashes is the same
      as escaping each piece between slashes. */
  lemma {:induction false} RestoreEscape(s: Bytes)
    ensures Split(SlashesRestored(Escape(s))) == EscapeEach(Split(s))
    ensures SlashesRestored(Escape(s)) == Join(EscapeEach(Split(s)))
  {
    if s == [] {
      assert Split([]) == [[]];
    } else {
      RestoreEscape(s[1..]);
      var e := EscapeOctet(s[0]);
      var tail := Escape(s[1..]);
      var done := SlashesRestored(tail);
      var rest := Split(s[1..]);
      assert Escape(s)[|e|..] == tail && Escape(s)[..|e|] == e;
      if s[0] == '/' {
        assert e == ['%', '2', 'F'];
        assert EscapedSlashAt(Escape(s), 0);
        assert SlashesRestored(Escape(s)) == ['/'] + done;
        assert (['/'] + done)[1..] == done;
      } else {
        RestoreUnit(s[0], tail);
        SplitAfterPiece(e, done);
        assert rest[0] == ([s[0]] + rest[0])[1..];
        assert EscapeEach(Split(s))[1..] == EscapeEach(rest)[1..];
      }
    }
    JoinSplit(SlashesRestored(Escape(s)));
  }

  lemma RestoreUnit(c: Octet, tail: Bytes)
    requires c != '/'
    ensures SlashesRestored(EscapeOctet(c) + tail) == EscapeOctet(c) + SlashesRestored(tail)
    ensures '/' !in EscapeOctet(c)
  {
    var e := EscapeOctet(c);
    var t := e + tail;
    if Unreserved(c) {
      assert t[1..] == tail;
    } else {
      assert c as int == HexValue(e[1]).value * 16 + HexValue(e[2]).value;
      assert !EscapedSlashAt(t, 0);
      assert t[1] == e[1] && t[2] == e[2];
      assert t[1..][1..] == t[2..] && t[2..][1..] == tail;
      assert SlashesRestored(t[2..]) == [t[2]] + SlashesRestored(tail);
      assert SlashesRestored(t[1..]) == [t[1]] + SlashesRestored(t[2..]);
    }
  }

  lemma {:induction false} DecodePieces(pieces: seq<Bytes>)
    ensures DecodeEach(EscapeEach(pieces)) == KeepEach(pieces)
  {
    if pieces != [] {
      DecodePieces(pieces[1..]);
      UnescapeEscape(pieces[0]);
      assert EscapeEach(pieces)[1..] == EscapeEach(pieces[1..]);
    }
  }

  lemma OnePiece(piece: Bytes)
    requires '/' !in piece && '%' !in piece
    ensures SlashesRestored(piece) == piece && Split(piece) == [piece]
  {
    forall j: nat
      ensures !EscapedSlashAt(piece, j)
    {
      assert j < |piece| ==> piece[j] in piece;
    }
    RestoreNone(piece);
    SplitAfterPiece(piece, []);
    assert piece + [] == piece && Split([]) == [[]];
    assert piece + Split([])[0] == piece && Split([])[1..] == [];
  }

  /** For every raw string, the name that signing builds is read off the raw pieces between the
      slashes: a literal "%2F" in a file name is never taken for a separator. */
  lemma SignedUriComponents(s: Bytes)
    ensures NameFromUri(SlashesRestored(ToEscapedString(s))) == UriComponents(s)
  {
    if AllPeriods(s) {
      var uri := "..." + s;
      assert AllPeriods(uri);
      OnePiece(uri);
      EscapedStringRoundTrip(s);
      assert [uri][0] == uri && [uri][1..] == [] && DecodeEach([]) == [];
      assert DecodeEach([uri]) == [s];
    } else {
      RestoreEscape(s);
      DecodePieces(Split(s));
    }
  }

  // ---------- components joined back into a path ----------

  /** `"/" << component` for each component. */
  function PathText(components: seq<Bytes>): Bytes {
    if components == [] then [] else ['/'] + components[0] + PathText(components[1..])
  }

  predicate PathComponent(c: Bytes) {
    c != [] && '/' !in c
  }

  predicate PathComponents(components: seq<Bytes>) {
    forall c :: c in components ==> PathComponent(c)
  }

  lemma {:induction false} PathTextAppend(a: seq<Bytes>, b: seq<Bytes>)
    ensures PathText(a + b) == PathText(a) + PathText(b)
  {
    if a == [] {
      assert a + b == b;
    } else {
      PathTextAppend(a[1..], b);
      assert (a + b)[1..] == a[1..] + b;
    }
  }

  /** Splitting takes a joined path apart again. */
  lemma {:induction false} SplitPathText(components: seq<Bytes>)
    requires PathComponents(components)
    ensures Split(PathText(components)) == [[]] + components
  {
    if components == [] {
      assert Split([]) == [[]];
    } else {
      var c, tail := components[0], PathText(components[1..]);
      assert PathComponent(c);
      SplitPathText(components[1..]);
      SplitAfterPiece(c, tail);
      assert PathText(components)[1..] == c + tail;
      assert c + Split(tail)[0] == c && Split(tail)[1..] == components[1..];
      assert Split(c + tail) == [c] + components[1..] == components;
    }
  }

  lemma {:induction false} KeepAppend(a: seq<Bytes>, b: seq<Bytes>)
    ensures KeepEach(a + b) == KeepEach(a) + KeepEach(b)
    decreases |a|
  {
    if a == [] {
      assert a + b == b;
    } else {
      KeepAppend(a[1..], b);
      assert (a + b)[1..] == a[1..] + b;
    }
  }

  // ---------- version and segment components ----------

  /** Shortest big-endian base-256 digits. */
  function Digits(n: nat): (ds: Bytes)
    ensures ds != []
  {
    if n < 256 then [n as char] else Digits(n / 256) + [(n % 256) as char]
  }

  function Number(ds: Bytes): nat {
    if ds == [] then 0 else Number(ds[..|ds| - 1]) * 256 + ds[|ds| - 1] as int
  }

  lemma {:induction false} NumberDigits(n: nat)
    ensures Number(Digits(n)) == n
  {
    if n < 256 {
      assert Number([]) == 0;
      assert Digits(n)[..0] == [];
    } else {
      NumberDigits(n / 256);
      assert Digits(n)[..|Digits(n)| - 1] == Digits(n / 256);
    }
  }

  /** No other spelling of a number is shorter. */
  lemma {:induction false} DigitsShortest(ds: Bytes)
    requires ds != []
    ensures |Digits(Number(ds))| <= |ds|
  {
    var front := ds[..|ds| - 1];
    if Number(ds) >= 256 {
      assert front != [] && Number(ds) / 256 == Number(front);
      DigitsShortest(front);
    }
  }

  /** Shorter, or of the same length and smaller at the first difference. */
  ghost predicate Before(a: Bytes, b: Bytes) {
    || |a| < |b|
    || (|a| == |b| && exists k :: 0 <= k < |a| && a[..k] == b[..k] && a[k] < b[k])
  }

  /** The spelling is big-endian: as components are ordered by length and then by their bytes, versions and segments
      are ordered as their numbers are. */
  lemma {:induction false} DigitsInOrder(m: nat, n: nat)
    requires m < n
    ensures Before(Digits(m), Digits(n))
  {
    if n < 256 {
      assert Digits(m)[..0] == Digits(n)[..0] && Digits(m)[0] < Digits(n)[0];
    } else if m >= 256 {
      var a, b := Digits(m / 256), Digits(n / 256);
      if m / 256 < n / 256 {
        DigitsInOrder(m / 256, n / 256);
        if |a| == |b| {
          var k :| 0 <= k < |a| && a[..k] == b[..k] && a[k] < b[k];
          assert Digits(m)[..k] == a[..k] && Digits(n)[..k] == b[..k];
        }
      } else {
        assert Digits(m)[..|a|] == a && Digits(n)[..|a|] == b;
        assert Digits(m)[|a|] < Digits(n)[|a|];
      }
    }
  }

  function VersionComponent(n: nat): Component {
    [VERSION_MARKER] + Digits(n)
  }

  function SegmentComponent(n: nat): Component {
    [SEGMENT_MARKER] + Digits(n)
  }

  /** The name under which the publisher signs a segment: the components of prefix and path, then the
      version and the segment number. */
  function SignedName(prefix: Name, path: Bytes, version: nat, segment: nat): Name {
    UriComponents(PathText(prefix) + path) + [VersionComponent(version), SegmentComponent(segment)]
  }

  /** The name construction of `sign_segment`, step by step. */
  method BuildSegmentName(prefix: Name, path: Bytes, version: nat, segment: nat) returns (name: Name)
    ensures name == SignedName(prefix, path, version, segment)
  {
    var fullName := PathText(prefix) + path;
    var escaped := ToEscapedString(fullName);
    escaped := RestoreSlashes(escaped);
    SignedUriComponents(fullName);
    name := NameFromUri(escaped);
    name := name + [VersionComponent(version)];
    name := name + [SegmentComponent(segment)];
  }
}
