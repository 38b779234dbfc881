/** `sendDirMetaBrowserFriendly`: the HTML page for a directory. */
module Listing {
  import opened Octets

  const META_SUFFIX: Bytes := "_list"
  const PARENT_LINK: Bytes := "<a href=\"" + "../\">[Parent directory]</a>" + "<br>"

  predicate HasEnding(full: Bytes, ending: Bytes) {
    |full| >= |ending| && full[|full| - |ending|..] == ending
  }

  /** The directory that is listed: the "_list" of the back button is cut off. */
  function QueryPath(path: Bytes): Bytes {
    if HasEnding(path, META_SUFFIX) then path[..|path| - |META_SUFFIX|] else path
  }

  /** The suffix is cut off once, and only where it is. */
  lemma QueryPathCuts(path: Bytes, stem: Bytes)
    ensures QueryPath(stem + META_SUFFIX) == stem
    ensures QueryPath(path) == path || path == QueryPath(path) + META_SUFFIX
    ensures QueryPath(path) == path <==> !exists s: Bytes :: path == s + META_SUFFIX
  {
    var full := stem + META_SUFFIX;
    assert full[|full| - |META_SUFFIX|..] == META_SUFFIX && full[..|full| - |META_SUFFIX|] == stem;
    if HasEnding(path, META_SUFFIX) {
      assert path == QueryPath(path) + META_SUFFIX;
    }
    if s: Bytes :| path == s + META_SUFFIX {
      assert path[|path| - |META_SUFFIX|..] == META_SUFFIX;
    }
  }

  // ---------- the order of std::string ----------

  predicate Leq(a: Bytes, b: Bytes) {
    a == [] || (b != [] && (a[0] < b[0] || (a[0] == b[0] && Leq(a[1..], b[1..]))))
  }

  lemma {:induction false} LeqTotal(a: Bytes, b: Bytes)
    ensures Leq(a, b) || Leq(b, a)
    ensures Leq(a, b) && Leq(b, a) ==> a == b
  {
    if a != [] && b != [] {
      LeqTotal(a[1..], b[1..]);
      assert a == [a[0]] + a[1..] && b == [b[0]] + b[1..];
    }
  }

  lemma {:induction false} LeqTransitive(a: Bytes, b: Bytes, c: Bytes)
    requires Leq(a, b) && Leq(b, c)
    ensures Leq(a, c)
  {
    if a != [] {
      if a[0] == b[0] == c[0] {
        LeqTransitive(a[1..], b[1..], c[1..]);
      }
    }
  }

  predicate Sorted(names: seq<Bytes>) {
    forall i, j :: 0 <= i < j < |names| ==> Leq(names[i], names[j])
  }

  /** There is only one way to sort: any two sorted permutations are the same sequence. */
  lemma {:induction false} SortedUnique(a: seq<Bytes>, b: seq<Bytes>)
    requires Sorted(a) && Sorted(b) && multiset(a) == multiset(b)
    ensures a == b
    decreases |a|
  {
    assert |multiset(a)| == |a| && |multiset(b)| == |b|;
    if a != [] {
      SameFirst(a, b);
      TailMultiset(a);
      TailMultiset(b);
      SortedUnique(a[1..], b[1..]);
    }
  }

  lemma TailMultiset(names: seq<Bytes>)
    requires names != []
    ensures multiset(names[1..]) == multiset(names) - multiset{names[0]}
    ensures names == [names[0]] + names[1..]
  {
    assert names == [names[0]] + names[1..];
  }

  lemma SameFirst(a: seq<Bytes>, b: seq<Bytes>)
    requires Sorted(a) && Sorted(b) && multiset(a) == multiset(b) && a != [] && b != []
    ensures a[0] == b[0]
  {
    assert a[0] in multiset(b) && b[0] in multiset(a);
    SmallestFirst(a, b[0]);
    SmallestFirst(b, a[0]);
    LeqTotal(a[0], b[0]);
  }

  lemma SmallestFirst(names: seq<Bytes>, x: Bytes)
    requires Sorted(names) && x in names
    ensures Leq(names[0], x)
  {
    LeqTotal(x, x);
  }

  /** `std::sort`, by insertion. */
  method Sort(names: seq<Bytes>) returns (r: seq<Bytes>)
    ensures Sorted(r) && multiset(r) == multiset(names)
  {
    r := [];
    var i := 0;
    while i < |names|
      invariant 0 <= i <= |names|
      invariant Sorted(r) && multiset(r) == multiset(names[..i])
    {
      assert names[..i + 1] == names[..i] + [names[i]];
      r := Insert(r, names[i]);
      i := i + 1;
    }
    assert names[..|names|] == names;
  }

  method Insert(sorted: seq<Bytes>, name: Bytes) returns (r: seq<Bytes>)
    requires Sorted(sorted)
    ensures Sorted(r) && multiset(r) == multiset(sorted + [name])
  {
    var k := 0;
    while k < |sorted| && Leq(sorted[k], name)
      invariant 0 <= k <= |sorted|
      invariant forall i :: 0 <= i < k ==> Leq(sorted[i], name)
    {
      k := k + 1;
    }
    InsertAt(sorted, name, k);
    r := sorted[..k] + [name] + sorted[k..];
  }

  lemma InsertAt(sorted: seq<Bytes>, name: Bytes, k: nat)
    requires Sorted(sorted) && k <= |sorted|
    requires forall i :: 0 <= i < k ==> Leq(sorted[i], name)
    requires k < |sorted| ==> !Leq(sorted[k], name)
    ensures Sorted(sorted[..k] + [name] + sorted[k..])
    ensures multiset(sorted[..k] + [name] + sorted[k..]) == multiset(sorted + [name])
  {
    forall i | k <= i < |sorted|
      ensures Leq(name, sorted[i])
    {
      LeqTotal(sorted[k], name);
      if i > k {
        LeqTransitive(name, sorted[k], sorted[i]);
      }
    }
    assert sorted == sorted[..k] + sorted[k..];
  }

  /** The same as a function of the names in the order in which they come. */
  function SortedNames(names: seq<Bytes>): seq<Bytes> {
    if names == [] then []
    else
      var sorted, name := SortedNames(names[..|names| - 1]), names[|names| - 1];
      sorted[..Position(sorted, name)] + [name] + sorted[Position(sorted, name)..]
  }

  function Position(sorted: seq<Bytes>, name: Bytes): (k: nat)
    ensures k <= |sorted|
    ensures forall i :: 0 <= i < k ==> Leq(sorted[i], name)
    ensures k < |sorted| ==> !Leq(sorted[k], name)
  {
    if sorted == [] || !Leq(sorted[0], name) then 0 else 1 + Position(sorted[1..], name)
  }

  lemma {:induction false} SortedNamesSorted(names: seq<Bytes>)
    ensures Sorted(SortedNames(names)) && multiset(SortedNames(names)) == multiset(names)
  {
    if names != [] {
      var earlier, name := names[..|names| - 1], names[|names| - 1];
      SortedNamesSorted(earlier);
      var sorted := SortedNames(earlier);
      InsertAt(sorted, name, Position(sorted, name));
      OneMoreName(sorted, names);
    }
  }

  lemma OneMoreName(sorted: seq<Bytes>, names: seq<Bytes>)
    requires names != [] && multiset(sorted) == multiset(names[..|names| - 1])
    ensures multiset(sorted + [names[|names| - 1]]) == multiset(names)
  {
    assert names == names[..|names| - 1] + [names[|names| - 1]];
  }

  // ---------- the page ----------

  function Line(name: Bytes): Bytes {
    "<a download=\"" + name + "\" href=\"./" + name + "\">" + name + "</a>" + "<br>"
  }

  function Lines(names: seq<Bytes>): Bytes {
    if names == [] then [] else Lines(names[..|names| - 1]) + Line(names[|names| - 1])
  }

  function Copies(text: Bytes, n: nat): Bytes {
    if n == 0 then [] else text + Copies(text, n - 1)
  }

  predicate Listed(name: Bytes) {
    name != "." && name != ".."
  }

  /** The names that the page lists: each exactly as often as the directory gave it. */
  ghost predicate ListedNames(names: multiset<Bytes>, entries: multiset<Bytes>) {
    forall x :: names[x] == if Listed(x) then entries[x] else 0
  }

  function ParentLinks(queryPath: Bytes, entries: multiset<Bytes>): Bytes {
    Copies(PARENT_LINK, if queryPath != "/" then entries[".."] else 0)
  }

  ghost predicate Renders(page: Bytes, queryPath: Bytes, entries: multiset<Bytes>, names: seq<Bytes>) {
    && Sorted(names) && ListedNames(multiset(names), entries)
    && page == ParentLinks(queryPath, entries) + "<html><body>" + Lines(names) + "</body></html>"
  }

  /** The page shows, after one parent link for each "..", the other names in ascending order. */
  ghost predicate IsPage(page: Bytes, queryPath: Bytes, entries: multiset<Bytes>) {
    exists names :: Renders(page, queryPath, entries, names)
  }

  /** The names that the readdir loop collects, in the order in which they come. */
  function Collected(entries: seq<Bytes>): seq<Bytes> {
    if entries == [] then []
    else
      var earlier, last := Collected(entries[..|entries| - 1]), entries[|entries| - 1];
      if Listed(last) then earlier + [last] else earlier
  }

  /** How often the readdir loop puts the parent link in front. */
  function ParentCount(queryPath: Bytes, entries: seq<Bytes>): nat {
    if entries == [] then 0
    else
      ParentCount(queryPath, entries[..|entries| - 1]) + (if entries[|entries| - 1] == ".." && queryPath != "/" then 1 else 0)
  }

  lemma {:induction false} CollectedEntries(queryPath: Bytes, entries: seq<Bytes>)
    ensures ListedNames(multiset(Collected(entries)), multiset(entries))
    ensures ParentCount(queryPath, entries) == if queryPath != "/" then multiset(entries)[".."] else 0
  {
    if entries != [] {
      var earlier := entries[..|entries| - 1];
      CollectedEntries(queryPath, earlier);
      assert entries == earlier + [entries[|entries| - 1]];
    }
  }

  method PrependParentLink(content: Bytes) returns (r: Bytes)
    ensures r == PARENT_LINK + content
  {
    r := "<br>" + content;
    r := "../\">[Parent directory]</a>" + r;
    r := "<a href=\"" + r;
  }

  lemma ParentLinkFirst(n: nat, rest: Bytes)
    ensures PARENT_LINK + (Copies(PARENT_LINK, n) + rest) == Copies(PARENT_LINK, n + 1) + rest
  {
  }

  /** The readdir loop: parent links go in front of the page, the other names are collected. */
  method Collect(opening: Bytes, queryPath: Bytes, entries: seq<Bytes>) returns (content: Bytes, names: seq<Bytes>)
    ensures content == ParentLinks(queryPath, multiset(entries)) + opening
    ensures ListedNames(multiset(names), multiset(entries))
  {
    content, names := opening, [];
    var i := 0;
    while i < |entries|
      invariant 0 <= i <= |entries|
      invariant content == Copies(PARENT_LINK, ParentCount(queryPath, entries[..i])) + opening
      invariant names == Collected(entries[..i])
    {
      assert entries[..i + 1][..i] == entries[..i];
      if entries[i] != "." {
        if entries[i] == ".." {
          if queryPath != "/" {
            ParentLinkFirst(ParentCount(queryPath, entries[..i]), opening);
            content := PrependParentLink(content);
          }
        } else {
          names := names + [entries[i]];
        }
      }
      i := i + 1;
    }
    assert entries[..|entries|] == entries;
    CollectedEntries(queryPath, entries);
  }

  /** The loop that writes one line for each name. */
  method AppendLines(head: Bytes, names: seq<Bytes>) returns (content: Bytes)
    ensures content == head + Lines(names)
  {
    content := head;
    var k := 0;
    while k < |names|
      invariant 0 <= k <= |names|
      invariant content == head + Lines(names[..k])
    {
      ghost var before := content;
      content := content + "<a download=\"";
      content := content + names[k];
      content := content + "\" href=\"./";
      content := content + names[k];
      content := content + ("\">" + names[k] + "</a>");
      content := content + "<br>";
      LinesNext(before, head, names, k, content);
      k := k + 1;
    }
    assert names[..|names|] == names;
  }

  method DirectoryPage(path: Bytes, entries: seq<Bytes>) returns (page: Bytes)
    ensures IsPage(page, QueryPath(path), multiset(entries))
    ensures page == PageOf(QueryPath(path), entries)
  {
    var content, names := Collect("<html><body>", QueryPath(path), entries);
    names := Sort(names);
    content := AppendLines(content, names);
    page := content + "</body></html>";
    RenderedIsPage(page, QueryPath(path), entries, names);
  }

  lemma RenderedIsPage(page: Bytes, queryPath: Bytes, entries: seq<Bytes>, names: seq<Bytes>)
    requires Renders(page, queryPath, multiset(entries), names)
    ensures IsPage(page, queryPath, multiset(entries)) && page == PageOf(queryPath, entries)
  {
    PageOfIsPage(queryPath, entries);
    PageIndependentOfOrder(page, PageOf(queryPath, entries), queryPath, entries, entries);
  }

  lemma LinesNext(before: Bytes, head: Bytes, names: seq<Bytes>, k: nat, content: Bytes)
    requires k < |names| && before == head + Lines(names[..k])
    requires content == before + "<a download=\"" + names[k] + "\" href=\"./" + names[k] + ("\">" + names[k] + "</a>") + "<br>"
    ensures content == head + Lines(names[..k + 1])
  {
    assert names[..k + 1][..k] == names[..k];
    var a: Bytes, b: Bytes, c: Bytes, d: Bytes, e: Bytes := "<a download=\"", "\" href=\"./", "\">", "</a>", "<br>";
    LineAssociates(before, a, b, c, d, e, names[k]);
    Associative(head, Lines(names[..k]), Line(names[k]));
  }

  lemma LineAssociates(x: Bytes, a: Bytes, b: Bytes, c: Bytes, d: Bytes, e: Bytes, n: Bytes)
    ensures x + a + n + b + n + (c + n + d) + e == x + (a + n + b + n + c + n + d + e)
  {
  }

  /** The page as a function of the entries in the order in which readdir gives them. */
  function PageOf(queryPath: Bytes, entries: seq<Bytes>): Bytes {
    Copies(PARENT_LINK, ParentCount(queryPath, entries)) + "<html><body>" + Lines(SortedNames(Collected(entries)))
      + "</body></html>"
  }

  lemma PageOfIsPage(queryPath: Bytes, entries: seq<Bytes>)
    ensures IsPage(PageOf(queryPath, entries), queryPath, multiset(entries))
  {
    var names := SortedNames(Collected(entries));
    SortedNamesSorted(Collected(entries));
    CollectedEntries(queryPath, entries);
    assert Renders(PageOf(queryPath, entries), queryPath, multiset(entries), names);
  }

  /** The root shows no parent link; any other directory whose listing has one ".." shows one, in front of the page. */
  lemma ParentLinkShown(page: Bytes, queryPath: Bytes, entries: multiset<Bytes>)
    requires IsPage(page, queryPath, entries)
    ensures queryPath == "/" ==> "<html><body>" <= page
    ensures queryPath != "/" && entries[".."] == 1 ==> PARENT_LINK + "<html><body>" <= page
  {
    var names :| Renders(page, queryPath, entries, names);
    var opening: Bytes := "<html><body>";
    OpensPage(ParentLinks(queryPath, entries), opening, Lines(names), "</body></html>");
    assert Copies(PARENT_LINK, 1) == PARENT_LINK + Copies(PARENT_LINK, 0) == PARENT_LINK + [];
    assert PARENT_LINK + [] == PARENT_LINK && [] + opening == opening;
  }

  lemma OpensPage(links: Bytes, opening: Bytes, lines: Bytes, closing: Bytes)
    ensures links + opening <= links + opening + lines + closing
  {
  }

  /** What stands in the page for one name. */
  lemma LineOfA()
    ensures Line("a") == "<a download=\"a\" href=\"./a\">a</a><br>"
  {
  }

  /** Two listings of the same directory, in whatever orders readdir gives the entries, are the same
      bytes. */
  lemma PageIndependentOfOrder(page1: Bytes, page2: Bytes, queryPath: Bytes, entries1: seq<Bytes>, entries2: seq<Bytes>)
    requires multiset(entries1) == multiset(entries2)
    requires IsPage(page1, queryPath, multiset(entries1)) && IsPage(page2, queryPath, multiset(entries2))
    ensures page1 == page2
  {
    var names1 :| Renders(page1, queryPath, multiset(entries1), names1);
    var names2 :| Renders(page2, queryPath, multiset(entries2), names2);
    assert multiset(names1) == multiset(names2);
    SortedUnique(names1, names2);
  }
}
