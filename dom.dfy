/**
 * A parsed HTML document as the scraper sees it: the element nodes in
 * document order, each knowing where its subtree ends.  Node `i`'s
 * descendants are exactly the nodes `i+1 .. end-1`.  On top of it, the three
 * searches the scraper uses (first match in a subtree, every match in a
 * subtree, first match after a node) and the whitespace strip applied to
 * every extracted text.
 */
module Dom {
  import opened Wrappers

  /**
   * One element: its tag name, its class list, its attributes, its text (the
   * concatenated text of its subtree, as the parser reports it) and the index
   * one past its last descendant.
   */
  datatype Node = Node(tag: string, classes: seq<string>, attrs: map<string, string>, text: string, end: nat)

  /** A node inside the subtree of node `i` has its own subtree inside it too. */
  predicate Nests(d: seq<Node>, i: nat, j: nat)
    requires i < |d| && j < |d|
  {
    j < d[i].end ==> d[j].end <= d[i].end
  }

  /** Every subtree span lies inside the document and spans nest like a tree. */
  predicate WellFormed(d: seq<Node>) {
    && (forall i :: 0 <= i < |d| ==> i < d[i].end <= |d|)
    && (forall i, j :: 0 <= i < j < |d| ==> Nests(d, i, j))
  }

  type Document = d: seq<Node> | WellFormed(d) witness []

  /** A `find`/`find_all` filter: a tag name and, optionally, one class the element must carry. */
  datatype Selector = Selector(tag: string, cls: Option<string>)

  predicate Matches(n: Node, sel: Selector) {
    n.tag == sel.tag && (sel.cls.None? || sel.cls.value in n.classes)
  }

  /** `j` is the first node of `d[lo..hi]` that matches `sel`. */
  ghost predicate FirstMatch(d: seq<Node>, lo: nat, hi: nat, sel: Selector, j: nat) {
    lo <= j < hi <= |d| && Matches(d[j], sel) && forall k :: lo <= k < j ==> !Matches(d[k], sel)
  }

  /** No node of `d[lo..hi]` matches `sel`. */
  ghost predicate NoMatch(d: seq<Node>, lo: nat, hi: nat, sel: Selector)
    requires hi <= |d|
  {
    forall k :: lo <= k < hi ==> !Matches(d[k], sel)
  }

  /** The first index in `lo..hi-1` whose node matches, if any (see `FirstInFinds`). */
  function FirstIn(d: seq<Node>, lo: nat, hi: nat, sel: Selector): (r: Option<nat>)
    requires lo <= hi <= |d|
    ensures r.Some? ==> lo <= r.value < hi
    decreases hi - lo
  {
    if lo == hi then None
    else if Matches(d[lo], sel) then Some(lo)
    else FirstIn(d, lo + 1, hi, sel)
  }

  /** `FirstIn` gives the first match and reports none only when there is none. */
  lemma {:induction false} FirstInFinds(d: seq<Node>, lo: nat, hi: nat, sel: Selector)
    requires lo <= hi <= |d|
    ensures FirstIn(d, lo, hi, sel).Some? ==> FirstMatch(d, lo, hi, sel, FirstIn(d, lo, hi, sel).value)
    ensures FirstIn(d, lo, hi, sel).None? ==> NoMatch(d, lo, hi, sel)
    decreases hi - lo
  {
    if lo < hi && !Matches(d[lo], sel) {
      FirstInFinds(d, lo + 1, hi, sel);
    }
  }

  /** The first match is unique: whichever node is first, `FirstIn` names it. */
  lemma FirstInIs(d: seq<Node>, lo: nat, hi: nat, sel: Selector, j: nat)
    requires FirstMatch(d, lo, hi, sel, j)
    ensures FirstIn(d, lo, hi, sel) == Some(j)
  {
    FirstInFinds(d, lo, hi, sel);
  }

  /** With no match in range, `FirstIn` finds nothing. */
  lemma FirstInNone(d: seq<Node>, lo: nat, hi: nat, sel: Selector)
    requires lo <= hi <= |d| && NoMatch(d, lo, hi, sel)
    ensures FirstIn(d, lo, hi, sel) == None
  {
    FirstInFinds(d, lo, hi, sel);
  }

  /** Every index in `lo..hi-1` whose node matches, in increasing order (see `AllInMatches`, `AllInSorted` and `AllInComplete`). */
  function AllIn(d: seq<Node>, lo: nat, hi: nat, sel: Selector): (r: seq<nat>)
    requires lo <= hi <= |d|
    ensures forall m :: 0 <= m < |r| ==> lo <= r[m] < hi
    decreases hi - lo
  {
    if lo == hi then []
    else if Matches(d[lo], sel) then [lo] + AllIn(d, lo + 1, hi, sel)
    else AllIn(d, lo + 1, hi, sel)
  }

  /** `AllIn` lists matching nodes only. */
  lemma {:induction false} AllInMatches(d: seq<Node>, lo: nat, hi: nat, sel: Selector)
    requires lo <= hi <= |d|
    ensures forall m :: 0 <= m < |AllIn(d, lo, hi, sel)| ==> Matches(d[AllIn(d, lo, hi, sel)[m]], sel)
    decreases hi - lo
  {
    if lo < hi {
      AllInMatches(d, lo + 1, hi, sel);
    }
  }

  /** `AllIn` lists nodes in document order, each once. */
  lemma {:induction false} AllInSorted(d: seq<Node>, lo: nat, hi: nat, sel: Selector)
    requires lo <= hi <= |d|
    ensures forall m, n :: 0 <= m < n < |AllIn(d, lo, hi, sel)| ==> AllIn(d, lo, hi, sel)[m] < AllIn(d, lo, hi, sel)[n]
    decreases hi - lo
  {
    if lo < hi {
      AllInSorted(d, lo + 1, hi, sel);
    }
  }

  /** `AllIn` misses no matching node. */
  lemma {:induction false} AllInComplete(d: seq<Node>, lo: nat, hi: nat, sel: Selector)
    requires lo <= hi <= |d|
    ensures forall k :: lo <= k < hi && Matches(d[k], sel) ==> k in AllIn(d, lo, hi, sel)
    decreases hi - lo
  {
    if lo < hi {
      AllInComplete(d, lo + 1, hi, sel);
    }
  }

  /** `node.find(sel)`: the first matching descendant of node `i`. */
  function Find(doc: Document, i: nat, sel: Selector): (r: Option<nat>)
    requires i < |doc|
    ensures r.Some? ==> i < r.value < doc[i].end && doc[r.value].end <= doc[i].end
  {
    var r := FirstIn(doc, i + 1, doc[i].end, sel);
    if r.Some? then assert Nests(doc, i, r.value); r else r
  }

  /** `node.find_all(sel)`: every matching descendant of node `i`, in document order. */
  function FindAll(doc: Document, i: nat, sel: Selector): (r: seq<nat>)
    requires i < |doc|
    ensures forall m :: 0 <= m < |r| ==> i < r[m] < doc[i].end
  {
    AllIn(doc, i + 1, doc[i].end, sel)
  }

  /** `node.find_next(sel)`: the first matching node after node `i` in document order, inside its subtree or not. */
  function FindNext(doc: Document, i: nat, sel: Selector): (r: Option<nat>)
    requires i < |doc|
    ensures r.Some? ==> i < r.value < |doc|
  {
    FirstIn(doc, i + 1, |doc|, sel)
  }

  /** `soup.find_all(sel)`: every matching node of the whole document. */
  function FindAllInDocument(doc: Document, sel: Selector): (r: seq<nat>)
    ensures forall m :: 0 <= m < |r| ==> r[m] < |doc|
  {
    AllIn(doc, 0, |doc|, sel)
  }

  /** `node.get(name)`: the attribute's value, or nothing when the element lacks it. */
  function GetAttr(n: Node, name: string): Option<string> {
    if name in n.attrs then Some(n.attrs[name]) else None
  }

  /** How an f-string renders an optional value: the value itself, or the text `None`. */
  function Format(o: Option<string>): string {
    match o
    case Some(s) => s
    case None => "None"
  }

  /** The characters Python's `str.isspace` accepts. */
  predicate IsSpace(c: char) {
    c == ' ' || ('\t' <= c <= '\r') || ('\U{1C}' <= c <= '\U{1F}') || c == '\U{85}' || c == '\U{A0}'
    || c == '\U{1680}' || ('\U{2000}' <= c <= '\U{200A}') || c == '\U{2028}' || c == '\U{2029}'
    || c == '\U{202F}' || c == '\U{205F}' || c == '\U{3000}'
  }

  /** The number of whitespace characters at the start of `s`. */
  function LeadingSpaces(s: string): (n: nat)
    ensures n <= |s|
  {
    if s == [] || !IsSpace(s[0]) then 0 else 1 + LeadingSpaces(s[1..])
  }

  lemma {:induction false} LeadingSpacesCounts(s: string)
    ensures var n := LeadingSpaces(s);
      (forall k :: 0 <= k < n ==> IsSpace(s[k])) && (n < |s| ==> !IsSpace(s[n]))
  {
    if s != [] && IsSpace(s[0]) {
      LeadingSpacesCounts(s[1..]);
    }
  }

  /** The number of whitespace characters at the end of `s`. */
  function TrailingSpaces(s: string): (n: nat)
    ensures n <= |s|
  {
    if s == [] || !IsSpace(s[|s| - 1]) then 0 else 1 + TrailingSpaces(s[..|s| - 1])
  }

  lemma {:induction false} TrailingSpacesCounts(s: string)
    ensures var n := TrailingSpaces(s);
      (forall k :: |s| - n <= k < |s| ==> IsSpace(s[k])) && (n < |s| ==> !IsSpace(s[|s| - 1 - n]))
  {
    if s != [] && IsSpace(s[|s| - 1]) {
      TrailingSpacesCounts(s[..|s| - 1]);
    }
  }

  /** `str.strip()`: `s` without its leading and trailing whitespace (see `StripTrims`). */
  function Strip(s: string): (r: string)
    ensures |r| <= |s|
  {
    var lo := LeadingSpaces(s);
    s[lo..|s| - TrailingSpaces(s[lo..])]
  }

  /**
   * What `Strip` keeps: the slice of `s` starting after the leading
   * whitespace, followed in `s` by whitespace only, and neither starting nor
   * ending with whitespace itself.
   */
  lemma StripTrims(s: string)
    ensures var r := Strip(s); var lo := LeadingSpaces(s);
      && (forall k :: 0 <= k < lo ==> IsSpace(s[k]))
      && lo + |r| <= |s| && r == s[lo..lo + |r|]
      && (forall k :: lo + |r| <= k < |s| ==> IsSpace(s[k]))
      && (r != [] ==> !IsSpace(r[0]) && !IsSpace(r[|r| - 1]))
  {
    LeadingSpacesCounts(s);
    StripSlice(s);
    StripSuffix(s);
    StripEnds(s);
  }

  lemma StripSlice(s: string)
    ensures LeadingSpaces(s) + |Strip(s)| == |s| - TrailingSpaces(s[LeadingSpaces(s)..])
    ensures Strip(s) == s[LeadingSpaces(s)..LeadingSpaces(s) + |Strip(s)|]
  {
  }

  lemma StripSuffix(s: string)
    ensures forall k :: LeadingSpaces(s) + |Strip(s)| <= k < |s| ==> IsSpace(s[k])
  {
    var lo := LeadingSpaces(s);
    var rest := s[lo..];
    StripSlice(s);
    TrailingSpacesCounts(rest);
    forall k | lo + |Strip(s)| <= k < |s|
      ensures IsSpace(s[k])
    {
      assert s[k] == rest[k - lo];
    }
  }

  lemma StripEnds(s: string)
    ensures Strip(s) != [] ==> !IsSpace(Strip(s)[0]) && !IsSpace(Strip(s)[|Strip(s)| - 1])
  {
    var lo := LeadingSpaces(s);
    var rest := s[lo..];
    var t := TrailingSpaces(rest);
    var r := Strip(s);
    if r != [] {
      LeadingSpacesCounts(s);
      TrailingSpacesCounts(rest);
      assert r == rest[..|rest| - t];
      assert r[0] == s[lo];
      assert r[|r| - 1] == rest[|rest| - 1 - t];
    }
  }

  /** Stripping twice is stripping once. */
  lemma StripIdempotent(s: string)
    ensures Strip(Strip(s)) == Strip(s)
  {
    var r := Strip(s);
    StripTrims(s);
    if r != [] {
      assert LeadingSpaces(r) == 0;
      assert TrailingSpaces(r[0..]) == 0 by { assert r[0..] == r; }
    }
  }

  /** Text that neither starts nor ends with whitespace is left as it is. */
  lemma StripKeepsTrimmed(s: string)
    requires s != [] && !IsSpace(s[0]) && !IsSpace(s[|s| - 1])
    ensures Strip(s) == s
  {
    assert LeadingSpaces(s) == 0;
    assert s[0..] == s;
  }
}
