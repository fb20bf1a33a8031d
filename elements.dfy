/**
 * The value view of an ElementTree element: a tag, an attribute map, optional
 * `text` and `tail` character data, and an ordered list of child elements.
 * This module also gives the meaning of the two single-step search patterns
 * the wrapper builds (`tag` for matching children, `.//tag` for matching
 * descendants) as pure functions over these values.
 */
module Elements {

  datatype Option<+T> = None | Some(value: T)

  datatype Element = Element(
    tag: string,
    attrib: map<string, string>,
    text: Option<string>,
    tail: Option<string>,
    children: seq<Element>)

  /** The characters that `str.strip()` removes when called without arguments. */
  predicate IsSpace(c: char) {
    c == ' ' || c == '\t' || c == '\n' || c == '\r' || c == '\U{B}' || c == '\U{C}'
  }

  /** `str.lstrip()`: drops leading whitespace. */
  function LStrip(s: string): string
    decreases |s|
  {
    if s != [] && IsSpace(s[0]) then LStrip(s[1..]) else s
  }

  /** `str.rstrip()`: drops trailing whitespace. */
  function RStrip(s: string): string
    decreases |s|
  {
    if s != [] && IsSpace(s[|s| - 1]) then RStrip(s[..|s| - 1]) else s
  }

  /** `str.strip()` without arguments. */
  function Strip(s: string): string {
    RStrip(LStrip(s))
  }

  /** A `text` or `tail` field is blank when it is None, empty, or only whitespace. */
  predicate Blank(s: Option<string>) {
    s.None? || forall k :: 0 <= k < |s.value| ==> IsSpace(s.value[k])
  }

  /** `Blank` is Python's `not s or not s.strip()`. */
  lemma BlankIsStripEmpty(s: Option<string>)
    ensures Blank(s) <==> s.None? || Strip(s.value) == ""
  {
    if s.Some? {
      StripEmpty(s.value);
    }
  }

  /** A string strips to nothing exactly when every character is whitespace. */
  lemma {:induction false} StripEmpty(s: string)
    ensures Strip(s) == "" <==> forall k :: 0 <= k < |s| ==> IsSpace(s[k])
  {
    LStripEmpty(s);
    var t := LStrip(s);
    if t != [] {
      RStripKeepsHead(t);
    }
  }

  lemma {:induction false} LStripEmpty(s: string)
    ensures LStrip(s) == [] <==> forall k :: 0 <= k < |s| ==> IsSpace(s[k])
    ensures LStrip(s) != [] ==> !IsSpace(LStrip(s)[0])
    decreases |s|
  {
    if s != [] && IsSpace(s[0]) {
      LStripEmpty(s[1..]);
      assert forall k :: 0 < k < |s| ==> s[k] == s[1..][k - 1];
    }
  }

  /** Right-stripping a string that starts with a visible character keeps it. */
  lemma {:induction false} RStripKeepsHead(t: string)
    requires t != [] && !IsSpace(t[0])
    ensures RStrip(t) != []
    decreases |t|
  {
    if IsSpace(t[|t| - 1]) {
      RStripKeepsHead(t[..|t| - 1]);
    }
  }

  /** The elements of `s` whose tag is `name`, in their original order. */
  function WithTag(s: seq<Element>, name: string): (r: seq<Element>)
    ensures |r| <= |s|
    ensures forall i :: 0 <= i < |r| ==> r[i].tag == name
    ensures forall x :: x in r <==> x in s && x.tag == name
    decreases |s|
  {
    if s == [] then []
    else (if s[0].tag == name then [s[0]] else []) + WithTag(s[1..], name)
  }

  lemma {:induction false} WithTagAppend(a: seq<Element>, b: seq<Element>, name: string)
    ensures WithTag(a + b, name) == WithTag(a, name) + WithTag(b, name)
    decreases |a|
  {
    if a == [] {
      assert a + b == b;
    } else {
      assert (a + b)[1..] == a[1..] + b;
      WithTagAppend(a[1..], b, name);
    }
  }

  /** Filtering keeps every matching element as often as it occurs and drops
      every other one. */
  lemma {:induction false} WithTagCount(s: seq<Element>, name: string)
    ensures forall x :: multiset(WithTag(s, name))[x] == if x.tag == name then multiset(s)[x] else 0
    decreases |s|
  {
    if s != [] {
      WithTagCount(s[1..], name);
      assert s == [s[0]] + s[1..];
    }
  }

  /** The position of the first match of a filter: the first element of
      `s` that has the tag, with nothing before it that has the tag. */
  function FirstWithTag(s: seq<Element>, name: string): (i: nat)
    requires WithTag(s, name) != []
    ensures i < |s| && s[i] == WithTag(s, name)[0]
    ensures forall j :: 0 <= j < i ==> s[j].tag != name
    decreases |s|
  {
    if s[0].tag == name then 0
    else
      var i := FirstWithTag(s[1..], name);
      assert forall j :: 0 < j <= i ==> s[j] == s[1..][j - 1];
      i + 1
  }

  /** The proper descendants of `e` in document order (pre-order, start tags
      in the order they appear), which is what `.//` selects. */
  function Descendants(e: Element): (r: seq<Element>)
    ensures |r| == Size(e) - 1
    ensures forall c :: c in e.children ==> c in r
    decreases e, |e.children| + 1
  {
    DescendantsFrom(e, 0)
  }

  /** The subtrees of `e.children[k..]`, each child followed by its own
      descendants, in document order. */
  function DescendantsFrom(e: Element, k: nat): (r: seq<Element>)
    requires k <= |e.children|
    ensures |r| == SizeFrom(e, k)
    ensures forall j :: k <= j < |e.children| ==> e.children[j] in r
    decreases e, |e.children| - k
  {
    if k == |e.children| then []
    else [e.children[k]] + Descendants(e.children[k]) + DescendantsFrom(e, k + 1)
  }

  /** `p` is a sequence of child indices that can be followed down from `e`. */
  predicate ValidPath(e: Element, p: seq<nat>)
    decreases |p|
  {
    p == [] || (p[0] < |e.children| && ValidPath(e.children[p[0]], p[1..]))
  }

  /** The node reached from `e` by following child indices `p`. */
  function At(e: Element, p: seq<nat>): Element
    requires ValidPath(e, p)
    decreases |p|
  {
    if p == [] then e else At(e.children[p[0]], p[1..])
  }

  /** `.//` reaches every element strictly below the start: whatever a
      non-empty path leads to is among the descendants. */
  lemma {:induction false} DescendantsReachAll(e: Element, p: seq<nat>)
    requires ValidPath(e, p) && p != []
    ensures At(e, p) in Descendants(e)
    decreases |p|
  {
    InFrom(e, 0, p[0]);
    if |p| > 1 {
      DescendantsReachAll(e.children[p[0]], p[1..]);
    }
  }

  lemma {:induction false} InFrom(e: Element, k: nat, j: nat)
    requires k <= j < |e.children|
    ensures forall g :: g == e.children[j] || g in Descendants(e.children[j]) ==> g in DescendantsFrom(e, k)
    decreases |e.children| - k
  {
    if k < j {
      InFrom(e, k + 1, j);
    }
  }

  /** `.//` reaches nothing but elements strictly below the start: each
      descendant lies at the end of a non-empty path. */
  lemma {:induction false} DescendantPath(e: Element, x: Element) returns (p: seq<nat>)
    requires x in Descendants(e)
    ensures ValidPath(e, p) && p != [] && At(e, p) == x
    decreases e, |e.children| + 1
  {
    p := DescendantPathFrom(e, 0, x);
  }

  lemma {:induction false} DescendantPathFrom(e: Element, k: nat, x: Element) returns (p: seq<nat>)
    requires k <= |e.children| && x in DescendantsFrom(e, k)
    ensures ValidPath(e, p) && p != [] && k <= p[0] && At(e, p) == x
    decreases e, |e.children| - k
  {
    var c := e.children[k];
    if x == c {
      p := [k];
      assert p[1..] == [];
    } else if x in Descendants(c) {
      var q := DescendantPath(c, x);
      p := [k] + q;
      assert p[1..] == q;
    } else {
      p := DescendantPathFrom(e, k + 1, x);
    }
  }

  /** Number of elements in a tree. */
  function Size(e: Element): nat
    decreases e, |e.children| + 1
  {
    1 + SizeFrom(e, 0)
  }

  function SizeFrom(e: Element, k: nat): nat
    requires k <= |e.children|
    decreases e, |e.children| - k
  {
    if k == |e.children| then 0 else Size(e.children[k]) + SizeFrom(e, k + 1)
  }

  lemma {:induction false} DescendantsSmaller(e: Element)
    ensures forall d :: d in Descendants(e) ==> Size(d) < Size(e)
    decreases e, |e.children| + 1
  {
    DescendantsFromSmaller(e, 0);
  }

  lemma {:induction false} DescendantsFromSmaller(e: Element, k: nat)
    requires k <= |e.children|
    ensures forall d :: d in DescendantsFrom(e, k) ==> Size(d) <= SizeFrom(e, k)
    decreases e, |e.children| - k
  {
    if k < |e.children| {
      DescendantsSmaller(e.children[k]);
      DescendantsFromSmaller(e, k + 1);
    }
  }

  /** `.//tag` never selects the element it starts from: an element is not
      among its own descendants, even when its own tag matches. */
  lemma NotOwnDescendant(e: Element)
    ensures e !in Descendants(e)
    ensures e !in WithTag(Descendants(e), e.tag)
  {
    DescendantsSmaller(e);
  }

  /** The two single-step ElementPath patterns the wrapper uses:
      `tag` (children with that tag) and `.//tag` (descendants with that tag). */
  datatype Path = ChildTag(tag: string) | DescendantTag(tag: string)

  /** What ElementTree's `findall(path)` selects from `e`, in document order. */
  function Select(e: Element, p: Path): (r: seq<Element>)
    ensures forall i :: 0 <= i < |r| ==> r[i].tag == p.tag
    ensures forall x :: x in r <==>
      (x.tag == p.tag && if p.ChildTag? then x in e.children else x in Descendants(e))
  {
    match p
    case ChildTag(t) => WithTag(e.children, t)
    case DescendantTag(t) => WithTag(Descendants(e), t)
  }
}
