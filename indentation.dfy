/**
 * The pretty-printing pass `_indent_etree(elem, indent, level)` as a pure
 * function on element values, and what it promises: it only rewrites blank
 * `text`/`tail` fields, it gives each rewritten field the newline-plus-indent
 * of its position, and running it twice changes nothing more.
 */
module Indentation {
  import opened Elements

  /** `n * indent` in Python. */
  function Repeat(indent: string, n: nat): (r: string)
    ensures |r| == n * |indent|
  {
    if n == 0 then "" else Repeat(indent, n - 1) + indent
  }

  /** The string `'\n' + level * indent`. */
  function Newline(indent: string, level: nat): string {
    "\n" + Repeat(indent, level)
  }

  lemma NewlineStep(indent: string, level: nat)
    ensures Newline(indent, level) + indent == Newline(indent, level + 1)
  {
  }

  /** The assignment `if not f or not f.strip(): f = v`. */
  function Fill(f: Option<string>, v: string): Option<string> {
    if Blank(f) then Some(v) else f
  }

  /** What the pass writes into an element's own tail (lines 18-19 and 25-26):
      elements with children always, childless ones only below the root level. */
  function OwnTail(e: Element, indent: string, level: nat): Option<string> {
    if |e.children| > 0 || level > 0 then Fill(e.tail, Newline(indent, level)) else e.tail
  }

  /** `_indent_etree(e, indent, level)` on a value: the element after the pass.
      The tail fix after the loop applies to the LAST CHILD, because the loop
      reuses the element's own name as its loop variable. */
  function IndentSpec(e: Element, indent: string, level: nat): (r: Element)
    ensures r.tag == e.tag && r.attrib == e.attrib && |r.children| == |e.children|
    decreases e
  {
    var i := Newline(indent, level);
    if |e.children| > 0 then
      var kids := seq(|e.children|, k requires 0 <= k < |e.children| =>
                        IndentSpec(e.children[k], indent, level + 1));
      var n := |kids| - 1;
      Element(e.tag, e.attrib, Fill(e.text, i + indent), Fill(e.tail, i),
              kids[n := kids[n].(tail := Fill(kids[n].tail, i))])
    else if level > 0 then
      e.(tail := Fill(e.tail, i))
    else
      e
  }

  /** The pass decides an element's tail from the tail alone: changing the
      tail first and then indenting is indenting and then writing the tail. */
  lemma TailIndependent(e: Element, t: Option<string>, indent: string, level: nat)
    ensures IndentSpec(e.(tail := t), indent, level)
         == IndentSpec(e, indent, level).(tail := OwnTail(e.(tail := t), indent, level))
  {
  }

  // ---------------------------------------------------------------------------
  // Only blank fields change; the shape of the tree never does.

  /** `b` is `a` with, at most, some blank `text`/`tail` fields replaced:
      same tags, attributes, child count and child order everywhere. */
  predicate RewritesBlanksOnly(a: Element, b: Element)
    decreases a
  {
    && a.tag == b.tag
    && a.attrib == b.attrib
    && (a.text == b.text || Blank(a.text))
    && (a.tail == b.tail || Blank(a.tail))
    && |a.children| == |b.children|
    && forall k :: 0 <= k < |a.children| ==> RewritesBlanksOnly(a.children[k], b.children[k])
  }

  lemma {:induction false} IndentRewritesBlanksOnly(e: Element, indent: string, level: nat)
    ensures RewritesBlanksOnly(e, IndentSpec(e, indent, level))
    decreases e
  {
    var r := IndentSpec(e, indent, level);
    if |e.children| > 0 {
      var n := |e.children| - 1;
      forall k | 0 <= k < |e.children|
        ensures RewritesBlanksOnly(e.children[k], r.children[k])
      {
        IndentRewritesBlanksOnly(e.children[k], indent, level + 1);
      }
    }
  }

  // ---------------------------------------------------------------------------
  // The value every node ends up with, stated per node and per depth.

  /** The parent of the node at a non-empty path, and whether that node is
      its parent's last child. */
  predicate IsLastChild(e: Element, p: seq<nat>)
    requires ValidPath(e, p) && p != []
    decreases |p|
  {
    if |p| == 1 then p[0] == |e.children| - 1
    else IsLastChild(e.children[p[0]], p[1..])
  }

  /** Text after the pass, for a node at `depth`: blank text of an element
      with children becomes `'\n' + (depth + 1) * indent`. */
  function TextAfter(x: Element, indent: string, depth: nat): Option<string> {
    if |x.children| > 0 then Fill(x.text, Newline(indent, depth + 1)) else x.text
  }

  /** Tail after the pass, for a node at `depth`: first its own pass, then,
      if it is the last child of its parent, the parent's fix with the
      parent's depth. */
  function TailAfter(x: Element, indent: string, depth: nat, last: bool): Option<string> {
    var own := OwnTail(x, indent, depth);
    if last && depth > 0 then Fill(own, Newline(indent, depth - 1)) else own
  }

  /** The children of an indented element: each child indented one level
      deeper, the last one with the parent's tail fix applied on top. */
  lemma IndentChild(e: Element, indent: string, level: nat, j: nat)
    requires j < |e.children|
    ensures var r, ci := IndentSpec(e, indent, level), IndentSpec(e.children[j], indent, level + 1);
      && |r.children| == |e.children|
      && r.children[j] == if j == |e.children| - 1
                          then ci.(tail := Fill(ci.tail, Newline(indent, level))) else ci
  {
  }

  /** `y` is what the pass makes of `x` at `depth`: same tag, attributes and
      number of children, and the text and tail the rules give. */
  predicate Rewritten(x: Element, y: Element, indent: string, depth: nat, last: bool) {
    && y.tag == x.tag && y.attrib == x.attrib && |y.children| == |x.children|
    && y.text == TextAfter(x, indent, depth)
    && y.tail == TailAfter(x, indent, depth, last)
  }

  /** The node at path `p` below an element indented at `level` sits at depth
      `level + |p|` and is rewritten as the rules say. */
  ghost predicate IndentedAt(e: Element, indent: string, level: nat, p: seq<nat>)
    requires ValidPath(e, p)
  {
    && ValidPath(IndentSpec(e, indent, level), p)
    && Rewritten(At(e, p), At(IndentSpec(e, indent, level), p), indent, level + |p|,
                 p != [] && IsLastChild(e, p))
  }

  /** Every node of an indented tree is rewritten as `IndentedAt` says. */
  lemma {:induction false} IndentAt(e: Element, indent: string, level: nat, p: seq<nat>)
    requires ValidPath(e, p)
    ensures IndentedAt(e, indent, level, p)
    decreases |p|
  {
    if p == [] {
      NewlineStep(indent, level);
    } else {
      var c := e.children[p[0]];
      IndentAt(c, indent, level + 1, p[1..]);
      IndentChild(e, indent, level, p[0]);
      PathStep(e, IndentSpec(e, indent, level), IndentSpec(c, indent, level + 1), indent, level, p);
    }
  }

  /** The inductive step of `IndentAt`, for any `r` whose child `p[0]` is `ci`
      (with the parent's tail fix when it is the last child) and any `ci` that
      rewrites child `p[0]` correctly along `p[1..]`. */
  lemma {:induction false} PathStep(e: Element, r: Element, ci: Element, indent: string, level: nat, p: seq<nat>)
    requires ValidPath(e, p) && p != []
    requires |r.children| == |e.children|
    requires r.children[p[0]] == if p[0] == |e.children| - 1
                                 then ci.(tail := Fill(ci.tail, Newline(indent, level))) else ci
    requires var c, q := e.children[p[0]], p[1..];
      && ValidPath(ci, q)
      && Rewritten(At(c, q), At(ci, q), indent, level + 1 + |q|, q != [] && IsLastChild(c, q))
    ensures ValidPath(r, p)
    ensures Rewritten(At(e, p), At(r, p), indent, level + |p|, IsLastChild(e, p))
  {
    if |p| == 1 {
      assert At(e, p) == e.children[p[0]] && At(r, p) == r.children[p[0]];
    } else {
      PathStepDeep(e, r, ci, indent, level, p);
    }
  }

  lemma {:induction false} PathStepDeep(e: Element, r: Element, ci: Element, indent: string, level: nat, p: seq<nat>)
    requires ValidPath(e, p) && |p| > 1
    requires |r.children| == |e.children|
    requires r.children[p[0]] == if p[0] == |e.children| - 1
                                 then ci.(tail := Fill(ci.tail, Newline(indent, level))) else ci
    requires ValidPath(ci, p[1..])
    ensures ValidPath(r, p)
    ensures At(e, p) == At(e.children[p[0]], p[1..]) && At(r, p) == At(ci, p[1..])
    ensures IsLastChild(e, p) == IsLastChild(e.children[p[0]], p[1..])
  {
    var j, q := p[0], p[1..];
    if j == |e.children| - 1 {
      AtIgnoresTail(ci, Fill(ci.tail, Newline(indent, level)), q);
    }
  }

  /** Only the root of a tree carries the tail a path of length zero reaches. */
  lemma {:induction false} AtIgnoresTail(e: Element, t: Option<string>, p: seq<nat>)
    requires ValidPath(e, p) && p != []
    ensures ValidPath(e.(tail := t), p) && At(e.(tail := t), p) == At(e, p)
  {
  }

  /** Blank text of an element with children at depth d becomes `'\n' + (d+1)*indent`,
      and text with a non-space character is kept. */
  lemma IndentText(e: Element, indent: string, level: nat, p: seq<nat>)
    requires ValidPath(e, p) && |At(e, p).children| > 0
    ensures ValidPath(IndentSpec(e, indent, level), p)
    ensures Blank(At(e, p).text) ==>
      At(IndentSpec(e, indent, level), p).text == Some(Newline(indent, level + |p| + 1))
    ensures !Blank(At(e, p).text) ==>
      At(IndentSpec(e, indent, level), p).text == At(e, p).text
  {
    IndentAt(e, indent, level, p);
  }

  /** A child that is not the last of its parent (parent at depth d) ends
      with `'\n' + (d+1)*indent` if its tail was blank. */
  lemma IndentInnerChildTail(e: Element, indent: string, level: nat, p: seq<nat>)
    requires ValidPath(e, p) && p != [] && !IsLastChild(e, p) && Blank(At(e, p).tail)
    ensures ValidPath(IndentSpec(e, indent, level), p)
    ensures At(IndentSpec(e, indent, level), p).tail == Some(Newline(indent, level + |p|))
  {
    IndentAt(e, indent, level, p);
  }

  /** With an indent made of whitespace (the default is a tab), the last child
      of a parent at depth d ends with `'\n' + d*indent` if its tail was blank:
      the parent's fix overwrites the child's own, still blank, newline. */
  lemma IndentLastChildTail(e: Element, indent: string, level: nat, p: seq<nat>)
    requires ValidPath(e, p) && p != [] && IsLastChild(e, p) && Blank(At(e, p).tail)
    requires Blank(Some(indent))
    ensures ValidPath(IndentSpec(e, indent, level), p)
    ensures At(IndentSpec(e, indent, level), p).tail == Some(Newline(indent, level + |p| - 1))
  {
    IndentAt(e, indent, level, p);
    NewlineBlank(indent, level + |p|);
  }

  /** With an indent containing a non-space character, the child's own newline
      is not blank, so the last child keeps `'\n' + (d+1)*indent`. */
  lemma IndentLastChildTailVisibleIndent(e: Element, indent: string, level: nat, p: seq<nat>)
    requires ValidPath(e, p) && p != [] && IsLastChild(e, p) && Blank(At(e, p).tail)
    requires !Blank(Some(indent))
    ensures ValidPath(IndentSpec(e, indent, level), p)
    ensures At(IndentSpec(e, indent, level), p).tail == Some(Newline(indent, level + |p|))
  {
    IndentAt(e, indent, level, p);
    NewlineVisible(indent, level + |p|);
  }

  lemma {:induction false} RepeatBlank(indent: string, n: nat)
    requires Blank(Some(indent))
    ensures Blank(Some(Repeat(indent, n)))
  {
    if n > 0 {
      RepeatBlank(indent, n - 1);
      var r := Repeat(indent, n);
      forall k | 0 <= k < |r| ensures IsSpace(r[k]) {
        var a := Repeat(indent, n - 1);
        if k < |a| { assert r[k] == a[k]; } else { assert r[k] == indent[k - |a|]; }
      }
    }
  }

  lemma NewlineBlank(indent: string, n: nat)
    requires Blank(Some(indent))
    ensures Blank(Some(Newline(indent, n)))
  {
    RepeatBlank(indent, n);
    var r, nl := Repeat(indent, n), Newline(indent, n);
    forall k | 0 <= k < |nl| ensures IsSpace(nl[k]) {
      if k > 0 { assert nl[k] == r[k - 1]; }
    }
  }

  lemma NewlineVisible(indent: string, n: nat)
    requires !Blank(Some(indent)) && n > 0
    ensures !Blank(Some(Newline(indent, n)))
  {
    var k :| 0 <= k < |indent| && !IsSpace(indent[k]);
    var a := Repeat(indent, n - 1);
    var nl := Newline(indent, n);
    assert nl == "\n" + a + indent;
    assert nl[1 + |a| + k] == indent[k];
  }

  /** A root (level 0) with children gets tail `'\n'` if its tail was blank;
      a childless root is left exactly as it was. */
  lemma IndentRoot(e: Element, indent: string)
    ensures |e.children| > 0 && Blank(e.tail) ==> IndentSpec(e, indent, 0).tail == Some("\n")
    ensures |e.children| == 0 ==> IndentSpec(e, indent, 0) == e
  {
    assert Newline(indent, 0) == "\n";
  }

  // ---------------------------------------------------------------------------
  // A second pass writes the same values again.

  lemma FillTwice(f: Option<string>, a: string, b: string)
    ensures Fill(Fill(f, a), a) == Fill(f, a)
    ensures Fill(Fill(Fill(Fill(f, a), b), a), b) == Fill(Fill(f, a), b)
  {
  }

  lemma {:induction false} IndentIdempotent(e: Element, indent: string, level: nat)
    ensures IndentSpec(IndentSpec(e, indent, level), indent, level) == IndentSpec(e, indent, level)
    decreases e
  {
    var i := Newline(indent, level);
    var r := IndentSpec(e, indent, level);
    if |e.children| > 0 {
      var n := |e.children| - 1;
      var rr := IndentSpec(r, indent, level);
      FillTwice(e.text, i + indent, i);
      FillTwice(e.tail, i, i);
      forall k | 0 <= k < n ensures rr.children[k] == r.children[k] {
        IndentIdempotent(e.children[k], indent, level + 1);
      }
      var c := IndentSpec(e.children[n], indent, level + 1);
      var t := Fill(c.tail, i);
      assert r.children[n] == c.(tail := t);
      IndentIdempotent(e.children[n], indent, level + 1);
      TailIndependent(c, t, indent, level + 1);
      assert e.children[n].tail == e.children[n].(tail := e.children[n].tail).tail;
      FillTwice(e.children[n].tail, Newline(indent, level + 1), i);
      assert c.tail == Fill(e.children[n].tail, Newline(indent, level + 1));
      assert rr.children[n] == r.children[n];
      assert rr.children == r.children;
    } else {
      FillTwice(e.tail, i, i);
    }
  }
}
