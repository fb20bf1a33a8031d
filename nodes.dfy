/**
 * The live element objects that ElementTree hands out and that
 * `_indent_etree` updates in place. A `Node` owns the nodes below it:
 * `Repr` is its footprint, children's footprints are disjoint and never
 * contain their parent, and `model` is the element value the tree spells.
 */
module Nodes {
  import opened Elements
  import opened Indentation

  class Node {
    var tag: string
    var attrib: map<string, string>
    var text: Option<string>
    var tail: Option<string>
    var children: seq<Node>

    ghost var Repr: set<object>
    ghost var model: Element

    ghost predicate Valid()
      reads this, Repr
      decreases Repr, 1
    {
      && this in Repr
      && model.tag == tag && model.attrib == attrib
      && model.text == text && model.tail == tail
      && |model.children| == |children|
      && SoundForest(children, Repr, this)
      && forall k :: 0 <= k < |children| ==> children[k].model == model.children[k]
    }

    /** A new element without children. */
    constructor (tag: string, attrib: map<string, string>, text: Option<string>, tail: Option<string>)
      ensures Valid() && fresh(Repr)
      ensures model == Element(tag, attrib, text, tail, [])
    {
      this.tag, this.attrib, this.text, this.tail := tag, attrib, text, tail;
      children := [];
      Repr := {this};
      model := Element(tag, attrib, text, tail, []);
    }

    /** `_indent_etree(self, indent, level)`: rewrites blank `text`/`tail`
        fields of this subtree in place. */
    method Indent(indent: string, level: nat)
      requires Valid()
      modifies Repr
      ensures Valid() && Repr == old(Repr)
      ensures model == IndentSpec(old(model), indent, level)
      decreases Repr, 2
    {
      var i := Newline(indent, level);
      if |children| > 0 {
        ghost var m0 := model;
        if Blank(text) { text := Some(i + indent); }
        if Blank(tail) { tail := Some(i); }
        var elem := IndentChildren(indent, level, m0.children);
        TailStep(elem, |children| - 1, i);
        CloseModel(m0, indent, level);
      } else {
        IndentLeaf(indent, level);
      }
    }

    /** The loop that indents each child one level deeper, reusing the
        name of the element as its loop variable.
        The loop variable is returned: afterwards it is the last child. */
    method IndentChildren(indent: string, level: nat, ghost ms: seq<Element>) returns (elem: Node)
      requires |children| > 0 && SoundForest(children, Repr, this)
      requires |ms| == |children| && forall j :: 0 <= j < |children| ==> children[j].model == ms[j]
      modifies Repr - {this}
      ensures SoundForest(children, Repr, this)
      ensures elem == children[|children| - 1]
      ensures forall j :: 0 <= j < |children| ==>
                children[j].model == IndentSpec(ms[j], indent, level + 1)
      decreases Repr, 1
    {
      elem := this;
      var k := 0;
      while k < |children|
        invariant 0 <= k <= |children|
        invariant k > 0 ==> elem == children[k - 1]
        invariant SoundForest(children, Repr, this)
        invariant forall j :: 0 <= j < k ==> children[j].model == IndentSpec(ms[j], indent, level + 1)
        invariant forall j :: k <= j < |children| ==> children[j].model == ms[j]
      {
        elem := children[k];
        IndentStep(k, indent, level);
        k := k + 1;
      }
    }

    /** The `else` branch of `_indent_etree`: a childless element below the root
        gets this level's newline as its tail if its tail is blank. */
    method IndentLeaf(indent: string, level: nat)
      requires Valid() && |children| == 0
      modifies this
      ensures Valid() && Repr == old(Repr)
      ensures model == IndentSpec(old(model), indent, level)
    {
      if level > 0 && Blank(tail) {
        tail := Some(Newline(indent, level));
        model := model.(tail := tail);
      }
    }

    /** The lines after the loop in `Indent`: the loop variable is the last
        child, and its tail gets this node's newline if it is still blank. */
    method TailStep(elem: Node, k: nat, v: string)
      requires k < |children| && elem == children[k] && SoundForest(children, Repr, this)
      modifies elem
      ensures SoundForest(children, Repr, this)
      ensures children[k].model == old(children[k].model).(tail := Fill(old(children[k].model.tail), v))
      ensures forall j :: 0 <= j < |children| && j != k ==> children[j].model == old(children[j].model)
    {
      var c := elem;
      c.FillTail(v);
      forall j | 0 <= j < |children| && j != k
        ensures children[j].Repr == old(children[j].Repr) && children[j].Valid()
      {
        var d := children[j];
        if j < k { assert d.Repr !! c.Repr; } else { assert c.Repr !! d.Repr; }
        assert c in c.Repr;
      }
    }

    /** Once every child is indented and the last child's tail is closed, the
        subtree is consistent and spells the indented value. */
    method CloseModel(ghost m0: Element, indent: string, level: nat)
      requires |children| > 0
      requires tag == m0.tag && attrib == m0.attrib && |children| == |m0.children|
      requires text == Fill(m0.text, Newline(indent, level) + indent)
      requires tail == Fill(m0.tail, Newline(indent, level))
      requires SoundForest(children, Repr, this)
      requires forall j :: 0 <= j < |children| - 1 ==>
                 children[j].model == IndentSpec(m0.children[j], indent, level + 1)
      requires var n := |children| - 1; var c := IndentSpec(m0.children[n], indent, level + 1);
               children[n].model == c.(tail := Fill(c.tail, Newline(indent, level)))
      modifies this
      ensures Valid() && Repr == old(Repr)
      ensures model == IndentSpec(m0, indent, level)
    {
      model := IndentSpec(m0, indent, level);
      forall j | 0 <= j < |children| ensures children[j].model == model.children[j] {
        IndentChild(m0, indent, level, j);
      }
    }

    /** Replaces a blank tail with `v`. */
    method FillTail(v: string)
      requires Valid()
      modifies this
      ensures Valid() && Repr == old(Repr)
      ensures model == old(model).(tail := Fill(old(model.tail), v))
    {
      if Blank(tail) {
        tail := Some(v);
      }
      model := model.(tail := tail);
    }

    /** One turn of the loop in `Indent`: indent child `k` one level deeper,
        leaving its siblings and this node's own fields as they were. */
    method IndentStep(k: nat, indent: string, level: nat)
      requires k < |children| && this in Repr && SoundForest(children, Repr, this)
      modifies children[k].Repr
      ensures SoundForest(children, Repr, this)
      ensures children[k].model == IndentSpec(old(children[k].model), indent, level + 1)
      ensures forall j :: 0 <= j < |children| && j != k ==> children[j].model == old(children[j].model)
      decreases Repr, 0
    {
      var c := children[k];
      assert c.Repr < Repr;
      c.Indent(indent, level + 1);
      forall j | 0 <= j < |children| && j != k
        ensures children[j].Repr == old(children[j].Repr) && children[j].Valid()
      {
        var d := children[j];
        if j < k { assert d.Repr !! c.Repr; } else { assert c.Repr !! d.Repr; }
        assert d !in c.Repr by { assert d in d.Repr; }
      }
    }

    /** `copy.deepcopy(self)`: a fresh tree with the same value. */
    method DeepCopy() returns (n: Node)
      requires Valid()
      ensures n.Valid() && fresh(n.Repr)
      ensures n.model == model
      decreases Repr, 1
    {
      var kids, below := CopyChildren();
      n := new Node(tag, attrib, text, tail);
      n.children := kids;
      n.Repr := n.Repr + below;
      n.model := model;
      assert forall j :: 0 <= j < |kids| ==> n !in kids[j].Repr;
    }

    /** Fresh deep copies of the children, with disjoint footprints inside `below`. */
    method CopyChildren() returns (kids: seq<Node>, ghost below: set<object>)
      requires Valid()
      ensures fresh(below) && |kids| == |children|
      ensures forall j :: 0 <= j < |kids| ==>
                && kids[j] in kids[j].Repr && kids[j].Repr <= below
                && kids[j].Valid() && kids[j].model == model.children[j]
      ensures forall a, b :: 0 <= a < b < |kids| ==> kids[a].Repr !! kids[b].Repr
      decreases Repr, 0
    {
      kids, below := [], {};
      var k := 0;
      while k < |children|
        invariant 0 <= k <= |children|
        invariant |kids| == k
        invariant fresh(below)
        invariant forall j :: 0 <= j < k ==>
                    && kids[j] in kids[j].Repr && kids[j].Repr <= below
                    && kids[j].Valid() && kids[j].model == model.children[j]
        invariant forall a, b :: 0 <= a < b < k ==> kids[a].Repr !! kids[b].Repr
      {
        var c := children[k].DeepCopy();
        assert forall j :: 0 <= j < k ==> kids[j].Repr !! c.Repr;
        kids := kids + [c];
        below := below + c.Repr;
        k := k + 1;
      }
    }

    /** The element value of the live tree, read node by node (what the
        serializer sees). */
    method Snapshot() returns (e: Element)
      requires Valid()
      ensures e == model
      decreases Repr
    {
      var kids: seq<Element> := [];
      var k := 0;
      while k < |children|
        invariant 0 <= k <= |children|
        invariant kids == model.children[..k]
      {
        var c := children[k].Snapshot();
        kids := kids + [c];
        k := k + 1;
      }
      assert kids == model.children;
      e := Element(tag, attrib, text, tail, kids);
    }

    /** What ownership says about the children: each lies strictly inside
        this node's footprint and is itself a valid tree. */
    lemma ChildrenOwned()
      requires Valid()
      ensures forall k :: 0 <= k < |children| ==>
        && children[k] in Repr && children[k] != this && children[k].Repr < Repr
        && this !in children[k].Repr && children[k].Valid()
    {
    }

    /** The nodes below this one in document order: the nodes `.//tag`
        chooses from. */
    function DescendantNodes(): (r: seq<Node>)
      requires Valid()
      reads this, Repr
      ensures Models(r) == Descendants(model)
      ensures forall x :: x in r ==> x in Repr && x != this && x.Repr <= Repr && x.Valid()
      decreases Repr, |children| + 1
    {
      DescendantNodesFrom(0)
    }

    /** The subtrees of `children[k..]` in document order. */
    function DescendantNodesFrom(k: nat): (r: seq<Node>)
      requires Valid() && k <= |children|
      reads this, Repr
      ensures Models(r) == DescendantsFrom(model, k)
      ensures forall x :: x in r ==> x in Repr && x != this && x.Repr <= Repr && x.Valid()
      decreases Repr, |children| - k
    {
      if k == |children| then []
      else
        ChildrenOwned();
        var c := children[k];
        var r := [c] + c.DescendantNodes() + DescendantNodesFrom(k + 1);
        ModelsAppend([c], c.DescendantNodes());
        ModelsAppend([c] + c.DescendantNodes(), DescendantNodesFrom(k + 1));
        r
    }

    /** The nodes `findall(p)` returns from this element, in document order. */
    function SelectNodes(p: Path): (r: seq<Node>)
      requires Valid()
      reads this, Repr
      ensures Models(r) == Select(model, p)
      ensures forall x :: x in r ==> x in Repr && x != this && x.Repr <= Repr && x.Valid()
    {
      ChildrenOwned();
      assert Models(children) == model.children;
      match p
      case ChildTag(t) => WithTagNodes(children, t)
      case DescendantTag(t) => WithTagNodes(DescendantNodes(), t)
    }
  }

  /** The element values a sequence of nodes spells. */
  ghost function Models(ns: seq<Node>): (r: seq<Element>)
    reads ns
    ensures |r| == |ns| && forall i :: 0 <= i < |ns| ==> r[i] == ns[i].model
  {
    seq(|ns|, i requires 0 <= i < |ns| reads ns => ns[i].model)
  }

  lemma ModelsAppend(a: seq<Node>, b: seq<Node>)
    ensures Models(a + b) == Models(a) + Models(b)
  {
  }

  /** The nodes of `ns` whose tag is `name`, in order. */
  function WithTagNodes(ns: seq<Node>, name: string): (r: seq<Node>)
    requires forall x :: x in ns ==> x.tag == x.model.tag
    reads ns
    ensures Models(r) == WithTag(Models(ns), name)
    ensures forall x :: x in r ==> x in ns
    decreases |ns|
  {
    if ns == [] then []
    else
      var rest := WithTagNodes(ns[1..], name);
      assert Models(ns)[0] == ns[0].model && Models(ns)[1..] == Models(ns[1..]);
      var head := if ns[0].tag == name then [ns[0]] else [];
      assert Models(head) == if ns[0].model.tag == name then [ns[0].model] else [];
      ModelsAppend(head, rest);
      head + rest
  }

  /** `kids` are valid trees inside `repr` whose footprints are pairwise
      disjoint and do not contain their owner `self`. It reads nothing of
      `self`, so writing the owner's own fields keeps it true. */
  ghost predicate SoundForest(kids: seq<Node>, repr: set<object>, self: object)
    reads repr - {self}
    decreases repr, 0
  {
    && self in repr
    && (forall k :: 0 <= k < |kids| ==>
          && kids[k] in repr && kids[k] != self
          && kids[k].Repr <= repr
          && self !in kids[k].Repr
          && kids[k].Valid())
    && (forall j, k :: 0 <= j < k < |kids| ==> kids[j].Repr !! kids[k].Repr)
  }
}
