/**
 * The `XML` wrapper: an instance of a wrapper class around one element of a
 * live tree. Attribute-style lookup finds descendants by tag, indexing gives
 * children or raw attributes, the pattern methods run the two single-step
 * searches, and `to_string`/`content` hand the tree (pretty-printed on a
 * deep copy when asked) to the serializer. The serializer is a parameter
 * `tostring` from element values to strings.
 */
module TreeSoup {
  import opened Elements
  import opened Indentation
  import opened Nodes
  import opened Registry

  /** An instance of a wrapper class: its class and its `_element`, which
      `__init__` sets once. `find` can build a wrapper around `None`. */
  datatype Wrapper = Wrapper(cls: ClassId, element: Node?)

  /** The failures a wrapper can run into: a missing attribute key
      (`KeyError`), a child index out of range (`IndexError`), and any use
      of a wrapper around `None` (`AttributeError`/`TypeError`). */
  datatype Error = KeyNotFound(key: string) | IndexOutOfRange(index: int) | NoElement

  datatype Result<T> = Ok(value: T) | Err(error: Error)

  /** What `__getattr__` can return: nothing (`None`) on a miss, a wrapper,
      or one of the element's own attributes passed through unwrapped. */
  datatype Value =
    | Absent
    | Wrapped(wrapper: Wrapper)
    | Tag(tag: string)
    | Attrib(attrib: map<string, string>)
    | ElementMethod(name: string, element: Node)

  /** The names passed straight through to the element. */
  const EtreeAttrs: set<string> := {"get", "tag", "attrib", "keys", "items"}

  /** The objects a wrapper's operations read: its element's whole tree. */
  ghost function Footprint(w: Wrapper): set<object>
    reads w.element
  {
    if w.element == null then {} else {w.element} + w.element.Repr
  }

  /** A wrapper whose class is in the table and whose element, if any, is a
      consistent tree. */
  ghost predicate Usable(cs: seq<ClassDef>, w: Wrapper)
    reads Footprint(w)
  {
    WellFormed(cs) && w.cls < |cs| && Live(w)
  }

  /** A wrapper whose element, if any, is a consistent tree. */
  ghost predicate Live(w: Wrapper)
    reads Footprint(w)
  {
    w.element != null ==> w.element.Valid()
  }

  /** `parse(input, class_)`, i.e. `class_(input)`, for an already-built tree. */
  function Parse(cs: seq<ClassDef>, node: Node, cls: ClassId): (w: Wrapper)
    requires WellFormed(cs) && cls < |cs| && node.Valid()
    reads node, node.Repr
    ensures Usable(cs, w) && w.element == node && w.cls == cls
  {
    Wrapper(cls, node)
  }

  /** The conversion to unicode the `text` and `tail` properties apply: a
      string stays as it is and `None` becomes `"None"`. */
  function Coerce(x: Option<string>): (r: string)
    ensures x.Some? ==> r == x.value
    ensures r == "None" <==> x == None || x == Some("None")
  {
    match x
    case Some(s) => s
    case None => "None"
  }

  /** The coercion cannot tell a missing field from the text `None`: the
      result is a string either way, and only the field's contents survive. */
  lemma CoerceConflatesNone(s: string)
    ensures Coerce(None) == Coerce(Some("None"))
    ensures Coerce(Some(s)) == s
    ensures Coerce(None) == "None" && Coerce(Some([])) == []
  {
  }

  /** The `text` property. */
  function Text(w: Wrapper): (r: Result<string>)
    requires Live(w)
    reads Footprint(w)
    ensures w.element == null <==> r == Err(NoElement)
    ensures w.element != null ==> r == Ok(Coerce(w.element.model.text))
  {
    if w.element == null then Err(NoElement) else Ok(Coerce(w.element.text))
  }

  /** The `tail` property. */
  function Tail(w: Wrapper): (r: Result<string>)
    requires Live(w)
    reads Footprint(w)
    ensures w.element == null <==> r == Err(NoElement)
    ensures w.element != null ==> r == Ok(Coerce(w.element.model.tail))
  {
    if w.element == null then Err(NoElement) else Ok(Coerce(w.element.tail))
  }

  /** `self[i]` for an int `i`: child `i` (counted from the end when
      negative), wrapped in the class `_auto_child_class()` chooses. */
  function ItemAt(cs: seq<ClassDef>, w: Wrapper, i: int): (r: Result<Wrapper>)
    requires Usable(cs, w)
    reads Footprint(w)
    ensures w.element == null ==> r == Err(NoElement)
    ensures w.element != null ==>
      var n := |w.element.model.children|;
      && (r.Ok? <==> -n <= i < n)
      && (r.Err? ==> r == Err(IndexOutOfRange(i)))
      && (r.Ok? ==>
            var x := r.value;
            && x.cls == AutoChildClass(cs, w.cls, None)
            && x.element != null && x.element in w.element.Repr && x.element != w.element
            && x.element.Valid()
            && x.element.model == w.element.model.children[if i < 0 then n + i else i])
  {
    if w.element == null then Err(NoElement)
    else
      var e := w.element;
      e.ChildrenOwned();
      var n := |e.children|;
      if -n <= i < n then
        Ok(Wrapper(AutoChildClass(cs, w.cls, None), e.children[if i < 0 then n + i else i]))
      else Err(IndexOutOfRange(i))
  }

  /** The wrapper `self[i]` returns holds the child node itself, not a copy:
      changes made through it are changes to the wrapped tree. */
  lemma ItemAtSharesChild(cs: seq<ClassDef>, w: Wrapper, i: int)
    requires Usable(cs, w) && w.element != null
    requires -|w.element.children| <= i < |w.element.children|
    ensures ItemAt(cs, w, i).Ok?
    ensures ItemAt(cs, w, i).value.element
         == w.element.children[if i < 0 then |w.element.children| + i else i]
  {
    w.element.ChildrenOwned();
  }

  /** `self[key]` for a string `key`: the raw attribute value, and a
      `KeyError` (not `None`) when the attribute is missing. */
  function ItemNamed(w: Wrapper, key: string): (r: Result<string>)
    requires Live(w)
    reads Footprint(w)
    ensures w.element == null ==> r == Err(NoElement)
    ensures w.element != null ==>
      && (r.Ok? <==> key in w.element.model.attrib)
      && (r.Ok? ==> r.value == w.element.model.attrib[key])
      && (r.Err? ==> r == Err(KeyNotFound(key)))
  {
    if w.element == null then Err(NoElement)
    else if key in w.element.attrib then Ok(w.element.attrib[key])
    else Err(KeyNotFound(key))
  }

  /** `__getattr__(name)`: a name of `EtreeAttrs` is passed through to the
      element; any other name gives the first descendant with that tag,
      wrapped in the class registered for the name, or `Absent` on a miss. */
  function GetAttr(cs: seq<ClassDef>, w: Wrapper, name: string): (r: Result<Value>)
    requires Usable(cs, w)
    reads Footprint(w)
    ensures w.element == null <==> r.Err?
    ensures r.Err? ==> r.error == NoElement
    ensures r.Ok? && name == "tag" ==> r.value == Tag(w.element.model.tag)
    ensures r.Ok? && name == "attrib" ==> r.value == Attrib(w.element.model.attrib)
    ensures r.Ok? && name in {"get", "keys", "items"} ==> r.value == ElementMethod(name, w.element)
    ensures r.Ok? && name !in EtreeAttrs ==>
      var matches := WithTag(Descendants(w.element.model), name);
      && (r.value.Absent? <==> matches == [])
      && (!r.value.Absent? ==>
            && r.value.Wrapped?
            && var x := r.value.wrapper;
            && x.cls == AutoChildClass(cs, w.cls, Some(name))
            && x.element != null && x.element in w.element.Repr && x.element != w.element
            && x.element.Valid() && x.element.model == matches[0])
  {
    if w.element == null then Err(NoElement)
    else
      var e := w.element;
      if name in EtreeAttrs then
        if name == "tag" then Ok(Tag(e.tag))
        else if name == "attrib" then Ok(Attrib(e.attrib))
        else Ok(ElementMethod(name, e))
      else
        var found := e.SelectNodes(DescendantTag(name));
        if found == [] then Ok(Absent)
        else Ok(Wrapped(Wrapper(AutoChildClass(cs, w.cls, Some(name)), found[0])))
  }

  /** A hit of `__getattr__` is the first descendant in document order
      whose tag is the name: never the element itself, and no element
      before it in document order has that tag. */
  lemma GetAttrFirstDescendant(cs: seq<ClassDef>, w: Wrapper, name: string)
    requires Usable(cs, w) && w.element != null && name !in EtreeAttrs
    requires GetAttr(cs, w, name).Ok? && GetAttr(cs, w, name).value.Wrapped?
    ensures var x := GetAttr(cs, w, name).value.wrapper.element; var ds := Descendants(w.element.model);
      && x != null && x.model.tag == name && x.model != w.element.model
      && exists i :: 0 <= i < |ds| && ds[i] == x.model && forall j :: 0 <= j < i ==> ds[j].tag != name
  {
    var ds := Descendants(w.element.model);
    var i := FirstWithTag(ds, name);
    NotOwnDescendant(w.element.model);
  }

  /** `__getattr__` misses, returning `None` rather than raising, exactly
      when no descendant has the tag. */
  lemma GetAttrMiss(cs: seq<ClassDef>, w: Wrapper, name: string)
    requires Usable(cs, w) && w.element != null && name !in EtreeAttrs
    ensures GetAttr(cs, w, name) == Ok(Absent) <==>
              forall x :: x in Descendants(w.element.model) ==> x.tag != name
  {
  }

  /** `findall(p)`: every match, wrapped in the class `_auto_child_class()`
      chooses, in document order. */
  function FindAll(cs: seq<ClassDef>, w: Wrapper, p: Path): (r: Result<seq<Wrapper>>)
    requires Usable(cs, w)
    reads Footprint(w)
    ensures w.element == null <==> r.Err?
    ensures r.Err? ==> r.error == NoElement
    ensures r.Ok? ==> Matches(cs, w, r.value, Select(w.element.model, p))
  {
    if w.element == null then Err(NoElement)
    else Ok(WrapAll(AutoChildClass(cs, w.cls, None), w.element.SelectNodes(p)))
  }

  /** `ws` wraps, one for one and in order, nodes below `w`'s element that
      spell `es`, all in the class `_auto_child_class()` chooses. */
  ghost predicate Matches(cs: seq<ClassDef>, w: Wrapper, ws: seq<Wrapper>, es: seq<Element>)
    requires Usable(cs, w) && w.element != null
    reads Footprint(w), set x | x in ws :: x.element
  {
    && |ws| == |es|
    && forall i :: 0 <= i < |ws| ==>
         && ws[i].cls == AutoChildClass(cs, w.cls, None)
         && ws[i].element != null && ws[i].element in w.element.Repr && ws[i].element != w.element
         && ws[i].element.Repr <= w.element.Repr && ws[i].element.Valid() && ws[i].element.model == es[i]
  }

  /** Each node wrapped in class `cls`. */
  function WrapAll(cls: ClassId, ns: seq<Node>): (r: seq<Wrapper>)
    ensures |r| == |ns| && forall i :: 0 <= i < |ns| ==> r[i] == Wrapper(cls, ns[i])
  {
    seq(|ns|, i requires 0 <= i < |ns| => Wrapper(cls, ns[i]))
  }

  /** `self(pattern)`: the descendants whose tag is `pattern`, wrapped. */
  function Call(cs: seq<ClassDef>, w: Wrapper, pattern: string): (r: Result<seq<Wrapper>>)
    requires Usable(cs, w)
    reads Footprint(w)
    ensures w.element == null <==> r.Err?
    ensures r.Ok? ==> Matches(cs, w, r.value, WithTag(Descendants(w.element.model), pattern))
  {
    if w.element == null then Err(NoElement)
    else
      var e := w.element;
      var ds := e.DescendantNodes();
      var found := WithTagNodes(ds, pattern);
      Ok(WrapAll(AutoChildClass(cs, w.cls, None), found))
  }

  /** Calling the wrapper with `tag` is `findall('.//' + tag)`. */
  lemma CallIsFindAllDescendants(cs: seq<ClassDef>, w: Wrapper, tag: string)
    requires Usable(cs, w)
    ensures Call(cs, w, tag) == FindAll(cs, w, DescendantTag(tag))
  {
  }

  /** `find(p)`: the first match wrapped, and on a miss a wrapper around
      `None` (where `__getattr__` returns `None` itself). */
  function Find(cs: seq<ClassDef>, w: Wrapper, p: Path): (r: Result<Wrapper>)
    requires Usable(cs, w)
    reads Footprint(w)
    ensures w.element == null <==> r.Err?
    ensures r.Err? ==> r.error == NoElement
    ensures r.Ok? ==>
      var ms := Select(w.element.model, p);
      var x := r.value;
      && x.cls == AutoChildClass(cs, w.cls, None)
      && (x.element == null <==> ms == [])
      && (x.element != null ==>
            && x.element in w.element.Repr && x.element != w.element
            && x.element.Valid() && x.element.model == ms[0])
  {
    if w.element == null then Err(NoElement)
    else
      var found := w.element.SelectNodes(p);
      Ok(Wrapper(AutoChildClass(cs, w.cls, None), if found == [] then null else found[0]))
  }

  /** The wrapper `find` returns on a miss is not a miss the caller can
      test like `__getattr__`'s `None`: it is a wrapper, and every use of
      it fails. */
  lemma FindMissWrapsNone(cs: seq<ClassDef>, w: Wrapper, p: Path, name: string)
    requires Usable(cs, w) && w.element != null && Select(w.element.model, p) == []
    ensures Find(cs, w, p).Ok?
    ensures var x := Find(cs, w, p).value;
      && Usable(cs, x)
      && Text(x) == Err(NoElement) && Tail(x) == Err(NoElement)
      && GetAttr(cs, x, name) == Err(NoElement) && FindAll(cs, x, p) == Err(NoElement)
  {
  }

  /** The first match of `find` is the first of `findall`. */
  lemma FindIsFirstOfFindAll(cs: seq<ClassDef>, w: Wrapper, p: Path)
    requires Usable(cs, w) && w.element != null && Select(w.element.model, p) != []
    ensures Find(cs, w, p).Ok? && FindAll(cs, w, p).Ok?
    ensures Find(cs, w, p).value == FindAll(cs, w, p).value[0]
  {
  }

  /** `to_string(pretty)`: the serialization of the element, or of an
      indented deep copy of it when `pretty`. The method has no `modifies`
      clause: the wrapped tree is left as it was. */
  method ToString(w: Wrapper, pretty: bool, tostring: Element -> string) returns (r: Result<string>)
    requires Live(w)
    ensures w.element == null ==> r == Err(NoElement)
    ensures w.element != null ==>
      r == Ok(tostring(if pretty then IndentSpec(w.element.model, "\t", 0) else w.element.model))
  {
    if w.element == null {
      return Err(NoElement);
    }
    var el := w.element;
    if pretty {
      el := el.DeepCopy();
      el.Indent("\t", 0);
    }
    var e := el.Snapshot();
    r := Ok(tostring(e));
  }

  /** What `str(x)` gives for a child, which `to_string(True)` renders as a
      root of its own. */
  function Pretty(e: Element, tostring: Element -> string): string {
    tostring(IndentSpec(e, "\t", 0))
  }

  /** `''.join(str(x) for x in es)`. */
  function JoinPretty(es: seq<Element>, tostring: Element -> string): string
    decreases |es|
  {
    if es == [] then "" else JoinPretty(es[..|es| - 1], tostring) + Pretty(es[|es| - 1], tostring)
  }

  /** The `content` property of an element: its text, each child
      serialized pretty, and then its own tail. */
  function ContentOf(e: Element, tostring: Element -> string): string {
    Coerce(e.text) + JoinPretty(e.children, tostring) + Coerce(e.tail)
  }

  /** The `content` property. Iterating over the wrapper goes through
      `self[0]`, `self[1]`, ... until the index is out of range. */
  method Content(cs: seq<ClassDef>, w: Wrapper, tostring: Element -> string) returns (r: Result<string>)
    requires Usable(cs, w)
    ensures w.element == null ==> r == Err(NoElement)
    ensures w.element != null ==> r == Ok(ContentOf(w.element.model, tostring))
  {
    var text := Text(w);
    if text.Err? {
      return Err(NoElement);
    }
    var kids := w.element.model.children;
    var parts := "";
    var k := 0;
    var item := ItemAt(cs, w, 0);
    while item.Ok?
      invariant 0 <= k <= |kids| && item == ItemAt(cs, w, k)
      invariant parts == JoinPretty(kids[..k], tostring)
      decreases |kids| - k
    {
      var s := ToString(item.value, true, tostring);
      assert kids[..k + 1][..k] == kids[..k];
      parts := parts + s.value;
      k := k + 1;
      item := ItemAt(cs, w, k);
    }
    assert kids[..k] == kids;
    var tail := Tail(w);
    r := Ok(text.value + parts + tail.value);
  }

  /** `content` ends with the element's own tail, the text after its end
      tag, and starts with its own text. */
  lemma ContentFramesChildren(e: Element, tostring: Element -> string)
    ensures var c := ContentOf(e, tostring);
      && |c| >= |Coerce(e.text)| + |Coerce(e.tail)|
      && c[..|Coerce(e.text)|] == Coerce(e.text)
      && c[|c| - |Coerce(e.tail)|..] == Coerce(e.tail)
  {
  }

  /** A child without children of its own is serialized as it is: the
      pretty-printer leaves a childless root untouched. */
  lemma ContentOfLeaves(e: Element, tostring: Element -> string)
    requires forall k :: 0 <= k < |e.children| ==> e.children[k].children == []
    ensures ContentOf(e, tostring) == Coerce(e.text) + JoinRaw(e.children, tostring) + Coerce(e.tail)
  {
    LeavesJoin(e.children, tostring);
  }

  function JoinRaw(es: seq<Element>, tostring: Element -> string): string
    decreases |es|
  {
    if es == [] then "" else JoinRaw(es[..|es| - 1], tostring) + tostring(es[|es| - 1])
  }

  lemma {:induction false} LeavesJoin(es: seq<Element>, tostring: Element -> string)
    requires forall k :: 0 <= k < |es| ==> es[k].children == []
    ensures JoinPretty(es, tostring) == JoinRaw(es, tostring)
    decreases |es|
  {
    if es != [] {
      LeavesJoin(es[..|es| - 1], tostring);
      IndentRoot(es[|es| - 1], "\t");
    }
  }

  /** `<b x="1">hi</b>`. */
  function B(): Element {
    Element("b", map["x" := "1"], Some("hi"), None, [])
  }

  /** `<rsp><a><b x="1">hi</b></a></rsp>`. */
  function Rsp(): Element {
    Element("rsp", map[], None, None, [Element("a", map[], None, None, [B()])])
  }

  /** On a wrapper of that document, `.b` finds the `b` two levels down,
      `['x']` is `'1'`, `['y']` is a `KeyError`, and `.text` is `'hi'`. */
  lemma RspExample(cs: seq<ClassDef>, w: Wrapper)
    requires Usable(cs, w) && w.element != null && w.element.model == Rsp()
    ensures GetAttr(cs, w, "b").Ok? && GetAttr(cs, w, "b").value.Wrapped?
    ensures var x := GetAttr(cs, w, "b").value.wrapper;
      && x.element != null && x.element.tag == "b"
      && ItemNamed(x, "x") == Ok("1")
      && ItemNamed(x, "y") == Err(KeyNotFound("y"))
      && Text(x) == Ok("hi")
  {
    var a := Rsp().children[0];
    assert Descendants(B()) == [];
    assert DescendantsFrom(a, 1) == [] && DescendantsFrom(Rsp(), 1) == [];
    assert Descendants(a) == [B()];
    assert Descendants(Rsp()) == [a, B()];
    assert WithTag([a, B()], "b") == [B()];
  }
}
