/**
 * The wrapper classes and their child-class registry. Every class is a
 * subclass of `XML` (single inheritance) and is named by an index into a
 * class table; `XML` itself is class 0 and a parent always has a smaller
 * index than its subclasses. Of each class the table records what its own
 * class body (its `__dict__`) defines: `_attr_child_classes`, the mapping
 * from a looked-up name to the class that wraps the result, and
 * `_base_child_class`, the class used when the mapping has no entry.
 * Anything a class does not define itself is found on its ancestors.
 */
module Registry {
  import opened Elements

  type ClassId = nat

  /** The `XML` class itself. */
  const XmlClass: ClassId := 0

  /** A class attribute a class body either defines itself or inherits. */
  datatype Slot<T> = Inherited | Defined(value: T)

  /** Registry keys: `_auto_child_class()` without a name looks up `None`. */
  type Key = Option<string>

  datatype ClassDef = ClassDef(
    parent: Option<ClassId>,
    own: Slot<map<Key, ClassId>>,
    base: Slot<Option<ClassId>>)

  /** Every class id a class body mentions is below `n`. */
  predicate RefersBelow(d: ClassDef, n: nat) {
    && (d.own.Defined? ==> forall k :: k in d.own.value ==> d.own.value[k] < n)
    && (d.base.Defined? && d.base.value.Some? ==> d.base.value.value < n)
  }

  /** A class table: `XML` is the root and defines both attributes
      (`_base_child_class = None`, `_attr_child_classes = {}`), every other
      class has an earlier parent, and all mentioned classes exist. */
  predicate WellFormed(cs: seq<ClassDef>) {
    && |cs| > 0
    && cs[XmlClass].parent.None? && cs[XmlClass].own.Defined? && cs[XmlClass].base.Defined?
    && (forall c :: 0 < c < |cs| ==> cs[c].parent.Some? && cs[c].parent.value < c)
    && (forall c :: 0 <= c < |cs| ==> RefersBelow(cs[c], |cs|))
  }

  /** `issubclass(d, c)`. */
  predicate IsSubclass(cs: seq<ClassDef>, d: ClassId, c: ClassId)
    requires WellFormed(cs) && d < |cs|
    decreases d
  {
    d == c || (d > 0 && IsSubclass(cs, cs[d].parent.value, c))
  }

  /** A subclass has an index no smaller than its ancestor's, so a class is
      a subclass of none of its own subclasses. */
  lemma {:induction false} SubclassOrder(cs: seq<ClassDef>, d: ClassId, c: ClassId)
    requires WellFormed(cs) && d < |cs| && IsSubclass(cs, d, c)
    ensures c <= d
    decreases d
  {
    if d != c {
      SubclassOrder(cs, cs[d].parent.value, c);
    }
  }

  /** Every class is a subclass of `XML`. */
  lemma {:induction false} SubclassOfXml(cs: seq<ClassDef>, d: ClassId)
    requires WellFormed(cs) && d < |cs|
    ensures IsSubclass(cs, d, XmlClass)
    decreases d
  {
    if d > 0 {
      SubclassOfXml(cs, cs[d].parent.value);
    }
  }

  /** The class whose own body holds the `_attr_child_classes` that
      `cls._attr_child_classes` finds on class `c`: the nearest ancestor
      (or `c` itself) that defines it. */
  function AttrOwner(cs: seq<ClassDef>, c: ClassId): (r: ClassId)
    requires WellFormed(cs) && c < |cs|
    ensures r <= c && cs[r].own.Defined? && IsSubclass(cs, c, r)
    ensures forall d :: r < d <= c && IsSubclass(cs, c, d) ==> cs[d].own.Inherited?
    decreases c
  {
    if cs[c].own.Defined? then c
    else
      var p := cs[c].parent.value;
      var r := AttrOwner(cs, p);
      assert forall d :: r < d <= c && IsSubclass(cs, c, d) && d != c ==> cs[d].own.Inherited? by {
        forall d | r < d <= c && IsSubclass(cs, c, d) && d != c ensures cs[d].own.Inherited? {
          SubclassOrder(cs, p, d);
        }
      }
      r
  }

  /** The mapping `c._attr_child_classes` evaluates to: the class's own
      mapping when its body assigns one, otherwise whatever its parent's
      attribute lookup gives. */
  function AttrClasses(cs: seq<ClassDef>, c: ClassId): (r: map<Key, ClassId>)
    requires WellFormed(cs) && c < |cs|
    ensures forall k :: k in r ==> r[k] < |cs|
    ensures cs[c].own.Defined? ==> r == cs[c].own.value
    ensures cs[c].own.Inherited? ==> r == AttrClasses(cs, cs[c].parent.value)
    decreases c
  {
    var o := AttrOwner(cs, c);
    assert RefersBelow(cs[o], |cs|);
    cs[o].own.value
  }

  /** The class whose own body assigns the `_base_child_class` that
      `c._base_child_class` finds: the nearest ancestor (or `c` itself). */
  function BaseOwner(cs: seq<ClassDef>, c: ClassId): (r: ClassId)
    requires WellFormed(cs) && c < |cs|
    ensures r <= c && cs[r].base.Defined? && IsSubclass(cs, c, r)
    ensures forall d :: r < d <= c && IsSubclass(cs, c, d) ==> cs[d].base.Inherited?
    decreases c
  {
    if cs[c].base.Defined? then c
    else
      var p := cs[c].parent.value;
      var r := BaseOwner(cs, p);
      assert forall d :: r < d <= c && IsSubclass(cs, c, d) && d != c ==> cs[d].base.Inherited? by {
        forall d | r < d <= c && IsSubclass(cs, c, d) && d != c ensures cs[d].base.Inherited? {
          SubclassOrder(cs, p, d);
        }
      }
      r
  }

  /** The value `c._base_child_class` evaluates to, found by walking up the
      parents: it is the value assigned by the nearest defining class. */
  function BaseChildClass(cs: seq<ClassDef>, c: ClassId): (r: Option<ClassId>)
    requires WellFormed(cs) && c < |cs|
    ensures r.Some? ==> r.value < |cs|
    ensures cs[c].base.Defined? ==> r == cs[c].base.value
    ensures r == cs[BaseOwner(cs, c)].base.value
    decreases c
  {
    match cs[c].base
    case Defined(b) => assert RefersBelow(cs[c], |cs|); b
    case Inherited => BaseChildClass(cs, cs[c].parent.value)
  }

  /** `_auto_child_class(name)` on an instance of class `c`: the registry
      entry for `name`, else the base child class, else `c` itself. */
  function AutoChildClass(cs: seq<ClassDef>, c: ClassId, name: Key): (r: ClassId)
    requires WellFormed(cs) && c < |cs|
    ensures r < |cs|
    ensures name in AttrClasses(cs, c) ==> r == AttrClasses(cs, c)[name]
    ensures name !in AttrClasses(cs, c) && BaseChildClass(cs, c).Some? ==>
              r == BaseChildClass(cs, c).value
    ensures name !in AttrClasses(cs, c) && BaseChildClass(cs, c).None? ==> r == c
  {
    var m := AttrClasses(cs, c);
    if name in m then m[name]
    else
      match BaseChildClass(cs, c)
      case Some(b) => b
      case None => c
  }

  /** The mapping class `c` holds once `name` is registered on it: its own
      mapping, or a fresh empty one if it had none, with the new entry. */
  function Registered(d: ClassDef, name: Key, fn: ClassId): map<Key, ClassId> {
    (if d.own.Defined? then d.own.value else map[])[name := fn]
  }

  /** The class table after `register_attr_class(name)(fn)` on class `c`. */
  function Register(cs: seq<ClassDef>, c: ClassId, name: Key, fn: ClassId): (r: seq<ClassDef>)
    requires WellFormed(cs) && c < |cs| && fn < |cs|
    ensures WellFormed(r) && |r| == |cs|
    ensures forall d :: 0 <= d < |cs| ==> r[d].parent == cs[d].parent && r[d].base == cs[d].base
    ensures forall d :: 0 <= d < |cs| && d != c ==> r[d] == cs[d]
    ensures r[c].own == Defined(Registered(cs[c], name, fn))
  {
    var r := cs[c := cs[c].(own := Defined(Registered(cs[c], name, fn)))];
    assert RefersBelow(cs[c], |cs|);
    assert forall d :: 0 <= d < |r| ==> RefersBelow(r[d], |r|) by {
      forall d | 0 <= d < |r| ensures RefersBelow(r[d], |r|) {
        assert RefersBelow(cs[d], |cs|);
      }
    }
    r
  }

  lemma {:induction false} RegisterKeepsSubclass(cs: seq<ClassDef>, c: ClassId, name: Key, fn: ClassId, d: ClassId, a: ClassId)
    requires WellFormed(cs) && c < |cs| && fn < |cs| && d < |cs|
    ensures IsSubclass(Register(cs, c, name, fn), d, a) == IsSubclass(cs, d, a)
    decreases d
  {
    if d > 0 {
      RegisterKeepsSubclass(cs, c, name, fn, cs[d].parent.value, a);
    }
  }

  /** Registering on `c` changes exactly the mapping seen by the subclasses
      of `c` that shared `c`'s mapping: they all see `c`'s new mapping, and
      every other class sees what it saw before. */
  lemma {:induction false} RegisterEffect(cs: seq<ClassDef>, c: ClassId, name: Key, fn: ClassId, d: ClassId)
    requires WellFormed(cs) && c < |cs| && fn < |cs| && d < |cs|
    ensures AttrClasses(Register(cs, c, name, fn), d) ==
              if IsSubclass(cs, d, c) && AttrOwner(cs, d) == AttrOwner(cs, c)
              then Registered(cs[c], name, fn) else AttrClasses(cs, d)
    decreases d
  {
    var r := Register(cs, c, name, fn);
    if d == c {
    } else if cs[d].own.Defined? {
      if IsSubclass(cs, d, c) { SubclassOrder(cs, d, c); }
    } else {
      var p := cs[d].parent.value;
      RegisterEffect(cs, c, name, fn, p);
      assert AttrOwner(r, d) == AttrOwner(r, p);
    }
  }

  /** A registration is never visible to classes outside the registering
      class's subtree: its parent, its siblings and their subclasses. */
  lemma RegisterInvisibleOutside(cs: seq<ClassDef>, c: ClassId, name: Key, fn: ClassId, d: ClassId, k: Key)
    requires WellFormed(cs) && c < |cs| && fn < |cs| && d < |cs| && !IsSubclass(cs, d, c)
    ensures AutoChildClass(Register(cs, c, name, fn), d, k) == AutoChildClass(cs, d, k)
  {
    RegisterEffect(cs, c, name, fn, d);
    BaseUnchanged(cs, c, name, fn, d);
  }

  lemma {:induction false} BaseUnchanged(cs: seq<ClassDef>, c: ClassId, name: Key, fn: ClassId, d: ClassId)
    requires WellFormed(cs) && c < |cs| && fn < |cs| && d < |cs|
    ensures BaseChildClass(Register(cs, c, name, fn), d) == BaseChildClass(cs, d)
    decreases d
  {
    if cs[d].base.Inherited? {
      BaseUnchanged(cs, c, name, fn, cs[d].parent.value);
    }
  }

  /** The registering class resolves the registered name to `fn`. */
  lemma RegisterSeenBySelf(cs: seq<ClassDef>, c: ClassId, name: Key, fn: ClassId)
    requires WellFormed(cs) && c < |cs| && fn < |cs|
    ensures AutoChildClass(Register(cs, c, name, fn), c, name) == fn
  {
  }

  /** A class without a mapping of its own gets a fresh one on its first
      registration: from then on it sees only what it registered itself,
      none of its parent's entries. */
  lemma RegisterHidesParent(cs: seq<ClassDef>, c: ClassId, name: Key, fn: ClassId)
    requires WellFormed(cs) && c < |cs| && fn < |cs| && cs[c].own.Inherited?
    ensures AttrClasses(Register(cs, c, name, fn), c) == map[name := fn]
  {
  }

  /** A registration on `XML`, which defines its own mapping, is seen by
      every class that has no mapping of its own on the way up to `XML`. */
  lemma RegisterOnXmlShared(cs: seq<ClassDef>, name: Key, fn: ClassId, d: ClassId)
    requires WellFormed(cs) && fn < |cs| && d < |cs| && AttrOwner(cs, d) == XmlClass
    ensures AttrClasses(Register(cs, XmlClass, name, fn), d) == AttrClasses(cs, XmlClass)[name := fn]
  {
  }

  /** `XML`, a subclass `PhotoXML`, a subclass `PhotoDatesXML` and an
      unrelated subclass `OtherXML`, none of them with a body of its own. */
  function PhotoClasses(): (cs: seq<ClassDef>)
    ensures WellFormed(cs) && |cs| == 4
  {
    [ ClassDef(None, Defined(map[]), Defined(None)),
      ClassDef(Some(XmlClass), Inherited, Inherited),
      ClassDef(Some(XmlClass), Inherited, Inherited),
      ClassDef(Some(XmlClass), Inherited, Inherited) ]
  }

  /** After `@PhotoXML.register_attr_class('dates')` on `PhotoDatesXML`,
      `dates` found below a `PhotoXML` is wrapped as `PhotoDatesXML`, while
      below an `OtherXML` or a plain `XML` it keeps the searching class. */
  lemma PhotoDatesExample()
    ensures var cs := Register(PhotoClasses(), 1, Some("dates"), 2);
      && AutoChildClass(cs, 1, Some("dates")) == 2
      && AutoChildClass(cs, 1, None) == 1
      && AutoChildClass(cs, 3, Some("dates")) == 3
      && AutoChildClass(cs, XmlClass, Some("dates")) == XmlClass
  {
  }

  /** The registry as a mutable object: the class statements and
      `register_attr_class` decorators that build it, one at a time. */
  class ClassTable {
    var classes: seq<ClassDef>

    ghost predicate Valid()
      reads this
    {
      WellFormed(classes)
    }

    /** The table holding only `XML`, with `_base_child_class = None` and
        `_attr_child_classes = {}`. */
    constructor ()
      ensures Valid() && classes == [ClassDef(None, Defined(map[]), Defined(None))]
    {
      classes := [ClassDef(None, Defined(map[]), Defined(None))];
    }

    /** A `class C(parent): ...` statement whose body may assign
        `_attr_child_classes` and `_base_child_class`. */
    method DefineSubclass(parent: ClassId, own: Slot<map<Key, ClassId>>, base: Slot<Option<ClassId>>)
      returns (c: ClassId)
      requires Valid() && parent < |classes|
      requires RefersBelow(ClassDef(Some(parent), own, base), |classes| + 1)
      modifies this
      ensures Valid() && c == |old(classes)|
      ensures classes == old(classes) + [ClassDef(Some(parent), own, base)]
    {
      c := |classes|;
      var d := ClassDef(Some(parent), own, base);
      assert forall k :: 0 <= k < c ==> RefersBelow(classes[k], c);
      classes := classes + [d];
      assert forall k :: 0 <= k <= c ==> RefersBelow(classes[k], c + 1) by {
        forall k | 0 <= k <= c ensures RefersBelow(classes[k], c + 1) {
          if k < c { assert RefersBelow(old(classes)[k], c); }
        }
      }
    }

    /** `cls.register_attr_class(name)(fn)`: installs a fresh mapping on
        `cls` if its body has none, adds the entry, and returns `fn`. */
    method RegisterAttrClass(cls: ClassId, name: Key, fn: ClassId) returns (r: ClassId)
      requires Valid() && cls < |classes| && fn < |classes|
      modifies this
      ensures Valid() && r == fn
      ensures classes == Register(old(classes), cls, name, fn)
    {
      var m: map<Key, ClassId>;
      match classes[cls].own {
        case Defined(own) => m := own;
        case Inherited => m := map[];
      }
      m := m[name := fn];
      classes := classes[cls := classes[cls].(own := Defined(m))];
      r := fn;
    }
  }
}
