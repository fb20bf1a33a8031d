# TreeSoup in Dafny

TreeSoup (`treesoup.py`) wraps an ElementTree element in an `XML` object whose
attribute-style lookups find descendants by tag. The same object gives indexed
access to children and raw attributes. It also has pattern searches, and it
pretty-prints through `_indent_etree`. A per-class registry decides which
wrapper class each result gets.

This project models that core and proves what it promises:

- `elements.dfy` (module `Elements`) holds elements as values: tag,
  attributes, optional `text`/`tail`, and ordered children.
  - It defines "blank" as Python's `not s or not s.strip()`.
  - It gives the two single-step searches the wrapper builds: `tag`
    (children) and `.//tag` (descendants in document order).
- `indentation.dfy` (module `Indentation`) holds `_indent_etree` as a pure
  function `IndentSpec` on values, with its properties:
  - only blank fields are rewritten, and the tree's shape never changes;
  - the exact text and tail of every node at every depth;
  - the root rules;
  - idempotence.
- `nodes.dfy` (module `Nodes`) holds the live tree: a class `Node` whose
  fields are updated in place.
  - A ghost footprint `Repr` keeps the tree acyclic, with children
    disjoint, and a ghost `model` is the value it spells.
  - `Indent` is the in-place recursive pass with its loop over the
    children, proved to produce `IndentSpec` of the old value.
  - `DeepCopy` is `copy.deepcopy`.
  - `Snapshot` reads the tree for the serializer.
  - The searches return nodes of the live tree, proved to spell the
    value-level matches.
- `registry.dfy` (module `Registry`) holds the wrapper classes as a table
  of class ids.
  - `XML` is class 0, and every class has one parent.
  - Each class may or may not define `_attr_child_classes` and
    `_base_child_class` in its own body; undefined ones are inherited.
  - It covers `_auto_child_class`, `register_attr_class` (as a function
    and as a method on a mutable `ClassTable`) and the visibility of
    registrations along the class hierarchy.
- `treesoup.dfy` (module `TreeSoup`) holds the wrapper:
  - `text`/`tail` coercion, `__getitem__`, `__getattr__`, `__call__`,
    `find`, `findall`, `to_string`, `content` and `parse`;
  - the error each one raises on a missing key, an index out of range, or
    a wrapper around `None`.

`etree.tostring` is an uninterpreted parameter `tostring: Element -> string`.
XML text is never parsed: a wrapper is built from an existing tree.

Two points where the code does something a reader would not expect; the
model follows the code:

- the loop in `_indent_etree` reuses the element's own name as its loop
  variable, so after the loop lines 22-23 fill the tail of the last child,
  not of the element itself;
- the `text`/`tail` properties turn a missing field into the string
  `"None"` (line 71), although the docstring on line 67 says `None` is
  left alone.

## Model

| member | source | states |
|---|---|---|
| Elements.WithTag | treesoup.py:92 | the tag filter keeps exactly the elements with the tag and nothing else; every result element has the tag |
| Elements.WithTagCount | treesoup.py:92 | each matching element occurs in the result as often as in the input, and no other element occurs |
| Elements.WithTagAppend | treesoup.py:92 | filtering a concatenation concatenates the filtered parts, so matches keep their relative order |
| Elements.BlankIsStripEmpty | treesoup.py:16-18 | a field is blank exactly when it is `None` or strips to the empty string, which is `not s or not s.strip()` |
| Elements.Descendants | treesoup.py:92 | `.//` yields one fewer element than the tree's size, and every child is among them |
| Elements.DescendantsReachAll | treesoup.py:92-96 | `.//` reaches every element strictly below the start: the end of any non-empty path of child indices is among the descendants |
| Elements.DescendantPath | treesoup.py:92-96 | `.//` reaches nothing else: every descendant is the end of some non-empty path of child indices |
| Elements.DescendantsFrom | treesoup.py:92 | the descendants from child k on number the sizes of those subtrees and include each of those children |
| Elements.FirstWithTag | treesoup.py:92 | the first match sits at a position of the input before which no element has the tag |
| Elements.NotOwnDescendant | treesoup.py:92 | `.//tag` never selects the element it starts from, even when that element's own tag matches |
| Elements.Select | treesoup.py:99-103 | the two search forms select exactly the children (for `tag`) or the descendants (for `.//tag`) that carry the tag |
| Indentation.IndentSpec | treesoup.py:12-26 | the pass keeps the top element's tag, attributes and number of children (for every node, `IndentRewritesBlanksOnly`) |
| Indentation.NewlineStep | treesoup.py:14-17 | the text written for an element at level d is the newline of level d+1 |
| Indentation.TailIndependent | treesoup.py:18-26 | what the pass does below an element does not depend on that element's tail |
| Indentation.IndentRewritesBlanksOnly | treesoup.py:15-26 | the pass changes only blank `text`/`tail` fields; tags, attributes, child counts and child order are the same everywhere |
| Indentation.IndentAt | treesoup.py:12-26 | every node at path p sits at depth level+\|p\|, keeps its shape, and gets exactly the text and tail the rules give for that depth and for being a last child |
| Indentation.IndentText | treesoup.py:14-17 | blank text of an element with children becomes newline plus (depth+1) indents; text with a non-space character is kept |
| Indentation.IndentInnerChildTail | treesoup.py:20-26 | a child that is not the last one, with a blank tail, ends with newline plus (depth of parent + 1) indents |
| Indentation.IndentLastChildTail | treesoup.py:20-23 | with a whitespace indent, a last child with a blank tail ends with newline plus its parent's depth of indents |
| Indentation.IndentLastChildTailVisibleIndent | treesoup.py:20-23 | with an indent containing a non-space character, the last child keeps its own level's newline, since that one is no longer blank |
| Indentation.IndentRoot | treesoup.py:15-26 | a root with children and a blank tail gets tail `"\n"`; a childless root is left exactly as it was |
| Indentation.IndentIdempotent | treesoup.py:12-26 | a second pass over an indented tree changes nothing |
| Nodes.Node.Indent | treesoup.py:12-26 | the in-place pass keeps the tree's footprint and consistency, and leaves the tree spelling `IndentSpec` of its old value |
| Nodes.Node.IndentChildren | treesoup.py:20-21 | the loop indents every child one level deeper and ends with the loop variable bound to the last child |
| Nodes.Node.IndentStep | treesoup.py:21 | one turn of the loop indents child k and leaves its siblings' values and footprints alone |
| Nodes.Node.TailStep | treesoup.py:22-23 | the post-loop assignment fills only the last child's blank tail and changes no other child |
| Nodes.Node.FillTail | treesoup.py:22-23 | a blank tail is replaced, any other tail kept, and the node stays consistent |
| Nodes.Node.CloseModel | treesoup.py:15-23 | once the own fields, every child, and the last child's tail are rewritten, the node spells the indented value |
| Nodes.Node.IndentLeaf | treesoup.py:24-26 | a childless node gets its level's newline as tail only below the root and only if the tail is blank |
| Nodes.Node.DeepCopy | treesoup.py:108 | the copy is a consistent tree made of fresh objects only and spells the same value |
| Nodes.Node.CopyChildren | treesoup.py:108 | the copied children are fresh, valid, pairwise disjoint and spell the original children |
| Nodes.Node.Snapshot | treesoup.py:110 | what the serializer reads from the live tree is exactly the tree's value |
| Nodes.Node.DescendantNodes | treesoup.py:92 | the live nodes below a node, in document order, spell the value-level descendants; each is a valid tree inside the footprint and is not the node itself |
| Nodes.Node.SelectNodes | treesoup.py:99-103 | the live nodes a search returns spell exactly the value-level matches, in order |
| Nodes.WithTagNodes | treesoup.py:92 | filtering live nodes by tag agrees with filtering their values |
| Registry.SubclassOfXml | treesoup.py:29 | every class in a well-formed table derives from `XML`, so every class-attribute lookup can reach `XML`'s definitions |
| Registry.AttrOwner | treesoup.py:45 | the class whose own `_attr_child_classes` a class sees is itself or an ancestor, and no class between defines one |
| Registry.AttrClasses | treesoup.py:42-45 | `cls._attr_child_classes` is the class's own mapping when its body has one and otherwise what the parent's lookup gives; every entry names an existing class |
| Registry.BaseOwner | treesoup.py:41-45 | `_base_child_class` is found on the nearest class, the class itself or an ancestor, whose body assigns it; no class between them assigns it |
| Registry.BaseChildClass | treesoup.py:45 | `_base_child_class` is the value the nearest defining class assigns, and names an existing class |
| Registry.AutoChildClass | treesoup.py:44-45 | resolution order: the registry entry for the name, else the base child class, else the caller's own class |
| Registry.Register | treesoup.py:47-54 | registering installs a fresh mapping if the class body had none, adds the entry, and changes no other class and nothing but that mapping |
| Registry.RegisterEffect | treesoup.py:47-54 | after registering on c, exactly the subclasses of c that shared c's mapping see c's new mapping; every other class sees what it saw before |
| Registry.RegisterInvisibleOutside | treesoup.py:47-54 | a registration never changes the resolution of a class outside the registering class's subtree (its parent, its siblings) |
| Registry.RegisterSeenBySelf | treesoup.py:47-54 | the registering class resolves the registered name to the registered class |
| Registry.RegisterHidesParent | treesoup.py:50-52 | the first registration on a class without its own mapping hides all of its parent's entries |
| Registry.RegisterOnXmlShared | treesoup.py:42-52 | a registration on `XML` is seen by every class with no mapping of its own between it and `XML` |
| Registry.BaseUnchanged | treesoup.py:47-54 | registering never changes any class's base child class |
| Registry.RegisterKeepsSubclass | treesoup.py:47-54 | registering never changes the class hierarchy |
| Registry.PhotoDatesExample | treesoup.py:133-136 | after registering `dates` on `PhotoXML`, a `dates` found from `PhotoXML` gets `PhotoDatesXML`, while an unrelated subclass and `XML` itself keep their own class |
| Registry.ClassTable.constructor | treesoup.py:41-42 | the table starts with `XML` alone, defining an empty mapping and no base child class |
| Registry.ClassTable.DefineSubclass | treesoup.py:133 | a class statement appends a class with the given parent and body, and the table stays well formed |
| Registry.ClassTable.RegisterAttrClass | treesoup.py:47-54 | the decorator updates the table in place as `Register` says and returns the decorated class |
| TreeSoup.Parse | treesoup.py:124-125 | `parse(node, class_)` gives a usable wrapper of that class around that node |
| TreeSoup.Coerce | treesoup.py:66-71 | a string field is returned unchanged, and the result is `"None"` exactly when the field is missing or holds the text `None` |
| TreeSoup.CoerceConflatesNone | treesoup.py:66-71 | the coercion keeps every string as it is and maps `None` to `"None"`, so a missing field and the text `None` coincide |
| TreeSoup.Text | treesoup.py:74 | `text` is the coerced text of the element's value; a wrapper around `None` fails |
| TreeSoup.Tail | treesoup.py:75 | `tail` is the coerced tail of the element's value; a wrapper around `None` fails |
| TreeSoup.ItemAt | treesoup.py:84-86 | `self[i]` succeeds exactly for -n <= i < n, wraps child i (counted from the end when negative) in the no-name child class, and raises an index error otherwise |
| TreeSoup.ItemAtSharesChild | treesoup.py:86 | for an index in range, the wrapper holds the child node itself, not a copy |
| TreeSoup.ItemNamed | treesoup.py:84-87 | `self[key]` is the raw attribute value when present and a key error, not `None`, when missing |
| TreeSoup.GetAttr | treesoup.py:89-93 | whitelisted names pass through unwrapped; any other name gives `None` exactly when there is no match, otherwise a wrapper, in the class registered for the name, around the node that spells the first matching descendant |
| TreeSoup.GetAttrFirstDescendant | treesoup.py:92-93 | a hit carries the looked-up tag, is not the element itself, and is the first descendant in document order with that tag |
| TreeSoup.GetAttrMiss | treesoup.py:92-93 | the lookup returns `None`, rather than raising, exactly when no descendant has the tag |
| TreeSoup.FindAll | treesoup.py:102-103 | `findall` wraps every match in order, each in the no-name child class |
| TreeSoup.Call | treesoup.py:95-96 | calling the wrapper wraps every descendant with the tag, in document order |
| TreeSoup.CallIsFindAllDescendants | treesoup.py:95-103 | `self(tag)` equals `self.findall('.//' + tag)` |
| TreeSoup.Find | treesoup.py:99-100 | `find` wraps the first match, and on a miss wraps `None` instead of returning `None` |
| TreeSoup.FindMissWrapsNone | treesoup.py:99-100 | the wrapper `find` returns on a miss makes `text`, `tail`, attribute lookup and `findall` fail |
| TreeSoup.FindIsFirstOfFindAll | treesoup.py:99-103 | when there is a match, `find` returns the first wrapper `findall` returns |
| TreeSoup.ToString | treesoup.py:105-110 | the serialization of the element, or of its indented value when pretty; the method may modify nothing, so the wrapped tree is unchanged |
| TreeSoup.Content | treesoup.py:79-82 | iterating the wrapper until the index error gives text, then every child serialized pretty, then the element's own tail |
| TreeSoup.ContentFramesChildren | treesoup.py:82 | `content` starts with the element's coerced text and ends with its own coerced tail |
| TreeSoup.ContentOfLeaves | treesoup.py:82 | childless children appear in `content` exactly as the serializer renders them, since pretty-printing leaves a childless root untouched |
| TreeSoup.RspExample | treesoup.py:84-93 | on `<rsp><a><b x="1">hi</b></a></rsp>`, `.b` has tag `b`, `['x']` is `'1'`, `['y']` is a key error and `.text` is `'hi'` |

## Left out

- Parsing XML text in `__init__` is not modelled. A wrapper is built from an existing tree, and parse errors are not modelled.
- `etree.tostring` is an uninterpreted function parameter. The exact markup of `to_string`, `content`, `__str__` and `__repr__` is therefore not modelled, and neither is a round trip through the parser.
- `__repr__` and `__reduce__` (pickling) only format or pass on the output of `to_string`, so they are not modelled. `__str__` is modelled only where `content` uses it, as `to_string(True)` on each child (`Pretty`).
- The `cElementTree`/`ElementTree` import fallback is not modelled; both implementations are taken to behave alike.
- The demo block at the end of the file is not modelled, apart from the `PhotoXML`/`dates` registration in `PhotoDatesExample`.
- `setup.py` is packaging metadata only.
- `find`, `findall` and calling the wrapper accept the full ElementTree path language. The model handles only the plain forms `tag` and `.//tag`. `__getattr__` and `__call__` build the second form from a name, which is taken to be a plain tag.
- `__getitem__` with keys that are neither `int` nor `str` (slices, for example) is not modelled.
- ItemAt, ItemNamed: `__getitem__` is one method that dispatches on the key's type; the model has one function per key type.
- The whitelisted names `get`, `keys` and `items` return the element's bound method. Their behaviour comes from ElementTree and is not modelled.
- Python calls `__getattr__` only when ordinary attribute lookup fails. Which names reach it is not modelled, so names such as `text` or `find` are never looked up as tags in real use.
- Registry values are modelled as wrapper classes. Arbitrary callables registered as factories are not modelled, and neither are subclasses that override the wrapper's methods (such as `to_string`) or multiple inheritance.
- "Whitespace" for `strip()` is taken as the ASCII whitespace characters; Unicode whitespace is not modelled.
- Nodes.Node.Indent: `level` is a natural number, because the pass is only called with level 0 and increments it. Negative levels are not modelled.
- The live tree is a proper tree: each node has one parent, and no node is shared. Elements appended in several places, which ElementTree allows, are not modelled.
- Python's `str`/`unicode` distinction is not modelled, beyond the `None` to `"None"` coercion.
