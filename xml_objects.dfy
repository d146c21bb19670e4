/**
 * The E4X object layer: `XmlObject` (core/src/avm2/object/xml_object.rs)
 * and `XmlListObject` (core/src/avm2/object/xml_list_object.rs), after
 * ECMA-357 (2nd edition).
 *
 * An XML object is a handle on one node of the `NodeStore`.  An XMLList
 * holds a sequence of entries, each either a bare node or an XML object
 * created lazily for it (`E4XOrXml`), plus the target object and target
 * property that writes through an empty list are resolved against, and a
 * dirty flag that makes the target be recomputed from the last entry.
 *
 * `[[Put]]` on a list and `[[ResolveValue]]` call each other without a
 * bound in the source (a list whose target chain loops never returns); the
 * model counts nested resolutions with `fuel` and reports running out as a
 * stack overflow.  The lists such a call may touch are a ghost set `U`
 * closed under target links.
 */
module XmlObjects {
  import opened Wrappers
  import opened E4XNode
  import opened Avm2Error
  import opened Strings

  // ---------------------------------------------------------------------
  // Values and entries

  /** An XMLList entry: a bare node, or the XML object made for it. */
  datatype Entry = E4X(e4x: NodeId) | Xml(xml: XmlObject)

  /** The node behind an entry (`E4XOrXml::node`). */
  function EntryNode(e: Entry): NodeId
  {
    match e
    case E4X(n) => n
    case Xml(x) => x.node
  }

  function EntryNodes(es: seq<Entry>): (r: seq<NodeId>)
    ensures |r| == |es| && forall i :: 0 <= i < |es| ==> r[i] == EntryNode(es[i])
  {
    seq(|es|, i requires 0 <= i < |es| => EntryNode(es[i]))
  }

  /** Bare entries for `ids`. */
  function E4Xs(ids: seq<NodeId>): (r: seq<Entry>)
    ensures |r| == |ids| && EntryNodes(r) == ids
    ensures forall i :: 0 <= i < |ids| ==> r[i] == E4X(ids[i])
  {
    seq(|ids|, i requires 0 <= i < |ids| => E4X(ids[i]))
  }

  /** `XmlOrXmlListObject`: what a list's target object can be. */
  datatype Target = TargetXml(xml: XmlObject) | TargetList(list: XmlListObject)

  /**
   * The AVM2 values the E4X code receives.  `Other` is any other object,
   * carrying the string it coerces to.
   */
  datatype Value =
    | Undefined
    | Null
    | Bool(b: bool)
    | Int(i: int)
    | Str(s: string)
    | XmlVal(xml: XmlObject)
    | ListVal(list: XmlListObject)
    | Other(text: string)

  function ValueLists(v: Value): set<XmlListObject>
  {
    if v.ListVal? then {v.list} else {}
  }

  /** The failures of an E4X operation: a thrown error, a Rust panic, running out of stack, or a step this model does not carry out. */
  datatype Fault = Thrown(error: Error) | Panicked(reason: string) | StackOverflow | NotModelled(step: string)

  /** The result of a list operation whose only failures are thrown errors, as the result of the XML operation below it. */
  function Untagged(r: Result<(), Fault>): Result<(), Error>
    requires r.Err? ==> r.error.Thrown?
  {
    if r.Ok? then Ok(()) else Err(r.error.error)
  }

  function IntToString(i: int): string
  {
    if i < 0 then "-" + Decimal(-i) else Decimal(i)
  }

  // ---------------------------------------------------------------------
  // Trees and strings of entries

  function EntryTrees(nodes: map<NodeId, Node>, next: nat, es: seq<Entry>): (r: seq<XTree>)
    requires Wf(nodes, next)
    ensures |r| == |es| && forall i :: 0 <= i < |es| ==> r[i] == Tree(nodes, next, EntryNode(es[i]))
  {
    seq(|es|, i requires 0 <= i < |es| => Tree(nodes, next, EntryNode(es[i])))
  }

  /**
   * `has_simple_content_inner`: an empty list has simple content, a
   * one-item list has it iff its item does, and a longer list has it iff no
   * item is an element.
   */
  predicate ListHasSimpleContent(ts: seq<XTree>)
  {
    if |ts| == 0 then true
    else if |ts| == 1 then HasSimpleContent(ts[0])
    else forall i :: 0 <= i < |ts| ==> ts[i].kind != Element
  }

  /**
   * `has_complex_content_inner`: an empty list has no complex content, a
   * one-item list has it iff its item does, and a longer list has it iff
   * some item is an element.
   */
  predicate ListHasComplexContent(ts: seq<XTree>)
  {
    if |ts| == 0 then false
    else if |ts| == 1 then HasComplexContent(ts[0])
    else exists i :: 0 <= i < |ts| && ts[i].kind == Element
  }

  /** Off length one, complex content is exactly the absence of simple content. */
  lemma ComplexIsNotSimple(ts: seq<XTree>)
    requires |ts| != 1
    ensures ListHasComplexContent(ts) <==> !ListHasSimpleContent(ts)
  {
  }

  /** Simple and complex content of a list exclude each other. */
  lemma ListSimpleExcludesComplex(ts: seq<XTree>)
    ensures !(ListHasSimpleContent(ts) && ListHasComplexContent(ts))
  {
    if |ts| == 1 {
      SimpleExcludesComplex(ts[0]);
    }
  }

  /** The item strings joined by `sep`, with no leading or trailing separator. */
  function Join(ss: seq<string>, sep: string): string
  {
    if |ss| == 0 then ""
    else if |ss| == 1 then ss[0]
    else Join(ss[..|ss| - 1], sep) + sep + ss[|ss| - 1]
  }

  function TotalLength(ss: seq<string>): nat
  {
    if ss == [] then 0 else TotalLength(ss[..|ss| - 1]) + |ss[|ss| - 1]|
  }

  /** A join of n items holds exactly n - 1 separators besides the items. */
  lemma {:induction false} JoinLength(ss: seq<string>, sep: string)
    requires |ss| > 0
    ensures |Join(ss, sep)| == TotalLength(ss) + (|ss| - 1) * |sep|
  {
    if |ss| > 1 {
      JoinLength(ss[..|ss| - 1], sep);
      assert TotalLength(ss[..1]) == |ss[0]|;
    }
  }

  /** A join starts with its first item and ends with its last. */
  lemma {:induction false} JoinEnds(ss: seq<string>, sep: string)
    requires |ss| > 0
    ensures var j := Join(ss, sep);
            |ss[0]| <= |j| && j[..|ss[0]|] == ss[0] && j[|j| - |ss[|ss| - 1]|..] == ss[|ss| - 1]
  {
    if |ss| > 1 {
      var init := ss[..|ss| - 1];
      JoinEnds(init, sep);
      var j := Join(init, sep);
      assert Join(ss, sep) == j + sep + ss[|ss| - 1];
      assert (j + sep + ss[|ss| - 1])[..|ss[0]|] == j[..|ss[0]|];
    }
  }

  function XmlStrings(ts: seq<XTree>): (r: seq<string>)
    ensures |r| == |ts| && forall i :: 0 <= i < |ts| ==> r[i] == ToXmlString(ts[i])
  {
    seq(|ts|, i requires 0 <= i < |ts| => ToXmlString(ts[i]))
  }

  function TextStrings(ts: seq<XTree>): (r: seq<string>)
    ensures |r| == |ts| && forall i :: 0 <= i < |ts| ==> r[i] == ToStringTree(ts[i])
  {
    seq(|ts|, i requires 0 <= i < |ts| => ToStringTree(ts[i]))
  }

  /** `toXMLString` of a list: the item markups joined by newlines. */
  function ListXmlString(ts: seq<XTree>): string
  {
    Join(XmlStrings(ts), "\n")
  }

  /**
   * `toString` of a list (and the string an XMLList coerces to): the
   * concatenated text of a list with simple content, its markup otherwise.
   */
  function ListToString(ts: seq<XTree>): string
  {
    if ListHasSimpleContent(ts) then SimpleChildrenText(ts) else ListXmlString(ts)
  }

  // ---------------------------------------------------------------------
  // Name lookups on one node

  /** A name with no explicit namespace whose local part is an index (`"0"`, `"1"`, ...). */
  predicate IsPlainIndex(name: Multiname)
  {
    !name.HasExplicitNamespace() && IsIndexName(name)
  }

  function IndexOf(name: Multiname): nat
    requires IsIndexName(name)
  {
    ParseIndex(name.localName.value).value
  }

  /**
   * The children (or, for an attribute name, the attributes) of node `n`
   * that match `name`, in order; nothing for a node that is not an element.
   */
  function MatchedOwned(nodes: map<NodeId, Node>, n: NodeId, name: Multiname): (r: seq<NodeId>)
    ensures Lookup(nodes, n).kind != Element ==> r == []
    ensures Lookup(nodes, n).kind == Element ==>
              forall x :: x in r <==> x in Owned(Lookup(nodes, n), name.isAttribute) && Matches(nodes, x, name)
  {
    var nd := Lookup(nodes, n);
    if nd.kind == Element then Matching(nodes, Owned(nd, name.isAttribute), name) else []
  }

  /**
   * `has_own_property` of an XML object: a plain index name is present iff
   * it is `0`; another name without explicit namespace on an element is
   * present iff a child (or attribute) matches it; everything else falls
   * back to the object's dynamic properties (`dynamicHas`).
   */
  function HasOwnProperty(nodes: map<NodeId, Node>, n: NodeId, name: Multiname, dynamicHas: bool): (r: bool)
    ensures IsPlainIndex(name) ==> (r <==> IndexOf(name) == 0)
  {
    if !name.HasExplicitNamespace() && name.localName.Some? then
      if IsIndexName(name) then IndexOf(name) == 0
      else if Lookup(nodes, n).kind == Element then
        exists i :: 0 <= i < |Owned(Lookup(nodes, n), name.isAttribute)| &&
                    Matches(nodes, Owned(Lookup(nodes, n), name.isAttribute)[i], name)
      else dynamicHas
    else dynamicHas
  }

  /** On an element, a named property exists iff getting it yields a non-empty list. */
  lemma HasOwnPropertyIffMatches(nodes: map<NodeId, Node>, n: NodeId, name: Multiname, dynamicHas: bool)
    requires Lookup(nodes, n).kind == Element && !name.HasExplicitNamespace()
    requires name.localName.Some? && !IsIndexName(name)
    ensures HasOwnProperty(nodes, n, name, dynamicHas) <==> |MatchedOwned(nodes, n, name)| > 0
  {
    var ids := Owned(Lookup(nodes, n), name.isAttribute);
    var m := MatchedOwned(nodes, n, name);
    if HasOwnProperty(nodes, n, name, dynamicHas) {
      var i :| 0 <= i < |ids| && Matches(nodes, ids[i], name);
      assert ids[i] in m;
    }
    if |m| > 0 {
      assert m[0] in m;
      var i :| 0 <= i < |ids| && ids[i] == m[0];
    }
  }

  /**
   * The entries of `XML.child(name)`: for an index name the child at that
   * index (if any), otherwise the matching children; nothing for a node that
   * is not an element.
   */
  function ChildIds(nodes: map<NodeId, Node>, n: NodeId, name: Multiname): seq<NodeId>
  {
    var nd := Lookup(nodes, n);
    if nd.kind != Element then []
    else if IsIndexName(name) then
      (if IndexOf(name) < |nd.children| then [nd.children[IndexOf(name)]] else [])
    else Matching(nodes, nd.children, name)
  }

  /** For element names that are not indexes, `child` finds what `[[Get]]` finds. */
  lemma ChildAgreesWithGet(nodes: map<NodeId, Node>, n: NodeId, name: Multiname)
    requires !IsIndexName(name) && !name.isAttribute
    ensures ChildIds(nodes, n, name) == MatchedOwned(nodes, n, name)
  {
  }

  /** An index name picks at most one child, and only one that exists. */
  lemma ChildIndexPicksOne(nodes: map<NodeId, Node>, n: NodeId, name: Multiname)
    requires IsIndexName(name)
    ensures |ChildIds(nodes, n, name)| <= 1
    ensures |ChildIds(nodes, n, name)| == 1 <==>
              Lookup(nodes, n).kind == Element && IndexOf(name) < |Lookup(nodes, n).children|
  {
  }

  // ---------------------------------------------------------------------
  // Equality

  /**
   * The `==` of section 11.5.1 of ECMA-357 with an XML object on the left,
   * given the left node's subtree, whether the right value is the same
   * object, the right value's subtree when it is XML, and the string the
   * right value coerces to otherwise.
   */
  function AbstractEqTrees(x: XTree, y: Option<XTree>, sameObject: bool, otherText: string): (r: bool)
    ensures y.None? && !HasSimpleContent(x) ==> !r
    ensures y.None? && HasSimpleContent(x) ==> (r <==> ToStringTree(x) == otherText)
  {
    match y
    case Some(yt) =>
      if (IsTextLike(x.kind) && HasSimpleContent(yt)) || (IsTextLike(yt.kind) && HasSimpleContent(x)) then
        ToStringTree(x) == ToStringTree(yt)
      else sameObject || TreeEq(x, yt)
    case None =>
      HasSimpleContent(x) && ToStringTree(x) == otherText
  }

  /** Every XML value is abstractly equal to itself. */
  lemma AbstractEqReflexive(x: XTree, text: string)
    ensures AbstractEqTrees(x, Some(x), true, text)
  {
  }

  /** Two structurally equal subtrees are abstractly equal, whatever their identity. */
  lemma AbstractEqOfCopies(x: XTree, text: string)
    ensures AbstractEqTrees(x, Some(x), false, text)
  {
    TreeEqReflexive(x);
  }

  // ---------------------------------------------------------------------
  // XML objects

  class XmlObject {
    const node: NodeId

    constructor (node: NodeId)
      ensures this.node == node
    {
      this.node := node;
    }

    /**
     * `XmlObject::equals`: false for a value that is not XML, true for the
     * same object, and structural equality of the two subtrees otherwise.
     */
    function Equals(store: NodeStore, other: Value): (r: bool)
      reads store
      requires store.Valid()
      ensures !other.XmlVal? ==> !r
      ensures other == XmlVal(this) ==> r
      ensures other.XmlVal? && other.xml != this ==> (r <==> TreeEq(store.TreeOf(node), store.TreeOf(other.xml.node)))
    {
      match other
      case XmlVal(o) => o == this || TreeEq(store.TreeOf(node), store.TreeOf(o.node))
      case _ => false
    }

    /**
     * `XmlObject::abstract_eq`: when one side is a text, CDATA or attribute
     * node and the other has simple content the two strings are compared;
     * two XML values are otherwise `equals`; any other value is compared by
     * string when this node has simple content, and is unequal otherwise.
     */
    function AbstractEq(store: NodeStore, other: Value): (r: bool)
      reads store, ValueLists(other)
      requires store.Valid()
    {
      var x := store.TreeOf(node);
      match other
      case XmlVal(o) => AbstractEqTrees(x, Some(store.TreeOf(o.node)), o == this, "")
      case _ => AbstractEqTrees(x, None, false, ValueToString(store, other))
    }

    /** `XmlObject::get_property_local`: `[[Get]]`. */
    method GetProperty(store: NodeStore, name: Multiname) returns (r: Value)
      requires store.Valid()
      ensures IsPlainIndex(name) && IndexOf(name) == 0 ==> r == XmlVal(this)
      ensures IsPlainIndex(name) && IndexOf(name) != 0 ==> r == Undefined
      ensures !IsPlainIndex(name) ==>
                r.ListVal? && fresh(r.list) &&
                r.list.children == E4Xs(MatchedOwned(store.nodes, node, name)) &&
                r.list.targetObject == Some(TargetXml(this)) && r.list.targetProperty == Some(name) &&
                !r.list.targetDirty
    {
      if IsPlainIndex(name) {
        if IndexOf(name) == 0 {
          return XmlVal(this);
        }
        return Undefined;
      }
      var l := new XmlListObject(E4Xs(MatchedOwned(store.nodes, node, name)), Some(TargetXml(this)), Some(name));
      return ListVal(l);
    }

    /** `XmlObject::child`: the list behind `XML.child(name)`. */
    method Child(store: NodeStore, name: Multiname) returns (l: XmlListObject)
      requires store.Valid()
      ensures fresh(l) && !l.targetDirty
      ensures l.children == E4Xs(ChildIds(store.nodes, node, name))
      ensures store.Get(node).kind == Element && IsIndexName(name) ==> l.targetObject.None? && l.targetProperty.None?
      ensures !(store.Get(node).kind == Element && IsIndexName(name)) ==>
                l.targetObject == Some(TargetXml(this)) && l.targetProperty == Some(name)
    {
      var ids := ChildIds(store.nodes, node, name);
      if store.Get(node).kind == Element && IsIndexName(name) {
        l := new XmlListObject(E4Xs(ids), None, None);
      } else {
        l := new XmlListObject(E4Xs(ids), Some(TargetXml(this)), Some(name));
      }
    }

    /**
     * `XmlObject::set_property_local`: `[[Put]]` (section 9.1.1.2 of
     * ECMA-357).  An index name is TypeError 1087 and a node that is not an
     * element ignores the write.  Otherwise XML and XMLList values are deep
     * copied first, so none of the caller's nodes is ever inserted.  An
     * attribute name replaces every same-named attribute by one new
     * attribute holding the value's string; an invalid element name is
     * ignored; any other name writes the value at `PutSlot`, the position of
     * the first matching child (the other matches are removed) or the end.
     * A primitive value written under a name becomes an element of that name
     * (unless one matched already) whose content is one text node, or
     * nothing for the empty string.  `placed` is the run of children the
     * value occupies.
     */
    method Put(store: NodeStore, name: Multiname, value: Value) returns (r: Result<(), Error>, ghost placed: seq<NodeId>)
      requires store.Valid()
      modifies store, ValueLists(value)
      ensures store.Valid() && old(store.next) <= store.next && old(store.nodes).Keys <= store.nodes.Keys
      ensures value.ListVal? ==>
                value.list.children == old(value.list.children) &&
                TargetKept(old(value.list.targetObject), value.list.targetObject)
      ensures IsIndexName(name) ==>
                r == Err(Error1087()) && store.nodes == old(store.nodes) && store.next == old(store.next)
      ensures !IsIndexName(name) && old(store.Get(node)).kind != Element ==>
                r == Ok(()) && store.nodes == old(store.nodes) && store.next == old(store.next)
      ensures !IsIndexName(name) && old(store.Get(node)).kind == Element && name.isAttribute ==>
                AttributePutOutcome(old(store.nodes), store.nodes, node, name, old(PutAttributeText(store, value)), r, placed)
      ensures !IsIndexName(name) && old(store.Get(node)).kind == Element && !name.isAttribute ==>
                r == Ok(()) &&
                ElementPutOutcome(old(store.nodes), store.nodes, store.next, node, name, value, old(ValueTrees(store, value)), placed)
    {
      placed := [];
      if name.localName.Some? && ParseIndex(name.localName.value).Some? {
        return Err(Error1087()), placed;
      }
      if store.Get(node).kind != Element {
        return Ok(()), placed;
      }
      if name.isAttribute {
        r, placed := PutAttributeValue(store, name, value, PutAttributeText(store, value));
      } else {
        placed := PutElementValue(store, name, value);
        r := Ok(());
      }
    }

    /** `[[Put]]` under an attribute name, with only what it promises for such a name. */
    method PutUnderAttribute(store: NodeStore, name: Multiname, value: Value) returns (r: Result<(), Error>, ghost placed: seq<NodeId>)
      requires store.Valid() && name.isAttribute
      modifies store, ValueLists(value)
      ensures store.Valid() && old(store.next) <= store.next && old(store.nodes).Keys <= store.nodes.Keys
      ensures value.ListVal? ==>
                value.list.children == old(value.list.children) &&
                TargetKept(old(value.list.targetObject), value.list.targetObject)
      ensures IsIndexName(name) ==> r == Err(Error1087()) && store.nodes == old(store.nodes)
      ensures !IsIndexName(name) && old(store.Get(node)).kind != Element ==>
                r == Ok(()) && store.nodes == old(store.nodes) && store.next == old(store.next)
      ensures !IsIndexName(name) && old(store.Get(node)).kind == Element ==>
                AttributePutOutcome(old(store.nodes), store.nodes, node, name, old(PutAttributeText(store, value)), r, placed)
    {
      r, placed := Put(store, name, value);
    }

    /**
     * The `[[Put]]` of the empty string that creates a missing property in
     * `resolve_value`, with only what it promises for a name that is not an
     * attribute name.
     */
    method PutEmptyString(store: NodeStore, name: Multiname) returns (r: Result<(), Error>, ghost placed: seq<NodeId>)
      requires store.Valid()
      modifies store
      ensures store.Valid() && old(store.next) <= store.next && old(store.nodes).Keys <= store.nodes.Keys
      ensures IsIndexName(name) ==> r.Err? && store.nodes == old(store.nodes)
      ensures !IsIndexName(name) && old(store.Get(node)).kind != Element ==> r.Ok? && store.nodes == old(store.nodes)
      ensures !IsIndexName(name) && old(store.Get(node)).kind == Element && !name.isAttribute ==>
                r.Ok? && ElementPutOutcome(old(store.nodes), store.nodes, store.next, node, name, Str(""), [], placed)
    {
      r, placed := Put(store, name, Str(""));
    }

    /**
     * The `[[Put]]` of a primitive under `*`, as `x[i].* = v` does it in the
     * list `[[Put]]`: an element ends up with one text node holding the
     * value's string.
     */
    method PutUnderAnyName(store: NodeStore, v: Value) returns (r: Result<(), Error>, ghost placed: seq<NodeId>)
      requires store.Valid() && !v.XmlVal? && !v.ListVal?
      modifies store
      ensures store.Valid() && old(store.next) <= store.next && old(store.nodes).Keys <= store.nodes.Keys
      ensures r == Ok(())
      ensures old(store.Get(node)).kind != Element ==> store.nodes == old(store.nodes)
      ensures old(store.Get(node)).kind == Element ==>
                ElementPutOutcome(old(store.nodes), store.nodes, store.next, node, AnyName, v, [], placed) &&
                PrimitiveUnderAnyName(old(store.nodes), store.nodes, node, v, placed)
    {
      ghost var nodes0 := store.nodes;
      assert ValueTrees(store, v) == [];
      r, placed := Put(store, AnyName, v);
      if Lookup(nodes0, node).kind == Element {
        PrimitiveUnderAnyNameHolds(nodes0, store.nodes, store.next, node, v, placed);
      }
    }

    /** `[[Put]]` through an attribute name, after the checks of steps 1-2; `text` is the value's string. */
    method PutAttributeValue(store: NodeStore, name: Multiname, value: Value, ghost text: string)
      returns (r: Result<(), Error>, ghost placed: seq<NodeId>)
      requires store.Valid() && store.Get(node).kind == Element && name.isAttribute
      requires text == PutAttributeText(store, value)
      modifies store, ValueLists(value)
      ensures store.Valid() && old(store.next) <= store.next && old(store.nodes).Keys <= store.nodes.Keys
      ensures value.ListVal? ==>
                value.list.children == old(value.list.children) &&
                TargetKept(old(value.list.targetObject), value.list.targetObject)
      ensures AttributePutOutcome(old(store.nodes), store.nodes, node, name, text, r, placed)
    {
      ghost var nodes0 := store.nodes;
      assert OwnsAbove(nodes0, node);
      var s := AttributeValueString(store, value, text);
      assert value.ListVal? ==> (value.list as object) != (store as object);
      r, placed := PutAttributeOver(store, name, s, nodes0);
    }

    /** `[[Put]]` through an element name (or `*`), after the checks of steps 1-2. */
    method PutElementValue(store: NodeStore, name: Multiname, value: Value) returns (ghost placed: seq<NodeId>)
      requires store.Valid() && store.Get(node).kind == Element && !name.isAttribute
      modifies store, ValueLists(value)
      ensures store.Valid() && old(store.next) <= store.next && old(store.nodes).Keys <= store.nodes.Keys
      ensures value.ListVal? ==>
                value.list.children == old(value.list.children) &&
                TargetKept(old(value.list.targetObject), value.list.targetObject)
      ensures ElementPutOutcome(old(store.nodes), store.nodes, store.next, node, name, value, old(ValueTrees(store, value)), placed)
    {
      ghost var nodes0 := store.nodes;
      assert OwnsAbove(nodes0, node);
      var c := CopyValue(store, value);
      assert value.ListVal? ==> (value.list as object) != (store as object);
      placed := PutElementOver(store, name, c, value, nodes0);
    }

    /**
     * `[[Put]]` of the string `s` through an attribute name, after the value
     * has been copied; the outcome is stated against `nodes0`, the store
     * before the copy, which the copy left in place.
     */
    method PutAttributeOver(store: NodeStore, name: Multiname, s: string, ghost nodes0: map<NodeId, Node>)
      returns (r: Result<(), Error>, ghost placed: seq<NodeId>)
      requires store.Valid() && store.Get(node).kind == Element && name.isAttribute
      requires node in nodes0 && OwnsAbove(nodes0, node)
      requires forall k :: k in nodes0 ==> k in store.nodes && store.nodes[k] == nodes0[k]
      modifies store
      ensures store.Valid() && old(store.next) <= store.next && old(store.nodes).Keys <= store.nodes.Keys
      ensures AttributePutOutcome(nodes0, store.nodes, node, name, s, r, placed)
    {
      ghost var nodes1 := store.nodes;
      r, placed := PutAttribute(store, name, s);
      AttributeOutcomeFrame(nodes0, nodes1, store.nodes, node, name, placed, s, r);
    }

    /**
     * `[[Put]]` of the copied value `c` of `value` through an element name
     * (or `*`); the outcome is stated against `nodes0`, the store before
     * the copy, which the copy left in place.
     */
    method PutElementOver(store: NodeStore, name: Multiname, c: Copied, ghost value: Value, ghost nodes0: map<NodeId, Node>)
      returns (ghost placed: seq<NodeId>)
      requires store.Valid() && store.Get(node).kind == Element && !name.isAttribute
      requires node in nodes0 && OwnsAbove(nodes0, node)
      requires forall k :: k in nodes0 ==> k in store.nodes && store.nodes[k] == nodes0[k]
      requires forall q :: q in CopiedIds(c) ==> q in store.nodes && node < q && q !in nodes0
      requires CopyOf(c, value)
      modifies store
      ensures store.Valid() && old(store.next) <= store.next && old(store.nodes).Keys <= store.nodes.Keys
      ensures ElementPutOutcome(nodes0, store.nodes, store.next, node, name, value, old(CopiedTrees(store, c)), placed)
    {
      ghost var nodes1 := store.nodes;
      placed := PutElement(store, name, c, value);
      SlotPutFrame(nodes0, nodes1, store.nodes, node, name, placed, PrimitiveString(value));
    }

    /**
     * Steps 7-14 of `[[Put]]` for an element name and the (copied) value
     * `c`: an invalid name changes nothing; otherwise `c` lands at
     * `PutSlot`, as a new or existing element filled with the string for a
     * primitive value under a name, and as the copies (or a text node)
     * otherwise.
     */
    method PutElement(store: NodeStore, name: Multiname, c: Copied, ghost value: Value) returns (ghost placed: seq<NodeId>)
      requires store.Valid() && store.Get(node).kind == Element && !name.isAttribute
      requires forall q :: q in CopiedIds(c) ==> q in store.nodes && node < q
      requires CopyOf(c, value)
      modifies store
      ensures store.Valid() && old(store.next) <= store.next && old(store.nodes).Keys <= store.nodes.Keys
      ensures !PutNameValid(name) ==> store.nodes == old(store.nodes)
      ensures PutNameValid(name) ==> SlotPut(old(store.nodes), store.nodes, node, name, placed)
      ensures PutNameValid(name) && !(c.Plain? && !name.IsAnyName()) ==>
                (forall q :: q in placed ==> q in CopiedIds(c) || q !in old(store.nodes)) &&
                ShapesKeptBut(old(store.nodes), store.nodes, node) &&
                PlacedAs(store.nodes, store.next, node, placed, PutTrees(value, old(CopiedTrees(store, c))))
      ensures PutNameValid(name) && c.Plain? && !name.IsAnyName() ==>
                PrimitivePut(old(store.nodes), store.nodes, node, name, placed, PrimitiveString(c.v))
    {
      placed := [];
      if !PutNameValid(name) {
        return;
      }
      if !(c.Plain? && !name.IsAnyName()) {
        placed := PlaceCopies(store, name, c, value);
        return;
      }
      placed := PutPrimitive(store, name, PrimitiveString(c.v));
    }

    /**
     * Steps 9-13 for a primitive value with string `s` under a name: the
     * slot element (the first match, or a new element) ends up holding just
     * `s` as text.
     */
    method PutPrimitive(store: NodeStore, name: Multiname, s: string) returns (ghost placed: seq<NodeId>)
      requires store.Valid() && store.Get(node).kind == Element && !name.isAttribute && name.localName.Some?
      modifies store
      ensures store.Valid() && old(store.next) <= store.next && old(store.nodes).Keys <= store.nodes.Keys
      ensures SlotPut(old(store.nodes), store.nodes, node, name, placed)
      ensures PrimitivePut(old(store.nodes), store.nodes, node, name, placed, s)
    {
      var i;
      i, placed := PlaceElement(store, name);
      var slot := store.Get(node).children[i];
      assert slot == placed[0];
      ghost var nodes2 := store.nodes;
      assert OwnsAbove(nodes2, slot);
      FillPrimitive(store, slot, s);
      PrimitivePlaced(old(store.nodes), nodes2, store.nodes, node, name, placed, s);
    }

    /**
     * Steps 6.d-6.e: drop the same-named attributes (through `[[Delete]]`,
     * so an explicit namespace is an error), then append one new attribute
     * holding `s`.  A name without a local part fails after the deletion.
     */
    method PutAttribute(store: NodeStore, name: Multiname, s: string) returns (r: Result<(), Error>, ghost placed: seq<NodeId>)
      requires store.Valid() && store.Get(node).kind == Element && name.isAttribute
      modifies store
      ensures store.Valid() && old(store.next) <= store.next && old(store.nodes).Keys <= store.nodes.Keys
      ensures AttributePutOutcome(old(store.nodes), store.nodes, node, name, s, r, placed)
      ensures !name.HasExplicitNamespace() && name.localName.None? ==>
                store.nodes == RemovedMatching(old(store.nodes), node, name, true)
    {
      placed := [];
      ghost var nodes0 := store.nodes;
      var d := Delete(store, name);
      if d.Err? {
        return Err(d.error), placed;
      }
      if name.localName.None? {
        return Err(MissingLocalNameError()), placed;
      }
      RemovedMatchingEffect(nodes0, old(store.next), node, name, true);
      OwnedAbove(nodes0, old(store.next), node, true);
      ghost var kept := NonMatching(nodes0, nodes0[node].attributes, name);
      var a := store.Alloc(AttributeNode(name.localName.value, s, Some(node)));
      store.AppendAttribute(node, a);
      placed := [a];
      assert store.nodes[node].attributes == kept + placed;
      forall x | x in kept
        ensures !Matches(store.nodes, x, name)
      {
        assert Lookup(store.nodes, x) == Lookup(nodes0, x);
      }
      OnlyAppendedMatches(store.nodes, kept, a, name);
      r := Ok(());
    }

    /**
     * Steps 9-12 for a primitive value: remove the matching children,
     * keeping the first match's slot, or else add a new element named
     * `name` at the end; the slot's node is `placed[0]`.
     */
    method PlaceElement(store: NodeStore, name: Multiname) returns (i: nat, ghost placed: seq<NodeId>)
      requires store.Valid() && store.Get(node).kind == Element && !name.isAttribute && name.localName.Some?
      modifies store
      ensures store.Valid() && old(store.next) <= store.next && old(store.nodes).Keys <= store.nodes.Keys
      ensures var cs := old(store.nodes[node].children);
              var kept := NonMatching(old(store.nodes), cs, name);
              i == PutSlot(old(store.nodes), cs, name) && i <= |kept| &&
              store.nodes[node] == old(store.nodes[node]).(children := kept[..i] + placed + kept[i..])
      ensures |placed| == 1 && placed[0] in store.nodes && node < placed[0]
      ensures FirstMatch(old(store.nodes), old(store.nodes[node].children), name).Some? ==>
                placed == [old(store.nodes[node].children)[i]]
      ensures FirstMatch(old(store.nodes), old(store.nodes[node].children), name).None? ==>
                placed[0] !in old(store.nodes) &&
                store.nodes[placed[0]] == ElementNode(name.namespace, name.localName.value, Some(node)) &&
                ShapesKeptBut(old(store.nodes), store.nodes, node)
    {
      var first, d;
      i, first, d := OpenSlot(store, name);
      if first {
        placed := [d];
        return;
      }
      ghost var kept := NonMatching(old(store.nodes), old(store.nodes[node].children), name);
      ghost var withDummy := store.nodes;
      placed := ReplaceSlotByElement(store, name, i);
      SpliceOpened(kept, i, d, placed);
      ShapesKeptTransitive(old(store.nodes), withDummy, store.nodes, node);
    }

    /** Step 11 when nothing matched: slot `i` becomes a new element named `name`. */
    method ReplaceSlotByElement(store: NodeStore, name: Multiname, i: nat) returns (ghost placed: seq<NodeId>)
      requires store.Valid() && store.Get(node).kind == Element && i < |store.nodes[node].children| && name.localName.Some?
      modifies store
      ensures store.Valid() && old(store.next) <= store.next && old(store.nodes).Keys <= store.nodes.Keys
      ensures store.nodes[node] == old(store.nodes[node]).(children := Splice(old(store.nodes[node].children), i, placed))
      ensures |placed| == 1 && placed[0] !in old(store.nodes) && placed[0] in store.nodes && node < placed[0]
      ensures store.nodes[placed[0]] == ElementNode(name.namespace, name.localName.value, Some(node))
      ensures ShapesKeptBut(old(store.nodes), store.nodes, node)
    {
      ghost var nodes0, cs := store.nodes, store.nodes[node].children;
      var y := store.Alloc(ElementNode(name.namespace, name.localName.value, Some(node)));
      ghost var withNew := store.nodes;
      assert withNew[node] == nodes0[node] && ShapesKeptBut(nodes0, withNew, node);
      assert ReplaceSlot(cs, i) == i;
      placed := store.Replace(node, i, WithNode(y));
      assert placed == [y];
      ShapesKeptTransitive(nodes0, withNew, store.nodes, node);
    }

    /**
     * Steps 9-12 and 14 for any other write: remove the matching children,
     * keeping the first match's slot (or the end, holding a placeholder),
     * and replace the slot by the copies or a text node.
     */
    method PlaceCopies(store: NodeStore, name: Multiname, c: Copied, ghost value: Value) returns (ghost placed: seq<NodeId>)
      requires store.Valid() && store.Get(node).kind == Element && !name.isAttribute
      requires forall q :: q in CopiedIds(c) ==> q in store.nodes && node < q
      requires CopyOf(c, value)
      modifies store
      ensures store.Valid() && old(store.next) <= store.next && old(store.nodes).Keys <= store.nodes.Keys
      ensures SlotPut(old(store.nodes), store.nodes, node, name, placed)
      ensures forall q :: q in placed ==> q in CopiedIds(c) || q !in old(store.nodes)
      ensures c.CopiedList? ==> placed == c.ids
      ensures ShapesKeptBut(old(store.nodes), store.nodes, node)
      ensures PlacedAs(store.nodes, store.next, node, placed, PutTrees(value, old(CopiedTrees(store, c))))
    {
      ghost var nodes0, next0 := store.nodes, store.next;
      ghost var trees := CopiedTrees(store, c);
      var i, first, d := OpenSlot(store, name);
      ghost var withDummy := store.nodes;
      ghost var kept := NonMatching(old(store.nodes), old(store.nodes[node].children), name);
      ghost var withSlot := store.nodes[node].children;
      assert withSlot == kept[..i] + [d] + kept[i..];
      assert CopiedTrees(store, c) == trees by {
        TreesFrame(nodes0, next0, store.nodes, store.next, node, CopiedIds(c));
      }
      placed := ReplaceSlotBy(store, i, c, value);
      ShapesKeptTransitive(nodes0, withDummy, store.nodes, node);
      SpliceOpened(kept, i, d, placed);
      assert Lookup(store.nodes, node).children == kept[..i] + placed + kept[i..];
    }

    /** Step 12.b: slot `i` of this element becomes the copies, or a text node for a primitive. */
    method ReplaceSlotBy(store: NodeStore, i: nat, c: Copied, ghost value: Value) returns (ghost placed: seq<NodeId>)
      requires store.Valid() && store.Get(node).kind == Element && i < |store.nodes[node].children|
      requires forall q :: q in CopiedIds(c) ==> q in store.nodes && node < q
      requires CopyOf(c, value)
      modifies store
      ensures store.Valid() && old(store.next) <= store.next && old(store.nodes).Keys <= store.nodes.Keys
      ensures node in store.nodes &&
              store.nodes[node] == old(store.nodes[node]).(children := Splice(old(store.nodes[node].children), i, placed))
      ensures ShapesKeptBut(old(store.nodes), store.nodes, node)
      ensures forall q :: q in placed ==> q in CopiedIds(c) || q !in old(store.nodes)
      ensures c.CopiedList? ==> placed == c.ids
      ensures PlacedAs(store.nodes, store.next, node, placed, PutTrees(value, old(CopiedTrees(store, c))))
    {
      ghost var nodes0, next0 := store.nodes, store.next;
      ghost var trees := CopiedTrees(store, c);
      var rep := Placement(c);
      assert rep.WithNode? ==> rep.node in CopiedIds(c);
      assert rep.WithNodes? ==> forall j :: 0 <= j < |rep.nodes| ==> rep.nodes[j] in CopiedIds(c);
      placed := store.Replace(node, i, rep);
      PlacedContent(nodes0, next0, store.nodes, store.next, node, c, value, placed);
    }

    /**
     * Steps 9-12.a: remove the children matching `name` and put back, at
     * slot `i`, the first of them (`first`) or else a placeholder at the
     * end; `d` is the node now in the slot.
     */
    method OpenSlot(store: NodeStore, name: Multiname) returns (i: nat, first: bool, d: NodeId)
      requires store.Valid() && store.Get(node).kind == Element && !name.isAttribute
      modifies store
      ensures store.Valid() && old(store.next) <= store.next && old(store.nodes).Keys <= store.nodes.Keys
      ensures var cs := old(store.nodes[node].children);
              var kept := NonMatching(old(store.nodes), cs, name);
              i == PutSlot(old(store.nodes), cs, name) && i <= |kept| &&
              store.nodes[node] == old(store.nodes[node]).(children := kept[..i] + [d] + kept[i..])
      ensures first <==> FirstMatch(old(store.nodes), old(store.nodes[node].children), name).Some?
      ensures first ==> d == old(store.nodes[node].children)[i]
      ensures !first ==> d !in old(store.nodes)
      ensures d in store.nodes && node < d
      ensures store.Get(node).kind == Element
      ensures ShapesKeptBut(old(store.nodes), store.nodes, node)
    {
      ghost var nodes0, next0 := store.nodes, store.next;
      ghost var cs := store.nodes[node].children;
      ghost var kept := NonMatching(nodes0, cs, name);
      PutSlotInKept(nodes0, cs, name);
      OwnedAbove(nodes0, next0, node, false);
      RemovedMatchingEffect(nodes0, next0, node, name, false);
      var m := store.RemoveMatching(node, name, false);
      RemovedMatchingShapes(nodes0, node, name, false);
      ghost var removed := store.nodes;
      assert store.nodes[node].children == kept;
      assert m.Some? ==> m.value.1 in cs;
      i, d := PutBackSlot(store, m);
      first := m.Some?;
      ShapesKeptTransitive(nodes0, removed, store.nodes, node);
    }

    /**
     * Step 12.a: the first match `m`, if any, goes back at its index, or
     * else a placeholder goes at the end; `d` is the node in slot `i`.
     */
    method PutBackSlot(store: NodeStore, m: Option<(nat, NodeId)>) returns (i: nat, d: NodeId)
      requires store.Valid() && store.Get(node).kind == Element
      requires m.Some? ==> m.value.0 <= |store.nodes[node].children| && m.value.1 in store.nodes && node < m.value.1
      modifies store
      ensures store.Valid() && old(store.next) <= store.next && old(store.nodes).Keys <= store.nodes.Keys
      ensures m.Some? ==> i == m.value.0 && d == m.value.1
      ensures m.None? ==> i == old(|store.nodes[node].children|) && d !in old(store.nodes)
      ensures d in store.nodes && node < d
      ensures store.nodes[node] ==
              old(store.nodes[node]).(children := old(store.nodes[node].children[..i]) + [d] + old(store.nodes[node].children[i..]))
      ensures ShapesKeptBut(old(store.nodes), store.nodes, node)
    {
      ghost var nodes0 := store.nodes;
      if m.Some? {
        i, d := m.value.0, m.value.1;
      } else {
        i := |store.Get(node).children|;
        d := store.Alloc(DummyNode());
        assert ShapesKeptBut(nodes0, store.nodes, node);
      }
      ghost var nodes1 := store.nodes;
      store.InsertAt(node, i, d);
      LinkedShapes(nodes1, store.nodes, node, d);
      ShapesKeptTransitive(nodes0, nodes1, store.nodes, node);
    }

    /**
     * `XmlObject::delete_property_local`: `[[Delete]]`.  A name with an
     * explicit namespace is an internal error, a node that is not an element
     * reports false, and an element drops every matching child (attribute,
     * for an attribute name) and reports true.
     */
    method Delete(store: NodeStore, name: Multiname) returns (r: Result<bool, Error>)
      requires store.Valid()
      modifies store
      ensures store.Valid() && store.next == old(store.next)
      ensures name.HasExplicitNamespace() ==> r == Err(ExplicitNamespaceError()) && store.nodes == old(store.nodes)
      ensures !name.HasExplicitNamespace() && old(store.Get(node)).kind != Element ==>
                r == Ok(false) && store.nodes == old(store.nodes)
      ensures !name.HasExplicitNamespace() && old(store.Get(node)).kind == Element ==>
                r == Ok(true) && store.nodes == RemovedMatching(old(store.nodes), node, name, name.isAttribute)
    {
      if name.HasExplicitNamespace() {
        return Err(ExplicitNamespaceError());
      }
      if store.Get(node).kind != Element {
        return Ok(false);
      }
      var _ := store.RemoveMatching(node, name, name.isAttribute);
      return Ok(true);
    }
  }

  /** The internal error of deleting (or setting an attribute) through a name with an explicit namespace. */
  function ExplicitNamespaceError(): Error
  {
    FromMessage("Can not set property with an explicit namespace yet")
  }

  /** The internal error of setting an attribute through the `@*` name. */
  function MissingLocalNameError(): Error
  {
    FromMessage("Cannot set attribute without a local name")
  }

  /**
   * The outcome of an attribute `[[Put]]` on element `p` with string `s`:
   * an explicit namespace and a missing local name are errors; otherwise
   * the same-named attributes are gone and one fresh attribute holding `s`
   * is appended, after which it is the only match for the name.
   */
  ghost predicate AttributePutOutcome(before: map<NodeId, Node>, after: map<NodeId, Node>, p: NodeId, name: Multiname,
                                      s: string, r: Result<(), Error>, placed: seq<NodeId>)
  {
    (name.HasExplicitNamespace() ==> r == Err(ExplicitNamespaceError())) &&
    (!name.HasExplicitNamespace() && name.localName.None? ==> r == Err(MissingLocalNameError())) &&
    (!name.HasExplicitNamespace() && name.localName.Some? ==>
       r == Ok(()) && |placed| == 1 && placed[0] !in before && placed[0] in after &&
       Lookup(after, p).attributes == NonMatching(before, Lookup(before, p).attributes, name) + placed &&
       after[placed[0]] == AttributeNode(name.localName.value, s, Some(p)) &&
       Matching(after, Lookup(after, p).attributes, name) == placed)
  }

  /**
   * Element `p` after an element `[[Put]]`: its children are the
   * non-matching children with `placed` spliced in at `PutSlot`, and
   * nothing else about it changes.
   */
  ghost predicate SlotPut(before: map<NodeId, Node>, after: map<NodeId, Node>, p: NodeId, name: Multiname, placed: seq<NodeId>)
  {
    var cs := Lookup(before, p).children;
    var kept := NonMatching(before, cs, name);
    var i := PutSlot(before, cs, name);
    i <= |kept| && Lookup(after, p) == Lookup(before, p).(children := kept[..i] + placed + kept[i..])
  }

  /**
   * A primitive written under a name occupies one slot: the first matching
   * child, or else a fresh element child of `p` with that name and no
   * attributes, every older node but `p` keeping its shape; an element
   * there holds just the string `s` as text.
   */
  ghost predicate PrimitivePut(before: map<NodeId, Node>, after: map<NodeId, Node>, p: NodeId, name: Multiname,
                               placed: seq<NodeId>, s: string)
  {
    var cs := Lookup(before, p).children;
    var first := FirstMatch(before, cs, name);
    |placed| == 1 && placed[0] in after &&
    (first.Some? ==> placed[0] == cs[first.value]) &&
    (first.None? ==>
       placed[0] !in before && name.localName.Some? &&
       after[placed[0]].(children := []) == ElementNode(name.namespace, name.localName.value, Some(p)) &&
       ShapesKeptBut(before, after, p)) &&
    (after[placed[0]].kind == Element ==> PrimitiveContent(after, placed[0], s))
  }

  /**
   * The subtrees an element `[[Put]]` of `value` places, from `trees`, the
   * subtrees of the value (or of its copy): an XMLList's entries as they
   * are, an XML value as itself or, when it is an attribute, as the text of
   * its value (`E4XNode::replace`), and any other value as one text node
   * holding its string.
   */
  function PutTrees(value: Value, trees: seq<XTree>): seq<XTree>
  {
    match value
    case XmlVal(_) => seq(|trees|, j requires 0 <= j < |trees| => AsPlaced(trees[j]))
    case ListVal(_) => trees
    case _ => [TextTree(PrimitiveString(value))]
  }

  /** What `replace` makes of a copied subtree: an attribute becomes the text of its value. */
  function AsPlaced(t: XTree): XTree
  {
    if t.kind == Attribute then TextTree(t.value) else t
  }

  /** The nodes `placed` are now children of `p` and read, in order, as the subtrees `ts`. */
  ghost predicate PlacedAs(nodes: map<NodeId, Node>, next: nat, p: NodeId, placed: seq<NodeId>, ts: seq<XTree>)
  {
    Wf(nodes, next) && |placed| == |ts| &&
    forall j :: 0 <= j < |placed| ==>
      placed[j] in nodes && nodes[placed[j]].parent == Some(p) && Tree(nodes, next, placed[j]) == ts[j]
  }

  /**
   * The outcome of an element `[[Put]]` of `value`, whose subtrees before
   * copying are `trees`, on element `p`: an invalid name leaves every
   * existing node alone; otherwise `SlotPut` holds, an XML or XMLList value
   * (or any value under `*`) is placed as nodes that did not exist before
   * and that read as `PutTrees` while every older node but `p` keeps its
   * shape, and a primitive under a name satisfies `PrimitivePut`.
   */
  ghost predicate ElementPutOutcome(before: map<NodeId, Node>, after: map<NodeId, Node>, next: nat, p: NodeId,
                                    name: Multiname, value: Value, trees: seq<XTree>, placed: seq<NodeId>)
  {
    (!PutNameValid(name) ==> forall k :: k in before ==> k in after && after[k] == before[k]) &&
    (PutNameValid(name) ==> SlotPut(before, after, p, name, placed)) &&
    (PutNameValid(name) && (value.XmlVal? || value.ListVal? || name.IsAnyName()) ==>
       (forall q :: q in placed ==> q !in before) && ShapesKeptBut(before, after, p) &&
       PlacedAs(after, next, p, placed, PutTrees(value, trees))) &&
    (PutNameValid(name) && !value.XmlVal? && !value.ListVal? && !name.IsAnyName() ==>
       PrimitivePut(before, after, p, name, placed, PrimitiveString(value)))
  }

  /**
   * What the XML `[[Put]]` on node `n` under `name` does to the node graph,
   * for a value whose subtrees before copying are `trees`: an index name is
   * Error 1087 and a node that is not an element is left alone; otherwise
   * the outcome of an element write, or of an attribute write of the
   * value's `AttributeString`.
   */
  ghost predicate XmlPutOutcome(before: map<NodeId, Node>, after: map<NodeId, Node>, next: nat, n: NodeId, name: Multiname,
                                value: Value, trees: seq<XTree>, r: Result<(), Error>, placed: seq<NodeId>)
  {
    match Lookup(before, n).kind
    case Element =>
      (IsIndexName(name) ==> r == Err(Error1087()) && after == before) &&
      (!IsIndexName(name) && !name.isAttribute ==>
         r == Ok(()) && ElementPutOutcome(before, after, next, n, name, value, trees, placed)) &&
      (!IsIndexName(name) && name.isAttribute ==>
         AttributePutOutcome(before, after, n, name, AttributeString(trees, value), r, placed))
    case _ =>
      r == (if IsIndexName(name) then Err(Error1087()) else Ok(())) && after == before
  }

  /**
   * A primitive written under `*` into element `p` becomes one text node
   * holding its string; it is all of `p`'s children unless `p` had
   * attribute nodes among them (which `*` does not match).
   */
  ghost predicate PrimitiveUnderAnyName(before: map<NodeId, Node>, after: map<NodeId, Node>, p: NodeId, v: Value, placed: seq<NodeId>)
  {
    |placed| == 1 && placed[0] in after && after[placed[0]] == TextNode(PrimitiveString(v), Some(p)) &&
    ((forall k :: k in Lookup(before, p).children ==> Lookup(before, k).kind != Attribute) ==>
       Lookup(after, p).children == placed)
  }

  /** The element `[[Put]]` outcome for a primitive under `*` is `PrimitiveUnderAnyName`. */
  lemma PrimitiveUnderAnyNameHolds(before: map<NodeId, Node>, after: map<NodeId, Node>, next: nat, p: NodeId,
                                   v: Value, placed: seq<NodeId>)
    requires !v.XmlVal? && !v.ListVal?
    requires ElementPutOutcome(before, after, next, p, AnyName, v, [], placed)
    ensures PrimitiveUnderAnyName(before, after, p, v, placed)
  {
    assert PutNameValid(AnyName);
    assert PutTrees(v, []) == [TextTree(PrimitiveString(v))];
    TextNodeTree(after, next, placed[0], PrimitiveString(v), Some(p));
    var cs := Lookup(before, p).children;
    if forall k :: k in cs ==> Lookup(before, k).kind != Attribute {
      AllMatching(before, cs, AnyName);
      var kept, i := NonMatching(before, cs, AnyName), PutSlot(before, cs, AnyName);
      assert kept[..i] + placed + kept[i..] == placed;
    }
  }

  /**
   * Filling the slot that `PlaceElement` left with the string `s` (as
   * `FillPrimitive` does) completes `SlotPut` and `PrimitivePut`.
   */
  lemma PrimitivePlaced(before: map<NodeId, Node>, mid: map<NodeId, Node>, after: map<NodeId, Node>, p: NodeId,
                        name: Multiname, placed: seq<NodeId>, s: string)
    requires p in before && p in mid && |placed| == 1 && placed[0] in mid && p < placed[0] && OwnsAbove(mid, placed[0])
    requires name.localName.Some?
    requires var cs := before[p].children;
             var kept := NonMatching(before, cs, name);
             var i := PutSlot(before, cs, name);
             i <= |kept| && mid[p] == before[p].(children := kept[..i] + placed + kept[i..]) &&
             (FirstMatch(before, cs, name).Some? ==> placed == [cs[i]]) &&
             (FirstMatch(before, cs, name).None? ==>
                placed[0] !in before && mid[placed[0]] == ElementNode(name.namespace, name.localName.value, Some(p)) &&
                ShapesKeptBut(before, mid, p))
    requires mid.Keys <= after.Keys
    requires forall k :: k in mid && k != placed[0] && k !in mid[placed[0]].children ==> after[k] == mid[k]
    requires mid[placed[0]].kind != Element ==> after == mid
    requires mid[placed[0]].kind == Element ==>
               after[placed[0]] == mid[placed[0]].(children := after[placed[0]].children) &&
               PrimitiveContent(after, placed[0], s)
    ensures SlotPut(before, after, p, name, placed)
    ensures PrimitivePut(before, after, p, name, placed, s)
  {
    var slot := placed[0];
    assert p !in mid[slot].children;
    assert after[p] == mid[p];
    if FirstMatch(before, before[p].children, name).None? {
      forall k | k in before && k != p
        ensures k in after && SameShape(before[k], after[k])
      {
        assert after[k] == mid[k];
      }
    }
  }

  /** With no id matching, the slot is the end and nothing is removed. */
  lemma NothingMatchedSlot(nodes: map<NodeId, Node>, cs: seq<NodeId>, name: Multiname)
    requires forall k :: k in cs ==> !Matches(nodes, k, name)
    ensures FirstMatch(nodes, cs, name).None? && PutSlot(nodes, cs, name) == |cs|
    ensures var kept := NonMatching(nodes, cs, name); |kept| == |cs| && kept[..|cs|] == cs && kept[|cs|..] == []
  {
    PutSlotInKept(nodes, cs, name);
  }

  /**
   * `c` is a new element named `name`, without attributes or children,
   * appended as the last child of element `p`, which changes in nothing
   * else; every other older node keeps its shape.
   */
  ghost predicate AppendedElement(before: map<NodeId, Node>, after: map<NodeId, Node>, p: NodeId, name: Multiname, c: NodeId)
  {
    p in before && p in after && c !in before && c in after && name.localName.Some? &&
    after[c] == ElementNode(name.namespace, name.localName.value, Some(p)) &&
    after[p] == before[p].(children := before[p].children + [c]) &&
    ShapesKeptBut(before, after, p)
  }

  /**
   * An element `[[Put]]` of the empty string under a name that no child of
   * `p` matches appends a new, empty element of that name.
   */
  lemma PutCreatesElement(before: map<NodeId, Node>, after: map<NodeId, Node>, p: NodeId, name: Multiname, placed: seq<NodeId>)
    requires p in before && before[p].kind == Element && OwnsAbove(before, p) && !name.isAttribute
    requires MatchedOwned(before, p, name) == []
    requires SlotPut(before, after, p, name, placed) && PrimitivePut(before, after, p, name, placed, "")
    ensures |placed| == 1 && AppendedElement(before, after, p, name, placed[0])
  {
    var cs := before[p].children;
    assert forall k :: k in cs ==> !Matches(before, k, name);
    NothingMatchedSlot(before, cs, name);
    var c := placed[0];
    assert placed == [c];
    assert Lookup(after, p) == before[p].(children := cs + [c]);
  }

  /** When no child of `p` matched `name`, the element appended under that name is the one match. */
  lemma AppendedElementMatches(before: map<NodeId, Node>, after: map<NodeId, Node>, p: NodeId, name: Multiname, c: NodeId)
    requires p in before && before[p].kind == Element && OwnsAbove(before, p) && !name.isAttribute
    requires MatchedOwned(before, p, name) == []
    requires AppendedElement(before, after, p, name, c)
    ensures MatchedOwned(after, p, name) == [c]
  {
    var cs := before[p].children;
    forall k | k in cs
      ensures !Matches(after, k, name)
    {
      assert !Matches(before, k, name);
      assert k != p;
      assert SameShape(before[k], after[k]);
    }
    OnlyAppendedMatches(after, cs, c, name);
    assert Owned(Lookup(after, p), false) == cs + [c];
  }

  /** Matching the children (or attributes) of `n` looks at no node that changed. */
  lemma MatchedOwnedKept(before: map<NodeId, Node>, after: map<NodeId, Node>, n: NodeId, name: Multiname)
    requires n in before && OwnsAbove(before, n)
    requires forall k :: k in before ==> k in after && after[k] == before[k]
    ensures MatchedOwned(after, n, name) == MatchedOwned(before, n, name)
  {
    var ids := Owned(before[n], name.isAttribute);
    assert ids == before[n].children || ids == before[n].attributes;
    assert forall k :: k in ids ==> k in before;
    MatchesFrame(after, before, ids, name);
  }

  /** The outcomes only read `p` and its children (or attributes) in the earlier store. */
  lemma SlotPutFrame(nodes0: map<NodeId, Node>, nodes1: map<NodeId, Node>, after: map<NodeId, Node>, p: NodeId,
                     name: Multiname, placed: seq<NodeId>, s: string)
    requires p in nodes0 && OwnsAbove(nodes0, p)
    requires forall k :: k in nodes0 ==> k in nodes1 && nodes1[k] == nodes0[k]
    ensures SlotPut(nodes1, after, p, name, placed) ==> SlotPut(nodes0, after, p, name, placed)
    ensures PrimitivePut(nodes1, after, p, name, placed, s) ==> PrimitivePut(nodes0, after, p, name, placed, s)
  {
    assert forall x :: x in nodes0[p].children ==> x in nodes0;
    MatchesFrame(nodes1, nodes0, nodes0[p].children, name);
  }

  lemma AttributeOutcomeFrame(nodes0: map<NodeId, Node>, nodes1: map<NodeId, Node>, after: map<NodeId, Node>, p: NodeId,
                              name: Multiname, placed: seq<NodeId>, s: string, r: Result<(), Error>)
    requires p in nodes0 && OwnsAbove(nodes0, p)
    requires forall k :: k in nodes0 ==> k in nodes1 && nodes1[k] == nodes0[k]
    ensures AttributePutOutcome(nodes1, after, p, name, s, r, placed) ==> AttributePutOutcome(nodes0, after, p, name, s, r, placed)
  {
    assert forall x :: x in nodes0[p].attributes ==> x in nodes0;
    FilterFrame(nodes1, nodes0, nodes0[p].attributes, name);
  }

  /** What step 14 of `[[Put]]` hands to `replace`: the copied node, the copied list's nodes, or the value's string. */
  function Placement(c: Copied): Replacement
  {
    match c
    case CopiedXml(id) => WithNode(id)
    case CopiedList(ids) => WithNodes(ids)
    case Plain(v) => WithText(PrimitiveString(v))
  }

  /**
   * What `replace` put in the slot reads as `PutTrees` of the copies'
   * subtrees: the copies keep their subtrees, since only `p` changed shape,
   * and an attribute or a primitive became a text node.
   */
  lemma PlacedContent(nodes0: map<NodeId, Node>, next0: nat, nodes: map<NodeId, Node>, next: nat, p: NodeId,
                      c: Copied, value: Value, placed: seq<NodeId>)
    requires Wf(nodes0, next0) && Wf(nodes, next) && ShapesKeptBut(nodes0, nodes, p) && CopyOf(c, value)
    requires forall q :: q in CopiedIds(c) ==> q in nodes0 && p < q
    requires forall q :: q in placed ==> q in nodes && nodes[q].parent == Some(p)
    requires c.CopiedList? ==> placed == c.ids
    requires c.CopiedXml? && nodes0[c.id].kind != Attribute ==> placed == [c.id]
    requires c.CopiedXml? && nodes0[c.id].kind == Attribute ==>
               |placed| == 1 && placed[0] in nodes && nodes[placed[0]] == TextNode(nodes0[c.id].value, Some(p))
    requires c.Plain? ==> |placed| == 1 && placed[0] in nodes && nodes[placed[0]] == TextNode(PrimitiveString(c.v), Some(p))
    ensures PlacedAs(nodes, next, p, placed, PutTrees(value, Trees(nodes0, next0, CopiedIds(c))))
  {
    var trees := Trees(nodes0, next0, CopiedIds(c));
    match c {
      case CopiedXml(id) =>
        if nodes0[id].kind == Attribute {
          TextNodeTree(nodes, next, placed[0], nodes0[id].value, Some(p));
        } else {
          TreesFrame(nodes0, next0, nodes, next, p, [id]);
          assert Tree(nodes, next, placed[0]) == Trees(nodes, next, [id])[0];
        }
      case CopiedList(ids) =>
        TreesFrame(nodes0, next0, nodes, next, p, ids);
        assert forall j :: 0 <= j < |ids| ==> Tree(nodes, next, placed[j]) == Trees(nodes, next, ids)[j];
      case Plain(v) =>
        TextNodeTree(nodes, next, placed[0], PrimitiveString(v), Some(p));
    }
  }

  /** Replacing the slot opened at `i` puts `placed` between the kept ids. */
  lemma SpliceOpened(kept: seq<NodeId>, i: nat, d: NodeId, placed: seq<NodeId>)
    requires i <= |kept|
    ensures Splice(kept[..i] + [d] + kept[i..], ReplaceSlot(kept[..i] + [d] + kept[i..], i), placed) == kept[..i] + placed + kept[i..]
  {
    var withSlot := kept[..i] + [d] + kept[i..];
    assert withSlot[..i] == kept[..i] && withSlot[i + 1..] == kept[i..];
  }

  /** Every id matches: none is kept. */
  lemma AllMatching(nodes: map<NodeId, Node>, ids: seq<NodeId>, name: Multiname)
    requires forall x :: x in ids ==> Matches(nodes, x, name)
    ensures NonMatching(nodes, ids, name) == []
  {
  }

  /** No id matches: nothing is selected. */
  lemma {:induction false} NoneMatching(nodes: map<NodeId, Node>, ids: seq<NodeId>, name: Multiname)
    requires forall x :: x in ids ==> !Matches(nodes, x, name)
    ensures Matching(nodes, ids, name) == []
  {
    if ids != [] {
      assert forall x :: x in ids[..|ids| - 1] ==> x in ids;
      NoneMatching(nodes, ids[..|ids| - 1], name);
    }
  }

  /** When only the appended id matches, it is the one match. */
  lemma OnlyAppendedMatches(nodes: map<NodeId, Node>, kept: seq<NodeId>, a: NodeId, name: Multiname)
    requires forall x :: x in kept ==> !Matches(nodes, x, name)
    requires Matches(nodes, a, name)
    ensures Matching(nodes, kept + [a], name) == [a]
  {
    assert (kept + [a])[..|kept|] == kept;
    NoneMatching(nodes, kept, name);
  }

  /**
   * Step 4 of `[[Put]]`: XML and XMLList values are replaced by fresh,
   * parentless deep copies (a list re-evaluates its target first); any
   * other value is kept.
   */
  method CopyValue(store: NodeStore, value: Value) returns (c: Copied)
    requires store.Valid()
    modifies store, ValueLists(value)
    ensures store.Valid() && old(store.next) <= store.next
    ensures forall k :: k in old(store.nodes) ==> k in store.nodes && store.nodes[k] == old(store.nodes[k])
    ensures value.ListVal? ==>
              value.list.children == old(value.list.children) &&
              TargetKept(old(value.list.targetObject), value.list.targetObject)
    ensures CopyOf(c, value)
    ensures !value.XmlVal? && !value.ListVal? ==> store.nodes == old(store.nodes) && store.next == old(store.next)
    ensures forall q :: q in CopiedIds(c) ==>
              old(store.next) <= q && q !in old(store.nodes) && q in store.nodes && store.nodes[q].parent == None
    ensures CopiedTrees(store, c) == old(ValueTrees(store, value))
  {
    match value {
      case XmlVal(x) =>
        var id := store.DeepCopy(x.node);
        c := CopiedXml(id);
      case ListVal(l) =>
        var copy := l.DeepCopy(store);
        c := CopiedList(EntryNodes(copy.children));
      case _ =>
        c := Plain(value);
    }
  }

  /**
   * Steps 4 and 6.b-6.c of `[[Put]]` for an attribute name: the string of
   * a deep copy of the value, which is the string of the value itself.
   */
  method AttributeValueString(store: NodeStore, value: Value, ghost text: string) returns (s: string)
    requires store.Valid() && text == PutAttributeText(store, value)
    modifies store, ValueLists(value)
    ensures store.Valid() && old(store.next) <= store.next
    ensures forall k :: k in old(store.nodes) ==> k in store.nodes && store.nodes[k] == old(store.nodes[k])
    ensures value.ListVal? ==>
              value.list.children == old(value.list.children) &&
              TargetKept(old(value.list.targetObject), value.list.targetObject)
    ensures s == text
  {
    var c := CopyValue(store, value);
    s := AttributeString(CopiedTrees(store, c), value);
  }

  /**
   * Step 13 of `[[Put]]` on the slot node: an element loses its children
   * and, for a non-empty string, gets one text child holding it; any other
   * kind of node is left alone.
   */
  method FillPrimitive(store: NodeStore, slot: NodeId, s: string)
    requires store.Valid()
    modifies store
    ensures store.Valid() && old(store.next) <= store.next && old(store.nodes).Keys <= store.nodes.Keys
    ensures forall k :: k in old(store.nodes) && k != slot && k !in old(store.Get(slot).children) ==>
              store.nodes[k] == old(store.nodes[k])
    ensures old(store.Get(slot)).kind != Element ==> store.nodes == old(store.nodes)
    ensures old(store.Get(slot)).kind == Element ==>
              store.nodes[slot] == old(store.nodes[slot]).(children := store.nodes[slot].children) &&
              PrimitiveContent(store.nodes, slot, s)
  {
    store.RemoveAllChildren(slot);
    if s != "" && store.Get(slot).kind == Element {
      var _ := store.Replace(slot, 0, WithText(s));
    }
  }

  /**
   * ToString of a value: the usual primitive conversions, the string value
   * of an XML object (`xml_to_string`) and the `toString` of an XMLList.
   */
  function ValueToString(store: NodeStore, v: Value): string
    reads store, ValueLists(v)
    requires store.Valid()
  {
    match v
    case XmlVal(x) => ToStringTree(store.TreeOf(x.node))
    case ListVal(l) => ListToString(EntryTrees(store.nodes, store.next, l.children))
    case _ => PrimitiveString(v)
  }

  /** ToString of a value that is neither XML nor an XMLList. */
  function PrimitiveString(v: Value): string
  {
    match v
    case Undefined => "undefined"
    case Null => "null"
    case Bool(b) => if b then "true" else "false"
    case Int(i) => IntToString(i)
    case Str(s) => s
    case Other(t) => t
    case _ => ""
  }

  /** A value as `[[Put]]` holds it after step 4: a fresh copy of an XML or XMLList value, or the value itself. */
  datatype Copied = CopiedXml(id: NodeId) | CopiedList(ids: seq<NodeId>) | Plain(v: Value)

  /** `c` is what step 4 makes of `value`: a copied node for XML, copied nodes for an XMLList, else the value. */
  predicate CopyOf(c: Copied, value: Value)
  {
    match value
    case XmlVal(_) => c.CopiedXml?
    case ListVal(_) => c.CopiedList?
    case _ => c == Plain(value)
  }

  function CopiedIds(c: Copied): seq<NodeId>
  {
    match c
    case CopiedXml(id) => [id]
    case CopiedList(ids) => ids
    case Plain(_) => []
  }

  /**
   * The string an attribute `[[Put]]` stores (step 6 of section 9.1.1.2 of
   * ECMA-357), from the subtrees of the (copied) value `v`: the string
   * values of a list's items joined by single spaces, empty for an empty
   * list; the string value of an XML value; ToString of anything else.
   */
  function AttributeString(trees: seq<XTree>, v: Value): (s: string)
    ensures v.ListVal? && trees == [] ==> s == ""
    ensures v.ListVal? && |trees| == 1 ==> s == ToStringTree(trees[0])
    ensures v.ListVal? && |trees| >= 2 ==>
              s == Join(TextStrings(trees[..|trees| - 1]), " ") + " " + ToStringTree(trees[|trees| - 1])
  {
    match v
    case ListVal(_) =>
      assert |trees| >= 2 ==> TextStrings(trees)[..|trees| - 1] == TextStrings(trees[..|trees| - 1]);
      Join(TextStrings(trees), " ")
    case XmlVal(_) => if |trees| == 1 then ToStringTree(trees[0]) else ""
    case _ => PrimitiveString(v)
  }

  /** The subtrees of the copies `c` holds, in order. */
  function CopiedTrees(store: NodeStore, c: Copied): (r: seq<XTree>)
    reads store
    requires store.Valid()
    ensures |r| == |CopiedIds(c)|
  {
    Trees(store.nodes, store.next, CopiedIds(c))
  }

  /** The attribute string `[[Put]]` stores for `v`, from the value before it is copied. */
  function PutAttributeText(store: NodeStore, v: Value): string
    reads store, ValueLists(v)
    requires store.Valid()
  {
    AttributeString(ValueTrees(store, v), v)
  }

  /**
   * After a primitive `[[Put]]` the slot element holds nothing for the empty
   * string, and one text node holding the string otherwise.
   */
  ghost predicate PrimitiveContent(nodes: map<NodeId, Node>, slot: NodeId, s: string)
  {
    slot in nodes &&
    (s == "" ==> nodes[slot].children == []) &&
    (s != "" ==> |nodes[slot].children| == 1 && nodes[slot].children[0] in nodes &&
                 nodes[nodes[slot].children[0]] == TextNode(s, Some(slot)))
  }

  /** The subtrees of a value before it is copied: one for XML, one per entry for an XMLList. */
  function ValueTrees(store: NodeStore, v: Value): seq<XTree>
    reads store, ValueLists(v)
    requires store.Valid()
  {
    match v
    case XmlVal(x) => [store.TreeOf(x.node)]
    case ListVal(l) => EntryTrees(store.nodes, store.next, l.children)
    case _ => []
  }

  /**
   * The slot an element `[[Put]]` writes: the index of the first child that
   * matches the name, or the end of the children when none does.
   */
  function PutSlot(nodes: map<NodeId, Node>, cs: seq<NodeId>, name: Multiname): (i: nat)
    ensures i <= |cs|
  {
    match FirstMatch(nodes, cs, name)
    case Some(k) => k
    case None => |cs|
  }

  /** The slot lies within the surviving children: before it they are untouched. */
  lemma PutSlotInKept(nodes: map<NodeId, Node>, cs: seq<NodeId>, name: Multiname)
    ensures var i := PutSlot(nodes, cs, name);
            i <= |NonMatching(nodes, cs, name)| && NonMatching(nodes, cs, name)[..i] == cs[..i]
    ensures FirstMatch(nodes, cs, name).None? ==> NonMatching(nodes, cs, name) == cs
  {
    var i := PutSlot(nodes, cs, name);
    NonMatchingKeepsPrefix(nodes, cs, name, i);
    if FirstMatch(nodes, cs, name).None? {
      assert cs[..|cs|] == cs;
      assert NonMatching(nodes, cs, name)[..|cs|] == NonMatching(nodes, cs, name);
    }
  }

  /** The names `[[Put]]` writes through: XML names, and `*`. */
  predicate PutNameValid(name: Multiname)
  {
    (name.localName.Some? && IsXmlName(name.localName.value)) || name.IsAnyName()
  }

  // ---------------------------------------------------------------------
  // XMLList objects

  class XmlListObject {
    var children: seq<Entry>
    var targetObject: Option<Target>
    var targetProperty: Option<Multiname>
    var targetDirty: bool

    /** `XmlListObject::new` (and, with no target, the class allocator). */
    constructor (children: seq<Entry>, targetObject: Option<Target>, targetProperty: Option<Multiname>)
      ensures this.children == children && this.targetObject == targetObject
      ensures this.targetProperty == targetProperty && !targetDirty
    {
      this.children := children;
      this.targetObject := targetObject;
      this.targetProperty := targetProperty;
      this.targetDirty := false;
    }

    /** `XmlListObject::new_dirty`. */
    constructor Dirty(children: seq<Entry>, targetObject: Option<Target>, targetProperty: Option<Multiname>)
      ensures this.children == children && this.targetObject == targetObject
      ensures this.targetProperty == targetProperty && targetDirty
    {
      this.children := children;
      this.targetObject := targetObject;
      this.targetProperty := targetProperty;
      this.targetDirty := true;
    }

    /**
     * `xml_object_child` (with `E4XOrXml::get_or_create_xml`): the XML
     * object of entry `index`, created on first use and stored back in place
     * of the bare node; None past the end.
     */
    method XmlObjectChild(index: nat) returns (x: Option<XmlObject>)
      modifies this
      ensures targetObject == old(targetObject) && targetProperty == old(targetProperty)
      ensures targetDirty == old(targetDirty)
      ensures index >= old(|children|) ==> x.None? && children == old(children)
      ensures index < old(|children|) ==>
                x.Some? && x.value.node == old(EntryNode(children[index])) &&
                children == old(children)[index := Xml(x.value)]
      ensures index < old(|children|) && old(children[index]).Xml? ==>
                x == Some(old(children[index]).xml) && children == old(children)
      ensures index < old(|children|) && old(children[index]).E4X? ==> fresh(x.value)
    {
      if index >= |children| {
        return None;
      }
      match children[index] {
        case Xml(o) =>
          x := Some(o);
        case E4X(n) =>
          var o := new XmlObject(n);
          children := children[index := Xml(o)];
          x := Some(o);
      }
    }

    /**
     * `get_or_create_xml` on every entry, in order: afterwards every entry
     * is an XML object for the same node, and entries that already were
     * keep their object.
     */
    method MaterializeAll()
      modifies this
      ensures targetObject == old(targetObject) && targetProperty == old(targetProperty)
      ensures targetDirty == old(targetDirty)
      ensures EntryNodes(children) == old(EntryNodes(children))
      ensures forall i :: 0 <= i < |children| ==> children[i].Xml?
      ensures forall i :: 0 <= i < |children| && old(children[i]).Xml? ==> children[i] == old(children[i])
    {
      var i := 0;
      while i < |children|
        invariant i <= |children| == old(|children|)
        invariant targetObject == old(targetObject) && targetProperty == old(targetProperty)
        invariant targetDirty == old(targetDirty)
        invariant forall j :: 0 <= j < |children| ==> EntryNode(children[j]) == old(EntryNode(children[j]))
        invariant forall j :: 0 <= j < i ==> children[j].Xml?
        invariant forall j :: 0 <= j < |children| && old(children[j]).Xml? ==> children[j] == old(children[j])
        invariant forall j :: i <= j < |children| ==> children[j] == old(children[j])
      {
        var _ := XmlObjectChild(i);
        i := i + 1;
      }
    }

    /**
     * `reevaluate_target_object`: a dirty, non-empty list recomputes its
     * target from its last entry's node (section 9.2.1.10 of ECMA-357 as
     * avmplus implements it) and becomes clean; anything else is left alone.
     */
    method Reevaluate(store: NodeStore)
      modifies this
      ensures children == old(children)
      ensures !(old(targetDirty) && old(|children|) > 0) ==>
                targetObject == old(targetObject) && targetProperty == old(targetProperty) &&
                targetDirty == old(targetDirty)
      ensures old(targetDirty) && old(|children|) > 0 ==>
                var last := store.Get(EntryNode(children[|children| - 1]));
                !targetDirty &&
                ReevaluatedTarget(old(targetObject), last.parent, targetObject) &&
                targetProperty == ReevaluatedProperty(old(targetProperty), last)
      ensures TargetKept(old(targetObject), targetObject)
    {
      if targetDirty && |children| > 0 {
        var last := store.Get(EntryNode(children[|children| - 1]));
        match last.parent {
          case Some(p) =>
            if targetObject.Some? && targetObject.value.TargetXml? && targetObject.value.xml.node != p {
              var x := new XmlObject(p);
              targetObject := Some(TargetXml(x));
            }
          case None =>
            targetObject := None;
        }
        targetProperty := ReevaluatedProperty(targetProperty, last);
        targetDirty := false;
      }
    }

    /**
     * `append` (section 9.2.1.6 of ECMA-357): a list value lends its target
     * and all its entries, in order, and leaves the list clean; an XML value
     * becomes one more entry and marks the target dirty; anything else is
     * ignored.
     */
    method Append(v: Value)
      requires v.ListVal? ==> v.list != this
      modifies this
      ensures v.ListVal? ==>
                children == old(children) + v.list.children && !targetDirty &&
                targetObject == v.list.targetObject && targetProperty == v.list.targetProperty
      ensures v.XmlVal? ==>
                children == old(children) + [Xml(v.xml)] && targetDirty &&
                targetObject == old(targetObject) && targetProperty == old(targetProperty)
      ensures !v.ListVal? && !v.XmlVal? ==>
                children == old(children) && targetDirty == old(targetDirty) &&
                targetObject == old(targetObject) && targetProperty == old(targetProperty)
    {
      match v {
        case ListVal(l) =>
          targetDirty := false;
          targetObject := l.targetObject;
          targetProperty := l.targetProperty;
          children := children + l.children;
        case XmlVal(x) =>
          targetDirty := true;
          children := children + [Xml(x)];
        case _ =>
      }
    }

    /**
     * `XmlListObject::get_property_local`: an index name without explicit
     * namespace yields that entry as an XML object (Undefined past the end);
     * any other name materialises every entry and yields a fresh list of all
     * their matches, in entry order, targeted at this list.
     */
    method GetProperty(store: NodeStore, name: Multiname) returns (r: Value)
      requires store.Valid()
      modifies this
      ensures targetObject == old(targetObject) && targetProperty == old(targetProperty)
      ensures targetDirty == old(targetDirty)
      ensures EntryNodes(children) == old(EntryNodes(children))
      ensures IsPlainIndex(name) && IndexOf(name) < old(|children|) ==>
                r.XmlVal? && r.xml.node == old(EntryNode(children[IndexOf(name)])) &&
                children == old(children)[IndexOf(name) := Xml(r.xml)]
      ensures IsPlainIndex(name) && IndexOf(name) >= old(|children|) ==> r == Undefined && children == old(children)
      ensures !IsPlainIndex(name) ==>
                r.ListVal? && fresh(r.list) && r.list != this &&
                r.list.children == E4Xs(ListMatches(store.nodes, old(EntryNodes(children)), name)) &&
                r.list.targetObject == Some(TargetList(this)) && r.list.targetProperty == Some(name) &&
                !r.list.targetDirty
    {
      if IsPlainIndex(name) {
        var x := XmlObjectChild(IndexOf(name));
        if x.Some? {
          return XmlVal(x.value);
        }
        return Undefined;
      }
      MaterializeAll();
      var l := new XmlListObject(E4Xs(ListMatches(store.nodes, EntryNodes(children), name)), Some(TargetList(this)), Some(name));
      return ListVal(l);
    }

    /**
     * `XmlListObject::deep_copy`: after re-evaluating this list's target, a
     * fresh list of fresh, parentless copies of every entry's subtree, in
     * order, sharing this list's target.
     */
    method DeepCopy(store: NodeStore) returns (c: XmlListObject)
      requires store.Valid()
      modifies this, store
      ensures store.Valid() && old(store.next) <= store.next
      ensures forall k :: k in old(store.nodes) ==> k in store.nodes && store.nodes[k] == old(store.nodes[k])
      ensures children == old(children) && TargetKept(old(targetObject), targetObject)
      ensures fresh(c) && !c.targetDirty
      ensures c.targetObject == targetObject && c.targetProperty == targetProperty
      ensures |c.children| == |children|
      ensures forall i :: 0 <= i < |c.children| ==>
                c.children[i].E4X? && old(store.next) <= c.children[i].e4x &&
                c.children[i].e4x !in old(store.nodes) && c.children[i].e4x in store.nodes &&
                store.nodes[c.children[i].e4x].parent == None &&
                store.TreeOf(c.children[i].e4x) == old(store.TreeOf(EntryNode(children[i])))
    {
      Reevaluate(store);
      var ts := EntryTrees(store.nodes, store.next, children);
      var ids := store.BuildAll(ts);
      c := new XmlListObject(E4Xs(ids), targetObject, targetProperty);
    }

    /**
     * `XmlListObject::delete_property_local`: an index name (not `*`, not an
     * attribute) removes that entry, detaching its node from its parent when
     * it has one, and reports true even past the end; any other name deletes
     * it from every element entry in turn, stopping at the first error.
     */
    method Delete(store: NodeStore, name: Multiname) returns (r: Result<bool, Error>)
      requires store.Valid()
      modifies this, store
      ensures store.Valid() && store.next == old(store.next)
      ensures targetObject == old(targetObject) && targetProperty == old(targetProperty)
      ensures targetDirty == old(targetDirty)
      ensures IsIndexName(name) && !name.isAttribute ==>
                r == Ok(true) &&
                (IndexOf(name) >= old(|children|) ==> children == old(children) && store.nodes == old(store.nodes)) &&
                (IndexOf(name) < old(|children|) ==>
                   children == old(children[..IndexOf(name)]) + old(children[IndexOf(name) + 1..]) &&
                   store.nodes == Detached(old(store.nodes), old(EntryNode(children[IndexOf(name)]))))
      ensures !(IsIndexName(name) && !name.isAttribute) ==>
                EntryNodes(children) == old(EntryNodes(children)) &&
                (name.HasExplicitNamespace() && HasElementEntry(old(store.nodes), old(EntryNodes(children))) <==> r.Err?) &&
                (r.Ok? ==> r == Ok(true) && store.nodes == DeletedFromEach(old(store.nodes), old(EntryNodes(children)), name))
    {
      if IsIndexName(name) && !name.isAttribute {
        DeleteIndex(store, IndexOf(name));
        return Ok(true);
      }
      r := DeleteFromEach(store, name);
    }

    /** Remove entry `index` (if any) and detach its node from its parent. */
    method DeleteIndex(store: NodeStore, index: nat)
      requires store.Valid()
      modifies this, store
      ensures store.Valid() && store.next == old(store.next)
      ensures targetObject == old(targetObject) && targetProperty == old(targetProperty)
      ensures targetDirty == old(targetDirty)
      ensures index >= old(|children|) ==> children == old(children) && store.nodes == old(store.nodes)
      ensures index < old(|children|) ==>
                children == old(children[..index]) + old(children[index + 1..]) &&
                store.nodes == Detached(old(store.nodes), old(EntryNode(children[index])))
    {
      if index < |children| {
        var removed := EntryNode(children[index]);
        children := children[..index] + children[index + 1..];
        var nd := store.Get(removed);
        if nd.parent.Some? {
          store.RemoveOwned(nd.parent.value, removed, nd.kind == Attribute);
        }
      }
    }

    /** `[[Delete]]` of `name` on every element entry, materialising them, stopping at the first error. */
    method DeleteFromEach(store: NodeStore, name: Multiname) returns (r: Result<bool, Error>)
      requires store.Valid()
      modifies this, store
      ensures store.Valid() && store.next == old(store.next)
      ensures targetObject == old(targetObject) && targetProperty == old(targetProperty)
      ensures targetDirty == old(targetDirty)
      ensures EntryNodes(children) == old(EntryNodes(children))
      ensures name.HasExplicitNamespace() && HasElementEntry(old(store.nodes), old(EntryNodes(children))) <==> r.Err?
      ensures r.Ok? ==> r == Ok(true) && store.nodes == DeletedFromEach(old(store.nodes), old(EntryNodes(children)), name)
    {
      ghost var ns := EntryNodes(children);
      assert (this as object) != (store as object);
      var i := 0;
      while i < |children|
        invariant i <= |children| == |ns| && EntryNodes(children) == ns
        invariant store.Valid() && store.next == old(store.next)
        invariant targetObject == old(targetObject) && targetProperty == old(targetProperty)
        invariant targetDirty == old(targetDirty)
        invariant DeletedSoFar(old(store.nodes), store.nodes, ns, i, name)
      {
        var failed := DeleteFromNext(store, old(store.nodes), ns, i, name);
        if failed.Some? {
          return Err(failed.value);
        }
        i := i + 1;
      }
      DeletedFromAll(old(store.nodes), store.nodes, ns, name);
      return Ok(true);
    }

    /**
     * The loop body of `DeleteFromEach`, stated against the nodes `nodes0`
     * before the loop: entry `i` is deleted from, extending the deletions
     * so far by one entry, or the explicit-namespace error stops the loop.
     */
    method DeleteFromNext(store: NodeStore, ghost nodes0: map<NodeId, Node>, ghost ns: seq<NodeId>, i: nat, name: Multiname)
      returns (failed: Option<Error>)
      requires store.Valid() && i < |children| == |ns| && EntryNodes(children) == ns
      requires DeletedSoFar(nodes0, store.nodes, ns, i, name)
      modifies this, store
      ensures store.Valid() && store.next == old(store.next)
      ensures targetObject == old(targetObject) && targetProperty == old(targetProperty)
      ensures targetDirty == old(targetDirty)
      ensures EntryNodes(children) == ns
      ensures failed.Some? ==> name.HasExplicitNamespace() && HasElementEntry(nodes0, ns)
      ensures failed.None? ==> DeletedSoFar(nodes0, store.nodes, ns, i + 1, name)
    {
      DeletedFromEachStep(nodes0, ns, i, name);
      assert ns[i] == EntryNode(children[i]);
      failed := DeleteFromEntry(store, i, name);
    }

    /** One step of `DeleteFromEach`: `[[Delete]]` on entry `i` if it is an element; the error, if any. */
    method DeleteFromEntry(store: NodeStore, i: nat, name: Multiname) returns (failed: Option<Error>)
      requires store.Valid() && i < |children|
      modifies this, store
      ensures store.Valid() && store.next == old(store.next)
      ensures targetObject == old(targetObject) && targetProperty == old(targetProperty)
      ensures targetDirty == old(targetDirty)
      ensures EntryNodes(children) == old(EntryNodes(children))
      ensures failed.Some? <==> name.HasExplicitNamespace() && Lookup(old(store.nodes), EntryNode(children[i])).kind == Element
      ensures failed.None? ==>
                store.nodes == (if Lookup(old(store.nodes), EntryNode(children[i])).kind == Element
                                then RemovedMatching(old(store.nodes), EntryNode(children[i]), name, name.isAttribute)
                                else old(store.nodes))
      ensures failed.Some? ==> store.nodes == old(store.nodes)
    {
      if store.Get(EntryNode(children[i])).kind == Element {
        var x := XmlObjectChild(i);
        var d := x.value.Delete(store, name);
        if d.Err? {
          return Some(d.error);
        }
      }
      return None;
    }

    /**
     * `XmlListObject::equals`: an empty list equals Undefined; against
     * another list, equal lengths and pairwise abstract equality of the
     * entries; a one-entry list compares its entry with the value; anything
     * else is unequal.  The entries compared are materialised.
     */
    method Equals(store: NodeStore, other: Value) returns (r: bool)
      requires store.Valid()
      modifies this, ValueLists(other)
      ensures EntryNodes(children) == old(EntryNodes(children))
      ensures targetObject == old(targetObject) && targetProperty == old(targetProperty)
      ensures targetDirty == old(targetDirty)
      ensures other.ListVal? ==>
                EntryNodes(other.list.children) == old(EntryNodes(other.list.children)) &&
                other.list.targetObject == old(other.list.targetObject) &&
                other.list.targetProperty == old(other.list.targetProperty) &&
                other.list.targetDirty == old(other.list.targetDirty)
      ensures r == old(ListEquals(EntryTrees(store.nodes, store.next, children), ComparandOf(store, other)))
    {
      ghost var mine := EntryTrees(store.nodes, store.next, children);
      ghost var shape := ComparandOf(store, other);
      if other == Undefined && |children| == 0 {
        return true;
      }
      if other.ListVal? {
        var o := other.list;
        if |children| != |o.children| {
          return false;
        }
        r := PairwiseEqual(store, o);
        return;
      }
      if |children| == 1 {
        var a := XmlObjectChild(0);
        r := a.value.AbstractEq(store, other);
        if other.XmlVal? && other.xml == a.value {
          TreeEqReflexive(store.TreeOf(a.value.node));
        }
        return r;
      }
      return false;
    }

    /** The list-against-list case of `equals`: pairwise abstract equality of entries of equal count. */
    method PairwiseEqual(store: NodeStore, o: XmlListObject) returns (r: bool)
      requires store.Valid() && |children| == |o.children|
      modifies this, o
      ensures EntryNodes(children) == old(EntryNodes(children))
      ensures targetObject == old(targetObject) && targetProperty == old(targetProperty)
      ensures targetDirty == old(targetDirty)
      ensures EntryNodes(o.children) == old(EntryNodes(o.children))
      ensures o.targetObject == old(o.targetObject) && o.targetProperty == old(o.targetProperty)
      ensures o.targetDirty == old(o.targetDirty)
      ensures r == old(ListEquals(EntryTrees(store.nodes, store.next, children),
                                  OtherList(EntryTrees(store.nodes, store.next, o.children))))
    {
      ghost var mine := EntryTrees(store.nodes, store.next, children);
      ghost var theirs := EntryTrees(store.nodes, store.next, o.children);
      var n := 0;
      while n < |children|
        invariant n <= |children| == |o.children| == |mine| == |theirs|
        invariant EntryNodes(children) == old(EntryNodes(children))
        invariant EntryNodes(o.children) == old(EntryNodes(o.children))
        invariant targetObject == old(targetObject) && targetProperty == old(targetProperty)
        invariant targetDirty == old(targetDirty)
        invariant o.targetObject == old(o.targetObject) && o.targetProperty == old(o.targetProperty)
        invariant o.targetDirty == old(o.targetDirty)
        invariant forall j :: 0 <= j < n ==> AbstractEqTrees(mine[j], Some(theirs[j]), false, "")
      {
        var b := o.XmlObjectChild(n);
        var a := XmlObjectChild(n);
        var eq := a.value.AbstractEq(store, XmlVal(b.value));
        if a.value == b.value {
          TreeEqReflexive(store.TreeOf(a.value.node));
        }
        assert eq == AbstractEqTrees(mine[n], Some(theirs[n]), false, "");
        if !eq {
          return false;
        }
        n := n + 1;
      }
      return true;
    }

    /**
     * `get_enumerant_value`: slot `index` (1-based, 0 meaning none) is the
     * XML object of entry `index - 1`, materialised; the length is read as a
     * 32-bit count.
     */
    method GetEnumerantValue(index: nat) returns (r: Value)
      requires index < U32Limit
      modifies this
      ensures targetObject == old(targetObject) && targetProperty == old(targetProperty)
      ensures targetDirty == old(targetDirty)
      ensures EntryNodes(children) == old(EntryNodes(children))
      ensures EnumerantSlot(old(|children|), index).None? ==> r == Undefined && children == old(children)
      ensures EnumerantSlot(old(|children|), index).Some? ==>
                var k := EnumerantSlot(old(|children|), index).value;
                r.XmlVal? && r.xml.node == old(EntryNode(children[k])) && children == old(children)[k := Xml(r.xml)]
    {
      match EnumerantSlot(|children|, index) {
        case None =>
          return Undefined;
        case Some(k) =>
          var x := XmlObjectChild(k);
          return XmlVal(x.value);
      }
    }

    /**
     * `resolve_value` (section 9.2.1.10 of ECMA-357): a non-empty list
     * resolves to itself.  An empty one resolves to nothing without a target
     * object or property, or with an attribute or `*` property; otherwise
     * its target is resolved to a base, and the base's property is got.  If
     * that is empty, a base list of several entries is Error 1089 (as in
     * avmplus), and otherwise the empty string is put under the property
     * and the property is got again.
     */
    method ResolveValue(store: NodeStore, fuel: nat, ghost U: set<XmlListObject>)
      returns (r: Result<Option<Target>, Fault>, ghost U': set<XmlListObject>)
      requires store.Valid() && this in U && Closed(U)
      modifies store, U
      decreases fuel, 2
      ensures store.Valid() && old(store.next) <= store.next && old(store.nodes).Keys <= store.nodes.Keys
      ensures U <= U' && Closed(U') && forall l :: l in U' && l !in U ==> fresh(l)
      ensures r.Ok? && r.value.Some? && r.value.value.TargetList? ==>
                r.value.value.list in U' && (old(|children|) == 0 ==> fresh(r.value.value.list))
      ensures old(|children|) > 0 ==>
                r == Ok(Some(TargetList(this))) && children == old(children) &&
                store.nodes == old(store.nodes) && store.next == old(store.next)
      ensures old(|children|) == 0 &&
              (old(targetObject).None? || old(targetProperty).None? ||
               old(targetProperty).value.isAttribute || old(targetProperty).value.IsAnyName()) ==>
                r == Ok(None) && store.nodes == old(store.nodes) && store.next == old(store.next)
      ensures old(|children|) == 0 && old(targetObject).Some? && old(targetObject).value.TargetXml? &&
              old(targetProperty).Some? && !old(targetProperty).value.isAttribute &&
              !old(targetProperty).value.IsAnyName() && !IsIndexName(old(targetProperty).value) &&
              old(store.Get(targetObject.value.xml.node)).kind == Element ==>
                r.Ok? && r.value.Some? && r.value.value.TargetList? &&
                r.value.value.list.targetObject == old(targetObject) &&
                r.value.value.list.children ==
                  E4Xs(MatchedOwned(store.nodes, old(targetObject).value.xml.node, old(targetProperty).value))
      ensures old(|children|) == 0 && old(targetObject).Some? && old(targetObject).value.TargetXml? ==>
                children == old(children)
      ensures old(|children|) == 0 && old(targetObject).Some? && old(targetObject).value.TargetXml? &&
              old(targetProperty).Some? && !IsIndexName(old(targetProperty).value) &&
              old(MatchedOwned(store.nodes, targetObject.value.xml.node, targetProperty.value)) != [] ==>
                store.nodes == old(store.nodes)
      ensures old(|children|) == 0 && old(targetObject).Some? && old(targetObject).value.TargetXml? &&
              old(targetProperty).Some? && !old(targetProperty).value.isAttribute &&
              !old(targetProperty).value.IsAnyName() && !IsIndexName(old(targetProperty).value) &&
              old(store.Get(targetObject.value.xml.node)).kind == Element &&
              old(MatchedOwned(store.nodes, targetObject.value.xml.node, targetProperty.value)) == [] ==>
                r.Ok? && r.value.Some? && r.value.value.TargetList? &&
                CreatedProperty(old(store.nodes), store.nodes, old(targetObject).value.xml.node,
                                old(targetProperty).value, r.value.value.list.children)
      ensures old(|children|) == 0 && old(targetObject).Some? && old(targetObject).value.TargetList? &&
              old(|targetObject.value.list.children|) > 1 && fuel > 0 &&
              old(targetProperty).Some? && !old(targetProperty).value.isAttribute &&
              !old(targetProperty).value.IsAnyName() && !IsPlainIndex(old(targetProperty).value) &&
              ListMatches(old(store.nodes), old(EntryNodes(targetObject.value.list.children)), old(targetProperty).value) == [] ==>
                r == Err(Thrown(Error1089()))
      ensures old(|children|) == 0 && old(targetObject).Some? && old(targetObject).value.TargetList? &&
              old(|targetObject.value.list.children|) > 0 && fuel > 0 &&
              old(targetProperty).Some? && !old(targetProperty).value.isAttribute &&
              !old(targetProperty).value.IsAnyName() && !IsPlainIndex(old(targetProperty).value) &&
              ListMatches(old(store.nodes), old(EntryNodes(targetObject.value.list.children)), old(targetProperty).value) != [] ==>
                r.Ok? && r.value.Some? && r.value.value.TargetList? &&
                r.value.value.list.children ==
                  E4Xs(ListMatches(old(store.nodes), old(EntryNodes(targetObject.value.list.children)), old(targetProperty).value)) &&
                store.nodes == old(store.nodes) && store.next == old(store.next)
      ensures old(|children|) == 0 && old(targetObject).Some? && old(targetObject).value.TargetList? &&
              old(|targetObject.value.list.children|) > 0 && fuel > 0 &&
              old(targetProperty).Some? && !old(targetProperty).value.isAttribute &&
              !old(targetProperty).value.IsAnyName() && !IsPlainIndex(old(targetProperty).value) && r.Ok? ==>
                r.value.Some? && r.value.value.TargetList? &&
                r.value.value.list.children ==
                  E4Xs(ListMatches(store.nodes, EntryNodes(old(targetObject).value.list.children), old(targetProperty).value))
      ensures old(|children|) == 0 && old(targetObject).Some? && old(targetObject).value.TargetList? &&
              old(|targetObject.value.list.children|) == 1 && fuel > 1 &&
              old(targetProperty).Some? && !old(targetProperty).value.isAttribute &&
              !old(targetProperty).value.IsAnyName() && !IsIndexName(old(targetProperty).value) &&
              old(store.Get(EntryNode(targetObject.value.list.children[0]))).kind == Element &&
              old(MatchedOwned(store.nodes, EntryNode(targetObject.value.list.children[0]), targetProperty.value)) == [] ==>
                r.Ok? && r.value.Some? && r.value.value.TargetList? &&
                CreatedProperty(old(store.nodes), store.nodes, old(EntryNode(targetObject.value.list.children[0])),
                                old(targetProperty).value, r.value.value.list.children)
    {
      U' := U;
      if |children| > 0 {
        return Ok(Some(TargetList(this))), U';
      }
      Reevaluate(store);
      if targetObject.None? || targetProperty.None? {
        return Ok(None), U';
      }
      var p := targetProperty.value;
      if p.isAttribute || p.IsAnyName() {
        return Ok(None), U';
      }
      match targetObject.value {
        case TargetXml(x) =>
          r, U' := ResolveFromBase(store, TargetXml(x), p, fuel, U);
        case TargetList(l) =>
          if fuel == 0 {
            return Err(StackOverflow), U';
          }
          var b;
          b, U' := l.ResolveValue(store, fuel - 1, U);
          if b.Err? {
            return Err(b.error), U';
          }
          if b.value.None? {
            return Ok(None), U';
          }
          r, U' := ResolveFromBase(store, b.value.value, p, fuel - 1, U');
      }
    }

    /**
     * `set_property_local`: `[[Put]]` (section 9.2.1.2 of ECMA-357).  A
     * name that is neither an attribute nor `*` and parses as an index is
     * `PutIndex`.  For any other name, a list of several entries is Error
     * 1089; an empty list first resolves itself and takes on the result if
     * that has exactly one item (a list of one entry, or an element of one
     * child), and otherwise ignores the write; then `PutIntoFirst` writes.
     */
    method Put(store: NodeStore, name: Multiname, value: Value, fuel: nat, ghost U: set<XmlListObject>)
      returns (r: Result<(), Fault>, ghost placed: seq<NodeId>, ghost adopted: Result<bool, Fault>,
               ghost mid: map<NodeId, Node>, ghost midNext: nat, ghost midTrees: seq<XTree>, ghost U': set<XmlListObject>)
      requires store.Valid() && this in U && ValueLists(value) <= U && Closed(U)
      modifies store, U
      decreases fuel, 3
      ensures store.Valid() && old(store.next) <= store.next && old(store.nodes).Keys <= store.nodes.Keys
      ensures U <= U' && Closed(U') && forall l :: l in U' && l !in U ==> fresh(l)
      ensures !name.isAttribute && IsIndexName(name) && (old(targetObject).None? || old(targetObject).value.TargetXml?) &&
              IndexOf(name) < old(|children|) &&
              old(store.Get(EntryNode(children[IndexOf(name)]))).kind == Element && !value.XmlVal? && !value.ListVal? ==>
                r == Ok(()) && EntryNodes(children) == old(EntryNodes(children)) &&
                ElementPutOutcome(old(store.nodes), store.nodes, store.next, old(EntryNode(children[IndexOf(name)])), AnyName,
                                  Str(PrimitiveString(value)), [], placed)
      ensures !(!name.isAttribute && IsIndexName(name)) && old(|children|) > 1 ==>
                r == Err(Thrown(Error1089())) && children == old(children) &&
                store.nodes == old(store.nodes) && store.next == old(store.next)
      ensures !(!name.isAttribute && IsIndexName(name)) && old(|children|) == 1 ==>
                EntryNodes(children) == old(EntryNodes(children)) && (r.Err? ==> r.error.Thrown?) &&
                XmlPutOutcome(old(store.nodes), store.nodes, store.next, old(EntryNode(children[0])), name, value,
                              old(ValueTrees(store, value)), Untagged(r), placed)
      ensures !(!name.isAttribute && IsIndexName(name)) && old(|children|) == 0 ==>
                Wf(mid, midNext) && old(store.nodes).Keys <= mid.Keys &&
                (value.XmlVal? ==> midTrees == [Tree(mid, midNext, value.xml.node)]) &&
                AdoptedPut(mid, store.nodes, store.next, children, name, value, midTrees, adopted, r, placed)
      ensures !(!name.isAttribute && IsIndexName(name)) && old(|children|) == 0 && old(targetObject).Some? && old(targetObject).value.TargetXml? && old(targetProperty).Some? &&
              !old(targetProperty).value.isAttribute && !old(targetProperty).value.IsAnyName() &&
              !IsIndexName(old(targetProperty).value) && old(store.Get(targetObject.value.xml.node)).kind == Element &&
              fuel > 0 ==>
                AdoptedFromXml(old(store.nodes), mid, old(targetObject).value.xml.node, old(targetProperty).value,
                               adopted, children)
    {
      if !name.isAttribute && IsIndexName(name) {
        adopted, midNext, midTrees := Ok(false), store.next, [];
        r, placed, mid, U' := PutIndex(store, IndexOf(name), value, fuel, U);
      } else {
        r, placed, adopted, mid, midNext, midTrees, U' := PutNamed(store, name, value, fuel, U);
      }
    }

    /** `[[Put]]` under a name that is not an element index: steps 2 to 4 of `set_property_local`. */
    method PutNamed(store: NodeStore, name: Multiname, value: Value, fuel: nat, ghost U: set<XmlListObject>)
      returns (r: Result<(), Fault>, ghost placed: seq<NodeId>, ghost adopted: Result<bool, Fault>,
               ghost mid: map<NodeId, Node>, ghost midNext: nat, ghost midTrees: seq<XTree>, ghost U': set<XmlListObject>)
      requires store.Valid() && this in U && ValueLists(value) <= U && Closed(U)
      requires !(!name.isAttribute && IsIndexName(name))
      modifies store, U
      decreases fuel, 2
      ensures store.Valid() && old(store.next) <= store.next && old(store.nodes).Keys <= store.nodes.Keys
      ensures U <= U' && Closed(U') && forall l :: l in U' && l !in U ==> fresh(l)
      ensures old(|children|) > 1 ==>
                r == Err(Thrown(Error1089())) && children == old(children) &&
                store.nodes == old(store.nodes) && store.next == old(store.next)
      ensures old(|children|) == 1 ==>
                EntryNodes(children) == old(EntryNodes(children)) && (r.Err? ==> r.error.Thrown?) &&
                XmlPutOutcome(old(store.nodes), store.nodes, store.next, old(EntryNode(children[0])), name, value,
                              old(ValueTrees(store, value)), Untagged(r), placed)
      ensures old(|children|) == 0 ==>
                Wf(mid, midNext) && old(store.nodes).Keys <= mid.Keys &&
                (value.XmlVal? ==> midTrees == [Tree(mid, midNext, value.xml.node)]) &&
                AdoptedPut(mid, store.nodes, store.next, children, name, value, midTrees, adopted, r, placed)
      ensures old(|children|) == 0 && old(targetObject).Some? && old(targetObject).value.TargetXml? && old(targetProperty).Some? &&
              !old(targetProperty).value.isAttribute && !old(targetProperty).value.IsAnyName() &&
              !IsIndexName(old(targetProperty).value) && old(store.Get(targetObject.value.xml.node)).kind == Element &&
              fuel > 0 ==>
                AdoptedFromXml(old(store.nodes), mid, old(targetObject).value.xml.node, old(targetProperty).value,
                               adopted, children)
    {
      U' := U;
      placed := [];
      adopted, mid, midNext, midTrees := Ok(true), store.nodes, store.next, [];
      if |children| > 1 {
        r := Err(Thrown(Error1089()));
      } else if |children| == 0 {
        r, placed, adopted, mid, midNext, midTrees, U' := PutNamedEmpty(store, name, value, fuel, U);
      } else {
        r, placed := PutIntoFirst(store, name, value);
      }
    }

    /**
     * Steps 3-4 of `[[Put]]` on an empty list: it adopts what it resolves
     * to and, when that gives it an entry, puts into that entry; otherwise
     * the write does nothing more.
     */
    method PutNamedEmpty(store: NodeStore, name: Multiname, value: Value, fuel: nat, ghost U: set<XmlListObject>)
      returns (r: Result<(), Fault>, ghost placed: seq<NodeId>, ghost adopted: Result<bool, Fault>,
               ghost mid: map<NodeId, Node>, ghost midNext: nat, ghost midTrees: seq<XTree>, ghost U': set<XmlListObject>)
      requires store.Valid() && this in U && ValueLists(value) <= U && Closed(U) && |children| == 0
      modifies store, U
      decreases fuel, 1
      ensures store.Valid() && old(store.next) <= store.next && old(store.nodes).Keys <= store.nodes.Keys
      ensures U <= U' && Closed(U') && forall l :: l in U' && l !in U ==> fresh(l)
      ensures Wf(mid, midNext) && old(store.nodes).Keys <= mid.Keys
      ensures value.XmlVal? ==> midTrees == [Tree(mid, midNext, value.xml.node)]
      ensures AdoptedPut(mid, store.nodes, store.next, children, name, value, midTrees, adopted, r, placed)
      ensures old(targetObject).Some? && old(targetObject).value.TargetXml? && old(targetProperty).Some? &&
              !old(targetProperty).value.isAttribute && !old(targetProperty).value.IsAnyName() &&
              !IsIndexName(old(targetProperty).value) && old(store.Get(targetObject.value.xml.node)).kind == Element &&
              fuel > 0 ==>
                AdoptedFromXml(old(store.nodes), mid, old(targetObject).value.xml.node, old(targetProperty).value,
                               adopted, children)
    {
      var resolved;
      resolved, U' := AdoptResolved(store, fuel, U);
      adopted := resolved;
      mid := store.nodes;
      midNext := store.next;
      midTrees := ValueTrees(store, value);
      ghost var adoptedEntries := children;
      r, placed := WriteAdopted(store, name, value, resolved);
      if old(targetObject).Some? && old(targetObject).value.TargetXml? && old(targetProperty).Some? {
        AdoptedFromXmlEntries(old(store.nodes), mid, old(targetObject).value.xml.node, old(targetProperty).value,
                              adopted, adoptedEntries, children);
      }
    }

    /**
     * Step 3.b of `[[Put]]` on a list that resolving has left with entries
     * exactly when `adopted` is `Ok(true)`: then the first entry takes the
     * XML `[[Put]]`; otherwise nothing is written.
     */
    method WriteAdopted(store: NodeStore, name: Multiname, value: Value, adopted: Result<bool, Fault>)
      returns (r: Result<(), Fault>, ghost placed: seq<NodeId>)
      requires store.Valid() && (adopted == Ok(true) ==> |children| > 0)
      modifies this, store, ValueLists(value)
      ensures store.Valid() && old(store.next) <= store.next && old(store.nodes).Keys <= store.nodes.Keys
      ensures TargetKept(old(targetObject), targetObject)
      ensures value.ListVal? ==> TargetKept(old(value.list.targetObject), value.list.targetObject)
      ensures EntryNodes(children) == old(EntryNodes(children))
      ensures AdoptedPut(old(store.nodes), store.nodes, store.next, children, name, value, old(ValueTrees(store, value)),
                         adopted, r, placed)
    {
      placed := [];
      if adopted.Err? {
        r := Err(adopted.error);
      } else if !adopted.value {
        r := Ok(());
      } else {
        r, placed := PutIntoFirst(store, name, value);
        assert EntryNode(children[0]) == EntryNodes(children)[0];
      }
    }

    /**
     * Step 4 of `[[Put]]` for an empty list: it resolves itself and, when
     * the result has exactly one item, takes that item on (`Ok(true)`);
     * otherwise the write is ignored (`Ok(false)`).
     */
    method AdoptResolved(store: NodeStore, fuel: nat, ghost U: set<XmlListObject>)
      returns (r: Result<bool, Fault>, ghost U': set<XmlListObject>)
      requires store.Valid() && this in U && Closed(U) && |children| == 0
      modifies store, U
      decreases fuel, 0
      ensures store.Valid() && old(store.next) <= store.next && old(store.nodes).Keys <= store.nodes.Keys
      ensures U <= U' && Closed(U') && forall l :: l in U' && l !in U ==> fresh(l)
      ensures r == Ok(true) ==> |children| > 0
      ensures old(targetObject).Some? && old(targetObject).value.TargetXml? && old(targetProperty).Some? &&
              !old(targetProperty).value.isAttribute && !old(targetProperty).value.IsAnyName() &&
              !IsIndexName(old(targetProperty).value) && old(store.Get(targetObject.value.xml.node)).kind == Element &&
              fuel > 0 ==>
                AdoptedFromXml(old(store.nodes), store.nodes, old(targetObject).value.xml.node, old(targetProperty).value,
                               r, children)
    {
      U' := U;
      if fuel == 0 {
        return Err(StackOverflow), U';
      }
      var rv;
      rv, U' := ResolveForAdoption(store, fuel - 1, U);
      if rv.Err? {
        return Err(rv.error), U';
      }
      if rv.value.None? || TargetLength(store, rv.value.value) != 1 {
        return Ok(false), U';
      }
      Append(TargetValue(rv.value.value));
      return Ok(true), U';
    }

    /** `[[ResolveValue]]` of an empty list as step 4 of `[[Put]]` calls it: only what the adoption reads of its outcome. */
    method ResolveForAdoption(store: NodeStore, fuel: nat, ghost U: set<XmlListObject>)
      returns (r: Result<Option<Target>, Fault>, ghost U': set<XmlListObject>)
      requires store.Valid() && this in U && Closed(U) && |children| == 0
      modifies store, U
      decreases fuel, 3
      ensures store.Valid() && old(store.next) <= store.next && old(store.nodes).Keys <= store.nodes.Keys
      ensures U <= U' && Closed(U') && forall l :: l in U' && l !in U ==> fresh(l)
      ensures r.Ok? && r.value.Some? && r.value.value.TargetList? ==> r.value.value.list in U' && fresh(r.value.value.list)
      ensures old(targetObject).Some? && old(targetObject).value.TargetXml? ==> children == old(children)
      ensures old(targetObject).Some? && old(targetObject).value.TargetXml? && old(targetProperty).Some? &&
              !old(targetProperty).value.isAttribute && !old(targetProperty).value.IsAnyName() &&
              !IsIndexName(old(targetProperty).value) && old(store.Get(targetObject.value.xml.node)).kind == Element ==>
                r.Ok? && r.value.Some? && r.value.value.TargetList? &&
                r.value.value.list.children ==
                  E4Xs(MatchedOwned(store.nodes, old(targetObject).value.xml.node, old(targetProperty).value)) &&
                (old(MatchedOwned(store.nodes, targetObject.value.xml.node, targetProperty.value)) != [] ==>
                   store.nodes == old(store.nodes)) &&
                (old(MatchedOwned(store.nodes, targetObject.value.xml.node, targetProperty.value)) == [] ==>
                   CreatedProperty(old(store.nodes), store.nodes, old(targetObject).value.xml.node,
                                   old(targetProperty).value, r.value.value.list.children))
    {
      r, U' := ResolveValue(store, fuel, U);
    }

    /** Step 3.b of `[[Put]]`: the XML `[[Put]]` on the XML object of the first entry. */
    method PutIntoFirst(store: NodeStore, name: Multiname, value: Value) returns (r: Result<(), Fault>, ghost placed: seq<NodeId>)
      requires store.Valid() && |children| > 0
      modifies this, store, ValueLists(value)
      ensures store.Valid() && old(store.next) <= store.next && old(store.nodes).Keys <= store.nodes.Keys
      ensures TargetKept(old(targetObject), targetObject)
      ensures value.ListVal? ==> TargetKept(old(value.list.targetObject), value.list.targetObject)
      ensures EntryNodes(children) == old(EntryNodes(children)) && (r.Err? ==> r.error.Thrown?)
      ensures XmlPutOutcome(old(store.nodes), store.nodes, store.next, old(EntryNode(children[0])), name, value,
                            old(ValueTrees(store, value)), Untagged(r), placed)
    {
      var x := FirstEntryObject(store, value);
      r, placed := PutThrough(store, x, name, value);
    }

    /** The XML object of the first entry, made and stored in place when the entry is a bare node (`xml_object_child`). */
    method FirstEntryObject(store: NodeStore, value: Value) returns (x: XmlObject)
      requires store.Valid() && |children| > 0
      modifies this
      ensures x.node == old(EntryNode(children[0]))
      ensures EntryNodes(children) == old(EntryNodes(children))
      ensures targetObject == old(targetObject) && targetProperty == old(targetProperty)
      ensures value.ListVal? ==> EntryNodes(value.list.children) == old(EntryNodes(value.list.children))
      ensures value.ListVal? ==> TargetKept(old(value.list.targetObject), value.list.targetObject)
      ensures ValueTrees(store, value) == old(ValueTrees(store, value))
      ensures PutAttributeText(store, value) == old(PutAttributeText(store, value))
    {
      var o := XmlObjectChild(0);
      x := o.value;
      assert EntryNodes(children) == old(EntryNodes(children)) by {
        assert forall i :: 0 <= i < |children| ==> EntryNode(children[i]) == old(EntryNode(children[i]));
      }
      if value.ListVal? {
        EntryTreesOfNodes(store.nodes, store.next, value.list.children, old(value.list.children));
      }
    }

    /**
     * `[[Put]]` under index `index` (step 2 of section 9.2.1.2 of ECMA-357):
     * the target is re-evaluated and resolved (`ResolveOwnTarget`), then
     * `PlaceAndWrite` writes.  `mid` is the node graph between appending a
     * placeholder and writing the entry.
     */
    method PutIndex(store: NodeStore, index: nat, value: Value, fuel: nat, ghost U: set<XmlListObject>)
      returns (r: Result<(), Fault>, ghost placed: seq<NodeId>, ghost mid: map<NodeId, Node>, ghost U': set<XmlListObject>)
      requires store.Valid() && this in U && ValueLists(value) <= U && Closed(U)
      modifies store, U
      decreases fuel, 1
      ensures store.Valid() && old(store.next) <= store.next && old(store.nodes).Keys <= store.nodes.Keys
      ensures U <= U' && Closed(U') && forall l :: l in U' && l !in U ==> fresh(l)
      ensures (old(targetObject).None? || old(targetObject).value.TargetXml?) && index < old(|children|) &&
              old(store.Get(EntryNode(children[index]))).kind == Element && !value.XmlVal? && !value.ListVal? ==>
                r == Ok(()) && EntryNodes(children) == old(EntryNodes(children)) &&
                ElementPutOutcome(old(store.nodes), store.nodes, store.next, old(EntryNode(children[index])), AnyName,
                                  Str(PrimitiveString(value)), [], placed)
      ensures !old(targetDirty) && old(targetObject).Some? && old(targetObject).value.TargetXml? &&
              index >= old(|children|) && PlaceholderKind(old(targetProperty)) == Element &&
              old(store.Get(targetObject.value.xml.node)).kind == Element && !value.XmlVal? && !value.ListVal? ==>
                var x := old(targetObject).value.xml.node;
                var cs := old(store.nodes[x].children);
                var j := PlaceholderIndex(cs, old(EntryNodes(children)));
                r == Ok(()) && |children| == old(|children|) + 1 &&
                EntryNodes(children)[..old(|children|)] == old(EntryNodes(children)) &&
                var y := EntryNode(children[old(|children|)]);
                y !in old(store.nodes) && y in mid && x in mid && mid[y].kind == Element && mid[y].parent == Some(x) &&
                mid[y].localName == old(targetProperty).value.localName &&
                mid[y].namespace == old(targetProperty).value.namespace &&
                mid[x].children == cs[..j] + [y] + cs[j..] &&
                ElementPutOutcome(mid, store.nodes, store.next, y, AnyName, Str(PrimitiveString(value)), [], placed)
      ensures !old(targetDirty) && index >= old(|children|) && old(targetObject).None? &&
              PlaceholderKind(old(targetProperty)) == Attribute ==>
                r.Err? && r.error.Panicked?
    {
      Reevaluate(store);
      var resolved;
      resolved, U' := ResolveOwnTarget(store, fuel, U);
      placed := [];
      mid := store.nodes;
      if resolved.Stop? {
        return resolved.result, placed, mid, U';
      }
      r, placed, mid := PlaceAndWrite(store, index, resolved.target, value);
    }

    /**
     * Steps 2.a-2.b of `[[Put]]`: an XML target resolves to itself, a list
     * target through its `[[ResolveValue]]`, where resolving to nothing
     * ends the write; no target resolves to none.
     */
    method ResolveOwnTarget(store: NodeStore, fuel: nat, ghost U: set<XmlListObject>)
      returns (r: Resolution, ghost U': set<XmlListObject>)
      requires store.Valid() && this in U && Closed(U)
      modifies store, U
      decreases fuel, 0
      ensures store.Valid() && old(store.next) <= store.next && old(store.nodes).Keys <= store.nodes.Keys
      ensures U <= U' && Closed(U') && forall l :: l in U' && l !in U ==> fresh(l)
      ensures r.Go? && r.target.Some? && r.target.value.TargetList? ==> r.target.value.list in U'
      ensures old(targetObject).None? || old(targetObject).value.TargetXml? ==>
                r == Go(old(targetObject)) && store.nodes == old(store.nodes) && store.next == old(store.next) &&
                U' == U && children == old(children) && targetObject == old(targetObject) &&
                targetProperty == old(targetProperty) && targetDirty == old(targetDirty)
    {
      U' := U;
      if targetObject.None? {
        return Go(None), U';
      }
      match targetObject.value {
        case TargetXml(x) =>
          return Go(Some(TargetXml(x))), U';
        case TargetList(l) =>
          if fuel == 0 {
            return Stop(Err(StackOverflow)), U';
          }
          var res;
          res, U' := l.ResolveValue(store, fuel - 1, U);
          if res.Err? {
            return Stop(Err(res.error)), U';
          }
          if res.value.None? {
            return Stop(Ok(())), U';
          }
          return Go(res.value), U';
      }
    }

    /**
     * Steps 2.c-2.h of `[[Put]]` once the target has resolved to `rt`: an
     * index past the end is `ExtendAndWrite`; any other entry is written
     * (`WriteEntry`).
     */
    method PlaceAndWrite(store: NodeStore, index: nat, rt: Option<Target>, value: Value)
      returns (r: Result<(), Fault>, ghost placed: seq<NodeId>, ghost mid: map<NodeId, Node>)
      requires store.Valid()
      modifies this, store, ValueLists(value)
      ensures store.Valid() && old(store.next) <= store.next && old(store.nodes).Keys <= store.nodes.Keys
      ensures TargetKept(old(targetObject), targetObject)
      ensures value.ListVal? ==> TargetKept(old(value.list.targetObject), value.list.targetObject)
      ensures index < old(|children|) && old(store.Get(EntryNode(children[index]))).kind == Element &&
              !value.XmlVal? && !value.ListVal? ==>
                r == Ok(()) && EntryNodes(children) == old(EntryNodes(children)) &&
                ElementPutOutcome(old(store.nodes), store.nodes, store.next, old(EntryNode(children[index])), AnyName,
                                  Str(PrimitiveString(value)), [], placed)
      ensures rt.Some? && rt.value.TargetXml? && index >= old(|children|) && PlaceholderKind(old(targetProperty)) == Element &&
              old(store.Get(rt.value.xml.node)).kind == Element && !value.XmlVal? && !value.ListVal? ==>
                var x := rt.value.xml.node;
                var cs := old(store.nodes[x].children);
                var j := PlaceholderIndex(cs, old(EntryNodes(children)));
                r == Ok(()) && |children| == old(|children|) + 1 &&
                EntryNodes(children)[..old(|children|)] == old(EntryNodes(children)) &&
                var y := EntryNode(children[old(|children|)]);
                y !in old(store.nodes) && y in mid && x in mid && mid[y].kind == Element && mid[y].parent == Some(x) &&
                mid[y].localName == old(targetProperty).value.localName &&
                mid[y].namespace == old(targetProperty).value.namespace &&
                mid[x].children == cs[..j] + [y] + cs[j..] &&
                ElementPutOutcome(mid, store.nodes, store.next, y, AnyName, Str(PrimitiveString(value)), [], placed)
      ensures rt.None? && index >= old(|children|) && PlaceholderKind(old(targetProperty)) == Attribute ==>
                r.Err? && r.error.Panicked?
    {
      if index >= |children| {
        r, placed, mid := ExtendAndWrite(store, rt, value);
      } else {
        mid := store.nodes;
        r, placed := WriteEntry(store, index, value);
      }
    }

    /**
     * Steps 2.c-2.h of `[[Put]]` for an index past the end: a placeholder
     * is appended (`ExtendForIndex`) and, unless that stops the write, the
     * new last entry is written (`WriteEntry`).  `mid` is the node graph
     * between the two.
     */
    method ExtendAndWrite(store: NodeStore, rt: Option<Target>, value: Value)
      returns (r: Result<(), Fault>, ghost placed: seq<NodeId>, ghost mid: map<NodeId, Node>)
      requires store.Valid()
      modifies this, store, ValueLists(value)
      ensures store.Valid() && old(store.next) <= store.next && old(store.nodes).Keys <= store.nodes.Keys
      ensures TargetKept(old(targetObject), targetObject)
      ensures value.ListVal? ==> TargetKept(old(value.list.targetObject), value.list.targetObject)
      ensures rt.Some? && rt.value.TargetXml? && PlaceholderKind(old(targetProperty)) == Element &&
              old(store.Get(rt.value.xml.node)).kind == Element && !value.XmlVal? && !value.ListVal? ==>
                var x := rt.value.xml.node;
                var cs := old(store.nodes[x].children);
                var j := PlaceholderIndex(cs, old(EntryNodes(children)));
                r == Ok(()) && |children| == old(|children|) + 1 &&
                EntryNodes(children)[..old(|children|)] == old(EntryNodes(children)) &&
                var y := EntryNode(children[old(|children|)]);
                y !in old(store.nodes) && y in mid && x in mid && mid[y].kind == Element && mid[y].parent == Some(x) &&
                mid[y].localName == old(targetProperty).value.localName &&
                mid[y].namespace == old(targetProperty).value.namespace &&
                mid[x].children == cs[..j] + [y] + cs[j..] &&
                ElementPutOutcome(mid, store.nodes, store.next, y, AnyName, Str(PrimitiveString(value)), [], placed)
      ensures rt.None? && PlaceholderKind(old(targetProperty)) == Attribute ==>
                r.Err? && r.error.Panicked?
    {
      placed := [];
      ghost var n := |children|;
      ghost var before := EntryNodes(children);
      var go := ExtendForIndex(store, rt, value);
      mid := store.nodes;
      if go.Err? {
        return Err(go.error), placed, mid;
      }
      if !go.value {
        return Ok(()), placed, mid;
      }
      ghost var extended := EntryNodes(children);
      assert extended[..n] == before by {
        assert forall i :: 0 <= i < n ==> children[..n][i] == children[i];
      }
      r, placed := WriteEntry(store, |children| - 1, value);
    }

    /**
     * Step 2.c of `[[Put]]` for an index past the end: the resolved target
     * must be an element (a list target one of exactly one entry), or there
     * is no target; then a placeholder is appended (`Ok(true)`), unless an
     * attribute placeholder already exists or the target is not an element
     * (`Ok(false)`).
     */
    method ExtendForIndex(store: NodeStore, rt: Option<Target>, value: Value) returns (r: Result<bool, Fault>)
      requires store.Valid()
      modifies this, store
      ensures store.Valid() && old(store.next) <= store.next && old(store.nodes).Keys <= store.nodes.Keys
      ensures targetObject == old(targetObject) && targetProperty == old(targetProperty)
      ensures r != Ok(true) ==> children == old(children)
      ensures r == Ok(true) ==> |children| == old(|children|) + 1 && children[..old(|children|)] == old(children)
      ensures rt.Some? && rt.value.TargetXml? && PlaceholderKind(targetProperty) == Element &&
              old(store.Get(rt.value.xml.node)).kind == Element && !value.XmlVal? && !value.ListVal? ==>
                var x := rt.value.xml.node;
                var cs := old(store.nodes[x].children);
                var j := PlaceholderIndex(cs, old(EntryNodes(children)));
                r == Ok(true) &&
                var y := EntryNode(children[old(|children|)]);
                y !in old(store.nodes) && y in store.nodes && x in store.nodes &&
                store.nodes[y].kind == Element && store.nodes[y].parent == Some(x) &&
                store.nodes[y].localName == targetProperty.value.localName &&
                store.nodes[y].namespace == targetProperty.value.namespace &&
                store.nodes[x].children == cs[..j] + [y] + cs[j..]
      ensures rt.None? && PlaceholderKind(targetProperty) == Attribute ==> r.Err? && r.error.Panicked?
    {
      var rn: Option<NodeId> := None;
      if rt.Some? {
        match rt.value {
          case TargetXml(x) =>
            rn := Some(x.node);
          case TargetList(l) =>
            if |l.children| != 1 {
              return Ok(false);
            }
            rn := Some(EntryNode(l.children[0]));
        }
      }
      if rn.Some? && store.Get(rn.value).kind != Element {
        return Ok(false);
      }
      r := AppendPlaceholder(store, rn, value);
    }

    /**
     * Steps 2.c.ii-2.c.ix of `[[Put]]`, for an index past the end: a
     * placeholder whose parent is `rn`, the resolved target node, and whose
     * kind follows the target property (`PlaceholderKind`: an attribute
     * named by it, a text node for no name or `*`, else an element named by
     * it).  An attribute that `rn` already has stops the write
     * (`Ok(false)`).  Any other placeholder is inserted among the children
     * of `rn` after the node of the list's last entry (`PlaceholderIndex`)
     * and takes the name of an XML or XMLList value; then it is appended.
     */
    method AppendPlaceholder(store: NodeStore, rn: Option<NodeId>, value: Value) returns (r: Result<bool, Fault>)
      requires store.Valid() && (rn.Some? ==> store.Get(rn.value).kind == Element)
      modifies this, store
      ensures store.Valid() && old(store.next) <= store.next && old(store.nodes).Keys <= store.nodes.Keys
      ensures targetObject == old(targetObject) && targetProperty == old(targetProperty)
      ensures r != Ok(true) ==> children == old(children) && targetDirty == old(targetDirty)
      ensures r == Ok(false) ==> store.nodes == old(store.nodes) && store.next == old(store.next)
      ensures forall k :: k in old(store.nodes) && Some(k) != rn ==> store.nodes[k] == old(store.nodes[k])
      ensures r == Ok(true) ==>
                |children| == old(|children|) + 1 && children[..old(|children|)] == old(children) &&
                children[old(|children|)].Xml? && targetDirty
      ensures r == Ok(true) ==>
                var y := EntryNode(children[old(|children|)]);
                y !in old(store.nodes) && y in store.nodes && store.nodes[y].parent == rn &&
                store.nodes[y].kind == PlaceholderKind(targetProperty) &&
                store.nodes[y].children == [] && store.nodes[y].attributes == []
      ensures r == Ok(true) && PlaceholderKind(targetProperty) == Element && !value.XmlVal? && !value.ListVal? ==>
                var y := EntryNode(children[old(|children|)]);
                store.nodes[y].localName == targetProperty.value.localName &&
                store.nodes[y].namespace == targetProperty.value.namespace
      ensures r == Ok(true) && rn.Some? && PlaceholderKind(targetProperty) != Attribute ==>
                var cs := old(store.nodes[rn.value].children);
                var j := PlaceholderIndex(cs, old(EntryNodes(children)));
                store.nodes[rn.value].children == cs[..j] + [EntryNode(children[old(|children|)])] + cs[j..]
      ensures r == Ok(true) && rn.Some? && PlaceholderKind(targetProperty) == Attribute ==>
                store.nodes[rn.value] == old(store.nodes[rn.value])
      ensures PlaceholderKind(targetProperty) != Attribute && !value.XmlVal? && !value.ListVal? ==> r == Ok(true)
      ensures PlaceholderKind(targetProperty) == Attribute && rn.None? ==> r.Err? && r.error.Panicked?
      ensures PlaceholderKind(targetProperty) == Attribute && rn.Some? && !IsPlainIndex(targetProperty.value) &&
              MatchedOwned(old(store.nodes), rn.value, targetProperty.value) != [] ==>
                r == Ok(false)
    {
      var made := MakePlaceholder(store, rn, targetProperty, EntryNodes(children), value);
      if made.Err? {
        return Err(made.error);
      }
      if made.value.None? {
        return Ok(false);
      }
      var o := new XmlObject(made.value.value);
      Append(XmlVal(o));
      return Ok(true);
    }

    /**
     * Steps 2.d-2.h of `[[Put]]` on entry `index`: the value is coerced
     * (`Coerced`); an attribute entry is `WriteAttributeEntry`, a list value
     * `WriteListEntry`, an XML value or a text-like entry `WriteXmlEntry`,
     * and anything else is put under `*` into the entry's XML object.
     */
    method WriteEntry(store: NodeStore, index: nat, value: Value) returns (r: Result<(), Fault>, ghost placed: seq<NodeId>)
      requires store.Valid() && index < |children|
      modifies this, store, ValueLists(value)
      ensures store.Valid() && old(store.next) <= store.next && old(store.nodes).Keys <= store.nodes.Keys
      ensures TargetKept(old(targetObject), targetObject)
      ensures value.ListVal? ==> TargetKept(old(value.list.targetObject), value.list.targetObject)
      ensures old(store.Get(EntryNode(children[index]))).kind == Element && !value.XmlVal? && !value.ListVal? ==>
                r == Ok(()) && EntryNodes(children) == old(EntryNodes(children)) &&
                ElementPutOutcome(old(store.nodes), store.nodes, store.next, old(EntryNode(children[index])), AnyName,
                                  Str(PrimitiveString(value)), [], placed)
    {
      var v := CoerceForPut(store, value);
      var child := EntryNode(children[index]);
      var cn := store.Get(child);
      placed := [];
      if cn.kind == Attribute {
        r, placed := WriteAttributeEntry(store, index, v);
      } else if v.ListVal? {
        r := WriteListEntry(store, index, v.list);
      } else if v.XmlVal? || cn.kind == Text || cn.kind == Comment || cn.kind == ProcessingInstruction || cn.kind == CData {
        r := WriteXmlEntry(store, index, v);
      } else {
        r, placed := WriteElementEntry(store, index, v);
      }
    }

    /** Step 2.h of `[[Put]]`: a string is put under `*` into the XML object of entry `index`. */
    method WriteElementEntry(store: NodeStore, index: nat, v: Value) returns (r: Result<(), Fault>, ghost placed: seq<NodeId>)
      requires store.Valid() && index < |children| && !v.XmlVal? && !v.ListVal?
      modifies this, store
      ensures store.Valid() && old(store.next) <= store.next && old(store.nodes).Keys <= store.nodes.Keys
      ensures targetObject == old(targetObject) && targetProperty == old(targetProperty) && targetDirty == old(targetDirty)
      ensures r == Ok(()) && EntryNodes(children) == old(EntryNodes(children))
      ensures old(store.Get(EntryNode(children[index]))).kind == Element ==>
                ElementPutOutcome(old(store.nodes), store.nodes, store.next, old(EntryNode(children[index])), AnyName, v, [], placed)
      ensures old(store.Get(EntryNode(children[index]))).kind == Element ==>
                PrimitiveUnderAnyName(old(store.nodes), store.nodes, old(EntryNode(children[index])), v, placed)
    {
      var x := XmlObjectChild(index);
      var e;
      e, placed := x.value.PutUnderAnyName(store, v);
      r := Ok(());
    }

    /**
     * Step 2.e of `[[Put]]`: entry `index` is an attribute.  Its parent, if
     * any, gets `v` put under the attribute's name, and the entry becomes
     * the attribute that then holds it.
     */
    method WriteAttributeEntry(store: NodeStore, index: nat, v: Value) returns (r: Result<(), Fault>, ghost placed: seq<NodeId>)
      requires store.Valid() && index < |children| && store.Get(EntryNode(children[index])).kind == Attribute
      modifies this, store, ValueLists(v)
      ensures store.Valid() && old(store.next) <= store.next && old(store.nodes).Keys <= store.nodes.Keys
      ensures TargetKept(old(targetObject), targetObject)
      ensures v.ListVal? ==> TargetKept(old(v.list.targetObject), v.list.targetObject)
      ensures old(store.Get(EntryNode(children[index]))).localName.None? ==>
                r.Err? && r.error.Panicked? && children == old(children)
      ensures old(store.Get(EntryNode(children[index]))).localName.Some? &&
              old(store.Get(EntryNode(children[index]))).parent.None? ==>
                r == Ok(()) && children == old(children) && store.nodes == old(store.nodes)
      ensures old(store.Get(EntryNode(children[index]))).parent.Some? && r.Ok? &&
              old(store.Get(store.Get(EntryNode(children[index])).parent.value)).kind == Element ==>
                var p := old(store.Get(EntryNode(children[index]))).parent.value;
                var z := Multiname(old(store.Get(EntryNode(children[index]))).localName, None, true);
                AttributePutOutcome(old(store.nodes), store.nodes, p, z, old(PutAttributeText(store, v)), Ok(()), placed) &&
                children == old(children)[index := E4X(placed[0])]
    {
      var cn := store.Get(EntryNode(children[index]));
      placed := [];
      if cn.localName.None? {
        return Err(Panicked("Attribute should have a name")), placed;
      }
      if cn.parent.None? {
        return Ok(()), placed;
      }
      var a;
      a, placed := PutAttributeOn(store, cn.parent.value, Multiname(cn.localName, None, true), v);
      if a.Err? {
        return Err(a.error), placed;
      }
      children := children[index := E4X(a.value)];
      r := Ok(());
    }

    /**
     * Step 2.f of `[[Put]]` with an XMLList value `l`: an entry without a
     * parent is left alone; one whose parent does not hold it is replaced
     * by the entries of `l`.
     */
    method WriteListEntry(store: NodeStore, index: nat, l: XmlListObject) returns (r: Result<(), Fault>)
      requires index < |children|
      modifies this
      ensures targetObject == old(targetObject) && targetProperty == old(targetProperty) && targetDirty == old(targetDirty)
      ensures store.Get(old(EntryNode(children[index]))).parent.None? ==> r == Ok(()) && children == old(children)
      ensures var c := old(EntryNode(children[index]));
              store.Get(c).parent.Some? && IndexInParent(store.nodes, store.Get(c).parent.value, c).Some? ==>
                r.Err? && r.error.NotModelled? && children == old(children)
      ensures var c := old(EntryNode(children[index]));
              store.Get(c).parent.Some? && IndexInParent(store.nodes, store.Get(c).parent.value, c).None? ==>
                r == Ok(()) && children == old(children[..index]) + old(l.children) + old(children[index + 1..])
    {
      var child := EntryNode(children[index]);
      var parent := store.Get(child).parent;
      if parent.Some? {
        if IndexInParent(store.nodes, parent.value, child).Some? {
          return Err(NotModelled("[[Replace]] of a parent's child by an XMLList (step 2.f.iii.2)"));
        }
        children := children[..index] + l.children + children[index + 1..];
      }
      r := Ok(());
    }

    /**
     * Step 2.g of `[[Put]]`, for an XML value or a text-like entry: an XML
     * value becomes the entry unless the entry's parent holds it.
     */
    method WriteXmlEntry(store: NodeStore, index: nat, v: Value) returns (r: Result<(), Fault>)
      requires index < |children|
      modifies this
      ensures targetObject == old(targetObject) && targetProperty == old(targetProperty) && targetDirty == old(targetDirty)
      ensures var c := old(EntryNode(children[index]));
              store.Get(c).parent.Some? && IndexInParent(store.nodes, store.Get(c).parent.value, c).Some? ==>
                r.Err? && r.error.NotModelled? && children == old(children)
      ensures var c := old(EntryNode(children[index]));
              !(store.Get(c).parent.Some? && IndexInParent(store.nodes, store.Get(c).parent.value, c).Some?) ==>
                (v.XmlVal? ==> r == Ok(()) && children == old(children)[index := Xml(v.xml)]) &&
                (!v.XmlVal? ==> r.Err? && r.error.NotModelled? && children == old(children))
    {
      var child := EntryNode(children[index]);
      var parent := store.Get(child).parent;
      if parent.Some? && IndexInParent(store.nodes, parent.value, child).Some? {
        return Err(NotModelled("[[Replace]] of a parent's child (step 2.g.ii.2)"));
      }
      if v.XmlVal? {
        children := children[index := Xml(v.xml)];
        return Ok(());
      }
      return Err(NotModelled("the XML constructor on a string (step 2.g)"));
    }
  }

  /** The target a re-evaluation may leave: the old one, none, or an XML object, but never a different list. */
  predicate TargetKept(before: Option<Target>, after: Option<Target>)
  {
    after == before || after.None? || after.value.TargetXml?
  }

  /**
   * The target object after re-evaluation: none when the last node has no
   * parent; an XML object for the parent when the old target was an XML
   * object on some other node; otherwise unchanged.
   */
  predicate ReevaluatedTarget(before: Option<Target>, parent: Option<NodeId>, after: Option<Target>)
  {
    match parent
    case None => after.None?
    case Some(p) =>
      if before.Some? && before.value.TargetXml? && before.value.xml.node != p then
        after.Some? && after.value.TargetXml? && after.value.xml.node == p
      else after == before
  }

  /**
   * The target property after re-evaluation: the name of the last node
   * unless it is a processing instruction or has no name.
   */
  function ReevaluatedProperty(before: Option<Multiname>, last: Node): (r: Option<Multiname>)
    ensures last.kind != ProcessingInstruction && last.localName.Some? ==>
              r.Some? && r.value.localName == last.localName && !r.value.isAttribute
    ensures !(last.kind != ProcessingInstruction && last.localName.Some?) ==> r == before
  {
    if last.kind != ProcessingInstruction && last.localName.Some? then
      Some(Multiname(last.localName, last.namespace, false))
    else before
  }

  /** A re-evaluated property names the last node again, unless that node is an attribute. */
  lemma ReevaluatedPropertyMatchesLast(before: Option<Multiname>, last: Node)
    requires last.kind != ProcessingInstruction && last.kind != Attribute && last.localName.Some?
    ensures ReevaluatedProperty(before, last).Some? && MatchesName(last, ReevaluatedProperty(before, last).value)
  {
  }

  /**
   * The matches of `name` in each of `ns`, concatenated in order: what
   * `[[Get]]` on a list collects.
   */
  function ListMatches(nodes: map<NodeId, Node>, ns: seq<NodeId>, name: Multiname): seq<NodeId>
  {
    if ns == [] then [] else ListMatches(nodes, ns[..|ns| - 1], name) + MatchedOwned(nodes, ns[|ns| - 1], name)
  }

  /** Getting from a concatenation is concatenating the gets. */
  lemma {:induction false} ListMatchesAppend(nodes: map<NodeId, Node>, a: seq<NodeId>, b: seq<NodeId>, name: Multiname)
    ensures ListMatches(nodes, a + b, name) == ListMatches(nodes, a, name) + ListMatches(nodes, b, name)
    decreases |b|
  {
    if b != [] {
      var b0 := b[..|b| - 1];
      assert (a + b)[..|a + b| - 1] == a + b0;
      assert (a + b)[|a + b| - 1] == b[|b| - 1];
      ListMatchesAppend(nodes, a, b0, name);
      assert ListMatches(nodes, b, name) == ListMatches(nodes, b0, name) + MatchedOwned(nodes, b[|b| - 1], name);
    } else {
      assert a + b == a;
    }
  }

  /** A one-entry list gets what its entry gets. */
  lemma ListMatchesSingle(nodes: map<NodeId, Node>, n: NodeId, name: Multiname)
    ensures ListMatches(nodes, [n], name) == MatchedOwned(nodes, n, name)
  {
    assert [n][..0] == [];
  }

  /** `nodes` after `n` is removed from its parent's children (attributes, for an attribute). */
  function Detached(nodes: map<NodeId, Node>, n: NodeId): map<NodeId, Node>
  {
    var nd := Lookup(nodes, n);
    if nd.parent.Some? && Lookup(nodes, nd.parent.value).kind == Element then
      var p := nd.parent.value;
      nodes[p := SetOwned(nodes[p], nd.kind == Attribute, Without(Owned(nodes[p], nd.kind == Attribute), n))]
    else nodes
  }

  predicate HasElementEntry(nodes: map<NodeId, Node>, ns: seq<NodeId>)
  {
    exists i :: 0 <= i < |ns| && Lookup(nodes, ns[i]).kind == Element
  }

  /** `nodes` after `[[Delete]]` of `name` on each element of `ns`, in order. */
  function DeletedFromEach(nodes: map<NodeId, Node>, ns: seq<NodeId>, name: Multiname): map<NodeId, Node>
  {
    if ns == [] then nodes
    else
      var before := DeletedFromEach(nodes, ns[..|ns| - 1], name);
      var n := ns[|ns| - 1];
      if Lookup(before, n).kind == Element then RemovedMatching(before, n, name, name.isAttribute) else before
  }

  /**
   * After `[[Delete]]` on the first `i` entries `ns` of a list: the nodes
   * are `DeletedFromEach` of those entries, and with an explicit namespace
   * none of them was an element and nothing changed.
   */
  ghost predicate DeletedSoFar(nodes0: map<NodeId, Node>, nodes: map<NodeId, Node>, ns: seq<NodeId>, i: nat, name: Multiname)
  {
    i <= |ns| && nodes == DeletedFromEach(nodes0, ns[..i], name) &&
    (name.HasExplicitNamespace() ==> nodes == nodes0 && forall j :: 0 <= j < i ==> Lookup(nodes0, ns[j]).kind != Element)
  }

  /** Deleting from every entry gives `DeletedFromEach`, and an explicit namespace means no entry was an element. */
  lemma DeletedFromAll(nodes0: map<NodeId, Node>, nodes: map<NodeId, Node>, ns: seq<NodeId>, name: Multiname)
    requires DeletedSoFar(nodes0, nodes, ns, |ns|, name)
    ensures nodes == DeletedFromEach(nodes0, ns, name)
    ensures name.HasExplicitNamespace() ==> !HasElementEntry(nodes0, ns)
  {
    assert ns[..|ns|] == ns;
  }

  lemma DeletedFromEachStep(nodes: map<NodeId, Node>, ns: seq<NodeId>, i: nat, name: Multiname)
    requires i < |ns|
    ensures var before := DeletedFromEach(nodes, ns[..i], name);
            DeletedFromEach(nodes, ns[..i + 1], name) ==
              if Lookup(before, ns[i]).kind == Element then RemovedMatching(before, ns[i], name, name.isAttribute) else before
  {
    assert ns[..i + 1][..i] == ns[..i];
  }

  /** What a list is compared against: another list's entry subtrees, one XML subtree, or a string. */
  datatype Comparand = OtherList(trees: seq<XTree>) | OtherXml(tree: XTree, sameAsFirst: bool) | OtherText(text: string, isUndefined: bool)

  /**
   * The shape of `other` as `XmlListObject::equals` uses it.  `sameAsFirst`
   * records whether an XML value is the object of the list's first entry.
   */
  function ComparandOf(store: NodeStore, other: Value): Comparand
    reads store, ValueLists(other)
    requires store.Valid()
  {
    match other
    case ListVal(l) => OtherList(EntryTrees(store.nodes, store.next, l.children))
    case XmlVal(x) => OtherXml(store.TreeOf(x.node), false)
    case _ => OtherText(ValueToString(store, other), other == Undefined)
  }

  /**
   * List equality over the entry subtrees `ts`: true against Undefined when
   * empty, pairwise abstract equality against a list of the same length, and
   * the abstract equality of the single entry against anything else.
   */
  predicate ListEquals(ts: seq<XTree>, other: Comparand)
  {
    if other.OtherText? && other.isUndefined && |ts| == 0 then true
    else match other
      case OtherList(us) =>
        |ts| == |us| && forall j :: 0 <= j < |ts| ==> AbstractEqTrees(ts[j], Some(us[j]), false, "")
      case OtherXml(u, same) => |ts| == 1 && AbstractEqTrees(ts[0], Some(u), same, "")
      case OtherText(t, _) => |ts| == 1 && AbstractEqTrees(ts[0], None, false, t)
  }

  /** Every list equals a list with the same entry subtrees. */
  lemma {:induction false} ListEqualsReflexive(ts: seq<XTree>)
    ensures ListEquals(ts, OtherList(ts))
  {
    forall j | 0 <= j < |ts|
      ensures AbstractEqTrees(ts[j], Some(ts[j]), false, "")
    {
      AbstractEqOfCopies(ts[j], "");
    }
  }

  const U32Limit: nat := 0x1_0000_0000

  /**
   * `get_next_enumerant`: after slot `last` comes `last + 1` while `last` is
   * below the length, and then 0; enumeration never defers to the
   * prototype, so the answer is never None.  The increment wraps at 32 bits
   * as release builds do.
   */
  function NextEnumerant(last: nat, len: nat): (r: Option<nat>)
    requires last < U32Limit
    ensures r.Some? && r.value < U32Limit
    ensures last < len && last + 1 < U32Limit ==> r == Some(last + 1)
    ensures last >= len ==> r == Some(0)
  {
    if last < len then Some((last + 1) % U32Limit) else Some(0)
  }

  /**
   * The entry behind enumeration slot `index` of a list of `len` entries,
   * with the length truncated to 32 bits (`len as u32`): slot k + 1 is entry
   * k, and slot 0 or a slot past the end is none.
   */
  function EnumerantSlot(len: nat, index: nat): (r: Option<nat>)
    ensures r.Some? ==> r.value < len && r.value == index - 1
  {
    if len % U32Limit >= index && index > 0 then Some(index - 1) else None
  }

  /** For lengths that fit in 32 bits, slots 1..len are exactly the entries. */
  lemma EnumerantSlotsCoverEntries(len: nat, index: nat)
    requires len < U32Limit
    ensures EnumerantSlot(len, index).Some? <==> 1 <= index <= len
  {
  }

  /**
   * `get_enumerant_name`: slot k + 1 is named by the number k, slot 0 is
   * Undefined, and slots past the (32-bit) length are named by the object's
   * own dynamic properties (`baseName`, the base object's name for slot
   * `index - len`).
   */
  function EnumerantName(len: nat, index: nat, baseName: Option<Value>): (r: Value)
    requires index < U32Limit
    ensures len < U32Limit && 1 <= index <= len ==> r == Int(index - 1)
    ensures index == 0 ==> r == Undefined
  {
    var lenT := len % U32Limit;
    if lenT >= index then
      if index == 0 then Undefined else Int(index - 1)
    else baseName.GetOr(Undefined)
  }

  /**
   * `XmlListObject::concat`: an empty operand yields the other operand
   * itself; otherwise a fresh, dirty list of all entries, left first, with
   * no target.
   */
  method Concat(left: XmlListObject, right: XmlListObject) returns (r: XmlListObject)
    ensures |left.children| == 0 ==> r == right
    ensures |left.children| != 0 && |right.children| == 0 ==> r == left
    ensures |left.children| != 0 && |right.children| != 0 ==>
              fresh(r) && r.children == left.children + right.children &&
              r.targetObject.None? && r.targetProperty.None? && r.targetDirty
  {
    if |left.children| == 0 {
      return right;
    } else if |right.children| == 0 {
      return left;
    }
    r := new XmlListObject.Dirty(left.children + right.children, None, None);
  }

  // ---------------------------------------------------------------------
  // Writing through a list: `[[ResolveValue]]` and `[[Put]]`

  /** Every list of `U` whose target is a list has that list in `U` too. */
  ghost predicate Closed(U: set<XmlListObject>)
    reads U
  {
    forall l :: l in U && l.targetObject.Some? && l.targetObject.value.TargetList? ==> l.targetObject.value.list in U
  }

  /**
   * Steps 3.b-3.f of `resolve_value`, once the target has resolved to
   * `base`: the property `p` of the base is got; if that is empty, a base
   * list of several entries is Error 1089, and otherwise the empty string
   * is put under `p` and the property is got again.
   */
  method ResolveFromBase(store: NodeStore, base: Target, p: Multiname, fuel: nat, ghost U: set<XmlListObject>)
    returns (r: Result<Option<Target>, Fault>, ghost U': set<XmlListObject>)
    requires store.Valid() && TargetLists(base) <= U && Closed(U)
    modifies store, U
    decreases fuel, 1
    ensures store.Valid() && old(store.next) <= store.next && old(store.nodes).Keys <= store.nodes.Keys
    ensures U <= U' && Closed(U') && forall l :: l in U' && l !in U ==> fresh(l)
    ensures r.Ok? && r.value.Some? && r.value.value.TargetList? ==>
              r.value.value.list in U' && fresh(r.value.value.list)
    ensures base.TargetXml? && !p.isAttribute && !p.IsAnyName() && !IsIndexName(p) &&
            old(store.Get(base.xml.node)).kind == Element ==>
              r.Ok? && r.value.Some? && r.value.value.TargetList? &&
              r.value.value.list.targetObject == Some(base) &&
              r.value.value.list.children == E4Xs(MatchedOwned(store.nodes, base.xml.node, p))
    ensures base.TargetXml? ==> unchanged(U)
    ensures base.TargetXml? && !IsIndexName(p) && old(MatchedOwned(store.nodes, base.xml.node, p)) != [] ==>
              store.nodes == old(store.nodes)
    ensures base.TargetXml? && !p.isAttribute && !p.IsAnyName() && !IsIndexName(p) &&
            old(store.Get(base.xml.node)).kind == Element && old(MatchedOwned(store.nodes, base.xml.node, p)) == [] ==>
              r.Ok? && r.value.Some? && r.value.value.TargetList? &&
              CreatedProperty(old(store.nodes), store.nodes, base.xml.node, p, r.value.value.list.children)
    ensures base.TargetList? && old(|base.list.children|) > 1 && !IsPlainIndex(p) &&
            ListMatches(old(store.nodes), old(EntryNodes(base.list.children)), p) == [] ==>
              r == Err(Thrown(Error1089()))
    ensures base.TargetList? && !IsPlainIndex(p) && ListMatches(old(store.nodes), old(EntryNodes(base.list.children)), p) != [] ==>
              r.Ok? && r.value.Some? && r.value.value.TargetList? &&
              r.value.value.list.children == E4Xs(ListMatches(old(store.nodes), old(EntryNodes(base.list.children)), p)) &&
              store.nodes == old(store.nodes) && store.next == old(store.next)
    ensures base.TargetList? && !IsPlainIndex(p) && r.Ok? ==>
              r.value.Some? && r.value.value.TargetList? &&
              r.value.value.list.children == E4Xs(ListMatches(store.nodes, EntryNodes(base.list.children), p))
    ensures base.TargetList? && old(|base.list.children|) == 1 && fuel > 0 && !p.isAttribute && !p.IsAnyName() &&
            !IsIndexName(p) && old(store.Get(EntryNode(base.list.children[0]))).kind == Element &&
            old(MatchedOwned(store.nodes, EntryNode(base.list.children[0]), p)) == [] ==>
              r.Ok? && r.value.Some? && r.value.value.TargetList? &&
              CreatedProperty(old(store.nodes), store.nodes, old(EntryNode(base.list.children[0])), p,
                              r.value.value.list.children)
  {
    match base {
      case TargetXml(x) =>
        r := ResolveFromXml(store, x, p);
        U' := U;
      case TargetList(l) =>
        r, U' := ResolveFromList(store, l, p, fuel, U);
    }
    if r.Ok? && r.value.Some? && r.value.value.TargetList? {
      U' := U' + {r.value.value.list};
    }
  }

  /**
   * `ResolveFromBase` for an XML base, whose `[[Put]]` of the empty string
   * is the XML one: a property with matches is returned as it is, and a
   * missing one is created as an empty element appended to the base.
   */
  method ResolveFromXml(store: NodeStore, x: XmlObject, p: Multiname) returns (r: Result<Option<Target>, Fault>)
    requires store.Valid()
    modifies store
    ensures store.Valid() && old(store.next) <= store.next && old(store.nodes).Keys <= store.nodes.Keys
    ensures r.Ok? && r.value.Some? && r.value.value.TargetList? ==>
              fresh(r.value.value.list) && r.value.value.list.targetObject == Some(TargetXml(x))
    ensures !p.isAttribute && !p.IsAnyName() && !IsIndexName(p) && old(store.Get(x.node)).kind == Element ==>
              r.Ok? && r.value.Some? && r.value.value.TargetList? &&
              r.value.value.list.targetObject == Some(TargetXml(x)) &&
              r.value.value.list.children == E4Xs(MatchedOwned(store.nodes, x.node, p))
    ensures old(store.Get(x.node)).kind != Element ==> store.nodes == old(store.nodes)
    ensures !IsIndexName(p) && old(MatchedOwned(store.nodes, x.node, p)) != [] ==> store.nodes == old(store.nodes)
    ensures !p.isAttribute && !p.IsAnyName() && !IsIndexName(p) && old(store.Get(x.node)).kind == Element &&
            old(MatchedOwned(store.nodes, x.node, p)) == [] ==>
              r.Ok? && r.value.Some? && r.value.value.TargetList? &&
              CreatedProperty(old(store.nodes), store.nodes, x.node, p, r.value.value.list.children)
  {
    var t := GetTarget(store, TargetXml(x), p);
    if t.None? || TargetLength(store, t.value) != 0 {
      return Ok(t);
    }
    r := CreateProperty(store, x, p);
  }

  /**
   * Steps 3.a-3.b of the list `[[Put]]` on an empty list that ends with
   * entries `cs`: when resolving gave it an entry (`adopted == Ok(true)`),
   * the XML `[[Put]]` on that entry's node, from the node graph `mid` left
   * by resolving and the value's subtrees `trees` there; otherwise nothing
   * more is written, and a failure to resolve is the result.
   */
  ghost predicate AdoptedPut(mid: map<NodeId, Node>, after: map<NodeId, Node>, next: nat, cs: seq<Entry>, name: Multiname,
                             value: Value, trees: seq<XTree>, adopted: Result<bool, Fault>, r: Result<(), Fault>,
                             placed: seq<NodeId>)
  {
    (adopted == Ok(true) ==>
       |cs| > 0 && (r.Err? ==> r.error.Thrown?) &&
       XmlPutOutcome(mid, after, next, EntryNode(cs[0]), name, value, trees, Untagged(r), placed)) &&
    (adopted == Ok(false) ==> r == Ok(()) && placed == [] && after == mid) &&
    (adopted.Err? ==> r == Err(adopted.error) && placed == [] && after == mid)
  }

  /**
   * Step 4 of `[[Put]]` on an empty list `cs` whose target is property `p`
   * of element `n`: one matching child is adopted as it is; none is
   * created as a new empty element and adopted, unless `p` is not an XML
   * name; several leave the list empty and the write ignored.
   */
  ghost predicate AdoptedFromXml(before: map<NodeId, Node>, after: map<NodeId, Node>, n: NodeId, p: Multiname,
                                 r: Result<bool, Fault>, cs: seq<Entry>)
  {
    var matched := MatchedOwned(before, n, p);
    (matched == [] && PutNameValid(p) ==>
       r == Ok(true) && |cs| == 1 && AppendedElement(before, after, n, p, EntryNode(cs[0]))) &&
    (matched == [] && !PutNameValid(p) ==> r == Ok(false) && cs == []) &&
    (|matched| == 1 ==> r == Ok(true) && EntryNodes(cs) == matched && after == before) &&
    (|matched| > 1 ==> r == Ok(false) && cs == [] && after == before)
  }

  /** `AdoptedFromXml` reads only the nodes of the entries. */
  lemma AdoptedFromXmlEntries(before: map<NodeId, Node>, after: map<NodeId, Node>, n: NodeId, p: Multiname,
                              r: Result<bool, Fault>, cs1: seq<Entry>, cs2: seq<Entry>)
    requires EntryNodes(cs1) == EntryNodes(cs2)
    ensures AdoptedFromXml(before, after, n, p, r, cs1) == AdoptedFromXml(before, after, n, p, r, cs2)
  {
    assert |cs1| == |EntryNodes(cs1)|;
    if |cs1| > 0 {
      assert EntryNode(cs1[0]) == EntryNodes(cs1)[0];
    }
  }

  /**
   * What resolving the missing property `p` of element `n` yields: one new,
   * empty element named `p` appended to `n` when `p` is an XML name, and
   * otherwise nothing, with every older node left as it was.
   */
  ghost predicate CreatedProperty(before: map<NodeId, Node>, after: map<NodeId, Node>, n: NodeId, p: Multiname, es: seq<Entry>)
  {
    (PutNameValid(p) ==> |es| == 1 && AppendedElement(before, after, n, p, EntryNode(es[0]))) &&
    (!PutNameValid(p) ==> es == [] && forall k :: k in before ==> k in after && after[k] == before[k])
  }

  /** The outcome of putting the empty string under the missing name `p` of element `n`, read back, is `CreatedProperty`. */
  lemma CreatedPropertyHolds(before: map<NodeId, Node>, after: map<NodeId, Node>, next: nat, n: NodeId, p: Multiname,
                             placed: seq<NodeId>, es: seq<Entry>)
    requires n in before && before[n].kind == Element && OwnsAbove(before, n) && !p.isAttribute && !p.IsAnyName()
    requires MatchedOwned(before, n, p) == []
    requires ElementPutOutcome(before, after, next, n, p, Str(""), [], placed)
    requires es == E4Xs(MatchedOwned(after, n, p))
    ensures CreatedProperty(before, after, n, p, es)
  {
    if PutNameValid(p) {
      assert PrimitiveString(Str("")) == "";
      PutCreatesElement(before, after, n, p, placed);
      AppendedElementMatches(before, after, n, p, placed[0]);
    } else {
      MatchedOwnedKept(before, after, n, p);
    }
  }

  /** Step 2.e of `resolve_value` on an XML base: put the empty string under `p`, then get `p` again. */
  method CreateProperty(store: NodeStore, x: XmlObject, p: Multiname) returns (r: Result<Option<Target>, Fault>)
    requires store.Valid()
    modifies store
    ensures store.Valid() && old(store.next) <= store.next && old(store.nodes).Keys <= store.nodes.Keys
    ensures r.Ok? && r.value.Some? && r.value.value.TargetList? ==>
              fresh(r.value.value.list) && r.value.value.list.targetObject == Some(TargetXml(x))
    ensures !p.isAttribute && !p.IsAnyName() && !IsIndexName(p) && old(store.Get(x.node)).kind == Element ==>
              r.Ok? && r.value.Some? && r.value.value.TargetList? &&
              r.value.value.list.targetObject == Some(TargetXml(x)) &&
              r.value.value.list.children == E4Xs(MatchedOwned(store.nodes, x.node, p))
    ensures old(store.Get(x.node)).kind != Element ==> store.nodes == old(store.nodes)
    ensures !p.isAttribute && !p.IsAnyName() && !IsIndexName(p) && old(store.Get(x.node)).kind == Element &&
            old(MatchedOwned(store.nodes, x.node, p)) == [] ==>
              r.Ok? && r.value.Some? && r.value.value.TargetList? &&
              CreatedProperty(old(store.nodes), store.nodes, x.node, p, r.value.value.list.children)
  {
    ghost var before := store.nodes;
    var e, placed := x.PutEmptyString(store, p);
    if e.Err? {
      return Err(Thrown(e.error));
    }
    var t := GetTarget(store, TargetXml(x), p);
    r := Ok(t);
    if !p.isAttribute && !p.IsAnyName() && !IsIndexName(p) && Lookup(before, x.node).kind == Element &&
       MatchedOwned(before, x.node, p) == [] {
      assert OwnsAbove(before, x.node);
      CreatedPropertyHolds(before, store.nodes, store.next, x.node, p, placed, t.value.list.children);
    }
  }

  /** `ResolveFromBase` for a list base: several entries are Error 1089, one or none take the list's `[[Put]]`. */
  method ResolveFromList(store: NodeStore, l: XmlListObject, p: Multiname, fuel: nat, ghost U: set<XmlListObject>)
    returns (r: Result<Option<Target>, Fault>, ghost U': set<XmlListObject>)
    requires store.Valid() && l in U && Closed(U)
    modifies store, U
    decreases fuel, 0
    ensures store.Valid() && old(store.next) <= store.next && old(store.nodes).Keys <= store.nodes.Keys
    ensures U <= U' && Closed(U') && forall k :: k in U' && k !in U ==> fresh(k)
    ensures r.Ok? && r.value.Some? && r.value.value.TargetList? ==>
              fresh(r.value.value.list) && r.value.value.list.targetObject == Some(TargetList(l))
    ensures old(|l.children|) > 1 && !IsPlainIndex(p) &&
            ListMatches(old(store.nodes), old(EntryNodes(l.children)), p) == [] ==>
              r == Err(Thrown(Error1089()))
    ensures !IsPlainIndex(p) && ListMatches(old(store.nodes), old(EntryNodes(l.children)), p) != [] ==>
              r.Ok? && r.value.Some? && r.value.value.TargetList? &&
              r.value.value.list.children == E4Xs(ListMatches(old(store.nodes), old(EntryNodes(l.children)), p)) &&
              store.nodes == old(store.nodes) && store.next == old(store.next)
    ensures !IsPlainIndex(p) && r.Ok? ==>
              r.value.Some? && r.value.value.TargetList? &&
              r.value.value.list.children == E4Xs(ListMatches(store.nodes, EntryNodes(l.children), p))
    ensures old(|l.children|) == 1 && fuel > 0 && !p.isAttribute && !p.IsAnyName() && !IsIndexName(p) &&
            old(store.Get(EntryNode(l.children[0]))).kind == Element &&
            old(MatchedOwned(store.nodes, EntryNode(l.children[0]), p)) == [] ==>
              r.Ok? && r.value.Some? && r.value.value.TargetList? &&
              CreatedProperty(old(store.nodes), store.nodes, old(EntryNode(l.children[0])), p, r.value.value.list.children)
  {
    U' := U;
    var t := GetTarget(store, TargetList(l), p);
    if t.None? || TargetLength(store, t.value) != 0 {
      return Ok(t), U';
    }
    if |l.children| > 1 {
      return Err(Thrown(Error1089())), U';
    }
    if fuel == 0 {
      return Err(StackOverflow), U';
    }
    r, U' := CreateFromList(store, l, p, fuel - 1, U);
  }

  /** Step 2.e of `resolve_value` on a list base: the list's `[[Put]]` of the empty string under `p`, then `p` got again. */
  method CreateFromList(store: NodeStore, l: XmlListObject, p: Multiname, fuel: nat, ghost U: set<XmlListObject>)
    returns (r: Result<Option<Target>, Fault>, ghost U': set<XmlListObject>)
    requires store.Valid() && l in U && Closed(U)
    modifies store, U
    decreases fuel, 5
    ensures store.Valid() && old(store.next) <= store.next && old(store.nodes).Keys <= store.nodes.Keys
    ensures U <= U' && Closed(U') && forall k :: k in U' && k !in U ==> fresh(k)
    ensures r.Ok? && r.value.Some? && r.value.value.TargetList? ==>
              fresh(r.value.value.list) && r.value.value.list.targetObject == Some(TargetList(l))
    ensures !IsPlainIndex(p) && r.Ok? ==>
              r.value.Some? && r.value.value.TargetList? &&
              r.value.value.list.children == E4Xs(ListMatches(store.nodes, EntryNodes(l.children), p))
    ensures old(|l.children|) == 1 && !p.isAttribute && !p.IsAnyName() && !IsIndexName(p) &&
            old(store.Get(EntryNode(l.children[0]))).kind == Element &&
            old(MatchedOwned(store.nodes, EntryNode(l.children[0]), p)) == [] ==>
              r.Ok? && r.value.Some? && r.value.value.TargetList? &&
              CreatedProperty(old(store.nodes), store.nodes, old(EntryNode(l.children[0])), p, r.value.value.list.children)
  {
    ghost var before := store.nodes;
    ghost var n0 := if |l.children| == 1 then EntryNode(l.children[0]) else 0;
    ghost var creates := |l.children| == 1 && !p.isAttribute && !p.IsAnyName() && !IsIndexName(p) &&
                         store.Get(n0).kind == Element && MatchedOwned(store.nodes, n0, p) == [];
    var e;
    ghost var placed;
    e, placed, U' := PutEmptyIntoList(store, l, p, fuel, U);
    if e.Err? {
      return Err(e.error), U';
    }
    var t := GetTarget(store, TargetList(l), p);
    r := Ok(t);
    if creates {
      assert EntryNodes(l.children) == [n0];
      ListMatchesSingle(store.nodes, n0, p);
      assert OwnsAbove(before, n0);
      CreatedPropertyHolds(before, store.nodes, store.next, n0, p, placed, t.value.list.children);
    }
  }

  /**
   * The list `[[Put]]` of the empty string under `p` in step 2.e of
   * `resolve_value`: on a list of one element entry with no match, the
   * element put of `""` on that entry's node.
   */
  method PutEmptyIntoList(store: NodeStore, l: XmlListObject, p: Multiname, fuel: nat, ghost U: set<XmlListObject>)
    returns (r: Result<(), Fault>, ghost placed: seq<NodeId>, ghost U': set<XmlListObject>)
    requires store.Valid() && l in U && Closed(U)
    modifies store, U
    decreases fuel, 4
    ensures store.Valid() && old(store.next) <= store.next && old(store.nodes).Keys <= store.nodes.Keys
    ensures U <= U' && Closed(U') && forall k :: k in U' && k !in U ==> fresh(k)
    ensures old(|l.children|) == 1 && !IsIndexName(p) ==> EntryNodes(l.children) == old(EntryNodes(l.children))
    ensures old(|l.children|) == 1 && !p.isAttribute && !IsIndexName(p) &&
            old(store.Get(EntryNode(l.children[0]))).kind == Element ==>
              r.Ok? &&
              ElementPutOutcome(old(store.nodes), store.nodes, store.next, old(EntryNode(l.children[0])), p, Str(""), [],
                                placed)
  {
    ghost var before := store.nodes;
    ghost var n0 := if |l.children| == 1 then EntryNode(l.children[0]) else 0;
    ghost var single := |l.children| == 1;
    assert ValueTrees(store, Str("")) == [];
    ghost var adopted, mid, midNext, midTrees;
    r, placed, adopted, mid, midNext, midTrees, U' := l.Put(store, p, Str(""), fuel, U);
    if single && !p.isAttribute && !IsIndexName(p) && Lookup(before, n0).kind == Element {
      assert XmlPutOutcome(before, store.nodes, store.next, n0, p, Str(""), [], Untagged(r), placed);
      assert Untagged(r) == Ok(());
    }
  }

  /** Step 3.b of `[[Put]]`: the XML `[[Put]]` on `x`, the XML object of a list's first entry. */
  method PutThrough(store: NodeStore, x: XmlObject, name: Multiname, value: Value) returns (r: Result<(), Fault>, ghost placed: seq<NodeId>)
    requires store.Valid()
    modifies store, ValueLists(value)
    ensures store.Valid() && old(store.next) <= store.next && old(store.nodes).Keys <= store.nodes.Keys
    ensures value.ListVal? ==>
              value.list.children == old(value.list.children) &&
              TargetKept(old(value.list.targetObject), value.list.targetObject)
    ensures r.Err? ==> r.error.Thrown?
    ensures XmlPutOutcome(old(store.nodes), store.nodes, store.next, x.node, name, value, old(ValueTrees(store, value)), Untagged(r), placed)
  {
    var e;
    e, placed := x.Put(store, name, value);
    r := if e.Err? then Err(Thrown(e.error)) else Ok(());
  }

  /** How resolving a list's own target for `[[Put]]` ends: the write stops with a result, or goes on with the resolved target. */
  datatype Resolution = Stop(result: Result<(), Fault>) | Go(target: Option<Target>)

  function TargetLists(t: Target): set<XmlListObject>
  {
    if t.TargetList? then {t.list} else {}
  }

  function TargetValue(t: Target): Value
  {
    match t
    case TargetXml(x) => XmlVal(x)
    case TargetList(l) => ListVal(l)
  }

  /**
   * `XmlOrXmlListObject::length` read with `unwrap_or(0)`: the entry count
   * of a list, the child count of an element, and 0 for any other node.
   */
  function TargetLength(store: NodeStore, t: Target): (n: nat)
    reads store, TargetLists(t)
    ensures t.TargetList? ==> n == |t.list.children|
    ensures t.TargetXml? && store.Get(t.xml.node).kind != Element ==> n == 0
    ensures t.TargetXml? && store.Get(t.xml.node).kind == Element ==> n == |store.Get(t.xml.node).children|
  {
    match t
    case TargetXml(x) => NodeLength(store.Get(x.node)).GetOr(0)
    case TargetList(l) => |l.children|
  }

  /**
   * `XmlOrXmlListObject::get_property_local`: `[[Get]]` on an XML object or
   * a list, with an undefined result read as none.
   */
  method GetTarget(store: NodeStore, base: Target, name: Multiname) returns (t: Option<Target>)
    requires store.Valid()
    modifies TargetLists(base)
    ensures base.TargetList? ==>
              base.list.targetObject == old(base.list.targetObject) &&
              base.list.targetProperty == old(base.list.targetProperty) &&
              base.list.targetDirty == old(base.list.targetDirty) &&
              EntryNodes(base.list.children) == old(EntryNodes(base.list.children))
    ensures t.Some? && t.value.TargetList? ==>
              fresh(t.value.list) && t.value.list.targetObject == Some(base) &&
              t.value.list.targetProperty == Some(name) && !t.value.list.targetDirty
    ensures base.TargetXml? && IsPlainIndex(name) ==> t == (if IndexOf(name) == 0 then Some(base) else None)
    ensures base.TargetXml? && !IsPlainIndex(name) ==>
              t.Some? && t.value.TargetList? && t.value.list.children == E4Xs(MatchedOwned(store.nodes, base.xml.node, name))
    ensures base.TargetList? && IsPlainIndex(name) ==>
              (IndexOf(name) < old(|base.list.children|) <==> t.Some?) &&
              (t.Some? ==> t.value.TargetXml? && t.value.xml.node == old(EntryNode(base.list.children[IndexOf(name)])))
    ensures base.TargetList? && !IsPlainIndex(name) ==>
              t.Some? && t.value.TargetList? &&
              t.value.list.children == E4Xs(ListMatches(store.nodes, old(EntryNodes(base.list.children)), name))
  {
    var v: Value;
    match base {
      case TargetXml(x) =>
        v := x.GetProperty(store, name);
      case TargetList(l) =>
        v := l.GetProperty(store, name);
    }
    match v {
      case XmlVal(x) =>
        t := Some(TargetXml(x));
      case ListVal(l) =>
        t := Some(TargetList(l));
      case Undefined =>
        t := None;
      case _ =>
        assert false;
        t := None;
    }
  }

  /**
   * The position after the first occurrence of `prev` in `cs`, or the end
   * of `cs` when `prev` is not there.
   */
  function SlotAfter(cs: seq<NodeId>, prev: NodeId): (j: nat)
    ensures j <= |cs|
    ensures prev in cs ==> 0 < j && cs[j - 1] == prev && prev !in cs[..j - 1]
    ensures prev !in cs ==> j == |cs|
  {
    if cs == [] then 0
    else if cs[0] == prev then 1
    else
      var k := SlotAfter(cs[1..], prev);
      assert prev in cs[1..] ==> cs[..k] == [cs[0]] + cs[1..][..k - 1];
      1 + k
  }

  /** Where a placeholder for a list with entry nodes `entries` goes among `cs`: after the last entry's node, else at the end. */
  function PlaceholderIndex(cs: seq<NodeId>, entries: seq<NodeId>): (j: nat)
    ensures j <= |cs|
  {
    if entries == [] then |cs| else SlotAfter(cs, entries[|entries| - 1])
  }

  /**
   * Step 2.c.viii.1.a as written: `children.len() - 1` is computed on an
   * unsigned machine word, so for an element without children it panics
   * (a debug build reports the overflow, a release build indexes
   * `children[0]`); otherwise it finds `SlotAfter`.
   */
  function SlotAfterAsWritten(cs: seq<NodeId>, prev: NodeId): (r: Result<nat, Fault>)
    ensures cs != [] ==> r == Ok(SlotAfter(cs, prev))
  {
    if cs == [] then Err(Panicked("attempt to subtract with overflow")) else Ok(SlotAfter(cs, prev))
  }

  /** Writing past the end of a non-empty list whose target element has lost all its children panics as written. */
  lemma SlotAfterAsWrittenPanics(prev: NodeId)
    ensures SlotAfterAsWritten([], prev).Err? && SlotAfterAsWritten([], prev).error.Panicked?
    ensures SlotAfter([], prev) == 0
  {
  }

  /**
   * Steps 2.c.viii.1.a.i-ii with the empty element handled: the index just
   * after `prev` among the children `cs`, or their end.
   */
  method InsertionIndex(cs: seq<NodeId>, prev: NodeId) returns (j: nat)
    ensures j == SlotAfter(cs, prev)
  {
    if |cs| == 0 {
      return 0;
    }
    j := 0;
    while j < |cs| - 1 && cs[j] != prev
      invariant j <= |cs| - 1
      invariant prev !in cs[..j]
    {
      j := j + 1;
    }
    SlotAfterIsFirst(cs, prev, j);
    j := j + 1;
  }

  /** The loop of `InsertionIndex` stops at the first occurrence, or at the last position. */
  lemma SlotAfterIsFirst(cs: seq<NodeId>, prev: NodeId, j: nat)
    requires j < |cs| && prev !in cs[..j]
    requires cs[j] == prev || j == |cs| - 1
    ensures SlotAfter(cs, prev) == j + 1
  {
    var s := SlotAfter(cs, prev);
    if cs[j] == prev {
      assert prev in cs;
      assert forall k :: 0 <= k < j ==> cs[..j][k] == cs[k];
      assert forall k :: 0 <= k < s - 1 ==> cs[..s - 1][k] == cs[k];
    } else {
      assert cs == cs[..j] + [cs[j]];
      assert prev !in cs;
    }
  }

  /** The kind of placeholder step 2.c creates for a target property. */
  function PlaceholderKind(p: Option<Multiname>): NodeKind
  {
    if p.Some? && p.value.isAttribute then Attribute
    else if p.None? || p.value.IsAnyName() then Text
    else Element
  }

  predicate IsTextOrAttribute(k: NodeKind)
  {
    k == Text || k == Attribute
  }

  /**
   * Step 2.d of list `[[Put]]`: a value that is neither XML nor an XMLList,
   * and a text or attribute node (alone or as the only entry of a list), is
   * written as its string; other XML and XMLList values are kept.
   */
  function Coerced(store: NodeStore, value: Value): (v: Value)
    reads store, ValueLists(value)
    requires store.Valid()
    ensures v == value || v.Str?
    ensures !value.XmlVal? && !value.ListVal? ==> v == Str(PrimitiveString(value))
    ensures value.XmlVal? && !IsTextOrAttribute(store.Get(value.xml.node).kind) ==> v == value
  {
    match value
    case ListVal(l) =>
      if |l.children| == 1 && IsTextOrAttribute(store.Get(EntryNode(l.children[0])).kind)
      then Str(ToStringTree(store.TreeOf(EntryNode(l.children[0])))) else value
    case XmlVal(x) =>
      if IsTextOrAttribute(store.Get(x.node).kind) then Str(ToStringTree(store.TreeOf(x.node))) else value
    case _ => Str(PrimitiveString(value))
  }

  /**
   * Step 2.d of `[[Put]]` as carried out: the coerced value, with the XML
   * object of a one-entry list value made on the way.
   */
  method CoerceForPut(store: NodeStore, value: Value) returns (v: Value)
    requires store.Valid()
    modifies ValueLists(value)
    ensures v == old(Coerced(store, value))
    ensures value.ListVal? ==>
              value.list.targetObject == old(value.list.targetObject) &&
              value.list.targetProperty == old(value.list.targetProperty) &&
              value.list.targetDirty == old(value.list.targetDirty) &&
              EntryNodes(value.list.children) == old(EntryNodes(value.list.children))
  {
    v := Coerced(store, value);
    if value.ListVal? && |value.list.children| == 1 {
      var _ := value.list.XmlObjectChild(0);
    }
  }

  /**
   * Steps 2.e.ii-2.e.iii of list `[[Put]]`: `v` is put under attribute name
   * `z` on node `p`, and the attribute then got back is the result.
   */
  method PutAttributeOn(store: NodeStore, p: NodeId, z: Multiname, v: Value) returns (r: Result<NodeId, Fault>, ghost placed: seq<NodeId>)
    requires store.Valid() && z.isAttribute
    modifies store, ValueLists(v)
    ensures store.Valid() && old(store.next) <= store.next && old(store.nodes).Keys <= store.nodes.Keys
    ensures v.ListVal? ==> v.list.children == old(v.list.children) && TargetKept(old(v.list.targetObject), v.list.targetObject)
    ensures r.Ok? ==> !IsIndexName(z)
    ensures r.Ok? && old(store.Get(p)).kind == Element ==>
              |placed| == 1 && r.value == placed[0] &&
              AttributePutOutcome(old(store.nodes), store.nodes, p, z, old(PutAttributeText(store, v)), Ok(()), placed)
  {
    ghost var text := PutAttributeText(store, v);
    var parent := new XmlObject(p);
    assert PutAttributeText(store, v) == text;
    var e;
    e, placed := parent.PutUnderAttribute(store, z, v);
    if e.Err? {
      return Err(Thrown(e.error)), placed;
    }
    r := FirstOwned(store, parent, z);
  }

  /** The first node `x.get_property_local(z)` yields, as `[0]` on the list it returns. */
  method FirstOwned(store: NodeStore, x: XmlObject, z: Multiname) returns (r: Result<NodeId, Fault>)
    requires store.Valid()
    ensures r.Ok? <==> !IsPlainIndex(z) && |MatchedOwned(store.nodes, x.node, z)| > 0
    ensures r.Ok? ==> r.value == MatchedOwned(store.nodes, x.node, z)[0]
    ensures r.Ok? && z.isAttribute ==>
              var ms := Matching(store.nodes, Lookup(store.nodes, x.node).attributes, z);
              |ms| > 0 && r.value == ms[0]
  {
    var got := x.GetProperty(store, z);
    if !got.ListVal? {
      return Err(Panicked("XmlObject get_property_local should return XmlListObject"));
    }
    if |got.list.children| == 0 {
      return Err(Panicked("index out of bounds"));
    }
    r := Ok(EntryNode(got.list.children[0]));
  }

  /**
   * Steps 2.c.iii-2.c.viii of list `[[Put]]`: the placeholder for a list
   * with target property `tp` and entry nodes `entries`, attached under
   * `rn` and named after the value (`None` when an attribute of that name
   * already exists).
   */
  method MakePlaceholder(store: NodeStore, rn: Option<NodeId>, tp: Option<Multiname>, entries: seq<NodeId>, value: Value)
    returns (r: Result<Option<NodeId>, Fault>)
    requires store.Valid() && (rn.Some? ==> store.Get(rn.value).kind == Element)
    modifies store
    ensures store.Valid() && old(store.next) <= store.next && old(store.nodes).Keys <= store.nodes.Keys
    ensures r == Ok(None) ==> store.nodes == old(store.nodes) && store.next == old(store.next)
    ensures forall k :: k in old(store.nodes) && Some(k) != rn ==> store.nodes[k] == old(store.nodes[k])
    ensures r.Ok? && r.value.Some? ==>
              var y := r.value.value;
              y !in old(store.nodes) && y in store.nodes && store.nodes[y].parent == rn &&
              store.nodes[y].kind == PlaceholderKind(tp) &&
              store.nodes[y].children == [] && store.nodes[y].attributes == []
    ensures r.Ok? && r.value.Some? && PlaceholderKind(tp) == Element && !value.XmlVal? && !value.ListVal? ==>
              store.nodes[r.value.value].localName == tp.value.localName &&
              store.nodes[r.value.value].namespace == tp.value.namespace
    ensures r.Ok? && r.value.Some? && rn.Some? && PlaceholderKind(tp) != Attribute ==>
              var cs := old(store.nodes[rn.value].children);
              var j := PlaceholderIndex(cs, entries);
              store.nodes[rn.value].children == cs[..j] + [r.value.value] + cs[j..]
    ensures r.Ok? && rn.Some? && PlaceholderKind(tp) == Attribute ==>
              store.nodes[rn.value] == old(store.nodes[rn.value])
    ensures PlaceholderKind(tp) != Attribute && !value.XmlVal? && !value.ListVal? ==> r.Ok? && r.value.Some?
    ensures PlaceholderKind(tp) == Attribute && rn.None? ==> r.Err? && r.error.Panicked?
    ensures PlaceholderKind(tp) == Attribute && rn.Some? && !IsPlainIndex(tp.value) &&
            MatchedOwned(old(store.nodes), rn.value, tp.value) != [] ==>
              r == Ok(None)
  {
    r := NewPlaceholder(store, rn, tp);
    if r.Err? || r.value.None? || PlaceholderKind(tp) == Attribute {
      return;
    }
    var y := r.value.value;
    var settled := SettlePlaceholder(store, rn, y, entries, value);
    if settled.Err? {
      return Err(settled.error);
    }
  }

  /**
   * Steps 2.c.iv-2.c.v of the list `[[Put]]` for a new text or element
   * placeholder `y`: it is inserted into its parent `rn` after the list's
   * last node, then renamed after the value; nothing else changes.
   */
  method SettlePlaceholder(store: NodeStore, rn: Option<NodeId>, y: NodeId, entries: seq<NodeId>, value: Value)
    returns (r: Result<(), Fault>)
    requires store.Valid() && y in store.nodes && store.nodes[y].parent == rn
    requires rn.Some? ==> store.Get(rn.value).kind == Element && rn.value < y
    modifies store
    ensures store.Valid() && store.next == old(store.next) && store.nodes.Keys == old(store.nodes).Keys
    ensures forall k :: k in old(store.nodes) && Some(k) != rn && k != y ==> store.nodes[k] == old(store.nodes[k])
    ensures var n := store.nodes[y]; n == old(store.nodes[y]).(localName := n.localName, namespace := n.namespace)
    ensures !value.XmlVal? && !value.ListVal? ==> r == Ok(()) && store.nodes[y] == old(store.nodes[y])
    ensures rn.Some? ==>
              var cs := old(store.nodes[rn.value].children);
              var j := PlaceholderIndex(cs, entries);
              store.nodes[rn.value].children == cs[..j] + [y] + cs[j..]
  {
    if rn.Some? {
      AttachPlaceholder(store, rn.value, y, entries);
    }
    r := RenamePlaceholder(store, y, value);
  }

  /** Steps 2.c.iii-2.c.vi: a fresh placeholder node with parent `rn`, unless an attribute placeholder already exists. */
  method NewPlaceholder(store: NodeStore, rn: Option<NodeId>, tp: Option<Multiname>) returns (r: Result<Option<NodeId>, Fault>)
    requires store.Valid()
    modifies store
    ensures store.Valid() && old(store.next) <= store.next
    ensures r.Ok? && r.value.Some? ==>
              var y := r.value.value;
              y == old(store.next) && store.next == y + 1 && y in store.nodes &&
              store.nodes == old(store.nodes)[y := store.nodes[y]] &&
              store.nodes[y].parent == rn && store.nodes[y].kind == PlaceholderKind(tp) &&
              store.nodes[y].children == [] && store.nodes[y].attributes == [] &&
              (PlaceholderKind(tp) == Element ==>
                 store.nodes[y].localName == tp.value.localName && store.nodes[y].namespace == tp.value.namespace)
    ensures !(r.Ok? && r.value.Some?) ==> store.nodes == old(store.nodes) && store.next == old(store.next)
    ensures PlaceholderKind(tp) != Attribute ==> r.Ok? && r.value.Some?
    ensures PlaceholderKind(tp) == Attribute && rn.None? ==> r.Err? && r.error.Panicked?
    ensures PlaceholderKind(tp) == Attribute && rn.Some? && !IsPlainIndex(tp.value) &&
            MatchedOwned(old(store.nodes), rn.value, tp.value) != [] ==>
              r == Ok(None)
  {
    var y: NodeId;
    match tp {
      case Some(p) =>
        if p.isAttribute {
          if rn.None? {
            return Err(Panicked("called `Option::unwrap()` on a `None` value"));
          }
          var owner := new XmlObject(rn.value);
          var existing := owner.GetProperty(store, p);
          if existing.ListVal? && |existing.list.children| > 0 {
            return Ok(None);
          }
          if p.localName.None? {
            return Err(Panicked("called `Option::unwrap()` on a `None` value"));
          }
          y := store.Alloc(AttributeNode(p.localName.value, "", rn));
        } else if p.IsAnyName() {
          y := store.Alloc(TextNode("", rn));
        } else {
          y := store.Alloc(ElementNode(p.namespace, p.localName.value, rn));
        }
      case None =>
        y := store.Alloc(TextNode("", rn));
    }
    r := Ok(Some(y));
  }

  /** Steps 2.c.viii.1.a-c: `y` goes among the children of `rn` at `PlaceholderIndex`. */
  method AttachPlaceholder(store: NodeStore, rn: NodeId, y: NodeId, entries: seq<NodeId>)
    requires store.Valid() && store.Get(rn).kind == Element && y in store.nodes && rn < y
    modifies store
    ensures store.Valid() && store.next == old(store.next) && store.nodes.Keys == old(store.nodes).Keys
    ensures var cs := old(store.nodes[rn].children);
            var j := PlaceholderIndex(cs, entries);
            store.nodes[rn].children == cs[..j] + [y] + cs[j..]
    ensures store.nodes[y] == old(store.nodes[y]).(parent := Some(rn))
    ensures forall k :: k in old(store.nodes) && k != rn && k != y ==> store.nodes[k] == old(store.nodes[k])
  {
    var cs := store.Get(rn).children;
    var j: nat;
    if |entries| > 0 {
      j := InsertionIndex(cs, entries[|entries| - 1]);
    } else {
      j := |cs|;
    }
    store.InsertAt(rn, j, y);
  }

  /** Steps 2.c.viii.2-3: `y` takes the name of an XML value, or the target property of an XMLList value. */
  method RenamePlaceholder(store: NodeStore, y: NodeId, value: Value) returns (r: Result<(), Fault>)
    requires store.Valid()
    modifies store
    ensures store.Valid() && store.next == old(store.next) && store.nodes.Keys == old(store.nodes).Keys
    ensures forall k :: k in old(store.nodes) && k != y ==> store.nodes[k] == old(store.nodes[k])
    ensures y in old(store.nodes) ==>
              var n := store.nodes[y];
              n == old(store.nodes[y]).(localName := n.localName, namespace := n.namespace)
    ensures !value.XmlVal? && !value.ListVal? ==> r == Ok(()) && store.nodes == old(store.nodes)
    ensures value.XmlVal? && r.Ok? && y in old(store.nodes) ==> store.nodes[y].localName == old(store.Get(value.xml.node)).localName
  {
    r := Ok(());
    match value {
      case XmlVal(v) =>
        var name := store.Get(v.node).localName;
        if name.None? {
          return Err(Panicked("Not validated yet"));
        }
        store.SetLocalName(y, name.value);
      case ListVal(l) =>
        if l.targetProperty.None? {
          return Err(Panicked("Not validated yet"));
        }
        var tp := l.targetProperty.value;
        if tp.localName.Some? {
          store.SetLocalName(y, tp.localName.value);
        }
        if tp.namespace.Some? {
          store.SetNamespace(y, tp.namespace.value);
        }
      case _ =>
    }
  }

  /** The first index of `c` in `cs` (`Iterator::position`). */
  function Position(cs: seq<NodeId>, c: NodeId): (q: Option<nat>)
    ensures q.Some? ==> q.value < |cs| && cs[q.value] == c
    ensures q.None? <==> c !in cs
  {
    if cs == [] then None
    else if cs[0] == c then Some(0)
    else match Position(cs[1..], c)
      case None => None
      case Some(k) => Some(k + 1)
  }

  /** The index of `c` among the children of `p`, if `p` is an element holding it. */
  function IndexInParent(nodes: map<NodeId, Node>, p: NodeId, c: NodeId): Option<nat>
  {
    if Lookup(nodes, p).kind == Element then Position(Lookup(nodes, p).children, c) else None
  }

  /** The entries' trees depend only on the entries' nodes. */
  lemma EntryTreesOfNodes(nodes: map<NodeId, Node>, next: nat, a: seq<Entry>, b: seq<Entry>)
    requires Wf(nodes, next) && EntryNodes(a) == EntryNodes(b)
    ensures EntryTrees(nodes, next, a) == EntryTrees(nodes, next, b)
  {
    assert forall i :: 0 <= i < |a| ==> EntryNode(a[i]) == EntryNodes(a)[i];
  }
}
