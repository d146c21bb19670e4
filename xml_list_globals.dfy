// The XMLList prototype methods: content classification, string
// conversion, the item-collecting accessors (`child`, `children`,
// `attribute`, `attributes`, `text`, `comments`,
// `processingInstructions`), `contains`, `name`, `parent`, and `XMLList`
// called as a function.

module XmlListGlobals {
  import opened Wrappers
  import opened E4XNode
  import opened Avm2Error
  import opened XmlObjects

  // ---------------------------------------------------------------------
  // hasSimpleContent / hasComplexContent

  /** `has_simple_content` on a list object. */
  function HasSimpleContentOf(store: NodeStore, l: XmlListObject): (r: bool)
    reads store, l
    requires store.Valid()
    ensures |l.children| == 1 ==> (r <==> HasSimpleContent(store.TreeOf(EntryNode(l.children[0]))))
    ensures |l.children| != 1 ==>
              (r <==> forall i :: 0 <= i < |l.children| ==> store.Get(EntryNode(l.children[i])).kind != Element)
  {
    ListHasSimpleContent(EntryTrees(store.nodes, store.next, l.children))
  }

  /** `has_complex_content` on a list object. */
  function HasComplexContentOf(store: NodeStore, l: XmlListObject): (r: bool)
    reads store, l
    requires store.Valid()
    ensures |l.children| == 1 ==> (r <==> HasComplexContent(store.TreeOf(EntryNode(l.children[0]))))
    ensures |l.children| != 1 ==>
              (r <==> exists i :: 0 <= i < |l.children| && store.Get(EntryNode(l.children[i])).kind == Element)
  {
    ListHasComplexContent(EntryTrees(store.nodes, store.next, l.children))
  }

  /** A list never has both simple and complex content, and off length one it has exactly one of them. */
  lemma ContentOfListObject(store: NodeStore, l: XmlListObject)
    requires store.Valid()
    ensures !(HasSimpleContentOf(store, l) && HasComplexContentOf(store, l))
    ensures |l.children| != 1 ==> (HasComplexContentOf(store, l) <==> !HasSimpleContentOf(store, l))
  {
    var ts := EntryTrees(store.nodes, store.next, l.children);
    ListSimpleExcludesComplex(ts);
    if |l.children| != 1 {
      ComplexIsNotSimple(ts);
    }
  }

  // ---------------------------------------------------------------------
  // toXMLString / toString

  /**
   * `to_xml_string`: the markup of every item, a newline written before
   * each item but the first.
   */
  method ToXmlStringOf(store: NodeStore, l: XmlListObject) returns (out: string)
    requires store.Valid()
    ensures out == ListXmlString(EntryTrees(store.nodes, store.next, l.children))
  {
    ghost var ts := EntryTrees(store.nodes, store.next, l.children);
    ghost var ss := XmlStrings(ts);
    out := "";
    var i := 0;
    while i < |l.children|
      invariant 0 <= i <= |l.children|
      invariant out == Join(ss[..i], "\n")
    {
      assert ss[..i + 1][..i] == ss[..i];
      if i != 0 {
        out := out + "\n";
      }
      out := out + ToXmlString(store.TreeOf(EntryNode(l.children[i])));
      i := i + 1;
    }
    assert ss[..i] == ss;
  }

  /**
   * `to_string`: the concatenated text of a list with simple content,
   * `toXMLString` otherwise.
   */
  method ToStringOf(store: NodeStore, l: XmlListObject) returns (out: string)
    requires store.Valid()
    ensures var ts := EntryTrees(store.nodes, store.next, l.children);
            out == ListToString(ts) &&
            (HasSimpleContentOf(store, l) ==> out == SimpleChildrenText(ts)) &&
            (!HasSimpleContentOf(store, l) ==> out == Join(XmlStrings(ts), "\n"))
  {
    if HasSimpleContentOf(store, l) {
      out := SimpleChildrenText(EntryTrees(store.nodes, store.next, l.children));
    } else {
      out := ToXmlStringOf(store, l);
    }
  }

  /** The string values of the items, in order. */
  function Values(ts: seq<XTree>): (r: seq<string>)
    ensures |r| == |ts| && forall i :: 0 <= i < |ts| ==> r[i] == ts[i].value
  {
    seq(|ts|, i requires 0 <= i < |ts| => ts[i].value)
  }

  /** A list of text, CDATA and attribute items converts to the concatenation of their values. */
  lemma {:induction false} TextListToString(ts: seq<XTree>)
    requires forall i :: 0 <= i < |ts| ==> IsTextLike(ts[i].kind)
    ensures ListToString(ts) == E4XNode.Concat(Values(ts))
  {
    TextItemsText(ts);
  }

  lemma {:induction false} TextItemsText(ts: seq<XTree>)
    requires forall i :: 0 <= i < |ts| ==> IsTextLike(ts[i].kind)
    ensures SimpleChildrenText(ts) == E4XNode.Concat(Values(ts))
  {
    if ts != [] {
      var init := ts[..|ts| - 1];
      TextItemsText(init);
      assert Values(ts)[..|ts| - 1] == Values(init);
    }
  }

  /** A list of at least two items converts to its markup exactly when one of the items is an element. */
  lemma LongListToString(ts: seq<XTree>)
    requires |ts| >= 2
    ensures (exists i :: 0 <= i < |ts| && ts[i].kind == Element) ==> ListToString(ts) == ListXmlString(ts)
    ensures (forall i :: 0 <= i < |ts| ==> ts[i].kind != Element) ==> ListToString(ts) == SimpleChildrenText(ts)
  {
  }

  // ---------------------------------------------------------------------
  // length

  /** `length`: the number of items. */
  method Length(l: XmlListObject) returns (n: nat)
    ensures n == |l.children|
  {
    n := |l.children|;
  }

  // ---------------------------------------------------------------------
  // The item-collecting accessors

  /** What one accessor takes from each element item. */
  datatype Selector =
    | NamedChildren(name: Multiname)      // `child(name)`
    | AllChildren                         // `children()`
    | FirstAttribute(name: Multiname)     // `attribute(name)`
    | AllAttributes                       // `attributes()`
    | ChildrenOfKind(kind: NodeKind)      // `text()`, `comments()`
    | NamedInstructions(name: Multiname)  // `processingInstructions(name)`

  /** The ids of `ids` whose node has kind `k`, in order. */
  function OfKind(nodes: map<NodeId, Node>, ids: seq<NodeId>, k: NodeKind): (r: seq<NodeId>)
    ensures |r| <= |ids|
    ensures forall x :: x in r <==> x in ids && Lookup(nodes, x).kind == k
  {
    if ids == [] then []
    else OfKind(nodes, ids[..|ids| - 1], k) +
         (if Lookup(nodes, ids[|ids| - 1]).kind == k then [ids[|ids| - 1]] else [])
  }

  /** What the item `n` contributes: nothing unless it is an element. */
  function Picked(nodes: map<NodeId, Node>, n: NodeId, sel: Selector): seq<NodeId>
  {
    var nd := Lookup(nodes, n);
    if nd.kind != Element then []
    else match sel
      case NamedChildren(name) => Matching(nodes, nd.children, name)
      case AllChildren => nd.children
      case FirstAttribute(name) =>
        (match FirstMatch(nodes, nd.attributes, name)
         case None => []
         case Some(k) => [nd.attributes[k]])
      case AllAttributes => nd.attributes
      case ChildrenOfKind(k) => OfKind(nodes, nd.children, k)
      case NamedInstructions(name) => OfKind(nodes, Matching(nodes, nd.children, name), ProcessingInstruction)
  }

  /** The contributions of the items, in item order. */
  function Gathered(nodes: map<NodeId, Node>, ids: seq<NodeId>, sel: Selector): seq<NodeId>
  {
    if ids == [] then []
    else Gathered(nodes, ids[..|ids| - 1], sel) + Picked(nodes, ids[|ids| - 1], sel)
  }

  /** The accessors' shared loop: each item's contribution appended in turn. */
  method Gather(store: NodeStore, l: XmlListObject, sel: Selector) returns (ids: seq<NodeId>)
    ensures ids == Gathered(store.nodes, EntryNodes(l.children), sel)
  {
    ghost var items := EntryNodes(l.children);
    ids := [];
    var i := 0;
    while i < |l.children|
      invariant 0 <= i <= |l.children|
      invariant ids == Gathered(store.nodes, items[..i], sel)
    {
      assert items[..i + 1][..i] == items[..i];
      ids := ids + Picked(store.nodes, EntryNode(l.children[i]), sel);
      i := i + 1;
    }
    assert items[..i] == items;
  }

  /** Collecting over two runs of items is collecting over each in turn. */
  lemma {:induction false} GatheredAppend(nodes: map<NodeId, Node>, a: seq<NodeId>, b: seq<NodeId>, sel: Selector)
    ensures Gathered(nodes, a + b, sel) == Gathered(nodes, a, sel) + Gathered(nodes, b, sel)
  {
    if b != [] {
      var init, last := b[..|b| - 1], b[|b| - 1];
      GatheredAppend(nodes, a, init, sel);
      assert (a + b)[..|a + b| - 1] == a + init;
      calc {
        Gathered(nodes, a + b, sel);
        Gathered(nodes, a + init, sel) + Picked(nodes, last, sel);
        Gathered(nodes, a, sel) + Gathered(nodes, init, sel) + Picked(nodes, last, sel);
      }
    } else {
      assert a + b == a;
    }
  }

  /** An id is collected exactly when some element item contributes it. */
  lemma {:induction false} GatheredMembers(nodes: map<NodeId, Node>, ids: seq<NodeId>, sel: Selector, x: NodeId)
    ensures x in Gathered(nodes, ids, sel) <==>
            exists i :: 0 <= i < |ids| && Lookup(nodes, ids[i]).kind == Element && x in Picked(nodes, ids[i], sel)
  {
    if ids != [] {
      var init := ids[..|ids| - 1];
      GatheredMembers(nodes, init, sel, x);
      if x in Gathered(nodes, ids, sel) && x !in Gathered(nodes, init, sel) {
        assert x in Picked(nodes, ids[|ids| - 1], sel);
      }
      if x in Gathered(nodes, init, sel) {
        var i :| 0 <= i < |init| && Lookup(nodes, init[i]).kind == Element && x in Picked(nodes, init[i], sel);
        assert ids[i] == init[i];
      }
      if exists i :: 0 <= i < |ids| && Lookup(nodes, ids[i]).kind == Element && x in Picked(nodes, ids[i], sel) {
        var i :| 0 <= i < |ids| && Lookup(nodes, ids[i]).kind == Element && x in Picked(nodes, ids[i], sel);
        if i < |init| {
          assert init[i] == ids[i];
        }
      }
    }
  }

  /** `attribute(name)` takes at most one attribute from each item. */
  lemma {:induction false} AttributeAtMostOnePerItem(nodes: map<NodeId, Node>, ids: seq<NodeId>, name: Multiname)
    ensures |Gathered(nodes, ids, FirstAttribute(name))| <= |ids|
  {
    if ids != [] {
      AttributeAtMostOnePerItem(nodes, ids[..|ids| - 1], name);
    }
  }

  /**
   * The attribute `attribute(name)` takes from an element item is that
   * item's first attribute matching the name, and it takes one whenever
   * such an attribute exists.
   */
  lemma AttributeIsFirstMatch(nodes: map<NodeId, Node>, n: NodeId, name: Multiname)
    requires Lookup(nodes, n).kind == Element
    ensures var attrs := Lookup(nodes, n).attributes;
            var p := Picked(nodes, n, FirstAttribute(name));
            (|p| == 1 <==> exists j :: 0 <= j < |attrs| && Matches(nodes, attrs[j], name)) &&
            (|p| == 1 ==> exists k :: 0 <= k < |attrs| && p[0] == attrs[k] && Matches(nodes, attrs[k], name) &&
                                      forall j :: 0 <= j < k ==> !Matches(nodes, attrs[j], name))
  {
    var attrs := Lookup(nodes, n).attributes;
    match FirstMatch(nodes, attrs, name)
    case None =>
    case Some(k) =>
  }

  /** `text()` and `comments()` collect only nodes of their kind, and every such child of an element item. */
  lemma ChildrenOfKindMembers(nodes: map<NodeId, Node>, ids: seq<NodeId>, k: NodeKind, x: NodeId)
    ensures x in Gathered(nodes, ids, ChildrenOfKind(k)) <==>
            Lookup(nodes, x).kind == k &&
            exists i :: 0 <= i < |ids| && Lookup(nodes, ids[i]).kind == Element && x in Lookup(nodes, ids[i]).children
  {
    GatheredMembers(nodes, ids, ChildrenOfKind(k), x);
  }

  /** `processingInstructions(name)` collects exactly the matching instruction children of element items. */
  lemma InstructionMembers(nodes: map<NodeId, Node>, ids: seq<NodeId>, name: Multiname, x: NodeId)
    ensures x in Gathered(nodes, ids, NamedInstructions(name)) <==>
            Lookup(nodes, x).kind == ProcessingInstruction && Matches(nodes, x, name) &&
            exists i :: 0 <= i < |ids| && Lookup(nodes, ids[i]).kind == Element && x in Lookup(nodes, ids[i]).children
  {
    GatheredMembers(nodes, ids, NamedInstructions(name), x);
  }

  /** `child(name)` collects exactly the matching children of element items. */
  lemma ChildMembers(nodes: map<NodeId, Node>, ids: seq<NodeId>, name: Multiname, x: NodeId)
    ensures x in Gathered(nodes, ids, NamedChildren(name)) <==>
            Matches(nodes, x, name) &&
            exists i :: 0 <= i < |ids| && Lookup(nodes, ids[i]).kind == Element && x in Lookup(nodes, ids[i]).children
  {
    GatheredMembers(nodes, ids, NamedChildren(name), x);
  }

  /** A new list of the collected items whose target is `l` and whose target property is `p`. */
  method Collect(store: NodeStore, l: XmlListObject, sel: Selector, p: Option<Multiname>) returns (r: XmlListObject)
    ensures fresh(r) && !r.targetDirty
    ensures r.children == E4Xs(Gathered(store.nodes, EntryNodes(l.children), sel))
    ensures r.targetObject == Some(TargetList(l)) && r.targetProperty == p
  {
    var ids := Gather(store, l, sel);
    r := new XmlListObject(E4Xs(ids), Some(TargetList(l)), p);
  }

  /** `child(name)`: the matching children of the element items, with no target property. */
  method Child(store: NodeStore, l: XmlListObject, name: Multiname) returns (r: XmlListObject)
    ensures fresh(r) && r.children == E4Xs(Gathered(store.nodes, EntryNodes(l.children), NamedChildren(name)))
    ensures r.targetObject == Some(TargetList(l)) && r.targetProperty.None?
  {
    r := Collect(store, l, NamedChildren(name), None);
  }

  /** `children()`: all children of the element items, with target property `*`. */
  method Children(store: NodeStore, l: XmlListObject) returns (r: XmlListObject)
    ensures fresh(r) && r.children == E4Xs(Gathered(store.nodes, EntryNodes(l.children), AllChildren))
    ensures r.targetObject == Some(TargetList(l)) && r.targetProperty == Some(AnyName)
  {
    r := Collect(store, l, AllChildren, Some(AnyName));
  }

  /**
   * `attribute(name)`: the first attribute of each element item matching
   * the name taken as an attribute name, which is also the target property.
   */
  method Attribute(store: NodeStore, l: XmlListObject, name: Multiname) returns (r: XmlListObject)
    ensures var an := name.(isAttribute := true);
            fresh(r) && r.children == E4Xs(Gathered(store.nodes, EntryNodes(l.children), FirstAttribute(an))) &&
            r.targetObject == Some(TargetList(l)) && r.targetProperty == Some(an)
  {
    var an := name.(isAttribute := true);
    r := Collect(store, l, FirstAttribute(an), Some(an));
  }

  /** `attributes()`: all attributes of the element items, with target property `@*`. */
  method Attributes(store: NodeStore, l: XmlListObject) returns (r: XmlListObject)
    ensures fresh(r) && r.children == E4Xs(Gathered(store.nodes, EntryNodes(l.children), AllAttributes))
    ensures r.targetObject == Some(TargetList(l)) && r.targetProperty == Some(AnyAttribute)
  {
    r := Collect(store, l, AllAttributes, Some(AnyAttribute));
  }

  /** `text()`: the text children of the element items. */
  method Texts(store: NodeStore, l: XmlListObject) returns (r: XmlListObject)
    ensures fresh(r) && r.children == E4Xs(Gathered(store.nodes, EntryNodes(l.children), ChildrenOfKind(NodeKind.Text)))
    ensures r.targetObject == Some(TargetList(l)) && r.targetProperty.None?
  {
    r := Collect(store, l, ChildrenOfKind(NodeKind.Text), None);
  }

  /** `comments()`: the comment children of the element items. */
  method Comments(store: NodeStore, l: XmlListObject) returns (r: XmlListObject)
    ensures fresh(r) && r.children == E4Xs(Gathered(store.nodes, EntryNodes(l.children), ChildrenOfKind(Comment)))
    ensures r.targetObject == Some(TargetList(l)) && r.targetProperty.None?
  {
    r := Collect(store, l, ChildrenOfKind(Comment), None);
  }

  /** `processingInstructions(name)`: the matching instruction children of the element items. */
  method ProcessingInstructions(store: NodeStore, l: XmlListObject, name: Multiname) returns (r: XmlListObject)
    ensures fresh(r) && r.children == E4Xs(Gathered(store.nodes, EntryNodes(l.children), NamedInstructions(name)))
    ensures r.targetObject == Some(TargetList(l)) && r.targetProperty.None?
  {
    r := Collect(store, l, NamedInstructions(name), None);
  }

  // ---------------------------------------------------------------------
  // contains (section 13.5.4.8 of ECMA-357)

  /** Some item is structurally equal to `t`. */
  predicate ListContains(ts: seq<XTree>, t: XTree)
  {
    exists i :: 0 <= i < |ts| && TreeEq(ts[i], t)
  }

  /**
   * `contains(value)`: whether some item equals the XML value.  A null or
   * undefined argument is rejected by the argument accessor, and any other
   * non-XML object fails the unwrap.
   */
  method Contains(store: NodeStore, l: XmlListObject, value: Value) returns (r: Result<bool, Fault>)
    requires store.Valid()
    ensures value.XmlVal? ==>
              r == Ok(ListContains(EntryTrees(store.nodes, store.next, l.children), store.TreeOf(value.xml.node)))
    ensures (value.Null? || value.Undefined?) ==> r.Err? && r.error.NotModelled?
    ensures !value.XmlVal? && !value.Null? && !value.Undefined? ==> r.Err? && r.error.Panicked?
  {
    if value.Null? || value.Undefined? {
      return Err(NotModelled("get_object on null or undefined"));
    }
    if !value.XmlVal? {
      return Err(Panicked("contains: argument is not an XML object"));
    }
    ghost var ts := EntryTrees(store.nodes, store.next, l.children);
    var t := store.TreeOf(value.xml.node);
    var i := 0;
    while i < |l.children|
      invariant 0 <= i <= |l.children|
      invariant forall j :: 0 <= j < i ==> !TreeEq(ts[j], t)
    {
      if TreeEq(store.TreeOf(EntryNode(l.children[i])), t) {
        return Ok(true);
      }
      i := i + 1;
    }
    r := Ok(false);
  }

  /** Every list contains each of its own items, and a copy of one. */
  lemma ContainsItems(ts: seq<XTree>, i: nat)
    requires i < |ts|
    ensures ListContains(ts, ts[i])
  {
    TreeEqReflexive(ts[i]);
  }

  // ---------------------------------------------------------------------
  // name

  /**
   * `name()`: on a one-item list the item's XML object (created and stored
   * back if the item was a bare node), on which `XML.name()` is then called;
   * TypeError 1086 on any other length.
   */
  method Name(l: XmlListObject) returns (r: Result<XmlObject, Error>)
    modifies l
    ensures l.targetObject == old(l.targetObject) && l.targetProperty == old(l.targetProperty)
    ensures l.targetDirty == old(l.targetDirty)
    ensures old(|l.children|) != 1 ==> r == Err(Error1086()) && l.children == old(l.children)
    ensures old(|l.children|) == 1 ==>
              r.Ok? && r.value.node == old(EntryNode(l.children[0])) && l.children == [Xml(r.value)]
  {
    if |l.children| != 1 {
      return Err(Error1086());
    }
    var x := l.XmlObjectChild(0);
    r := Ok(x.value);
  }

  // ---------------------------------------------------------------------
  // parent (section 13.5.4.17 of ECMA-357)

  /**
   * The parent all items share: None for an empty list, for items whose
   * parents differ (one with a parent and one without included) and for
   * items that all have none.
   */
  function CommonParent(nodes: map<NodeId, Node>, ids: seq<NodeId>): (r: Option<NodeId>)
    ensures r.Some? <==>
              |ids| > 0 && exists p :: forall i :: 0 <= i < |ids| ==> Lookup(nodes, ids[i]).parent == Some(p)
    ensures r.Some? ==> forall i :: 0 <= i < |ids| ==> Lookup(nodes, ids[i]).parent == r
  {
    if |ids| == 0 then None
    else
      var parent := Lookup(nodes, ids[0]).parent;
      if exists i :: 1 <= i < |ids| && Lookup(nodes, ids[i]).parent != parent then None
      else parent
  }

  /** Two items with different parents leave the list without a parent. */
  lemma ParentMismatch(nodes: map<NodeId, Node>, ids: seq<NodeId>, i: nat, j: nat)
    requires i < |ids| && j < |ids| && Lookup(nodes, ids[i]).parent != Lookup(nodes, ids[j]).parent
    ensures CommonParent(nodes, ids).None?
  {
  }

  /** `parent()`: the XML object of the shared parent, or undefined. */
  method Parent(store: NodeStore, l: XmlListObject) returns (r: Value)
    ensures CommonParent(store.nodes, EntryNodes(l.children)).None? ==> r == Undefined
    ensures CommonParent(store.nodes, EntryNodes(l.children)).Some? ==>
              r.XmlVal? && fresh(r.xml) && r.xml.node == CommonParent(store.nodes, EntryNodes(l.children)).value
  {
    match CommonParent(store.nodes, EntryNodes(l.children))
    case None =>
      r := Undefined;
    case Some(p) =>
      var x := new XmlObject(p);
      r := XmlVal(x);
  }

  // ---------------------------------------------------------------------
  // XMLList called as a function

  /** What `XMLList(...)` called as a function does: hand back the list, or construct a new one from the arguments. */
  datatype CallOutcome = Returned(list: XmlListObject) | Constructed(args: seq<Value>)

  /** `call_handler`: an XMLList argument comes back as the same object, without copying. */
  function CallHandler(args: seq<Value>): (r: CallOutcome)
    ensures r.Returned? <==> |args| > 0 && args[0].ListVal?
    ensures r.Returned? ==> r.list == args[0].list
    ensures r.Constructed? ==> r.args == args
  {
    if |args| > 0 && args[0].ListVal? then Returned(args[0].list) else Constructed(args)
  }
}
