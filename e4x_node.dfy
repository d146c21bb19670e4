/**
 * The E4X node graph that XML and XMLList objects point into
 * (the `E4XNode` primitives of core/src/avm2/e4x.rs, which is not part of
 * this model's sources: each primitive below is written from the behaviour
 * its callers in xml_object.rs and xml_list_object.rs rely on, and is
 * specified by its contract).
 *
 * Nodes live in an arena `NodeStore` keyed by `NodeId`.  Every child and
 * attribute id of a node is a live node with a larger id than its owner, so
 * the child relation is acyclic and `Tree` can read a node's subtree as a
 * structural value.  Parent links are free: the source sets and clears them
 * independently of the children vectors.
 */
module E4XNode {
  import opened Wrappers
  import opened Strings

  type NodeId = nat

  datatype NodeKind = Element | Text | CData | Comment | ProcessingInstruction | Attribute | Dummy

  /**
   * One node.  `value` is the character data of text, CDATA, comment,
   * processing-instruction and attribute nodes; `attributes` and `children`
   * are only populated for elements.
   */
  datatype Node = Node(kind: NodeKind, localName: Option<string>, namespace: Option<string>, value: string,
                       parent: Option<NodeId>, attributes: seq<NodeId>, children: seq<NodeId>)

  /**
   * An AVM2 multiname as the E4X code uses it: `localName` None is the `*`
   * name, `namespace` Some is an explicit namespace, and `isAttribute` marks
   * `@name` references.
   */
  datatype Multiname = Multiname(localName: Option<string>, namespace: Option<string>, isAttribute: bool)
  {
    predicate IsAnyName() { localName.None? }
    predicate HasExplicitNamespace() { namespace.Some? }
  }

  /** `Multiname::any`, the `*` name. */
  const AnyName: Multiname := Multiname(None, None, false)

  /** `Multiname::any_attribute`, the `@*` name. */
  const AnyAttribute: Multiname := Multiname(None, None, true)

  // ---------------------------------------------------------------------
  // Node constructors

  function ElementNode(namespace: Option<string>, localName: string, parent: Option<NodeId>): Node
  {
    Node(Element, Some(localName), namespace, "", parent, [], [])
  }

  function TextNode(text: string, parent: Option<NodeId>): Node
  {
    Node(Text, None, None, text, parent, [], [])
  }

  function AttributeNode(localName: string, value: string, parent: Option<NodeId>): Node
  {
    Node(Attribute, Some(localName), None, value, parent, [], [])
  }

  function DummyNode(): Node
  {
    Node(Dummy, None, None, "", None, [], [])
  }

  // ---------------------------------------------------------------------
  // Index parsing: `local_name.parse::<usize>()`

  const UsizeLimit: nat := 0x1_0000_0000_0000_0000

  /** The digits of an index: the text after an optional leading `+`. */
  function IndexDigits(s: string): string
  {
    if |s| > 0 && s[0] == '+' then s[1..] else s
  }

  predicate AllDigits(s: string)
  {
    |s| > 0 && forall i :: 0 <= i < |s| ==> IsDigit(s[i])
  }

  /**
   * The integer `s` denotes as an unsigned machine-word index: an optional
   * `+` and at least one ASCII digit, with a value that fits in 64 bits.
   */
  function ParseIndex(s: string): (r: Option<nat>)
    ensures r.Some? ==> AllDigits(IndexDigits(s)) && r.value < UsizeLimit
  {
    var digits := IndexDigits(s);
    if AllDigits(digits) && DigitsValue(digits) < UsizeLimit then Some(DigitsValue(digits)) else None
  }

  /** A name whose local part parses as an index. */
  predicate IsIndexName(name: Multiname)
  {
    name.localName.Some? && ParseIndex(name.localName.value).Some?
  }

  /** Printing an index in decimal and parsing it back yields the index. */
  lemma ParseIndexOfDecimal(n: nat)
    requires n < UsizeLimit
    ensures ParseIndex(Decimal(n)) == Some(n)
  {
    DigitsValueOfDecimal(n);
    assert IndexDigits(Decimal(n)) == Decimal(n);
  }

  // ---------------------------------------------------------------------
  // XML names: `e4x::is_xml_name`, restricted to ASCII

  predicate IsNameStartChar(c: char)
  {
    ('a' <= c <= 'z') || ('A' <= c <= 'Z') || c == '_'
  }

  predicate IsNameChar(c: char)
  {
    IsNameStartChar(c) || IsDigit(c) || c == '.' || c == '-'
  }

  predicate IsXmlName(s: string)
  {
    |s| > 0 && IsNameStartChar(s[0]) && forall i :: 1 <= i < |s| ==> IsNameChar(s[i])
  }

  /** No index is an XML name. */
  lemma IndexIsNotXmlName(s: string)
    requires ParseIndex(s).Some?
    ensures !IsXmlName(s)
  {
    var digits := IndexDigits(s);
    assert AllDigits(digits);
    if s[0] != '+' {
      assert IsDigit(digits[0]);
    }
  }

  // ---------------------------------------------------------------------
  // Name matching: `E4XNode::matches_name`

  /**
   * A node matches a multiname when both or neither are attributes, the
   * local names agree unless the multiname is `*`, and the namespaces agree
   * when the multiname names one explicitly.
   */
  predicate MatchesName(n: Node, name: Multiname)
  {
    (n.kind == Attribute) == name.isAttribute &&
    (name.localName.Some? ==> n.localName == name.localName) &&
    (name.namespace.Some? ==> n.namespace == name.namespace)
  }

  /** The node stored under `id`, or a childless dummy for an unknown id. */
  function Lookup(nodes: map<NodeId, Node>, id: NodeId): Node
  {
    if id in nodes then nodes[id] else DummyNode()
  }

  predicate Matches(nodes: map<NodeId, Node>, id: NodeId, name: Multiname)
  {
    MatchesName(Lookup(nodes, id), name)
  }

  /** The ids of `ids` that match `name`, in order. */
  function Matching(nodes: map<NodeId, Node>, ids: seq<NodeId>, name: Multiname): (r: seq<NodeId>)
    ensures |r| <= |ids|
    ensures forall x :: x in r <==> x in ids && Matches(nodes, x, name)
  {
    if ids == [] then []
    else Matching(nodes, ids[..|ids| - 1], name) +
         (if Matches(nodes, ids[|ids| - 1], name) then [ids[|ids| - 1]] else [])
  }

  /** The ids of `ids` that do not match `name`, in order. */
  function NonMatching(nodes: map<NodeId, Node>, ids: seq<NodeId>, name: Multiname): (r: seq<NodeId>)
    ensures |r| <= |ids|
    ensures forall x :: x in r <==> x in ids && !Matches(nodes, x, name)
  {
    if ids == [] then []
    else NonMatching(nodes, ids[..|ids| - 1], name) +
         (if Matches(nodes, ids[|ids| - 1], name) then [] else [ids[|ids| - 1]])
  }

  /** The index of the first id of `ids` that matches `name`. */
  function FirstMatch(nodes: map<NodeId, Node>, ids: seq<NodeId>, name: Multiname): (r: Option<nat>)
    ensures r.Some? ==> r.value < |ids| && Matches(nodes, ids[r.value], name) &&
                        forall j :: 0 <= j < r.value ==> !Matches(nodes, ids[j], name)
    ensures r.None? ==> forall j :: 0 <= j < |ids| ==> !Matches(nodes, ids[j], name)
  {
    if ids == [] then None
    else if Matches(nodes, ids[0], name) then Some(0)
    else match FirstMatch(nodes, ids[1..], name)
      case None => None
      case Some(k) => Some(k + 1)
  }

  /** Everything before the first match survives the filter in place. */
  lemma {:induction false} NonMatchingPrefix(nodes: map<NodeId, Node>, ids: seq<NodeId>, name: Multiname, i: nat)
    requires i <= |ids|
    requires forall j :: 0 <= j < i ==> !Matches(nodes, ids[j], name)
    ensures NonMatching(nodes, ids[..i], name) == ids[..i]
  {
    if i > 0 {
      var pre := ids[..i];
      assert pre[..|pre| - 1] == ids[..i - 1] && pre[|pre| - 1] == ids[i - 1];
      NonMatchingPrefix(nodes, ids, name, i - 1);
      assert NonMatching(nodes, pre, name) == ids[..i - 1] + [ids[i - 1]];
      assert ids[..i - 1] + [ids[i - 1]] == pre;
    }
  }

  /** Filtering distributes over concatenation. */
  lemma {:induction false} NonMatchingAppend(nodes: map<NodeId, Node>, a: seq<NodeId>, b: seq<NodeId>, name: Multiname)
    ensures NonMatching(nodes, a + b, name) == NonMatching(nodes, a, name) + NonMatching(nodes, b, name)
    decreases |b|
  {
    if b == [] {
      assert a + b == a;
    } else {
      var b0 := b[..|b| - 1];
      assert (a + b)[..|a + b| - 1] == a + b0;
      assert (a + b)[|a + b| - 1] == b[|b| - 1];
      NonMatchingAppend(nodes, a, b0, name);
    }
  }

  /**
   * Up to the first match, the non-matches are the ids themselves: the
   * filtered sequence keeps that prefix and is at least as long.
   */
  lemma NonMatchingKeepsPrefix(nodes: map<NodeId, Node>, ids: seq<NodeId>, name: Multiname, k: nat)
    requires k <= |ids|
    requires forall j :: 0 <= j < k ==> !Matches(nodes, ids[j], name)
    ensures k <= |NonMatching(nodes, ids, name)| && NonMatching(nodes, ids, name)[..k] == ids[..k]
  {
    assert ids == ids[..k] + ids[k..];
    NonMatchingAppend(nodes, ids[..k], ids[k..], name);
    NonMatchingPrefix(nodes, ids, name, k);
  }

  /** Filtering and searching only look at the nodes of the ids they are given. */
  lemma MatchesFrame(nodes1: map<NodeId, Node>, nodes2: map<NodeId, Node>, ids: seq<NodeId>, name: Multiname)
    requires forall x :: x in ids ==> Lookup(nodes1, x) == Lookup(nodes2, x)
    ensures Matching(nodes1, ids, name) == Matching(nodes2, ids, name)
    ensures NonMatching(nodes1, ids, name) == NonMatching(nodes2, ids, name)
    ensures FirstMatch(nodes1, ids, name) == FirstMatch(nodes2, ids, name)
  {
    FilterFrame(nodes1, nodes2, ids, name);
    FirstMatchFrame(nodes1, nodes2, ids, name);
  }

  lemma {:induction false} FilterFrame(nodes1: map<NodeId, Node>, nodes2: map<NodeId, Node>, ids: seq<NodeId>, name: Multiname)
    requires forall x :: x in ids ==> Lookup(nodes1, x) == Lookup(nodes2, x)
    ensures Matching(nodes1, ids, name) == Matching(nodes2, ids, name)
    ensures NonMatching(nodes1, ids, name) == NonMatching(nodes2, ids, name)
    decreases |ids|
  {
    if ids != [] {
      assert ids[|ids| - 1] in ids;
      assert forall x :: x in ids[..|ids| - 1] ==> x in ids;
      FilterFrame(nodes1, nodes2, ids[..|ids| - 1], name);
    }
  }

  lemma {:induction false} FirstMatchFrame(nodes1: map<NodeId, Node>, nodes2: map<NodeId, Node>, ids: seq<NodeId>, name: Multiname)
    requires forall x :: x in ids ==> Lookup(nodes1, x) == Lookup(nodes2, x)
    ensures FirstMatch(nodes1, ids, name) == FirstMatch(nodes2, ids, name)
    decreases |ids|
  {
    if ids != [] {
      assert ids[0] in ids;
      assert forall x :: x in ids[1..] ==> x in ids;
      FirstMatchFrame(nodes1, nodes2, ids[1..], name);
    }
  }

  // ---------------------------------------------------------------------
  // Well-formed stores

  /** Every child and attribute of `k` is a live node with a larger id. */
  ghost predicate OwnsAbove(nodes: map<NodeId, Node>, k: NodeId)
    requires k in nodes
  {
    (forall i :: 0 <= i < |nodes[k].children| ==> k < nodes[k].children[i] && nodes[k].children[i] in nodes) &&
    (forall i :: 0 <= i < |nodes[k].attributes| ==> k < nodes[k].attributes[i] && nodes[k].attributes[i] in nodes)
  }

  ghost predicate Wf(nodes: map<NodeId, Node>, next: nat)
  {
    (forall k :: k in nodes ==> k < next) &&
    (forall k :: k in nodes ==> OwnsAbove(nodes, k))
  }

  /** Two nodes that differ at most in their parent link. */
  predicate SameShape(a: Node, b: Node)
  {
    a.kind == b.kind && a.localName == b.localName && a.namespace == b.namespace && a.value == b.value &&
    a.attributes == b.attributes && a.children == b.children
  }

  // ---------------------------------------------------------------------
  // Subtrees as values

  /** A subtree read out of the store, without parent links. */
  datatype XTree = XTree(kind: NodeKind, localName: Option<string>, namespace: Option<string>, value: string,
                         attributes: seq<XTree>, children: seq<XTree>)

  function Tree(nodes: map<NodeId, Node>, next: nat, n: NodeId): XTree
    requires Wf(nodes, next)
    decreases next - n
  {
    if n !in nodes then XTree(Dummy, None, None, "", [], [])
    else
      var nd := nodes[n];
      assert OwnsAbove(nodes, n);
      XTree(nd.kind, nd.localName, nd.namespace, nd.value,
            seq(|nd.attributes|, i requires 0 <= i < |nd.attributes| => Tree(nodes, next, nd.attributes[i])),
            seq(|nd.children|, i requires 0 <= i < |nd.children| => Tree(nodes, next, nd.children[i])))
  }

  /**
   * A subtree reads only nodes with ids at or above its root: if those keep
   * their shape, the subtree is unchanged.
   */
  lemma {:induction false} TreeFrame(nodes1: map<NodeId, Node>, next1: nat, nodes2: map<NodeId, Node>, next2: nat, n: NodeId)
    requires Wf(nodes1, next1) && Wf(nodes2, next2) && n in nodes1
    requires forall k :: k in nodes1 && n <= k ==> k in nodes2 && SameShape(nodes1[k], nodes2[k])
    ensures Tree(nodes1, next1, n) == Tree(nodes2, next2, n)
    decreases next1 - n
  {
    var nd := nodes1[n];
    assert OwnsAbove(nodes1, n);
    forall i | 0 <= i < |nd.attributes|
      ensures Tree(nodes1, next1, nd.attributes[i]) == Tree(nodes2, next2, nd.attributes[i])
    {
      TreeFrame(nodes1, next1, nodes2, next2, nd.attributes[i]);
    }
    forall i | 0 <= i < |nd.children|
      ensures Tree(nodes1, next1, nd.children[i]) == Tree(nodes2, next2, nd.children[i])
    {
      TreeFrame(nodes1, next1, nodes2, next2, nd.children[i]);
    }
  }

  /** Every node of `before` but `p` is still there, with at most its parent link changed. */
  ghost predicate ShapesKeptBut(before: map<NodeId, Node>, after: map<NodeId, Node>, p: NodeId)
  {
    forall k :: k in before && k != p ==> k in after && SameShape(before[k], after[k])
  }

  lemma ShapesKeptTransitive(n1: map<NodeId, Node>, n2: map<NodeId, Node>, n3: map<NodeId, Node>, p: NodeId)
    requires ShapesKeptBut(n1, n2, p) && ShapesKeptBut(n2, n3, p)
    ensures ShapesKeptBut(n1, n3, p)
  {
    forall k | k in n1 && k != p
      ensures k in n3 && SameShape(n1[k], n3[k])
    {
      assert SameShape(n1[k], n2[k]) && SameShape(n2[k], n3[k]);
    }
  }

  /** Linking `c` under `p` changes the shape of `p` only. */
  lemma LinkedShapes(before: map<NodeId, Node>, after: map<NodeId, Node>, p: NodeId, c: NodeId)
    requires c in before && c in after && after[c] == before[c].(parent := Some(p))
    requires forall k :: k in before && k != p && k != c ==> k in after && after[k] == before[k]
    ensures ShapesKeptBut(before, after, p)
  {
  }

  /** The subtrees at `ids`, in order. */
  function Trees(nodes: map<NodeId, Node>, next: nat, ids: seq<NodeId>): (r: seq<XTree>)
    requires Wf(nodes, next)
    ensures |r| == |ids|
  {
    seq(|ids|, i requires 0 <= i < |ids| => Tree(nodes, next, ids[i]))
  }

  /** Subtrees rooted above `p` survive any change that keeps the shape of every node but `p`. */
  lemma TreesFrame(nodes1: map<NodeId, Node>, next1: nat, nodes2: map<NodeId, Node>, next2: nat, p: NodeId, ids: seq<NodeId>)
    requires Wf(nodes1, next1) && Wf(nodes2, next2) && ShapesKeptBut(nodes1, nodes2, p)
    requires forall q :: q in ids ==> q in nodes1 && p < q
    ensures Trees(nodes1, next1, ids) == Trees(nodes2, next2, ids)
  {
    forall j | 0 <= j < |ids|
      ensures Tree(nodes1, next1, ids[j]) == Tree(nodes2, next2, ids[j])
    {
      assert ids[j] in ids;
      TreeFrame(nodes1, next1, nodes2, next2, ids[j]);
    }
  }

  /** The subtree of a text node holding `s`. */
  function TextTree(s: string): XTree
  {
    XTree(Text, None, None, s, [], [])
  }

  /**
   * A text node reads as its text, and a node that reads as a text with a
   * given parent is that text node.
   */
  lemma TextNodeTree(nodes: map<NodeId, Node>, next: nat, t: NodeId, s: string, parent: Option<NodeId>)
    requires Wf(nodes, next) && t in nodes && nodes[t].parent == parent
    ensures nodes[t] == TextNode(s, parent) <==> Tree(nodes, next, t) == TextTree(s)
  {
    var nd := nodes[t];
    if Tree(nodes, next, t) == TextTree(s) {
      assert |nd.attributes| == 0 && |nd.children| == 0;
    }
  }

  /** Attributes compare by name, namespace and value. */
  predicate AttributeEq(a: XTree, b: XTree)
  {
    a.localName == b.localName && a.namespace == b.namespace && a.value == b.value
  }

  /** Some attribute of `attrs` equals `a`. */
  predicate HasEqualAttribute(attrs: seq<XTree>, a: XTree)
  {
    exists j :: 0 <= j < |attrs| && AttributeEq(a, attrs[j])
  }

  /** Every attribute of `as1` has an equal partner in `as2`. */
  predicate AttributesCovered(as1: seq<XTree>, as2: seq<XTree>)
  {
    forall i :: 0 <= i < |as1| ==> HasEqualAttribute(as2, as1[i])
  }

  /**
   * Structural equality of subtrees (`E4XNode::equals`, after section
   * 9.1.1.9 of ECMA-357): same kind, name, namespace and value, the same
   * number of attributes with every attribute matched by an equal one, and
   * pairwise equal children in order.
   */
  predicate TreeEq(a: XTree, b: XTree)
    decreases a
  {
    a.kind == b.kind && a.localName == b.localName && a.namespace == b.namespace && a.value == b.value &&
    |a.attributes| == |b.attributes| && AttributesCovered(a.attributes, b.attributes) &&
    |a.children| == |b.children| &&
    (forall i :: 0 <= i < |a.children| ==> TreeEq(a.children[i], b.children[i]))
  }

  lemma AttributesCoveredReflexive(attrs: seq<XTree>)
    ensures AttributesCovered(attrs, attrs)
  {
    forall i | 0 <= i < |attrs|
      ensures HasEqualAttribute(attrs, attrs[i])
    {
      assert AttributeEq(attrs[i], attrs[i]);
    }
  }

  /** Every subtree is structurally equal to itself. */
  lemma {:induction false} TreeEqReflexive(t: XTree)
    ensures TreeEq(t, t)
    decreases t
  {
    AttributesCoveredReflexive(t.attributes);
    forall i | 0 <= i < |t.children|
      ensures TreeEq(t.children[i], t.children[i])
    {
      TreeEqReflexive(t.children[i]);
    }
  }

  // ---------------------------------------------------------------------
  // Content classification and string conversion

  predicate IsTextLike(k: NodeKind)
  {
    k == Text || k == CData || k == Attribute
  }

  /**
   * `has_simple_content`: text, CDATA and attribute nodes have simple
   * content, comments and processing instructions do not, and an element
   * has it iff none of its children is an element.
   */
  predicate HasSimpleContent(t: XTree)
  {
    match t.kind
    case Element => forall i :: 0 <= i < |t.children| ==> t.children[i].kind != Element
    case Text => true
    case CData => true
    case Attribute => true
    case Comment => false
    case ProcessingInstruction => false
    case Dummy => false
  }

  /** `has_complex_content`: an element with at least one element child. */
  predicate HasComplexContent(t: XTree)
  {
    t.kind == Element && exists i :: 0 <= i < |t.children| && t.children[i].kind == Element
  }

  /** Simple and complex content exclude each other. */
  lemma SimpleExcludesComplex(t: XTree)
    ensures !(HasSimpleContent(t) && HasComplexContent(t))
  {
  }

  function Concat(ss: seq<string>): string
  {
    if ss == [] then "" else Concat(ss[..|ss| - 1]) + ss[|ss| - 1]
  }

  /** `xml_to_xml_string`: the markup of a subtree (no escaping, no indentation, no namespace declarations). */
  function ToXmlString(t: XTree): string
    decreases t, 1
  {
    var name := t.localName.GetOr("");
    match t.kind
    case Text => t.value
    case Attribute => t.value
    case CData => "<![CDATA[" + t.value + "]]>"
    case Comment => "<!--" + t.value + "-->"
    case ProcessingInstruction => "<?" + name + " " + t.value + "?>"
    case Dummy => ""
    case Element =>
      "<" + name + AttributesMarkup(t.attributes) +
      (if t.children == [] then "/>"
       else ">" + ChildrenMarkup(t.children) + "</" + name + ">")
  }

  function AttributesMarkup(attrs: seq<XTree>): string
    decreases attrs, 0
  {
    if attrs == [] then ""
    else AttributesMarkup(attrs[..|attrs| - 1]) +
         " " + attrs[|attrs| - 1].localName.GetOr("") + "=\"" + attrs[|attrs| - 1].value + "\""
  }

  function ChildrenMarkup(children: seq<XTree>): string
    decreases children, 0
  {
    if children == [] then ""
    else ChildrenMarkup(children[..|children| - 1]) + ToXmlString(children[|children| - 1])
  }

  /**
   * `simple_content_to_string`: the string values of the items, skipping
   * comments and processing instructions, concatenated.
   */
  function SimpleChildrenText(children: seq<XTree>): string
    decreases children, 0
  {
    if children == [] then ""
    else
      var last := children[|children| - 1];
      SimpleChildrenText(children[..|children| - 1]) +
      (if last.kind == Comment || last.kind == ProcessingInstruction then "" else ToStringTree(last))
  }

  /**
   * `xml_to_string`: the value of a text, CDATA or attribute node, the
   * concatenated text of an element with simple content, and the markup of
   * anything else.
   */
  function ToStringTree(t: XTree): (s: string)
    decreases t, 1
    ensures IsTextLike(t.kind) ==> s == t.value
    ensures !IsTextLike(t.kind) && !HasSimpleContent(t) ==> s == ToXmlString(t)
  {
    if IsTextLike(t.kind) then t.value
    else if HasSimpleContent(t) then SimpleChildrenText(t.children)
    else ToXmlString(t)
  }

  /** `E4XNode::length`: the number of children of an element, None for other kinds. */
  function NodeLength(n: Node): (r: Option<nat>)
    ensures r.Some? <==> n.kind == Element
    ensures r.Some? ==> r.value == |n.children|
  {
    if n.kind == Element then Some(|n.children|) else None
  }

  /** A node whose attributes and children read as the parts of `t` reads as `t`. */
  lemma BuiltTree(nodes: map<NodeId, Node>, next: nat, c: NodeId, t: XTree)
    requires Wf(nodes, next) && c in nodes
    requires nodes[c].kind == t.kind && nodes[c].localName == t.localName
    requires nodes[c].namespace == t.namespace && nodes[c].value == t.value
    requires |nodes[c].attributes| == |t.attributes| && |nodes[c].children| == |t.children|
    requires forall j :: 0 <= j < |t.attributes| ==> Tree(nodes, next, nodes[c].attributes[j]) == t.attributes[j]
    requires forall j :: 0 <= j < |t.children| ==> Tree(nodes, next, nodes[c].children[j]) == t.children[j]
    ensures Tree(nodes, next, c) == t
  {
    var r := Tree(nodes, next, c);
    assert r.attributes == t.attributes;
    assert r.children == t.children;
  }

  /** The attributes (or the children) of `n`. */
  function Owned(n: Node, asAttribute: bool): seq<NodeId>
  {
    if asAttribute then n.attributes else n.children
  }

  /** `n` with its attributes (or children) replaced by `ids`. */
  function SetOwned(n: Node, asAttribute: bool, ids: seq<NodeId>): (r: Node)
    ensures Owned(r, asAttribute) == ids && Owned(r, !asAttribute) == Owned(n, !asAttribute)
  {
    if asAttribute then n.(attributes := ids) else n.(children := ids)
  }

  /** `nodes` with `a` appended to the attributes (or children) of `c`. */
  function WithOwned(nodes: map<NodeId, Node>, c: NodeId, a: NodeId, asAttribute: bool): map<NodeId, Node>
    requires c in nodes
  {
    nodes[c := SetOwned(nodes[c], asAttribute, Owned(nodes[c], asAttribute) + [a])]
  }

  /** Giving `c` a live owned node above it keeps the store well formed. */
  lemma WithOwnedWf(nodes: map<NodeId, Node>, next: nat, c: NodeId, a: NodeId, asAttribute: bool)
    requires Wf(nodes, next) && c in nodes && a in nodes && c < a
    ensures Wf(WithOwned(nodes, c, a, asAttribute), next)
  {
    var m := WithOwned(nodes, c, a, asAttribute);
    forall k | k in m ensures OwnsAbove(m, k) {
      assert OwnsAbove(nodes, k);
    }
  }

  /** Replacing one node by a node whose owned ids are live and above it keeps the store well formed. */
  lemma UpdateWf(nodes: map<NodeId, Node>, next: nat, k: NodeId, nd: Node)
    requires Wf(nodes, next) && k in nodes
    requires forall i :: 0 <= i < |nd.children| ==> k < nd.children[i] && nd.children[i] in nodes
    requires forall i :: 0 <= i < |nd.attributes| ==> k < nd.attributes[i] && nd.attributes[i] in nodes
    ensures Wf(nodes[k := nd], next)
  {
    var m := nodes[k := nd];
    forall j | j in m ensures OwnsAbove(m, j) {
      if j != k {
        assert OwnsAbove(nodes, j);
      }
    }
  }

  /** `nodes` with the parent link of every live id in `ids` set to `p`. */
  function WithParent(nodes: map<NodeId, Node>, ids: seq<NodeId>, p: Option<NodeId>): (r: map<NodeId, Node>)
    ensures r.Keys == nodes.Keys
    ensures forall k :: k in nodes ==> r[k] == (if k in ids then nodes[k].(parent := p) else nodes[k])
  {
    if ids == [] then nodes
    else
      var rest := WithParent(nodes, ids[..|ids| - 1], p);
      var last := ids[|ids| - 1];
      assert forall k :: k in ids <==> k in ids[..|ids| - 1] || k == last;
      if last in rest then rest[last := rest[last].(parent := p)] else rest
  }

  /** Changing parent links only keeps the store well formed. */
  lemma WithParentWf(nodes: map<NodeId, Node>, next: nat, ids: seq<NodeId>, p: Option<NodeId>)
    requires Wf(nodes, next)
    ensures Wf(WithParent(nodes, ids, p), next)
  {
    var m := WithParent(nodes, ids, p);
    forall k | k in m ensures OwnsAbove(m, k) {
      assert OwnsAbove(nodes, k);
    }
  }

  /** `nodes` with element `p` stripped of its children, which lose their parent. */
  function ChildrenCleared(nodes: map<NodeId, Node>, next: nat, p: NodeId): (r: map<NodeId, Node>)
    requires Wf(nodes, next) && p in nodes && nodes[p].kind == Element
    ensures Wf(r, next) && r.Keys == nodes.Keys
    ensures r[p] == nodes[p].(children := [])
    ensures forall c :: c in nodes[p].children ==> r[c] == nodes[c].(parent := None)
    ensures forall k :: k in nodes && k != p && k !in nodes[p].children ==> r[k] == nodes[k]
  {
    var cs := nodes[p].children;
    assert OwnsAbove(nodes, p);
    assert p !in cs;
    var cleared := WithParent(nodes, cs, None);
    assert cleared[p] == nodes[p];
    WithParentWf(nodes, next, cs, None);
    SetOwnedWf(cleared, next, p, false, []);
    cleared[p := SetOwned(cleared[p], false, [])]
  }

  /** Giving `k` a new owned list of live ids above it keeps the store well formed. */
  lemma SetOwnedWf(nodes: map<NodeId, Node>, next: nat, k: NodeId, asAttribute: bool, ids: seq<NodeId>)
    requires Wf(nodes, next) && k in nodes
    requires forall x :: x in ids ==> k < x && x in nodes
    ensures Wf(nodes[k := SetOwned(nodes[k], asAttribute, ids)], next)
  {
    assert OwnsAbove(nodes, k);
    var nd := SetOwned(nodes[k], asAttribute, ids);
    assert forall i :: 0 <= i < |nd.children| ==> nd.children[i] in nd.children;
    assert forall i :: 0 <= i < |nd.attributes| ==> nd.attributes[i] in nd.attributes;
    UpdateWf(nodes, next, k, nd);
  }

  /**
   * `nodes` after element `p` drops the children (or attributes) that match
   * `name`, whose parent links are cleared.
   */
  function RemovedMatching(nodes: map<NodeId, Node>, p: NodeId, name: Multiname, asAttribute: bool): map<NodeId, Node>
    requires p in nodes
  {
    var ids := Owned(nodes[p], asAttribute);
    var cleared := WithParent(nodes, Matching(nodes, ids, name), None);
    cleared[p := SetOwned(cleared[p], asAttribute, NonMatching(nodes, ids, name))]
  }

  /** The children (or attributes) of a live node are live and above it. */
  lemma OwnedAbove(nodes: map<NodeId, Node>, next: nat, p: NodeId, asAttribute: bool)
    requires Wf(nodes, next) && p in nodes
    ensures forall x :: x in Owned(nodes[p], asAttribute) ==> p < x && x in nodes
  {
    assert OwnsAbove(nodes, p);
    var ids := Owned(nodes[p], asAttribute);
    assert ids == nodes[p].children || ids == nodes[p].attributes;
  }

  /** Removing the matches keeps the store well formed. */
  lemma RemovedMatchingWf(nodes: map<NodeId, Node>, next: nat, p: NodeId, name: Multiname, asAttribute: bool)
    requires Wf(nodes, next) && p in nodes
    ensures Wf(RemovedMatching(nodes, p, name, asAttribute), next)
  {
    var ids := Owned(nodes[p], asAttribute);
    OwnedAbove(nodes, next, p, asAttribute);
    var m := Matching(nodes, ids, name);
    var kept := NonMatching(nodes, ids, name);
    var cleared := WithParent(nodes, m, None);
    WithParentWf(nodes, next, m, None);
    SetOwnedWf(cleared, next, p, asAttribute, kept);
  }

  /** Removing matches changes the shape of `p` only: the removed nodes just lose their parent. */
  lemma RemovedMatchingShapes(nodes: map<NodeId, Node>, p: NodeId, name: Multiname, asAttribute: bool)
    requires p in nodes
    ensures ShapesKeptBut(nodes, RemovedMatching(nodes, p, name, asAttribute), p)
  {
    var cleared := WithParent(nodes, Matching(nodes, Owned(nodes[p], asAttribute), name), None);
    forall k | k in nodes && k != p
      ensures k in RemovedMatching(nodes, p, name, asAttribute) &&
              SameShape(nodes[k], RemovedMatching(nodes, p, name, asAttribute)[k])
    {
      assert RemovedMatching(nodes, p, name, asAttribute)[k] == cleared[k];
    }
  }

  /**
   * Removing the matches keeps the non-matches in order, detaches exactly
   * the matches and leaves every other node as it was.
   */
  lemma RemovedMatchingEffect(nodes: map<NodeId, Node>, next: nat, p: NodeId, name: Multiname, asAttribute: bool)
    requires Wf(nodes, next) && p in nodes
    ensures var r := RemovedMatching(nodes, p, name, asAttribute);
            var ids := Owned(nodes[p], asAttribute);
            r.Keys == nodes.Keys &&
            r[p] == SetOwned(nodes[p], asAttribute, NonMatching(nodes, ids, name)) &&
            (forall k :: k in nodes && k != p && !(k in ids && Matches(nodes, k, name)) ==> r[k] == nodes[k]) &&
            (forall k :: k in ids && Matches(nodes, k, name) ==> r[k] == nodes[k].(parent := None))
  {
    var ids := Owned(nodes[p], asAttribute);
    OwnedAbove(nodes, next, p, asAttribute);
    assert p !in ids;
    var m := Matching(nodes, ids, name);
    var cleared := WithParent(nodes, m, None);
    assert cleared[p] == nodes[p];
    assert forall k :: k in m <==> k in ids && Matches(nodes, k, name);
  }

  /** `nodes` with the child in slot `i` of `p` detached and every placed node attached to `p`. */
  function Reparented(nodes: map<NodeId, Node>, p: NodeId, i: nat, placed: seq<NodeId>): map<NodeId, Node>
    requires p in nodes
  {
    var cs := nodes[p].children;
    var removed := if i < |cs| then [cs[i]] else [];
    WithParent(WithParent(nodes, removed, None), placed, Some(p))
  }

  /**
   * `nodes` after the child slot `i` of element `p` is replaced by
   * `placed`: the replaced child is detached and every placed node gets `p`
   * as its parent.
   */
  function Replaced(nodes: map<NodeId, Node>, p: NodeId, i: nat, placed: seq<NodeId>): map<NodeId, Node>
    requires p in nodes && i <= |nodes[p].children|
  {
    var attached := Reparented(nodes, p, i, placed);
    attached[p := SetOwned(attached[p], false, Splice(nodes[p].children, i, placed))]
  }

  lemma ReparentedWf(nodes: map<NodeId, Node>, next: nat, p: NodeId, i: nat, placed: seq<NodeId>)
    requires Wf(nodes, next) && p in nodes
    ensures Wf(Reparented(nodes, p, i, placed), next)
    ensures Reparented(nodes, p, i, placed).Keys == nodes.Keys
  {
    var cs := nodes[p].children;
    var removed := if i < |cs| then [cs[i]] else [];
    WithParentWf(nodes, next, removed, None);
    WithParentWf(WithParent(nodes, removed, None), next, placed, Some(p));
  }

  lemma ReplacedWf(nodes: map<NodeId, Node>, next: nat, p: NodeId, i: nat, placed: seq<NodeId>)
    requires Wf(nodes, next) && p in nodes && i <= |nodes[p].children|
    requires forall q :: q in placed ==> q in nodes && p < q
    ensures Wf(Replaced(nodes, p, i, placed), next)
  {
    var cs := nodes[p].children;
    OwnedAbove(nodes, next, p, false);
    SpliceMembers(cs, i, placed);
    ReparentedWf(nodes, next, p, i, placed);
    SplicedWf(Reparented(nodes, p, i, placed), next, p, Splice(cs, i, placed), nodes.Keys);
  }

  lemma SplicedWf(attached: map<NodeId, Node>, next: nat, p: NodeId, spliced: seq<NodeId>, keys: set<NodeId>)
    requires Wf(attached, next) && p in attached && attached.Keys == keys
    requires forall x :: x in spliced ==> p < x && x in keys
    ensures Wf(attached[p := SetOwned(attached[p], false, spliced)], next)
  {
    SetOwnedWf(attached, next, p, false, spliced);
  }

  lemma ReparentedEffect(nodes: map<NodeId, Node>, p: NodeId, i: nat, placed: seq<NodeId>)
    requires p in nodes
    ensures var r := Reparented(nodes, p, i, placed);
            var cs := nodes[p].children;
            forall k :: k in nodes ==>
              r[k] == (if k in placed then nodes[k].(parent := Some(p))
                       else if i < |cs| && k == cs[i] then nodes[k].(parent := None)
                       else nodes[k])
  {
  }

  /**
   * After a replacement the placed nodes hang under `p`, the replaced child
   * (unless placed again) is detached, and nothing else changes.
   */
  lemma ReplacedEffect(nodes: map<NodeId, Node>, next: nat, p: NodeId, i: nat, placed: seq<NodeId>)
    requires Wf(nodes, next) && p in nodes && i <= |nodes[p].children|
    requires forall q :: q in placed ==> q in nodes && p < q
    ensures var r := Replaced(nodes, p, i, placed);
            var cs := nodes[p].children;
            r.Keys == nodes.Keys &&
            r[p] == nodes[p].(children := Splice(cs, i, placed)) &&
            (forall q :: q in placed ==> r[q] == nodes[q].(parent := Some(p))) &&
            (i < |cs| && cs[i] !in placed ==> r[cs[i]] == nodes[cs[i]].(parent := None)) &&
            (forall k :: k in nodes && k != p && k !in placed && !(i < |cs| && k == cs[i]) ==> r[k] == nodes[k])
  {
    OwnedAbove(nodes, next, p, false);
    assert p !in placed;
    ReparentedEffect(nodes, p, i, placed);
  }

  /** A replacement changes the shape of `p` only: every other node at most changes parent. */
  lemma ReplacedShapes(nodes: map<NodeId, Node>, p: NodeId, i: nat, placed: seq<NodeId>)
    requires p in nodes && i <= |nodes[p].children|
    ensures ShapesKeptBut(nodes, Replaced(nodes, p, i, placed), p)
  {
    var attached := Reparented(nodes, p, i, placed);
    ReparentedEffect(nodes, p, i, placed);
    forall k | k in nodes && k != p
      ensures k in Replaced(nodes, p, i, placed) && SameShape(nodes[k], Replaced(nodes, p, i, placed)[k])
    {
      assert Replaced(nodes, p, i, placed)[k] == attached[k];
    }
  }

  lemma SpliceMembers(ids: seq<NodeId>, i: nat, placed: seq<NodeId>)
    requires i <= |ids|
    ensures forall x :: x in Splice(ids, i, placed) ==> x in ids || x in placed
  {
    var tail := if i < |ids| then ids[i + 1..] else [];
    assert Splice(ids, i, placed) == ids[..i] + placed + tail;
    assert forall x :: x in tail ==> x in ids;
  }

  /** `ids` without any occurrence of `c`. */
  function Without(ids: seq<NodeId>, c: NodeId): (r: seq<NodeId>)
    ensures |r| <= |ids| && c !in r
    ensures forall x :: x in r <==> x in ids && x != c
  {
    if ids == [] then []
    else Without(ids[..|ids| - 1], c) + (if ids[|ids| - 1] == c then [] else [ids[|ids| - 1]])
  }

  /** The slot `E4XNode::replace` writes: `index`, clamped to the end of `ids`. */
  function ReplaceSlot(ids: seq<NodeId>, index: nat): (i: nat)
    ensures i <= |ids| && (index < |ids| ==> i == index) && (index >= |ids| ==> i == |ids|)
  {
    if index < |ids| then index else |ids|
  }

  /** `ids` with the entry at `i` (if any) replaced by `placed`. */
  function Splice(ids: seq<NodeId>, i: nat, placed: seq<NodeId>): (r: seq<NodeId>)
    requires i <= |ids|
    ensures i < |ids| ==> |r| == |ids| - 1 + |placed|
    ensures i == |ids| ==> |r| == |ids| + |placed|
    ensures r[..i] == ids[..i] && r[i..i + |placed|] == placed
  {
    ids[..i] + placed + (if i < |ids| then ids[i + 1..] else [])
  }

  // ---------------------------------------------------------------------
  // The arena

  /** What `E4XNode::replace` puts at an index: one node, the nodes of a list, or a string. */
  datatype Replacement = WithNode(node: NodeId) | WithNodes(nodes: seq<NodeId>) | WithText(text: string)

  class NodeStore {
    var nodes: map<NodeId, Node>
    var next: nat

    ghost predicate Valid()
      reads this
    {
      Wf(nodes, next)
    }

    function Get(id: NodeId): Node
      reads this
    {
      Lookup(nodes, id)
    }

    function TreeOf(id: NodeId): XTree
      reads this
      requires Valid()
    {
      Tree(nodes, next, id)
    }

    constructor ()
      ensures Valid() && nodes == map[] && next == 0
    {
      nodes := map[];
      next := 0;
    }

    /** Allocate a node with no children or attributes. */
    method Alloc(n: Node) returns (id: NodeId)
      requires Valid() && n.children == [] && n.attributes == []
      modifies this
      ensures Valid()
      ensures id == old(next) && id !in old(nodes) && next == old(next) + 1
      ensures nodes == old(nodes)[id := n]
    {
      id := next;
      nodes := nodes[id := n];
      next := next + 1;
      assert forall k :: k in nodes ==> OwnsAbove(nodes, k) by {
        forall k | k in nodes ensures OwnsAbove(nodes, k) {
          if k != id {
            assert OwnsAbove(old(nodes), k);
          }
        }
      }
    }

    /**
     * Allocate fresh nodes holding a copy of `t`; the root's parent is
     * `parent`.  Existing nodes are untouched and the new ids are exactly
     * those from the old `next` on.
     */
    method Build(t: XTree, parent: Option<NodeId>) returns (c: NodeId)
      requires Valid()
      modifies this
      ensures Valid()
      ensures c == old(next) && c in nodes && c < next
      ensures forall k :: k in old(nodes) ==> k in nodes && nodes[k] == old(nodes[k])
      ensures forall k :: k in nodes ==> k in old(nodes) || old(next) <= k
      ensures nodes[c].parent == parent
      ensures Tree(nodes, next, c) == t
      decreases t, 2
    {
      c := Alloc(Node(t.kind, t.localName, t.namespace, t.value, parent, [], []));
      BuildOwned(c, t.attributes, true, t);
      BuildOwned(c, t.children, false, t);
      BuiltTree(nodes, next, c, t);
    }

    /**
     * Fill the empty attribute (or child) list of `c` with fresh copies of
     * `ts`, keeping the other list's subtrees.
     */
    method BuildOwned(c: NodeId, ts: seq<XTree>, asAttribute: bool, ghost whole: XTree)
      requires Valid() && c in nodes && Owned(nodes[c], asAttribute) == []
      requires forall i :: 0 <= i < |ts| ==> ts[i] < whole
      modifies this
      ensures Valid() && c in nodes
      ensures forall k :: k in old(nodes) && k != c ==> k in nodes && nodes[k] == old(nodes[k])
      ensures forall k :: k in nodes ==> k in old(nodes) || old(next) <= k
      ensures nodes[c] == SetOwned(old(nodes[c]), asAttribute, Owned(nodes[c], asAttribute))
      ensures |Owned(nodes[c], asAttribute)| == |ts|
      ensures forall j :: 0 <= j < |ts| ==> Tree(nodes, next, Owned(nodes[c], asAttribute)[j]) == ts[j]
      ensures forall x :: x in Owned(nodes[c], !asAttribute) ==> Tree(nodes, next, x) == Tree(old(nodes), old(next), x)
      decreases whole, 1
    {
      var i := 0;
      while i < |ts|
        invariant Valid() && c in nodes && i <= |ts| && old(next) <= next
        invariant forall k :: k in old(nodes) && k != c ==> k in nodes && nodes[k] == old(nodes[k])
        invariant forall k :: k in nodes ==> k in old(nodes) || old(next) <= k
        invariant nodes[c] == SetOwned(old(nodes[c]), asAttribute, Owned(nodes[c], asAttribute))
        invariant |Owned(nodes[c], asAttribute)| == i
        invariant forall j :: 0 <= j < i ==> Tree(nodes, next, Owned(nodes[c], asAttribute)[j]) == ts[j]
        invariant forall x :: x in Owned(nodes[c], !asAttribute) ==> Tree(nodes, next, x) == Tree(old(nodes), old(next), x)
      {
        ghost var owned0 := Owned(nodes[c], asAttribute);
        ghost var others0 := Owned(nodes[c], !asAttribute);
        ghost var nodes0, next0 := nodes, next;
        var a := AddBuilt(c, ts[i], asAttribute);
        assert Owned(nodes[c], asAttribute) == owned0 + [a];
        assert Owned(nodes[c], !asAttribute) == others0;
        forall j | 0 <= j < i + 1
          ensures Tree(nodes, next, Owned(nodes[c], asAttribute)[j]) == ts[j]
        {
          if j < i {
            assert owned0[j] in owned0;
            assert Tree(nodes, next, owned0[j]) == Tree(nodes0, next0, owned0[j]);
          }
        }
        forall x | x in others0
          ensures Tree(nodes, next, x) == Tree(old(nodes), old(next), x)
        {
          assert Tree(nodes, next, x) == Tree(nodes0, next0, x);
        }
        i := i + 1;
      }
    }

    /**
     * Build a copy of `t` under `c` and append it to `c`'s attributes (or
     * children); subtrees already under `c` are unchanged.
     */
    method AddBuilt(c: NodeId, t: XTree, asAttribute: bool) returns (a: NodeId)
      requires Valid() && c in nodes
      modifies this
      ensures Valid() && a in nodes && c < a && c in nodes && old(next) <= next
      ensures forall k :: k in old(nodes) && k != c ==> k in nodes && nodes[k] == old(nodes[k])
      ensures forall k :: k in nodes ==> k in old(nodes) || old(next) <= k
      ensures nodes[c] == SetOwned(old(nodes[c]), asAttribute, Owned(old(nodes[c]), asAttribute) + [a])
      ensures Tree(nodes, next, a) == t
      ensures forall x :: x in old(nodes[c].attributes) || x in old(nodes[c].children) ==>
                Tree(nodes, next, x) == Tree(old(nodes), old(next), x)
      decreases t, 3
    {
      ghost var nodes0, next0 := nodes, next;
      assert OwnsAbove(nodes0, c);
      a := Build(t, Some(c));
      ghost var nodes1, next1 := nodes, next;
      nodes := WithOwned(nodes, c, a, asAttribute);
      WithOwnedWf(nodes1, next1, c, a, asAttribute);
      TreeFrame(nodes1, next1, nodes, next, a);
      forall x | x in old(nodes[c].attributes) || x in old(nodes[c].children)
        ensures Tree(nodes, next, x) == Tree(nodes0, next0, x)
      {
        TreeFrame(nodes0, next0, nodes, next, x);
      }
    }
    /** Point `k`'s parent link at `p`; nothing else changes. */
    method SetParent(k: NodeId, p: Option<NodeId>)
      requires Valid()
      modifies this
      ensures Valid() && next == old(next)
      ensures k in old(nodes) ==> nodes == old(nodes)[k := old(nodes[k]).(parent := p)]
      ensures k !in old(nodes) ==> nodes == old(nodes)
    {
      if k in nodes {
        assert OwnsAbove(nodes, k);
        UpdateWf(nodes, next, k, nodes[k].(parent := p));
        nodes := nodes[k := nodes[k].(parent := p)];
      }
    }

    /** Fresh, parentless copies of each of `ts`, in order; existing nodes are untouched. */
    method BuildAll(ts: seq<XTree>) returns (ids: seq<NodeId>)
      requires Valid()
      modifies this
      ensures Valid() && old(next) <= next && |ids| == |ts|
      ensures forall k :: k in old(nodes) ==> k in nodes && nodes[k] == old(nodes[k])
      ensures forall j :: 0 <= j < |ids| ==>
                old(next) <= ids[j] && ids[j] !in old(nodes) && ids[j] in nodes && nodes[ids[j]].parent == None &&
                Tree(nodes, next, ids[j]) == ts[j]
    {
      ids := [];
      var i := 0;
      while i < |ts|
        invariant i <= |ts| && |ids| == i
        invariant Valid() && old(next) <= next
        invariant forall k :: k in old(nodes) ==> k in nodes && nodes[k] == old(nodes[k])
        invariant forall j :: 0 <= j < i ==>
                    old(next) <= ids[j] && ids[j] !in old(nodes) && ids[j] in nodes && nodes[ids[j]].parent == None &&
                    Tree(nodes, next, ids[j]) == ts[j]
      {
        ghost var nodes0, next0 := nodes, next;
        var id := Build(ts[i], None);
        forall j | 0 <= j < i
          ensures Tree(nodes, next, ids[j]) == ts[j]
        {
          TreeFrame(nodes0, next0, nodes, next, ids[j]);
        }
        ids := ids + [id];
        i := i + 1;
      }
    }

    /** `deep_copy`: a fresh, parentless copy of the subtree at `n`. */
    method DeepCopy(n: NodeId) returns (c: NodeId)
      requires Valid()
      modifies this
      ensures Valid()
      ensures c == old(next) && c in nodes && c !in old(nodes)
      ensures forall k :: k in old(nodes) ==> k in nodes && nodes[k] == old(nodes[k])
      ensures forall k :: k in nodes ==> k in old(nodes) || old(next) <= k
      ensures nodes[c].parent == None
      ensures TreeOf(c) == old(TreeOf(n))
    {
      var t := Tree(nodes, next, n);
      c := Build(t, None);
    }

    /** `insert_at`: put `c` at `index` in the children of element `p` and make `p` its parent. */
    method InsertAt(p: NodeId, index: nat, c: NodeId)
      requires Valid() && Get(p).kind == Element && index <= |Get(p).children|
      requires c in nodes && p < c
      modifies this
      ensures Valid() && next == old(next) && nodes.Keys == old(nodes).Keys
      ensures nodes[p] == old(nodes[p]).(children := old(nodes[p].children[..index]) + [c] + old(nodes[p].children[index..]))
      ensures nodes[c] == old(nodes[c]).(parent := Some(p))
      ensures forall k :: k in old(nodes) && k != p && k != c ==> nodes[k] == old(nodes[k])
    {
      var n := nodes[p];
      UpdateWf(nodes, next, p, n.(children := n.children[..index] + [c] + n.children[index..]));
      nodes := nodes[p := n.(children := n.children[..index] + [c] + n.children[index..])];
      SetParent(c, Some(p));
    }

    /**
     * Remove every child (or attribute) of element `p` that matches `name`,
     * clearing the removed nodes' parent links (`RemovedMatching`).  The
     * result is the index and node of the first match
     * (`remove_matching_children` returns it; `delete_property_local`
     * ignores it).
     */
    method RemoveMatching(p: NodeId, name: Multiname, asAttribute: bool) returns (first: Option<(nat, NodeId)>)
      requires Valid() && Get(p).kind == Element
      modifies this
      ensures Valid() && next == old(next)
      ensures nodes == RemovedMatching(old(nodes), p, name, asAttribute)
      ensures first.None? <==> FirstMatch(old(nodes), Owned(old(nodes[p]), asAttribute), name).None?
      ensures first.Some? ==>
                first.value.0 == FirstMatch(old(nodes), Owned(old(nodes[p]), asAttribute), name).value &&
                first.value.1 == Owned(old(nodes[p]), asAttribute)[first.value.0]
    {
      var ids := Owned(nodes[p], asAttribute);
      first := match FirstMatch(nodes, ids, name)
        case None => None
        case Some(i) => Some((i, ids[i]));
      RemovedMatchingWf(nodes, next, p, name, asAttribute);
      nodes := RemovedMatching(nodes, p, name, asAttribute);
    }

    /** Append the live node `a` to the attributes of element `p` (`attributes.push`). */
    method AppendAttribute(p: NodeId, a: NodeId)
      requires Valid() && Get(p).kind == Element && a in nodes && p < a
      modifies this
      ensures Valid() && next == old(next) && nodes.Keys == old(nodes).Keys
      ensures nodes == old(nodes)[p := old(nodes[p]).(attributes := old(nodes[p].attributes) + [a])]
    {
      assert OwnsAbove(nodes, p);
      UpdateWf(nodes, next, p, nodes[p].(attributes := nodes[p].attributes + [a]));
      nodes := nodes[p := nodes[p].(attributes := nodes[p].attributes + [a])];
    }

    /**
     * `remove_all_children`: an element loses all its children, whose parent
     * links are cleared; other kinds of node are left alone.
     */
    method RemoveAllChildren(p: NodeId)
      requires Valid()
      modifies this
      ensures Valid() && next == old(next) && nodes.Keys == old(nodes).Keys
      ensures old(Get(p)).kind != Element ==> nodes == old(nodes)
      ensures old(Get(p)).kind == Element ==>
                nodes[p] == old(nodes[p]).(children := []) &&
                (forall c :: c in old(nodes[p].children) ==> nodes[c] == old(nodes[c]).(parent := None)) &&
                (forall k :: k in old(nodes) && k != p && k !in old(nodes[p].children) ==> nodes[k] == old(nodes[k]))
    {
      if Get(p).kind != Element {
        return;
      }
      nodes := ChildrenCleared(nodes, next, p);
    }

    /**
     * `E4XNode::replace` (after section 9.1.1.12 of ECMA-357) on element
     * `p`: the slot `index`, clamped to the end, is replaced by `placed`
     * (`Replaced`), which is the node itself, the nodes of a list, or a fresh
     * text node holding the string; an attribute node is placed as the text
     * of its value.
     */
    method Replace(p: NodeId, index: nat, rep: Replacement) returns (placed: seq<NodeId>)
      requires Valid() && Get(p).kind == Element
      requires rep.WithNode? ==> rep.node in nodes && p < rep.node
      requires rep.WithNodes? ==> forall j :: 0 <= j < |rep.nodes| ==> rep.nodes[j] in nodes && p < rep.nodes[j]
      modifies this
      ensures Valid() && old(nodes).Keys <= nodes.Keys
      ensures rep.WithNodes? ==> placed == rep.nodes && next == old(next)
      ensures rep.WithNode? && old(nodes[rep.node]).kind != Attribute ==> placed == [rep.node] && next == old(next)
      ensures rep.WithNode? && old(nodes[rep.node]).kind == Attribute ==>
                placed == [old(next)] && next == old(next) + 1 && old(next) in nodes &&
                nodes[old(next)] == TextNode(old(nodes[rep.node]).value, Some(p))
      ensures rep.WithText? ==>
                placed == [old(next)] && next == old(next) + 1 && old(next) in nodes &&
                nodes[old(next)] == TextNode(rep.text, Some(p))
      ensures nodes[p] == old(nodes[p]).(children := Splice(old(nodes[p].children), ReplaceSlot(old(nodes[p].children), index), placed))
      ensures forall q :: q in placed ==> q in nodes && p < q && nodes[q].parent == Some(p)
      ensures forall q :: q in placed && q in old(nodes) ==> nodes[q] == old(nodes[q]).(parent := Some(p))
      ensures var cs := old(nodes[p].children);
              var i := ReplaceSlot(cs, index);
              (i < |cs| && cs[i] !in placed ==> nodes[cs[i]] == old(nodes[cs[i]]).(parent := None)) &&
              forall k :: k in old(nodes) && k != p && k !in placed && !(i < |cs| && k == cs[i]) ==> nodes[k] == old(nodes[k])
      ensures ShapesKeptBut(old(nodes), nodes, p)
    {
      var i := ReplaceSlot(nodes[p].children, index);
      ghost var nodes0 := nodes;
      placed := Placed(p, rep);
      ghost var nodes1 := nodes;
      ReplaceAt(p, i, placed);
      ShapesKeptTransitive(nodes0, nodes1, nodes, p);
    }

    /**
     * The nodes `Replace` puts in the slot: the node itself, the nodes of a
     * list, or a fresh text node (for a string or an attribute's value).
     */
    method Placed(p: NodeId, rep: Replacement) returns (placed: seq<NodeId>)
      requires Valid() && p in nodes
      requires rep.WithNode? ==> rep.node in nodes && p < rep.node
      requires rep.WithNodes? ==> forall j :: 0 <= j < |rep.nodes| ==> rep.nodes[j] in nodes && p < rep.nodes[j]
      modifies this
      ensures Valid() && old(nodes).Keys <= nodes.Keys
      ensures forall k :: k in old(nodes) ==> nodes[k] == old(nodes[k])
      ensures rep.WithNodes? ==> placed == rep.nodes && next == old(next)
      ensures rep.WithNode? && old(nodes[rep.node]).kind != Attribute ==> placed == [rep.node] && next == old(next)
      ensures rep.WithNode? && old(nodes[rep.node]).kind == Attribute ==>
                placed == [old(next)] && next == old(next) + 1 && old(next) in nodes &&
                nodes[old(next)] == TextNode(old(nodes[rep.node]).value, Some(p))
      ensures rep.WithText? ==>
                placed == [old(next)] && next == old(next) + 1 && old(next) in nodes &&
                nodes[old(next)] == TextNode(rep.text, Some(p))
      ensures forall q :: q in placed ==> q in nodes && p < q
      ensures ShapesKeptBut(old(nodes), nodes, p)
    {
      match rep {
        case WithNode(c) =>
          if nodes[c].kind == Attribute {
            var t := Alloc(TextNode(nodes[c].value, Some(p)));
            placed := [t];
          } else {
            placed := [c];
          }
        case WithNodes(ns) =>
          placed := ns;
        case WithText(text) =>
          var t := Alloc(TextNode(text, Some(p)));
          placed := [t];
      }
    }

    /**
     * The store after slot `i` of element `p` is replaced by the live nodes
     * `placed` (`Replaced`).
     */
    method ReplaceAt(p: NodeId, i: nat, placed: seq<NodeId>)
      requires Valid() && p in nodes && i <= |nodes[p].children|
      requires forall q :: q in placed ==> q in nodes && p < q
      modifies this
      ensures Valid() && next == old(next) && nodes.Keys == old(nodes).Keys
      ensures nodes[p] == old(nodes[p]).(children := Splice(old(nodes[p].children), i, placed))
      ensures forall q :: q in placed ==> nodes[q] == old(nodes[q]).(parent := Some(p))
      ensures var cs := old(nodes[p].children);
              (i < |cs| && cs[i] !in placed ==> nodes[cs[i]] == old(nodes[cs[i]]).(parent := None)) &&
              forall k :: k in old(nodes) && k != p && k !in placed && !(i < |cs| && k == cs[i]) ==> nodes[k] == old(nodes[k])
      ensures ShapesKeptBut(old(nodes), nodes, p)
    {
      var r := Replaced(nodes, p, i, placed);
      ReplacedWf(nodes, next, p, i, placed);
      ReplacedEffect(nodes, next, p, i, placed);
      ReplacedShapes(nodes, p, i, placed);
      nodes := r;
      assert Wf(nodes, next);
    }

    /** `set_local_name`. */
    method SetLocalName(n: NodeId, name: string)
      requires Valid()
      modifies this
      ensures Valid() && next == old(next)
      ensures n in old(nodes) ==> nodes == old(nodes)[n := old(nodes[n]).(localName := Some(name))]
      ensures n !in old(nodes) ==> nodes == old(nodes)
    {
      if n in nodes {
        assert OwnsAbove(nodes, n);
        UpdateWf(nodes, next, n, nodes[n].(localName := Some(name)));
        nodes := nodes[n := nodes[n].(localName := Some(name))];
      }
    }

    /** `set_namespace`. */
    method SetNamespace(n: NodeId, namespace: string)
      requires Valid()
      modifies this
      ensures Valid() && next == old(next)
      ensures n in old(nodes) ==> nodes == old(nodes)[n := old(nodes[n]).(namespace := Some(namespace))]
      ensures n !in old(nodes) ==> nodes == old(nodes)
    {
      if n in nodes {
        assert OwnsAbove(nodes, n);
        UpdateWf(nodes, next, n, nodes[n].(namespace := Some(namespace)));
        nodes := nodes[n := nodes[n].(namespace := Some(namespace))];
      }
    }

    /**
     * `remove_child` / `remove_attribute`: drop every occurrence of `c`
     * from the children (or attributes) of element `p`.
     */
    method RemoveOwned(p: NodeId, c: NodeId, asAttribute: bool)
      requires Valid()
      modifies this
      ensures Valid() && next == old(next)
      ensures old(Get(p)).kind != Element ==> nodes == old(nodes)
      ensures old(Get(p)).kind == Element ==>
                nodes == old(nodes)[p := SetOwned(old(nodes[p]), asAttribute, Without(Owned(old(nodes[p]), asAttribute), c))]
    {
      if Get(p).kind == Element {
        assert OwnsAbove(nodes, p);
        var kept := Without(Owned(nodes[p], asAttribute), c);
        assert forall x :: x in Owned(nodes[p], asAttribute) ==> p < x && x in nodes;
        SetOwnedWf(nodes, next, p, asAttribute, kept);
        nodes := nodes[p := SetOwned(nodes[p], asAttribute, kept)];
      }
    }
  }
}
