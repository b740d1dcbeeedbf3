/** Link types and the value of one node: its id, title, content, source
    file and its five relation sets of node ids. */
module Nodes {
  import opened Common
  import opened Markup

  type Id = string

  /** The closed set of link types that Node.addLink accepts. */
  datatype LinkType = Base | Derived | Child | Parent | Related

  /** The string tag of a link type (the values of the `LinkType` table). */
  function Tag(t: LinkType): string
  {
    match t
    case Base => "Base"
    case Derived => "Derived"
    case Child => "Child"
    case Parent => "Parent"
    case Related => "Related"
  }

  /** The dispatch of Node.addLink: which link type a string tag names. Any
      other string, "None" included, names none and makes addLink throw. */
  function ParseTag(tag: string): (r: Option<LinkType>)
    ensures r.Some? <==> tag in {"Base", "Derived", "Child", "Parent", "Related"}
  {
    if tag == "Base" then Some(Base)
    else if tag == "Derived" then Some(Derived)
    else if tag == "Child" then Some(Child)
    else if tag == "Parent" then Some(Parent)
    else if tag == "Related" then Some(Related)
    else None
  }

  /** Tags and link types correspond one to one. */
  lemma TagRoundTrip(t: LinkType, tag: string)
    ensures ParseTag(Tag(t)) == Some(t)
    ensures ParseTag(tag) == Some(t) ==> tag == Tag(t)
  {
    match t
    case Base =>
    case Derived =>
    case Child =>
    case Parent =>
    case Related =>
  }

  /** The inverse table: Base and Derived, Child and Parent, Related alone. */
  function Inverse(t: LinkType): (u: LinkType)
    ensures (t == Base <==> u == Derived) && (t == Derived <==> u == Base)
    ensures (t == Child <==> u == Parent) && (t == Parent <==> u == Child)
    ensures t == Related <==> u == Related
  {
    match t
    case Base => Derived
    case Derived => Base
    case Child => Parent
    case Parent => Child
    case Related => Related
  }

  /** Taking the inverse twice gives back the link type. */
  lemma InverseInvolutive(t: LinkType)
    ensures Inverse(Inverse(t)) == t
  {
  }

  /** The value of a Node object. Fields JavaScript leaves undefined are
      NoTitle or None. */
  datatype NodeVal = NodeVal(
    id: Id,
    title: Title,
    content: Option<Content>,
    filename: Option<string>,
    bases: set<Id>,
    derived: set<Id>,
    parents: set<Id>,
    children: set<Id>,
    related: set<Id>)

  /** `new Node(id)`: the id and five empty sets, nothing else set. */
  function FreshNode(id: Id): (n: NodeVal)
    ensures n.id == id && n.title == NoTitle && n.content == None && n.filename == None
    ensures forall t :: Links(n, t) == {}
  {
    NodeVal(id, NoTitle, None, None, {}, {}, {}, {}, {})
  }

  /** The relation set a link type names. */
  function Links(n: NodeVal, t: LinkType): set<Id>
  {
    match t
    case Base => n.bases
    case Derived => n.derived
    case Child => n.children
    case Parent => n.parents
    case Related => n.related
  }

  /** Id, title, content and filename agree: the node differs at most in
      its relation sets. */
  predicate SameAttrs(m: NodeVal, n: NodeVal)
  {
    m.id == n.id && m.title == n.title && m.content == n.content && m.filename == n.filename
  }

  /** Two node values are equal when their attributes and all five relation
      sets agree. */
  lemma NodeValExt(m: NodeVal, n: NodeVal)
    requires SameAttrs(m, n)
    requires forall t :: Links(m, t) == Links(n, t)
    ensures m == n
  {
    assert Links(m, Base) == Links(n, Base) && Links(m, Derived) == Links(n, Derived);
    assert Links(m, Child) == Links(n, Child) && Links(m, Parent) == Links(n, Parent);
    assert Links(m, Related) == Links(n, Related);
  }

  /** The node after adding the ids `xs` to the set named by `t`. */
  function WithLinks(n: NodeVal, t: LinkType, xs: set<Id>): (m: NodeVal)
    ensures SameAttrs(m, n)
    ensures Links(m, t) == Links(n, t) + xs
    ensures forall u :: u != t ==> Links(m, u) == Links(n, u)
  {
    match t
    case Base => n.(bases := n.bases + xs)
    case Derived => n.(derived := n.derived + xs)
    case Child => n.(children := n.children + xs)
    case Parent => n.(parents := n.parents + xs)
    case Related => n.(related := n.related + xs)
  }

  /** Adding a set of ids is idempotent. */
  lemma WithLinksIdempotent(n: NodeVal, t: LinkType, xs: set<Id>)
    ensures WithLinks(WithLinks(n, t, xs), t, xs) == WithLinks(n, t, xs)
  {
    var m := WithLinks(n, t, xs);
    NodeValExt(WithLinks(m, t, xs), m);
  }

  /** Adding no ids changes nothing. */
  lemma WithLinksNone(n: NodeVal, t: LinkType)
    ensures WithLinks(n, t, {}) == n
  {
    NodeValExt(WithLinks(n, t, {}), n);
  }

  /** Adding ids in two steps is adding their union. */
  lemma WithLinksUnion(n: NodeVal, t: LinkType, xs: set<Id>, ys: set<Id>)
    ensures WithLinks(WithLinks(n, t, xs), t, ys) == WithLinks(n, t, xs + ys)
  {
    NodeValExt(WithLinks(WithLinks(n, t, xs), t, ys), WithLinks(n, t, xs + ys));
  }
}
