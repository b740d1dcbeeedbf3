/** The graph as a value: the id-to-node map with its insertion order (a
    JavaScript Map iterates in insertion order) and the hash-to-path image
    map. Graph.get and Graph.addNode are specified here as functions on
    that value, together with the invariants addNode keeps. */
module Snapshot {
  import opened Common
  import opened Markup
  import opened Nodes

  datatype State = State(nodes: map<Id, NodeVal>, order: seq<Id>, images: map<Digest, string>)

  /** The maps `readAll` starts from. */
  function Empty(): (r: State)
    ensures r.nodes == map[] && r.order == [] && r.images == map[]
    ensures Good(r)
  {
    State(map[], [], map[])
  }

  /** Well-formed: every node is stored under its own id, and `order` lists
      each key exactly once. */
  ghost predicate WF(s: State)
  {
    && (forall k | k in s.nodes :: s.nodes[k].id == k)
    && (forall k :: k in s.nodes <==> k in s.order)
    && NoDup(s.order)
  }

  /** JavaScript truthiness of an optional filename. */
  predicate Truthy(f: Option<string>)
  {
    f.Some? && f.value != ""
  }

  /** The node stored under `k`, or the node `new Node(k)` would make. */
  function Prior(s: State, k: Id): NodeVal
  {
    if k in s.nodes then s.nodes[k] else FreshNode(k)
  }

  /** Graph.get(id, filename): creates the node when it is absent, never
      removes one, never touches another node or a relation set, and sets
      the filename when a truthy one is given. */
  function Touch(s: State, id: Id, filename: Option<string>): (r: State)
    ensures r.nodes.Keys == s.nodes.Keys + {id}
    ensures forall k | k in s.nodes && k != id :: r.nodes[k] == s.nodes[k]
    ensures r.nodes[id] == if Truthy(filename) then Prior(s, id).(filename := filename) else Prior(s, id)
    ensures r.order == if id in s.nodes then s.order else s.order + [id]
    ensures r.images == s.images
  {
    var s1 := if id in s.nodes then s else s.(nodes := s.nodes[id := FreshNode(id)], order := s.order + [id]);
    if Truthy(filename) then s1.(nodes := s1.nodes[id := s1.nodes[id].(filename := filename)]) else s1
  }

  /** Graph.get adds exactly one node when the id is absent and none
      otherwise, and keeps the store well-formed. */
  lemma TouchSize(s: State, id: Id, filename: Option<string>)
    ensures |Touch(s, id, filename).nodes| == if id in s.nodes then |s.nodes| else |s.nodes| + 1
  {
    var r := Touch(s, id, filename);
    if id in s.nodes {
      assert r.nodes.Keys == s.nodes.Keys;
    } else {
      assert r.nodes.Keys == s.nodes.Keys + {id};
      assert |r.nodes.Keys| == |s.nodes.Keys| + 1;
    }
  }

  lemma TouchWF(s: State, id: Id, filename: Option<string>)
    requires WF(s)
    ensures WF(Touch(s, id, filename))
  {
    var r := Touch(s, id, filename);
    assert forall k | k in r.nodes :: r.nodes[k].id == k;
    if id !in s.nodes {
      assert r.order == s.order + [id];
      assert forall k :: k in r.order <==> k in s.order || k == id;
      assert id !in s.order;
    }
  }

  /** A list without repetitions has as many elements as its set. */
  lemma {:induction false} NoDupSize(xs: seq<Id>)
    requires NoDup(xs)
    ensures |set x | x in xs| == |xs|
    decreases |xs|
  {
    if xs != [] {
      var init := xs[..|xs| - 1];
      var last := xs[|xs| - 1];
      NoDupSize(init);
      assert (set x | x in xs) == (set x | x in init) + {last};
      assert last !in init;
    }
  }

  /** numNodes: in a well-formed store the number of nodes is the length of
      the insertion order. */
  lemma WFSize(s: State)
    requires WF(s)
    ensures |s.nodes| == |s.order|
  {
    NoDupSize(s.order);
    assert s.nodes.Keys == set x | x in s.order;
  }

  /** Node.addLinks(t, xs) on the node stored under `k`. */
  function LinkAt(s: State, k: Id, t: LinkType, xs: set<Id>): (r: State)
    requires k in s.nodes
    ensures r.nodes.Keys == s.nodes.Keys && r.order == s.order && r.images == s.images
    ensures forall j | j in s.nodes && j != k :: r.nodes[j] == s.nodes[j]
    ensures Links(r.nodes[k], t) == Links(s.nodes[k], t) + xs
  {
    s.(nodes := s.nodes[k := WithLinks(s.nodes[k], t, xs)])
  }

  /** The inverse half of addNode's `add_links`: for each `other` in turn,
      `this.get(other).addLink(inv, id)`. */
  function Back(s: State, id: Id, inv: LinkType, xs: seq<Id>): (r: State)
    ensures r.nodes.Keys == s.nodes.Keys + set x | x in xs
    ensures r.images == s.images
    decreases |xs|
  {
    if xs == [] then s
    else
      var s1 := Back(s, id, inv, xs[..|xs| - 1]);
      var other := xs[|xs| - 1];
      var s2 := Touch(s1, other, None);
      assert xs == xs[..|xs| - 1] + [other];
      LinkAt(s2, other, inv, {id})
  }

  /** One more listed id: get it, then link it back. */
  lemma BackLast(s: State, id: Id, inv: LinkType, xs: seq<Id>, x: Id)
    ensures x in Touch(Back(s, id, inv, xs), x, None).nodes
    ensures Back(s, id, inv, xs + [x]) == LinkAt(Touch(Back(s, id, inv, xs), x, None), x, inv, {id})
  {
    assert (xs + [x])[..|xs|] == xs;
  }

  /** BackLast on a prefix: the first `i + 1` listed ids are the first `i`
      and then `xs[i]`. */
  lemma BackNext(s: State, id: Id, inv: LinkType, xs: seq<Id>, i: nat)
    requires i < |xs|
    ensures xs[i] in Touch(Back(s, id, inv, xs[..i]), xs[i], None).nodes
    ensures Back(s, id, inv, xs[..i + 1]) == LinkAt(Touch(Back(s, id, inv, xs[..i]), xs[i], None), xs[i], inv, {id})
  {
    BackLast(s, id, inv, xs[..i], xs[i]);
    PrefixSnoc(xs, i);
  }

  /** addNode's `add_links(links, t, Inverse(t))`: nothing when the list is
      absent; otherwise the forward links on node `id`, then the inverse
      link on every listed node. */
  function AddLinks(s: State, id: Id, links: Option<seq<Id>>, t: LinkType): (r: State)
    requires id in s.nodes
    ensures id in r.nodes
  {
    if links.None? then s
    else Back(LinkAt(s, id, t, set x | x in links.value), id, Inverse(t), links.value)
  }

  /** The header addNode receives, its id lists already split. */
  datatype Header = Header(
    title: Title,
    bases: Option<seq<Id>>,
    children: Option<seq<Id>>,
    related: Option<seq<Id>>)

  /** Graph.addNode(filename, id, header, content). */
  function AddNode(s: State, filename: string, id: Id, h: Header, c: Content): (r: State)
    ensures r.images == s.images
  {
    var s1 := Touch(s, id, Some(filename));
    var s2 := s1.(nodes := s1.nodes[id := s1.nodes[id].(title := h.title, content := Some(c))]);
    var s3 := AddLinks(s2, id, h.bases, Base);
    var s4 := AddLinks(s3, id, h.children, Child);
    AddLinks(s4, id, h.related, Related)
  }

  // ----- The relation view and the invariants -----

  /** `b` is in the `t` set of node `a`. */
  ghost predicate R(s: State, a: Id, t: LinkType, b: Id)
  {
    a in s.nodes && b in Links(s.nodes[a], t)
  }

  /** Inverse consistency: B in A.bases iff A in B.derived, B in A.children
      iff A in B.parents, B in A.related iff A in B.related (the converse
      directions follow since Inverse is an involution). */
  ghost predicate Consistent(s: State)
  {
    forall a, t, b :: R(s, a, t, b) ==> R(s, b, Inverse(t), a)
  }

  /** No dangling ids: every id in any relation set is a key of `nodes`. */
  ghost predicate Closed(s: State)
  {
    forall a, t, b :: R(s, a, t, b) ==> b in s.nodes
  }

  ghost predicate Good(s: State)
  {
    WF(s) && Consistent(s) && Closed(s)
  }

  /** The invariants speak of the nodes and the order only; the image map
      does not affect them. */
  lemma GoodIgnoresImages(s: State, s': State)
    requires Good(s) && s'.nodes == s.nodes && s'.order == s.order
    ensures Good(s')
  {
    forall a, t, b
      ensures R(s', a, t, b) <==> R(s, a, t, b)
    {
    }
    assert Consistent(s');
    assert Closed(s');
  }

  function ListSet(l: Option<seq<Id>>): set<Id>
  {
    if l.None? then {} else set x | x in l.value
  }

  /** The ids a header lists under link type `t` (it lists none for the
      inverse types Derived and Parent). */
  function Declared(h: Header, t: LinkType): set<Id>
  {
    match t
    case Base => ListSet(h.bases)
    case Child => ListSet(h.children)
    case Related => ListSet(h.related)
    case Derived => {}
    case Parent => {}
  }

  /** Every id a header mentions. */
  function Mentioned(h: Header): set<Id>
  {
    ListSet(h.bases) + ListSet(h.children) + ListSet(h.related)
  }

  /** The links addNode(_, id, h, _) adds: each declared link from `id`, and
      its inverse back to `id`. */
  ghost predicate NewEdge(id: Id, h: Header, a: Id, t: LinkType, b: Id)
  {
    (a == id && b in Declared(h, t)) || (b == id && a in Declared(h, Inverse(t)))
  }

  // ----- Step lemmas -----

  lemma RelLinkAt(s: State, k: Id, t: LinkType, xs: set<Id>)
    requires k in s.nodes
    ensures forall a, u, b :: R(LinkAt(s, k, t, xs), a, u, b) <==> R(s, a, u, b) || (a == k && u == t && b in xs)
    ensures forall j | j in s.nodes :: SameAttrs(LinkAt(s, k, t, xs).nodes[j], s.nodes[j])
  {
  }

  /** Graph.get adds no link: a created node has empty sets and recording a
      filename leaves the sets alone. */
  lemma RelTouch(s: State, k: Id, f: Option<string>)
    ensures forall a, u, b :: R(Touch(s, k, f), a, u, b) <==> R(s, a, u, b)
  {
    forall a, u, b
      ensures R(Touch(s, k, f), a, u, b) <==> R(s, a, u, b)
    {
      if a == k && k !in s.nodes {
        assert Links(FreshNode(k), u) == {};
      }
    }
  }

  /** Graph.get keeps the invariants: it adds at most a node with empty
      sets, so no edge appears or loses its target. */
  lemma TouchKeepsGood(s: State, k: Id, f: Option<string>)
    ensures Good(s) ==> Good(Touch(s, k, f))
  {
    if Good(s) {
      TouchWF(s, k, f);
      RelTouch(s, k, f);
    }
  }

  /** Back adds exactly the inverse links to `id`. */
  lemma {:induction false} RelBack(s: State, id: Id, inv: LinkType, xs: seq<Id>)
    ensures forall a, u, b :: R(Back(s, id, inv, xs), a, u, b) <==> R(s, a, u, b) || (b == id && u == inv && a in xs)
    decreases |xs|
  {
    if xs != [] {
      var init := xs[..|xs| - 1];
      var other := xs[|xs| - 1];
      assert xs == init + [other];
      RelBack(s, id, inv, init);
      RelTouch(Back(s, id, inv, init), other, None);
      RelLinkAt(Touch(Back(s, id, inv, init), other, None), other, inv, {id});
    }
  }

  /** Back changes no attribute of any node; the nodes it creates are fresh. */
  lemma {:induction false} BackAttrs(s: State, id: Id, inv: LinkType, xs: seq<Id>)
    ensures forall k | k in Back(s, id, inv, xs).nodes :: SameAttrs(Back(s, id, inv, xs).nodes[k], Prior(s, k))
    decreases |xs|
  {
    if xs != [] {
      var init := xs[..|xs| - 1];
      var other := xs[|xs| - 1];
      BackAttrs(s, id, inv, init);
      var s1 := Back(s, id, inv, init);
      var s2 := Touch(s1, other, None);
      RelLinkAt(s2, other, inv, {id});
      forall k | k in Back(s, id, inv, xs).nodes
        ensures SameAttrs(Back(s, id, inv, xs).nodes[k], Prior(s, k))
      {
        if k in s1.nodes {
          assert SameAttrs(s2.nodes[k], s1.nodes[k]);
        }
      }
    }
  }

  lemma LinkAtWF(s: State, k: Id, t: LinkType, xs: set<Id>)
    requires k in s.nodes && WF(s)
    ensures WF(LinkAt(s, k, t, xs))
  {
    var r := LinkAt(s, k, t, xs);
    assert r.nodes.Keys == s.nodes.Keys;
    forall j | j in r.nodes
      ensures r.nodes[j].id == j
    {
      assert SameAttrs(r.nodes[j], s.nodes[j]);
    }
  }

  /** Back keeps the store well-formed. */
  lemma {:induction false} BackWF(s: State, id: Id, inv: LinkType, xs: seq<Id>)
    requires WF(s)
    ensures WF(Back(s, id, inv, xs))
    decreases |xs|
  {
    if xs != [] {
      var init := xs[..|xs| - 1];
      var other := xs[|xs| - 1];
      BackWF(s, id, inv, init);
      var s1 := Back(s, id, inv, init);
      TouchWF(s1, other, None);
      LinkAtWF(Touch(s1, other, None), other, inv, {id});
    }
  }

  /** Back only appends to the order; when every listed node exists it
      leaves the order as it is. */
  lemma {:induction false} BackOrder(s: State, id: Id, inv: LinkType, xs: seq<Id>)
    ensures s.order <= Back(s, id, inv, xs).order
    ensures (forall x | x in xs :: x in s.nodes) ==> Back(s, id, inv, xs).order == s.order
    decreases |xs|
  {
    if xs != [] {
      var init := xs[..|xs| - 1];
      var other := xs[|xs| - 1];
      BackOrder(s, id, inv, init);
    }
  }

  /** add_links adds the listed ids to the node's set `t` and the inverse
      link on each listed node, creating the nodes that do not exist. */
  lemma RelAddLinks(s: State, id: Id, l: Option<seq<Id>>, t: LinkType)
    requires id in s.nodes
    ensures AddLinks(s, id, l, t).nodes.Keys == s.nodes.Keys + ListSet(l)
    ensures forall a, u, b :: R(AddLinks(s, id, l, t), a, u, b) <==>
      R(s, a, u, b) || (a == id && u == t && b in ListSet(l)) || (b == id && u == Inverse(t) && a in ListSet(l))
  {
    if l.Some? {
      var s1 := LinkAt(s, id, t, ListSet(l));
      RelLinkAt(s, id, t, ListSet(l));
      RelBack(s1, id, Inverse(t), l.value);
    }
  }

  /** add_links changes no attribute of any node. */
  lemma AddLinksAttrs(s: State, id: Id, l: Option<seq<Id>>, t: LinkType)
    requires id in s.nodes
    ensures forall k | k in AddLinks(s, id, l, t).nodes :: SameAttrs(AddLinks(s, id, l, t).nodes[k], Prior(s, k))
  {
    if l.Some? {
      var s1 := LinkAt(s, id, t, ListSet(l));
      RelLinkAt(s, id, t, ListSet(l));
      BackAttrs(s1, id, Inverse(t), l.value);
      forall k | k in AddLinks(s, id, l, t).nodes
        ensures SameAttrs(AddLinks(s, id, l, t).nodes[k], Prior(s, k))
      {
        if k in s.nodes {
          assert SameAttrs(s1.nodes[k], s.nodes[k]);
        }
      }
    }
  }

  /** add_links keeps the store well-formed and only appends to the order,
      leaving it as it is when every listed node exists. */
  lemma AddLinksOrder(s: State, id: Id, l: Option<seq<Id>>, t: LinkType)
    requires id in s.nodes
    ensures AddLinks(s, id, l, t).nodes.Keys == s.nodes.Keys + ListSet(l)
    ensures WF(s) ==> WF(AddLinks(s, id, l, t))
    ensures s.order <= AddLinks(s, id, l, t).order
    ensures ListSet(l) <= s.nodes.Keys ==> AddLinks(s, id, l, t).order == s.order
  {
    RelAddLinks(s, id, l, t);
    if l.Some? {
      var s1 := LinkAt(s, id, t, ListSet(l));
      BackOrder(s1, id, Inverse(t), l.value);
      if WF(s) {
        LinkAtWF(s, id, t, ListSet(l));
        BackWF(s1, id, Inverse(t), l.value);
      }
    }
  }

  /** The state after the first two statements of addNode: the node is
      fetched (or created) with its filename, then titled and filled. */
  function Filled(s: State, f: string, id: Id, h: Header, c: Content): (r: State)
    ensures r.nodes.Keys == s.nodes.Keys + {id}
    ensures r.nodes[id].title == h.title && r.nodes[id].content == Some(c)
    ensures r.nodes[id].filename == if f != "" then Some(f) else Prior(s, id).filename
    ensures forall k | k in s.nodes && k != id :: r.nodes[k] == s.nodes[k]
    ensures r.images == s.images
  {
    var s1 := Touch(s, id, Some(f));
    s1.(nodes := s1.nodes[id := s1.nodes[id].(title := h.title, content := Some(c))])
  }

  lemma FilledFacts(s: State, f: string, id: Id, h: Header, c: Content)
    ensures Filled(s, f, id, h, c).nodes.Keys == s.nodes.Keys + {id}
    ensures forall a, t, b :: R(Filled(s, f, id, h, c), a, t, b) <==> R(s, a, t, b)
    ensures WF(s) ==> WF(Filled(s, f, id, h, c))
    ensures Filled(s, f, id, h, c).order == if id in s.nodes then s.order else s.order + [id]
  {
    var s1 := Touch(s, id, Some(f));
    var r := Filled(s, f, id, h, c);
    if WF(s) {
      TouchWF(s, id, Some(f));
      assert r.nodes.Keys == s1.nodes.Keys;
      forall j | j in r.nodes
        ensures r.nodes[j].id == j
      {
      }
    }
  }

  lemma AddNodeUnfold(s: State, f: string, id: Id, h: Header, c: Content)
    ensures AddNode(s, f, id, h, c) ==
      var s2 := Filled(s, f, id, h, c);
      var s3 := AddLinks(s2, id, h.bases, Base);
      var s4 := AddLinks(s3, id, h.children, Child);
      AddLinks(s4, id, h.related, Related)
  {
  }

  lemma NewEdgeCases(id: Id, h: Header, a: Id, t: LinkType, b: Id)
    ensures NewEdge(id, h, a, t, b) <==>
      || (a == id && t == Base && b in ListSet(h.bases)) || (b == id && t == Derived && a in ListSet(h.bases))
      || (a == id && t == Child && b in ListSet(h.children)) || (b == id && t == Parent && a in ListSet(h.children))
      || (a == id && t == Related && b in ListSet(h.related)) || (b == id && t == Related && a in ListSet(h.related))
  {
  }

  /** addNode adds exactly the declared links and their inverses, and
      creates exactly the node itself and the nodes its header mentions. */
  lemma {:induction false} RelAddNode(s: State, f: string, id: Id, h: Header, c: Content)
    ensures AddNode(s, f, id, h, c).nodes.Keys == s.nodes.Keys + {id} + Mentioned(h)
    ensures forall a, t, b :: R(AddNode(s, f, id, h, c), a, t, b) <==> R(s, a, t, b) || NewEdge(id, h, a, t, b)
  {
    var s2 := Filled(s, f, id, h, c);
    var s3 := AddLinks(s2, id, h.bases, Base);
    var s4 := AddLinks(s3, id, h.children, Child);
    var s5 := AddLinks(s4, id, h.related, Related);
    AddNodeUnfold(s, f, id, h, c);
    FilledFacts(s, f, id, h, c);
    RelAddLinks(s2, id, h.bases, Base);
    RelAddLinks(s3, id, h.children, Child);
    RelAddLinks(s4, id, h.related, Related);
    forall a, t, b
      ensures R(s5, a, t, b) <==> R(s, a, t, b) || NewEdge(id, h, a, t, b)
    {
      NewEdgeCases(id, h, a, t, b);
      assert R(s2, a, t, b) <==> R(s, a, t, b);
      assert R(s3, a, t, b) <==> (R(s2, a, t, b)
        || (a == id && t == Base && b in ListSet(h.bases)) || (b == id && t == Derived && a in ListSet(h.bases)));
      assert R(s4, a, t, b) <==> (R(s3, a, t, b)
        || (a == id && t == Child && b in ListSet(h.children)) || (b == id && t == Parent && a in ListSet(h.children)));
      assert R(s5, a, t, b) <==> (R(s4, a, t, b)
        || (a == id && t == Related && b in ListSet(h.related)) || (b == id && t == Related && a in ListSet(h.related)));
    }
  }

  /** addNode keeps the store well-formed and only appends to the order;
      once the node and every node its header mentions exist, it leaves the
      order as it is. */
  lemma AddNodeOrder(s: State, f: string, id: Id, h: Header, c: Content)
    ensures WF(s) ==> WF(AddNode(s, f, id, h, c))
    ensures s.order <= AddNode(s, f, id, h, c).order
    ensures id in s.nodes && Mentioned(h) <= s.nodes.Keys ==> AddNode(s, f, id, h, c).order == s.order
  {
    var s2 := Filled(s, f, id, h, c);
    var s3 := AddLinks(s2, id, h.bases, Base);
    var s4 := AddLinks(s3, id, h.children, Child);
    AddNodeUnfold(s, f, id, h, c);
    FilledFacts(s, f, id, h, c);
    AddLinksOrder(s2, id, h.bases, Base);
    AddLinksOrder(s3, id, h.children, Child);
    AddLinksOrder(s4, id, h.related, Related);
  }

  /** addNode sets the node's title, content and (truthy) filename and
      changes no attribute of any other node. */
  lemma AddNodeAttrs(s: State, f: string, id: Id, h: Header, c: Content)
    ensures forall k | k in AddNode(s, f, id, h, c).nodes && k != id ::
      SameAttrs(AddNode(s, f, id, h, c).nodes[k], Prior(s, k))
    ensures id in AddNode(s, f, id, h, c).nodes
    ensures var n := AddNode(s, f, id, h, c).nodes[id];
      n.id == Prior(s, id).id && n.title == h.title && n.content == Some(c) &&
      n.filename == if f != "" then Some(f) else Prior(s, id).filename
  {
    var s2 := Filled(s, f, id, h, c);
    var s3 := AddLinks(s2, id, h.bases, Base);
    var s4 := AddLinks(s3, id, h.children, Child);
    var s5 := AddLinks(s4, id, h.related, Related);
    AddNodeUnfold(s, f, id, h, c);
    AddLinksAttrs(s2, id, h.bases, Base);
    AddLinksAttrs(s3, id, h.children, Child);
    AddLinksAttrs(s4, id, h.related, Related);
    forall k | k in s5.nodes
      ensures SameAttrs(s5.nodes[k], Prior(s2, k))
    {
      if k in s4.nodes { assert SameAttrs(s4.nodes[k], Prior(s3, k)); }
      if k in s3.nodes { assert SameAttrs(s3.nodes[k], Prior(s2, k)); }
    }
  }

  // ----- The invariants addNode keeps -----

  /** addNode preserves well-formedness, inverse consistency and the absence
      of dangling ids. */
  lemma AddNodeKeepsGood(s: State, f: string, id: Id, h: Header, c: Content)
    requires Good(s)
    ensures Good(AddNode(s, f, id, h, c))
  {
    var r := AddNode(s, f, id, h, c);
    RelAddNode(s, f, id, h, c);
    AddNodeOrder(s, f, id, h, c);
    forall a, t, b | R(r, a, t, b)
      ensures R(r, b, Inverse(t), a) && b in r.nodes
    {
      InverseInvolutive(t);
      if !R(s, a, t, b) {
        assert NewEdge(id, h, b, Inverse(t), a);
      }
    }
  }

  /** After addNode the node carries the header's title, the content and
      the filename (when truthy), and every declared link is present in
      both directions. */
  lemma AddNodeEffect(s: State, f: string, id: Id, h: Header, c: Content)
    ensures id in AddNode(s, f, id, h, c).nodes
    ensures AddNode(s, f, id, h, c).nodes[id].title == h.title
    ensures AddNode(s, f, id, h, c).nodes[id].content == Some(c)
    ensures f != "" ==> AddNode(s, f, id, h, c).nodes[id].filename == Some(f)
    ensures forall t, b | b in Declared(h, t) ::
      R(AddNode(s, f, id, h, c), id, t, b) && R(AddNode(s, f, id, h, c), b, Inverse(t), id)
  {
    RelAddNode(s, f, id, h, c);
    AddNodeAttrs(s, f, id, h, c);
    forall t, b | b in Declared(h, t)
      ensures NewEdge(id, h, b, Inverse(t), id)
    {
      InverseInvolutive(t);
    }
  }

  /** Relation sets are equal when the relation view agrees on them. */
  lemma SameLinks(s1: State, s2: State, k: Id)
    requires k in s1.nodes && k in s2.nodes
    requires forall t, b :: R(s2, k, t, b) <==> R(s1, k, t, b)
    ensures forall t :: Links(s2.nodes[k], t) == Links(s1.nodes[k], t)
  {
    forall t
      ensures Links(s2.nodes[k], t) == Links(s1.nodes[k], t)
    {
      assert forall b :: b in Links(s2.nodes[k], t) <==> R(s2, k, t, b);
      assert forall b :: b in Links(s1.nodes[k], t) <==> R(s1, k, t, b);
    }
  }

  /** Everything the lemmas above establish about r == AddNode(s, f, id, h, c). */
  ghost predicate Describes(s: State, f: string, id: Id, h: Header, c: Content, r: State)
  {
    && r.nodes.Keys == s.nodes.Keys + {id} + Mentioned(h)
    && (forall a, t, b :: R(r, a, t, b) <==> R(s, a, t, b) || NewEdge(id, h, a, t, b))
    && (forall k | k in r.nodes && k != id :: SameAttrs(r.nodes[k], Prior(s, k)))
    && r.nodes[id].id == Prior(s, id).id
    && r.nodes[id].title == h.title
    && r.nodes[id].content == Some(c)
    && r.nodes[id].filename == (if f != "" then Some(f) else Prior(s, id).filename)
    && r.images == s.images
    && (id in s.nodes && Mentioned(h) <= s.nodes.Keys ==> r.order == s.order)
  }

  lemma AddNodeDescribed(s: State, f: string, id: Id, h: Header, c: Content)
    ensures Describes(s, f, id, h, c, AddNode(s, f, id, h, c))
  {
    RelAddNode(s, f, id, h, c);
    AddNodeAttrs(s, f, id, h, c);
    AddNodeOrder(s, f, id, h, c);
  }

  lemma DescribedTwice(s: State, f: string, id: Id, h: Header, c: Content, r1: State, r2: State)
    requires Describes(s, f, id, h, c, r1) && Describes(r1, f, id, h, c, r2)
    ensures r2 == r1
  {
    forall k | k in r1.nodes
      ensures r2.nodes[k] == r1.nodes[k]
    {
      SameLinks(r1, r2, k);
      NodeValExt(r2.nodes[k], r1.nodes[k]);
    }
    assert r2.nodes == r1.nodes;
  }

  /** Declaring the same file twice is the same as declaring it once: the
      second addNode changes no node, no relation set and not the order. */
  lemma AddNodeIdempotent(s: State, f: string, id: Id, h: Header, c: Content)
    ensures AddNode(AddNode(s, f, id, h, c), f, id, h, c) == AddNode(s, f, id, h, c)
  {
    var r1 := AddNode(s, f, id, h, c);
    AddNodeDescribed(s, f, id, h, c);
    AddNodeDescribed(r1, f, id, h, c);
    DescribedTwice(s, f, id, h, c, r1, AddNode(r1, f, id, h, c));
  }

  lemma PriorDescribed(s: State, f: string, id: Id, h: Header, c: Content, r: State, k: Id)
    requires Describes(s, f, id, h, c, r) && k != id
    ensures SameAttrs(Prior(r, k), Prior(s, k))
  {
  }

  lemma DescribedCommute(s: State, fa: string, a: Id, ha: Header, ca: Content,
                         fb: string, b: Id, hb: Header, cb: Content,
                         sa: State, sb: State, x: State, y: State)
    requires a != b
    requires Describes(s, fa, a, ha, ca, sa) && Describes(sa, fb, b, hb, cb, x)
    requires Describes(s, fb, b, hb, cb, sb) && Describes(sb, fa, a, ha, ca, y)
    ensures x.nodes == y.nodes
  {
    assert x.nodes.Keys == y.nodes.Keys;
    forall k | k in x.nodes
      ensures x.nodes[k] == y.nodes[k]
    {
      CommuteAttrs(s, fa, a, ha, ca, fb, b, hb, cb, sa, sb, x, y, k);
      SameLinks(x, y, k);
      NodeValExt(y.nodes[k], x.nodes[k]);
    }
  }

  /** In either order, each node ends with the same attributes. */
  lemma CommuteAttrs(s: State, fa: string, a: Id, ha: Header, ca: Content,
                     fb: string, b: Id, hb: Header, cb: Content,
                     sa: State, sb: State, x: State, y: State, k: Id)
    requires a != b
    requires Describes(s, fa, a, ha, ca, sa) && Describes(sa, fb, b, hb, cb, x)
    requires Describes(s, fb, b, hb, cb, sb) && Describes(sb, fa, a, ha, ca, y)
    requires k in x.nodes && k in y.nodes
    ensures SameAttrs(x.nodes[k], y.nodes[k])
  {
    if k == a {
      PriorDescribed(s, fb, b, hb, cb, sb, a);
    } else if k == b {
      PriorDescribed(s, fa, a, ha, ca, sa, b);
    } else {
      PriorDescribed(s, fa, a, ha, ca, sa, k);
      PriorDescribed(s, fb, b, hb, cb, sb, k);
    }
  }

  /** Order independence: two files defining different ids give the same
      nodes, with the same relation sets, whichever is read first (only the
      insertion order of the map may differ). */
  lemma AddNodeCommutes(s: State, fa: string, a: Id, ha: Header, ca: Content,
                        fb: string, b: Id, hb: Header, cb: Content)
    requires a != b
    ensures AddNode(AddNode(s, fa, a, ha, ca), fb, b, hb, cb).nodes ==
            AddNode(AddNode(s, fb, b, hb, cb), fa, a, ha, ca).nodes
  {
    var sa := AddNode(s, fa, a, ha, ca);
    var sb := AddNode(s, fb, b, hb, cb);
    AddNodeDescribed(s, fa, a, ha, ca);
    AddNodeDescribed(s, fb, b, hb, cb);
    AddNodeDescribed(sa, fb, b, hb, cb);
    AddNodeDescribed(sb, fa, a, ha, ca);
    DescribedCommute(s, fa, a, ha, ca, fb, b, hb, cb, sa, sb,
      AddNode(sa, fb, b, hb, cb), AddNode(sb, fa, a, ha, ca));
  }
}
