/** The store as the program keeps it: Node objects whose relation sets are
    updated in place, and the Graph object that owns the id-to-node map and
    the image map. Each operation is proved to act on the store's value
    exactly as the corresponding function of Snapshot, ImageStore, Loader or
    Query says. */
module Store {
  import opened Common
  import opened Markup
  import opened Text
  import opened Nodes
  import opened Snapshot
  import ImageStore
  import Loader
  import opened Query

  class Node {
    const id: Id
    var title: Title
    var content: Option<Content>
    var filename: Option<string>
    var bases: set<Id>
    var derived: set<Id>
    var parents: set<Id>
    var children: set<Id>
    var related: set<Id>

    /** The node's current value. */
    function Val(): (v: NodeVal)
      reads this
      ensures v.id == id
    {
      NodeVal(id, title, content, filename, bases, derived, parents, children, related)
    }

    /** `new Node(id)`: five empty sets, no title, content or filename. */
    constructor(id: Id)
      ensures Val() == FreshNode(id)
    {
      this.id := id;
      title := NoTitle;
      content := None;
      filename := None;
      bases, derived, parents, children, related := {}, {}, {}, {}, {};
    }

    method AddBase(x: Id)
      modifies this
      ensures Val() == WithLinks(old(Val()), Base, {x})
    {
      bases := bases + {x};
    }

    method AddParent(x: Id)
      modifies this
      ensures Val() == WithLinks(old(Val()), Parent, {x})
    {
      parents := parents + {x};
    }

    method AddChild(x: Id)
      modifies this
      ensures Val() == WithLinks(old(Val()), Child, {x})
    {
      children := children + {x};
    }

    method AddDerived(x: Id)
      modifies this
      ensures Val() == WithLinks(old(Val()), Derived, {x})
    {
      derived := derived + {x};
    }

    method AddRelated(x: Id)
      modifies this
      ensures Val() == WithLinks(old(Val()), Related, {x})
    {
      related := related + {x};
    }

    method SetFilename(f: string)
      modifies this
      ensures Val() == old(Val()).(filename := Some(f))
    {
      filename := Some(f);
    }

    /** addLink(tag, x): add `x` to the set the tag names; an unknown tag
        throws and changes nothing. */
    method AddLink(tag: string, x: Id) returns (r: Outcome)
      modifies this
      ensures r == if ParseTag(tag).Some? then Pass else Fail(UnknownLinkType(tag))
      ensures Val() == if ParseTag(tag).Some? then WithLinks(old(Val()), ParseTag(tag).value, {x}) else old(Val())
    {
      r := Pass;
      if tag == "Base" {
        AddBase(x);
      } else if tag == "Derived" {
        AddDerived(x);
      } else if tag == "Child" {
        AddChild(x);
      } else if tag == "Parent" {
        AddParent(x);
      } else if tag == "Related" {
        AddRelated(x);
      } else {
        r := Fail(UnknownLinkType(tag));
      }
    }

    /** addLinks(tag, xs): addLink for each id in turn. The set named by the
        tag becomes its old value joined with the ids; an unknown tag throws
        on the first id, so an empty list never throws. */
    method AddLinks(tag: string, xs: seq<Id>) returns (r: Outcome)
      modifies this
      ensures r == if ParseTag(tag).None? && xs != [] then Fail(UnknownLinkType(tag)) else Pass
      ensures ParseTag(tag).Some? ==> Val() == WithLinks(old(Val()), ParseTag(tag).value, set x | x in xs)
      ensures ParseTag(tag).None? ==> Val() == old(Val())
    {
      r := Pass;
      if ParseTag(tag).Some? {
        WithLinksNone(Val(), ParseTag(tag).value);
      }
      var i := 0;
      while i < |xs|
        invariant 0 <= i <= |xs|
        invariant r == Pass
        invariant i > 0 ==> ParseTag(tag).Some?
        invariant ParseTag(tag).Some? ==> Val() == WithLinks(old(Val()), ParseTag(tag).value, set x | x in xs[..i])
        invariant ParseTag(tag).None? ==> Val() == old(Val())
      {
        r := AddLink(tag, xs[i]);
        if r.Fail? {
          return;
        }
        var done, next := xs[..i], xs[..i + 1];
        WithLinksUnion(old(Val()), ParseTag(tag).value, set x | x in done, {xs[i]});
        assert next == done + [xs[i]];
        assert (set x | x in next) == (set x | x in done) + {xs[i]};
        i := i + 1;
      }
      assert xs[..i] == xs;
    }
  }

  /** The Graph object. Its id-to-node map holds node values; `order` is
      the insertion order in which a JavaScript Map iterates its keys.
      Because the map holds values rather than shared Node objects, the
      methods below update a node by writing `WithLinks` of its value back
      into the map instead of calling the Node class; README's "Left out"
      section records what this leaves unmodelled. */
  class Graph {
    var nodes: map<Id, NodeVal>
    var order: seq<Id>
    var images: map<Digest, string>

    /** The store's current value. */
    function Snap(): (s: State)
      reads this
      ensures s.nodes == nodes && s.order == order && s.images == images
    {
      State(nodes, order, images)
    }

    /** Every node is stored under its own id, and `order` lists the keys
        once each in insertion order, as a JavaScript Map iterates them. */
    ghost predicate Valid()
      reads this
    {
      WF(Snap())
    }

    /** The maps readAll installs before walking the tree. */
    constructor()
      ensures Valid() && Snap() == Empty()
    {
      nodes, order, images := map[], [], map[];
    }

    method Has(id: Id) returns (b: bool)
      requires Valid()
      ensures b <==> id in Snap().nodes
      ensures b <==> id in Snap().order
    {
      b := id in nodes;
    }

    method HasImage(d: Digest) returns (b: bool)
      ensures b <==> d in Snap().images
    {
      b := d in images;
    }

    /** getImage(d): the recorded path, or undefined. */
    method GetImage(d: Digest) returns (p: Option<string>)
      ensures p.Some? <==> d in Snap().images
      ensures p.Some? ==> p.value == Snap().images[d]
    {
      p := if d in images then Some(images[d]) else None;
    }

    /** numNodes(): the size of the map, which is the number of ids in
        insertion order. */
    method NumNodes() returns (n: nat)
      requires Valid()
      ensures n == |Snap().nodes| && n == |Snap().order|
    {
      n := |nodes|;
      WFSize(Snap());
    }

    /** get(id, filename): the node stored under `id`, created first when
        absent; a truthy filename is recorded on it. */
    method Get(id: Id, filename: Option<string>) returns (n: NodeVal)
      requires Valid()
      modifies this
      ensures Valid()
      ensures Snap() == Touch(old(Snap()), id, filename)
      ensures id in Snap().nodes && n == Snap().nodes[id] && n.id == id
      ensures Good(old(Snap())) ==> Good(Snap())
    {
      TouchWF(Snap(), id, filename);
      TouchKeepsGood(Snap(), id, filename);
      if id !in nodes {
        nodes := nodes[id := FreshNode(id)];
        order := order + [id];
      }
      if filename.Some? && filename.value != "" {
        nodes := nodes[id := nodes[id].(filename := filename)];
      }
      n := nodes[id];
    }

    /** addNode(filename, id, header, content): get (creating) the node with
        its filename, set title and content, then add the Base, Child and
        Related lists with their inverses. */
    method AddNode(filename: string, id: Id, h: Header, c: Content)
      requires Valid()
      modifies this
      ensures Valid()
      ensures Snap() == Snapshot.AddNode(old(Snap()), filename, id, h, c)
      ensures Good(old(Snap())) ==> Good(Snap())
    {
      ghost var s := Snap();
      if Good(s) {
        AddNodeKeepsGood(s, filename, id, h, c);
      }
      AddNodeUnfold(s, filename, id, h, c);
      FilledFacts(s, filename, id, h, c);
      var node := Get(id, Some(filename));
      nodes := nodes[id := node.(title := h.title, content := Some(c))];
      assert Snap() == Filled(s, filename, id, h, c);
      AddLinkList(id, h.bases, Base);
      AddLinkList(id, h.children, Child);
      AddLinkList(id, h.related, Related);
    }

    /** addNode's `add_links(links, t, Inverse(t))` closure: when the list is
        present, node.addLinks(t, links) on node `id`, then for each listed
        id, get(other).addLink(Inverse(t), id). */
    method AddLinkList(id: Id, links: Option<seq<Id>>, t: LinkType)
      requires Valid() && id in nodes
      modifies this
      ensures Valid() && id in nodes
      ensures Snap() == Snapshot.AddLinks(old(Snap()), id, links, t)
    {
      if links.Some? {
        LinkAtWF(Snap(), id, t, set x | x in links.value);
        LinkForward(id, links.value, t);
        LinkBack(id, links.value, Inverse(t));
      }
    }

    /** node.addLinks(t, xs) on the stored node `id`. */
    method LinkForward(id: Id, xs: seq<Id>, t: LinkType)
      requires id in nodes
      modifies this
      ensures Snap() == LinkAt(old(Snap()), id, t, set x | x in xs)
    {
      ghost var n0 := nodes[id];
      WithLinksNone(n0, t);
      assert (set x | x in xs[..0]) == {};
      assert old(nodes)[id := WithLinks(n0, t, set x | x in xs[..0])] == old(nodes);
      var i := 0;
      while i < |xs|
        invariant 0 <= i <= |xs|
        invariant order == old(order) && images == old(images)
        invariant nodes == old(nodes)[id := WithLinks(n0, t, set x | x in xs[..i])]
      {
        var done, next := xs[..i], xs[..i + 1];
        WithLinksUnion(n0, t, set x | x in done, {xs[i]});
        PrefixSnoc(xs, i);
        assert (set x | x in next) == (set x | x in done) + {xs[i]};
        nodes := nodes[id := WithLinks(nodes[id], t, {xs[i]})];
        i := i + 1;
      }
      assert xs[..i] == xs;
    }

    /** The second half of add_links: each listed node, created when absent,
        links back to `id` with the inverse type. */
    method LinkBack(id: Id, xs: seq<Id>, inv: LinkType)
      requires Valid() && id in nodes
      modifies this
      ensures Valid() && id in nodes
      ensures Snap() == Back(old(Snap()), id, inv, xs)
    {
      ghost var s0 := Snap();
      for i := 0 to |xs|
        invariant Valid() && id in nodes
        invariant Snap() == Back(s0, id, inv, xs[..i])
      {
        LinkTo(xs[i], inv, id);
        BackNext(s0, id, inv, xs, i);
      }
      assert xs[..|xs|] == xs;
    }

    /** get(other).addLink(inv, id): the node `other`, created when absent,
        gains `id` in the set `inv` names. */
    method LinkTo(other: Id, inv: LinkType, id: Id)
      requires Valid()
      modifies this
      ensures Valid() && old(nodes).Keys <= nodes.Keys
      ensures other in nodes && other in Touch(old(Snap()), other, None).nodes
      ensures Snap() == LinkAt(Touch(old(Snap()), other, None), other, inv, {id})
    {
      var n := Get(other, None);
      LinkAtWF(Snap(), other, inv, {id});
      nodes := nodes[other := WithLinks(n, inv, {id})];
    }

    /** getImageHash(baseDir, imgPath): hash the bytes at the joined path
        and record the path under the hash; an unreadable path throws. */
    method GetImageHash(blobs: ImageStore.Blobs, hash: Bytes -> Digest, baseDir: string, imgPath: string)
      returns (r: Result<Digest>)
      requires Valid()
      modifies this
      ensures Valid()
      ensures (Snap(), r) == ImageStore.GetImageHash(old(Snap()), blobs, hash, baseDir, imgPath)
    {
      var abspath := Join(baseDir, imgPath);
      if abspath !in blobs {
        return Err(ImageReadError(abspath));
      }
      var h := hash(blobs[abspath]);
      images := images[h := abspath];
      r := Ok(h);
    }

    /** The `img` hook pathToHash(fullPath) returns, applied to the image
        reference `src`. */
    method PathToHash(blobs: ImageStore.Blobs, hash: Bytes -> Digest, fullPath: string, src: string)
      returns (b: Block)
      requires Valid()
      modifies this
      ensures Valid()
      ensures (Snap(), b) == ImageStore.ImageHook(old(Snap()), blobs, hash, fullPath, src)
    {
      var r := GetImageHash(blobs, hash, Dirname(fullPath), src);
      match r
      case Ok(h) =>
        b := Img(Hashes([h]));
      case Err(_) =>
        b := Img(Message(ImageStore.FailureMessage(src, fullPath)));
    }

    /** The parser's pass over the file with the `img` hook installed: each
        image reference, in order, is replaced by the hook's block. */
    method Parse(blobs: ImageStore.Blobs, hash: Bytes -> Digest, fullPath: string, text: Content)
      returns (blocks: Content)
      requires Valid()
      modifies this
      ensures Valid()
      ensures (Snap(), blocks) == Loader.ResolveImages(old(Snap()), blobs, hash, fullPath, text)
    {
      blocks := [];
      var i := 0;
      while i < |text|
        invariant 0 <= i <= |text|
        invariant Valid()
        invariant (Snap(), blocks) == Loader.ResolveImages(old(Snap()), blobs, hash, fullPath, text[..i])
      {
        assert text[..i + 1][..i] == text[..i];
        if text[i].Image? {
          var b := PathToHash(blobs, hash, fullPath, text[i].src);
          blocks := blocks + [b];
        } else {
          blocks := blocks + [text[i]];
        }
        i := i + 1;
      }
      assert text[..i] == text;
    }

    /** readFile(dir, name): parse the file, require a leading `graph`
        block, split its id lists and add the node named by the file's
        stem. A throw is a Fail outcome; images recorded before it stay. */
    method ReadFile(blobs: ImageStore.Blobs, hash: Bytes -> Digest, dir: string, name: string, text: Option<Content>)
      returns (r: Outcome)
      requires Valid()
      modifies this
      ensures Valid()
      ensures (Snap(), r) == Loader.ReadFile(old(Snap()), blobs, hash, Loader.Visit(dir, name, text))
      ensures Good(old(Snap())) && ImageStore.ImagesSound(old(Snap()), blobs, hash) ==>
                Good(Snap()) && ImageStore.ImagesSound(Snap(), blobs, hash)
    {
      if Good(Snap()) && ImageStore.ImagesSound(Snap(), blobs, hash) {
        Loader.ReadFileKeepsGood(Snap(), blobs, hash, Loader.Visit(dir, name, text));
      }
      var fullPath := Join(dir, name);
      if text.None? {
        return Fail(FileReadError(fullPath));
      }
      var id := Stem(name);
      var blocks := Parse(blobs, hash, fullPath, text.value);
      if |blocks| == 0 || !blocks[0].Graph? {
        return Fail(MissingHeader(fullPath));
      }
      var header := Loader.Prepare(blocks[0].header);
      if header.Err? {
        return Fail(header.error);
      }
      AddNode(fullPath, id, header.value, blocks[1..]);
      r := Pass;
    }

    /** readAll's parseDir(dir): first every subdirectory not starting with
        '.', depth first; then every entry ending in ".minidosis", each
        read with its failure caught. */
    method ParseDir(blobs: ImageStore.Blobs, hash: Bytes -> Digest, dir: string, entries: seq<Loader.Entry>)
      requires Valid()
      modifies this
      ensures Valid()
      ensures Snap() == Loader.RunVisits(old(Snap()), blobs, hash, Loader.Visits(dir, entries))
      ensures Good(old(Snap())) && ImageStore.ImagesSound(old(Snap()), blobs, hash) ==>
                Good(Snap()) && ImageStore.ImagesSound(Snap(), blobs, hash)
      decreases entries, 1
    {
      ghost var s0 := Snap();
      if Good(s0) && ImageStore.ImagesSound(s0, blobs, hash) {
        Loader.RunVisitsKeepsGood(s0, blobs, hash, Loader.Visits(dir, entries));
      }
      ParseSubdirs(blobs, hash, dir, entries);
      ghost var s1 := Snap();
      ParseFiles(blobs, hash, dir, entries);
      Loader.RunVisitsAppend(s0, blobs, hash, Loader.SubdirVisits(dir, entries), Loader.FileVisits(dir, entries));
    }

    /** parseDir's first loop. */
    method ParseSubdirs(blobs: ImageStore.Blobs, hash: Bytes -> Digest, dir: string, entries: seq<Loader.Entry>)
      requires Valid()
      modifies this
      ensures Valid()
      ensures Snap() == Loader.RunVisits(old(Snap()), blobs, hash, Loader.SubdirVisits(dir, entries))
      decreases entries, 0
    {
      ghost var s0 := Snap();
      var i := 0;
      while i < |entries|
        invariant 0 <= i <= |entries|
        invariant Valid()
        invariant Snap() == Loader.RunVisits(s0, blobs, hash, Loader.SubdirVisits(dir, entries[..i]))
      {
        var e := entries[i];
        Loader.SubdirVisitsSnoc(dir, entries, i);
        ghost var done := Loader.SubdirVisits(dir, entries[..i]);
        if e.Dir? && !StartsWith(e.name, ".") {
          assert e in entries;
          ParseDir(blobs, hash, dir + "/" + e.name, e.entries);
          Loader.RunVisitsAppend(s0, blobs, hash, done, Loader.Visits(dir + "/" + e.name, e.entries));
        } else {
          assert done + [] == done;
        }
        i := i + 1;
      }
      assert entries[..i] == entries;
    }

    /** parseDir's second loop. */
    method ParseFiles(blobs: ImageStore.Blobs, hash: Bytes -> Digest, dir: string, entries: seq<Loader.Entry>)
      requires Valid()
      modifies this
      ensures Valid()
      ensures Snap() == Loader.RunVisits(old(Snap()), blobs, hash, Loader.FileVisits(dir, entries))
    {
      ghost var s0 := Snap();
      var i := 0;
      while i < |entries|
        invariant 0 <= i <= |entries|
        invariant Valid()
        invariant Snap() == Loader.RunVisits(s0, blobs, hash, Loader.FileVisits(dir, entries[..i]))
      {
        var e := entries[i];
        Loader.FileVisitsSnoc(dir, entries, i);
        ghost var done := Loader.FileVisits(dir, entries[..i]);
        if EndsWith(e.name, ".minidosis") {
          ghost var v := Loader.Visit(dir, e.name, Loader.TextOf(e));
          var r := ReadFile(blobs, hash, dir, e.name, Loader.TextOf(e));
          Loader.RunVisitsSnoc(s0, blobs, hash, done, v);
          assert Snap() == Loader.RunVisits(s0, blobs, hash, done + [v]);
          assert Loader.FileVisits(dir, entries[..i + 1]) == done + [v];
        } else {
          assert Loader.FileVisits(dir, entries[..i + 1]) == done;
        }
        i := i + 1;
      }
      assert entries[..i] == entries;
    }

    /** readAll(): fresh maps, then parseDir from the root. The result is
        well-formed, inverse-consistent, free of dangling ids, and every
        image entry is sound. */
    method ReadAll(blobs: ImageStore.Blobs, hash: Bytes -> Digest, root: string, entries: seq<Loader.Entry>)
      modifies this
      ensures Snap() == Loader.ReadAll(blobs, hash, root, entries)
      ensures Good(Snap()) && ImageStore.ImagesSound(Snap(), blobs, hash)
    {
      nodes, order, images := map[], [], map[];
      ParseDir(blobs, hash, root, entries);
    }

    /** search(q) in graph.js: the nodes, in insertion order, whose title is
        a non-empty string containing `q` up to letter case. */
    method Search(q: string) returns (res: seq<NodeVal>)
      requires Valid()
      ensures res == Query.Search(Snap(), q)
    {
      var upperQuery := Upper(q);
      ghost var s := Snap();
      assert forall j :: 0 <= j < |order| ==> order[j] in s.nodes;
      res := [];
      var i := 0;
      while i < |order|
        invariant 0 <= i <= |order|
        invariant res == NodesOf(s, Matching(s, order[..i], q))
      {
        PrefixSnoc(order, i);
        MatchingSnoc(s, order[..i], order[i], q);
        var node := nodes[order[i]];
        if node.title.Str? && node.title.s != "" && Contains(Upper(node.title.s), upperQuery) {
          NodesOfSnoc(s, Matching(s, order[..i], q), order[i]);
          res := res + [node];
        }
        i := i + 1;
      }
      assert order[..i] == order;
      assert res == Query.Search(Snap(), q);
    }

    /** search(q) in index.js, without the `typeof` guard: a title that is
        not a string makes it throw; otherwise it returns what Search
        returns. */
    method SearchUnguarded(q: string) returns (r: Result<seq<NodeVal>>)
      requires Valid()
      ensures r == Query.SearchUnguarded(Snap(), q)
    {
      var upperQuery := Upper(q);
      ghost var s := Snap();
      assert forall j :: 0 <= j < |order| ==> order[j] in s.nodes;
      var res := [];
      var i := 0;
      while i < |order|
        invariant 0 <= i <= |order|
        invariant !HasStructuredTitle(s, order[..i])
        invariant res == NodesOf(s, Matching(s, order[..i], q))
      {
        PrefixSnoc(order, i);
        MatchingSnoc(s, order[..i], order[i], q);
        StructuredSnoc(s, order[..i], order[i]);
        var node := nodes[order[i]];
        if node.title.Structured? {
          assert HasStructuredTitle(s, order);
          return Err(TitleTypeError);
        }
        if node.title.Str? && node.title.s != "" && Contains(Upper(node.title.s), upperQuery) {
          NodesOfSnoc(s, Matching(s, order[..i], q), order[i]);
          res := res + [node];
        }
        i := i + 1;
      }
      assert order[..i] == order;
      r := Ok(res);
    }
  }
}
