/** Graph.search: a case-insensitive substring filter over the titles,
    in the map's iteration (insertion) order. */
module Query {
  import opened Common
  import opened Markup
  import opened Text
  import opened Nodes
  import opened Snapshot

  /** The filter condition of graph.js's search: the title is truthy, is a
      string, and contains the query once both are upper-cased. */
  predicate TitleMatches(t: Title, q: string)
    ensures TitleMatches(t, q) ==> t.Str? && t.s != ""
    ensures q == "" ==> (TitleMatches(t, q) <==> t.Str? && t.s != "")
  {
    assert t.Str? && q == "" ==> OccursAt(Upper(t.s), Upper(q), 0);
    t.Str? && t.s != "" && Contains(Upper(t.s), Upper(q))
  }

  /** The ids of `ids`, in their order, whose node's title matches. */
  function Matching(s: State, ids: seq<Id>, q: string): (r: seq<Id>)
    requires forall i :: 0 <= i < |ids| ==> ids[i] in s.nodes
    ensures forall i :: 0 <= i < |r| ==> r[i] in s.nodes
    ensures |r| <= |ids|
    decreases |ids|
  {
    if ids == [] then []
    else
      var k := ids[|ids| - 1];
      Matching(s, ids[..|ids| - 1], q) + (if TitleMatches(s.nodes[k].title, q) then [k] else [])
  }

  /** An id is in the result exactly when it is listed and its title matches. */
  lemma {:induction false} MatchingMembers(s: State, ids: seq<Id>, q: string)
    requires forall i :: 0 <= i < |ids| ==> ids[i] in s.nodes
    ensures forall k :: k in Matching(s, ids, q) <==> k in ids && TitleMatches(s.nodes[k].title, q)
    decreases |ids|
  {
    if ids != [] {
      var init := ids[..|ids| - 1];
      MatchingMembers(s, init, q);
      assert ids == init + [ids[|ids| - 1]];
    }
  }

  /** The result keeps the iteration order: filtering a concatenation is
      the concatenation of the filtered parts. */
  lemma {:induction false} MatchingAppend(s: State, xs: seq<Id>, ys: seq<Id>, q: string)
    requires forall i :: 0 <= i < |xs| ==> xs[i] in s.nodes
    requires forall i :: 0 <= i < |ys| ==> ys[i] in s.nodes
    ensures Matching(s, xs + ys, q) == Matching(s, xs, q) + Matching(s, ys, q)
    decreases |ys|
  {
    if ys == [] {
      assert xs + ys == xs;
    } else {
      var init := ys[..|ys| - 1];
      MatchingAppend(s, xs, init, q);
      assert (xs + ys)[..|xs + ys| - 1] == xs + init;
    }
  }

  /** Matching ignores letter case in the query. */
  lemma {:induction false} MatchingCaseInsensitive(s: State, ids: seq<Id>, q: string)
    requires forall i :: 0 <= i < |ids| ==> ids[i] in s.nodes
    ensures Matching(s, ids, Upper(q)) == Matching(s, ids, q)
    decreases |ids|
  {
    UpperIdempotent(q);
    if ids != [] {
      MatchingCaseInsensitive(s, ids[..|ids| - 1], q);
    }
  }

  /** index.js's search, which has no `typeof` guard: a truthy title that is
      not a string makes `toUpperCase` throw, so the whole search throws. */
  function ScanUnguarded(s: State, ids: seq<Id>, q: string): (r: Result<seq<Id>>)
    requires forall i :: 0 <= i < |ids| ==> ids[i] in s.nodes
    ensures r.Err? ==> r.error == TitleTypeError
    ensures r.Ok? ==> |r.value| <= |ids| && forall i :: 0 <= i < |r.value| ==> r.value[i] in s.nodes
    decreases |ids|
  {
    if ids == [] then Ok([])
    else
      var k := ids[|ids| - 1];
      match ScanUnguarded(s, ids[..|ids| - 1], q)
      case Err(e) => Err(e)
      case Ok(r) =>
        if s.nodes[k].title.Structured? then Err(TitleTypeError)
        else Ok(r + (if TitleMatches(s.nodes[k].title, q) then [k] else []))
  }

  /** Some listed node has a title that is not a string. */
  ghost predicate HasStructuredTitle(s: State, ids: seq<Id>)
    requires forall i :: 0 <= i < |ids| ==> ids[i] in s.nodes
  {
    exists i :: 0 <= i < |ids| && s.nodes[ids[i]].title.Structured?
  }

  /** The unguarded search throws exactly when some title is not a string,
      and otherwise returns what the guarded search returns. */
  lemma {:induction false} ScanUnguardedAgrees(s: State, ids: seq<Id>, q: string)
    requires forall i :: 0 <= i < |ids| ==> ids[i] in s.nodes
    ensures ScanUnguarded(s, ids, q) ==
      if HasStructuredTitle(s, ids) then Err(TitleTypeError) else Ok(Matching(s, ids, q))
    decreases |ids|
  {
    if ids != [] {
      var init := ids[..|ids| - 1];
      ScanUnguardedAgrees(s, init, q);
      if HasStructuredTitle(s, init) {
        var i :| 0 <= i < |init| && s.nodes[init[i]].title.Structured?;
        assert ids[i] == init[i];
      } else if !s.nodes[ids[|ids| - 1]].title.Structured? {
        forall i | 0 <= i < |ids|
          ensures !s.nodes[ids[i]].title.Structured?
        {
          if i < |init| {
            assert ids[i] == init[i];
          }
        }
      }
    }
  }

  /** Filtering one more id appends it exactly when its title matches. */
  lemma MatchingSnoc(s: State, ids: seq<Id>, k: Id, q: string)
    requires forall i :: 0 <= i < |ids| ==> ids[i] in s.nodes
    requires k in s.nodes
    ensures TitleMatches(s.nodes[k].title, q) ==> Matching(s, ids + [k], q) == Matching(s, ids, q) + [k]
    ensures !TitleMatches(s.nodes[k].title, q) ==> Matching(s, ids + [k], q) == Matching(s, ids, q)
  {
    assert (ids + [k])[..|ids|] == ids;
    assert Matching(s, ids, q) + [] == Matching(s, ids, q);
  }

  /** One more id has a non-string title exactly when the earlier ones
      have one or its own title is not a string. */
  lemma StructuredSnoc(s: State, ids: seq<Id>, k: Id)
    requires forall i :: 0 <= i < |ids| ==> ids[i] in s.nodes
    requires k in s.nodes
    ensures HasStructuredTitle(s, ids + [k]) <==> HasStructuredTitle(s, ids) || s.nodes[k].title.Structured?
  {
    var all := ids + [k];
    if HasStructuredTitle(s, all) && !s.nodes[k].title.Structured? {
      var i :| 0 <= i < |all| && s.nodes[all[i]].title.Structured?;
      assert all[i] == ids[i];
    }
    if HasStructuredTitle(s, ids) {
      var i :| 0 <= i < |ids| && s.nodes[ids[i]].title.Structured?;
      assert all[i] == ids[i];
    }
    if s.nodes[k].title.Structured? {
      assert all[|ids|] == k;
    }
  }

  /** The stored nodes under the given ids, in their order. */
  function NodesOf(s: State, ids: seq<Id>): (r: seq<NodeVal>)
    requires forall i :: 0 <= i < |ids| ==> ids[i] in s.nodes
    ensures |r| == |ids|
    ensures forall i :: 0 <= i < |ids| ==> r[i] == s.nodes[ids[i]]
  {
    seq(|ids|, i requires 0 <= i < |ids| => s.nodes[ids[i]])
  }

  /** What graph.js's search returns: the nodes, in insertion order, whose
      title matches. A node is in it exactly when it is stored under its own
      id and its title matches. */
  function Search(s: State, q: string): (r: seq<NodeVal>)
    requires WF(s)
    ensures forall n :: n in r <==> n.id in s.nodes && s.nodes[n.id] == n && TitleMatches(n.title, q)
    ensures |r| <= |s.order|
  {
    assert forall i :: 0 <= i < |s.order| ==> s.order[i] in s.nodes;
    var ids := Matching(s, s.order, q);
    MatchingMembers(s, s.order, q);
    var r := NodesOf(s, ids);
    assert forall n | n in r :: n.id in ids && s.nodes[n.id] == n by {
      forall n | n in r
        ensures n.id in ids && s.nodes[n.id] == n
      {
        var i :| 0 <= i < |r| && r[i] == n;
        assert ids[i] in ids;
      }
    }
    assert forall k | k in ids :: s.nodes[k] in r by {
      forall k | k in ids
        ensures s.nodes[k] in r
      {
        var i :| 0 <= i < |ids| && ids[i] == k;
        assert r[i] == s.nodes[k];
      }
    }
    r
  }

  /** What index.js's search returns: an error when some title is not a
      string, and otherwise what graph.js's search returns. */
  function SearchUnguarded(s: State, q: string): (r: Result<seq<NodeVal>>)
    requires WF(s)
    ensures r.Err? <==> HasStructuredTitle(s, s.order)
    ensures r.Err? ==> r.error == TitleTypeError
    ensures r.Ok? ==> r.value == Search(s, q)
  {
    assert forall i :: 0 <= i < |s.order| ==> s.order[i] in s.nodes;
    ScanUnguardedAgrees(s, s.order, q);
    match ScanUnguarded(s, s.order, q)
    case Ok(ids) => Ok(NodesOf(s, ids))
    case Err(e) => Err(e)
  }

  /** Looking up the filtered ids one after another: the nodes of a
      sequence with one more id are those of the sequence and that node. */
  lemma NodesOfSnoc(s: State, ids: seq<Id>, k: Id)
    requires forall i :: 0 <= i < |ids| ==> ids[i] in s.nodes
    requires k in s.nodes
    ensures NodesOf(s, ids + [k]) == NodesOf(s, ids) + [s.nodes[k]]
  {
  }

  /** Example: among the titles "Title One" and "Other", the query "tit"
      finds only the first. */
  lemma SearchExample(s: State)
    requires s.nodes.Keys == {"one", "other"} && s.order == ["one", "other"]
    requires s.nodes["one"].title == Str("Title One") && s.nodes["other"].title == Str("Other")
    ensures Matching(s, s.order, "tit") == ["one"]
  {
    assert Upper("tit") == "TIT";
    assert Upper("Title One") == "TITLE ONE";
    assert Upper("Other") == "OTHER";
    assert OccursAt("TITLE ONE", "TIT", 0);
    assert !Contains("OTHER", "TIT") by {
      forall i | 0 <= i <= 2
        ensures !OccursAt("OTHER", "TIT", i)
      {
        assert "OTHER"[i..i + 3][0] != 'T' || "OTHER"[i..i + 3][1] != 'I';
      }
    }
    assert ["one", "other"][..1] == ["one"];
  }
}
