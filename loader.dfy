/** Reading the content tree (index.js): the per-file preprocessing of
    Graph.readFile, the order in which Graph.readAll visits files, and the
    rebuild as a fold of readFile over those visits, with each file's
    failure contained. */
module Loader {
  import opened Common
  import opened Markup
  import opened Text
  import opened Nodes
  import opened Snapshot
  import opened ImageStore

  // ----- Header preprocessing -----

  /** `header[x] = header[x].trim().split(/\s+/)` when `x in header`; on a
      present field that is not a string, `trim` throws. */
  function SplitField(name: string, f: Field): (r: Result<Option<seq<Id>>>)
    ensures r.Err? <==> f.NonText?
    ensures r.Err? ==> r.error == FieldTypeError(name)
    ensures r.Ok? ==> (r.value.Some? <==> f.FieldText?)
    ensures r.Ok? && r.value.Some? ==>
              |r.value.value| >= 1 && forall i :: 0 <= i < |r.value.value| ==> NoSpace(r.value.value[i])
    ensures r.Ok? && r.value.Some? ==> (Trim(f.text) == "" <==> r.value.value == [""])
  {
    match f
    case Absent => Ok(None)
    case NonText => Err(FieldTypeError(name))
    case FieldText(text) =>
      WordsShape(text);
      Ok(Some(Words(text)))
  }

  /** The header addNode receives: the three id lists split on whitespace
      runs in the order bases, children, related, absent fields left
      absent, the title untouched; the first field that is not a string
      throws. */
  function Prepare(raw: RawHeader): (r: Result<Header>)
    ensures r.Ok? <==> !raw.bases.NonText? && !raw.children.NonText? && !raw.related.NonText?
    ensures r.Err? ==> r.error == FieldTypeError(
              if raw.bases.NonText? then "bases" else if raw.children.NonText? then "children" else "related")
    ensures r.Ok? ==> r.value.title == raw.title
    ensures r.Ok? ==> r.value.bases == SplitField("bases", raw.bases).value
    ensures r.Ok? ==> r.value.children == SplitField("children", raw.children).value
    ensures r.Ok? ==> r.value.related == SplitField("related", raw.related).value
  {
    match SplitField("bases", raw.bases)
    case Err(e) => Err(e)
    case Ok(bases) =>
      match SplitField("children", raw.children)
      case Err(e) => Err(e)
      case Ok(children) =>
        match SplitField("related", raw.related)
        case Err(e) => Err(e)
        case Ok(related) => Ok(Header(raw.title, bases, children, related))
  }

  /** No id that readFile hands to addNode contains whitespace. */
  lemma PreparedIdsHaveNoSpace(raw: RawHeader, x: Id)
    requires Prepare(raw).Ok? && x in Mentioned(Prepare(raw).value)
    ensures NoSpace(x)
  {
    var h := Prepare(raw).value;
    if x in ListSet(h.bases) {
      var i :| 0 <= i < |h.bases.value| && h.bases.value[i] == x;
    } else if x in ListSet(h.children) {
      var i :| 0 <= i < |h.children.value| && h.children.value[i] == x;
    } else {
      var i :| 0 <= i < |h.related.value| && h.related.value[i] == x;
    }
  }

  // ----- Parsing with the image hook -----

  /** The parser's use of the `img` hook: every image reference is replaced,
      in order, by the hook's block (each call may record an image); every
      other block is kept. */
  function ResolveImages(s: State, blobs: Blobs, hash: Bytes -> Digest, fullPath: string, blocks: seq<Block>)
    : (r: (State, Content))
    ensures r.0.nodes == s.nodes && r.0.order == s.order
    ensures s.images.Keys <= r.0.images.Keys
    ensures |r.1| == |blocks|
    ensures forall i :: 0 <= i < |blocks| ==> if blocks[i].Image? then r.1[i].Img? else r.1[i] == blocks[i]
    decreases |blocks|
  {
    if blocks == [] then (s, [])
    else
      var (s1, done) := ResolveImages(s, blobs, hash, fullPath, blocks[..|blocks| - 1]);
      var b := blocks[|blocks| - 1];
      if b.Image? then
        var (s2, img) := ImageHook(s1, blobs, hash, fullPath, b.src);
        (s2, done + [img])
      else
        (s1, done + [b])
  }

  /** Content addressing: each image reference becomes the hook's block for
      it, holding the hash of that image's bytes, or the failure message
      when the image cannot be read; every other block is kept. */
  lemma {:induction false} ResolveImagesBlocks(s: State, blobs: Blobs, hash: Bytes -> Digest, fullPath: string, blocks: seq<Block>)
    ensures forall i | 0 <= i < |blocks| ::
              ResolveImages(s, blobs, hash, fullPath, blocks).1[i] ==
                if blocks[i].Image? then HookBlock(blobs, hash, fullPath, blocks[i].src) else blocks[i]
    decreases |blocks|
  {
    if blocks != [] {
      var init := blocks[..|blocks| - 1];
      ResolveImagesBlocks(s, blobs, hash, fullPath, init);
    }
  }

  lemma {:induction false} ResolveImagesSound(s: State, blobs: Blobs, hash: Bytes -> Digest, fullPath: string, blocks: seq<Block>)
    requires ImagesSound(s, blobs, hash)
    ensures ImagesSound(ResolveImages(s, blobs, hash, fullPath, blocks).0, blobs, hash)
    decreases |blocks|
  {
    if blocks != [] {
      var init := blocks[..|blocks| - 1];
      ResolveImagesSound(s, blobs, hash, fullPath, init);
      var b := blocks[|blocks| - 1];
      if b.Image? {
        ImageHookSound(ResolveImages(s, blobs, hash, fullPath, init).0, blobs, hash, fullPath, b.src);
      }
    }
  }

  // ----- One file -----

  /** A file readAll hands to readFile: its directory, its name, and its
      parsed text, or None when readFileSync fails on it. */
  datatype Visit = Visit(dir: string, name: string, text: Option<Content>)

  /** Graph.readFile(dir, filename) (index.js): read and parse the file
      (recording its images), require the first block to be the `graph`
      header, preprocess the header, and add the node named by the file's
      stem with the remaining blocks as its content. */
  function ReadFile(s: State, blobs: Blobs, hash: Bytes -> Digest, v: Visit): (r: (State, Outcome))
    ensures r.1.Fail? ==> r.0.nodes == s.nodes && r.0.order == s.order
    ensures v.text.None? ==> r == (s, Fail(FileReadError(Join(v.dir, v.name))))
    ensures s.images.Keys <= r.0.images.Keys
  {
    var fullPath := Join(v.dir, v.name);
    match v.text
    case None => (s, Fail(FileReadError(fullPath)))
    case Some(text) =>
      var id := Stem(v.name);
      var (s1, blocks) := ResolveImages(s, blobs, hash, fullPath, text);
      if |blocks| == 0 || !blocks[0].Graph? then (s1, Fail(MissingHeader(fullPath)))
      else
        match Prepare(blocks[0].header)
        case Err(e) => (s1, Fail(e))
        case Ok(h) => (AddNode(s1, fullPath, id, h, blocks[1..]), Pass)
  }

  /** A `graph` header whose `bases`, `children` or `related` field is not a
      string makes readFile throw: no node is added, but the images the
      hook recorded while parsing stay recorded. */
  lemma ReadFileFieldError(s: State, blobs: Blobs, hash: Bytes -> Digest, v: Visit)
    requires v.text.Some? && |v.text.value| > 0 && v.text.value[0].Graph?
    requires Prepare(v.text.value[0].header).Err?
    ensures var (s1, _) := ResolveImages(s, blobs, hash, Join(v.dir, v.name), v.text.value);
      ReadFile(s, blobs, hash, v) == (s1, Fail(Prepare(v.text.value[0].header).error))
  {
  }

  /** A file succeeds exactly when it can be read and its first block is a
      `graph` header; it then defines the node named by its stem. */
  lemma ReadFileOutcome(s: State, blobs: Blobs, hash: Bytes -> Digest, v: Visit)
    ensures ReadFile(s, blobs, hash, v).1.Pass? <==>
      v.text.Some? && |v.text.value| > 0 && v.text.value[0].Graph? && Prepare(v.text.value[0].header).Ok?
    ensures ReadFile(s, blobs, hash, v).1.Pass? ==> Stem(v.name) in ReadFile(s, blobs, hash, v).0.nodes
  {
    if v.text.Some? {
      var fullPath := Join(v.dir, v.name);
      var (s1, blocks) := ResolveImages(s, blobs, hash, fullPath, v.text.value);
      if |blocks| > 0 && blocks[0].Graph? && Prepare(blocks[0].header).Ok? {
        RelAddNode(s1, fullPath, Stem(v.name), Prepare(blocks[0].header).value, blocks[1..]);
      }
    }
  }

  /** Everything the store promises holds before readFile holds after it,
      whether the file succeeds or fails. */
  lemma ReadFileKeepsGood(s: State, blobs: Blobs, hash: Bytes -> Digest, v: Visit)
    requires Good(s) && ImagesSound(s, blobs, hash)
    ensures Good(ReadFile(s, blobs, hash, v).0)
    ensures ImagesSound(ReadFile(s, blobs, hash, v).0, blobs, hash)
  {
    if v.text.Some? {
      var fullPath := Join(v.dir, v.name);
      ResolveImagesSound(s, blobs, hash, fullPath, v.text.value);
      var (s1, blocks) := ResolveImages(s, blobs, hash, fullPath, v.text.value);
      GoodIgnoresImages(s, s1);
      if |blocks| > 0 && blocks[0].Graph? && Prepare(blocks[0].header).Ok? {
        AddNodeKeepsGood(s1, fullPath, Stem(v.name), Prepare(blocks[0].header).value, blocks[1..]);
      }
    }
  }

  /** readFile never removes a node or a link. */
  lemma ReadFileGrows(s: State, blobs: Blobs, hash: Bytes -> Digest, v: Visit)
    ensures s.nodes.Keys <= ReadFile(s, blobs, hash, v).0.nodes.Keys
    ensures forall a, t, b :: R(s, a, t, b) ==> R(ReadFile(s, blobs, hash, v).0, a, t, b)
  {
    if v.text.Some? {
      var fullPath := Join(v.dir, v.name);
      var (s1, blocks) := ResolveImages(s, blobs, hash, fullPath, v.text.value);
      if |blocks| > 0 && blocks[0].Graph? && Prepare(blocks[0].header).Ok? {
        RelAddNode(s1, fullPath, Stem(v.name), Prepare(blocks[0].header).value, blocks[1..]);
      }
    }
  }

  // ----- The directory walk -----

  /** A directory entry as `readdirSync(dir, { withFileTypes: true })`
      reports it: a directory with its own entries, or anything else with
      its parsed text (None when it cannot be read as a file). */
  datatype Entry = Dir(name: string, entries: seq<Entry>) | File(name: string, text: Option<Content>)

  /** What readFileSync yields on an entry; on a directory it throws. */
  function TextOf(e: Entry): (r: Option<Content>)
    ensures r.Some? ==> e.File?
    ensures e.File? ==> r == e.text
  {
    if e.File? then e.text else None
  }

  /** The files readAll's parseDir(dir) reads, in order: first, depth
      first, everything under each subdirectory whose name does not start
      with '.'; then each entry whose name ends in ".minidosis". */
  function Visits(dir: string, entries: seq<Entry>): (vs: seq<Visit>)
    ensures forall i :: 0 <= i < |vs| ==> StartsWith(vs[i].dir, dir)
    decreases entries, 1
  {
    SubdirVisits(dir, entries) + FileVisits(dir, entries)
  }

  /** The recursive calls of parseDir's first loop, over `entries` in order. */
  function SubdirVisits(dir: string, entries: seq<Entry>): (vs: seq<Visit>)
    ensures forall i :: 0 <= i < |vs| ==> StartsWith(vs[i].dir, dir + "/")
    decreases entries, 0
  {
    if entries == [] then []
    else
      var e := entries[|entries| - 1];
      SubdirVisits(dir, entries[..|entries| - 1]) +
        (if e.Dir? && !StartsWith(e.name, ".") then Visits(dir + "/" + e.name, e.entries) else [])
  }

  /** parseDir's second loop: the entries whose name ends in ".minidosis",
      in order. Directories are not excluded (reading one fails). */
  function FileVisits(dir: string, entries: seq<Entry>): (vs: seq<Visit>)
    ensures forall i :: 0 <= i < |vs| ==> vs[i].dir == dir && EndsWith(vs[i].name, ".minidosis")
    ensures forall e | e in entries && EndsWith(e.name, ".minidosis") :: Visit(dir, e.name, TextOf(e)) in vs
    ensures |vs| <= |entries|
    decreases |entries|
  {
    if entries == [] then []
    else
      var e := entries[|entries| - 1];
      assert entries == entries[..|entries| - 1] + [e];
      FileVisits(dir, entries[..|entries| - 1]) +
        (if EndsWith(e.name, ".minidosis") then [Visit(dir, e.name, TextOf(e))] else [])
  }

  /** One more entry adds the walk of its subtree when it is a directory
      whose name does not start with '.'. */
  lemma SubdirVisitsSnoc(dir: string, entries: seq<Entry>, i: nat)
    requires i < |entries|
    ensures SubdirVisits(dir, entries[..i + 1]) ==
      SubdirVisits(dir, entries[..i]) +
        (if entries[i].Dir? && !StartsWith(entries[i].name, ".") then Visits(dir + "/" + entries[i].name, entries[i].entries) else [])
  {
    assert entries[..i + 1][..i] == entries[..i];
  }

  /** One more entry adds its visit when its name ends in ".minidosis". */
  lemma FileVisitsSnoc(dir: string, entries: seq<Entry>, i: nat)
    requires i < |entries|
    ensures FileVisits(dir, entries[..i + 1]) ==
      FileVisits(dir, entries[..i]) +
        (if EndsWith(entries[i].name, ".minidosis") then [Visit(dir, entries[i].name, TextOf(entries[i]))] else [])
  {
    assert entries[..i + 1][..i] == entries[..i];
  }

  /** parseDir's second loop reads nothing but the listed ".minidosis"
      entries: each visit comes from an entry of the listing. */
  lemma {:induction false} FileVisitsListed(dir: string, entries: seq<Entry>)
    ensures forall v | v in FileVisits(dir, entries) ::
              exists e | e in entries :: EndsWith(e.name, ".minidosis") && v == Visit(dir, e.name, TextOf(e))
    decreases |entries|
  {
    if entries != [] {
      var init := entries[..|entries| - 1];
      FileVisitsListed(dir, init);
      assert forall e | e in init :: e in entries;
    }
  }

  /** Every file readAll reads has a name ending in ".minidosis". */
  lemma {:induction false} VisitsAreContentFiles(dir: string, entries: seq<Entry>)
    ensures forall v | v in Visits(dir, entries) :: EndsWith(v.name, ".minidosis")
    decreases entries, 1
  {
    SubdirVisitsAreContentFiles(dir, entries);
  }

  lemma {:induction false} SubdirVisitsAreContentFiles(dir: string, entries: seq<Entry>)
    ensures forall v | v in SubdirVisits(dir, entries) :: EndsWith(v.name, ".minidosis")
    decreases entries, 0
  {
    if entries != [] {
      var e := entries[|entries| - 1];
      SubdirVisitsAreContentFiles(dir, entries[..|entries| - 1]);
      if e.Dir? && !StartsWith(e.name, ".") {
        VisitsAreContentFiles(dir + "/" + e.name, e.entries);
      }
    }
  }

  /** One more entry at the end of a listing adds the walk of its subtree
      when it is a directory whose name does not start with '.'. */
  lemma SubdirVisitsLast(dir: string, es: seq<Entry>, e: Entry)
    ensures SubdirVisits(dir, es + [e]) ==
      SubdirVisits(dir, es) + (if e.Dir? && !StartsWith(e.name, ".") then Visits(dir + "/" + e.name, e.entries) else [])
  {
    assert (es + [e])[..|es|] == es;
  }

  /** The first loop's walk of a listing split in two is the walk of the
      first part followed by the walk of the second. */
  lemma {:induction false} SubdirVisitsAppend(dir: string, xs: seq<Entry>, ys: seq<Entry>)
    ensures SubdirVisits(dir, xs + ys) == SubdirVisits(dir, xs) + SubdirVisits(dir, ys)
    decreases |ys|
  {
    if ys == [] {
      assert xs + ys == xs;
    } else {
      var init, e := ys[..|ys| - 1], ys[|ys| - 1];
      var last := if e.Dir? && !StartsWith(e.name, ".") then Visits(dir + "/" + e.name, e.entries) else [];
      SubdirVisitsAppend(dir, xs, init);
      AppendSnoc(xs, ys);
      SubdirVisitsLast(dir, xs + init, e);
      Regroup(SubdirVisits(dir, xs + ys), SubdirVisits(dir, xs), SubdirVisits(dir, ys), SubdirVisits(dir, init), last);
    }
  }

  /** A directory whose name starts with '.' is not entered: wherever it
      stands in a listing, the first loop's walk is as if it were absent. */
  lemma HiddenDirSkipped(dir: string, xs: seq<Entry>, name: string, sub: seq<Entry>, ys: seq<Entry>)
    requires StartsWith(name, ".")
    ensures SubdirVisits(dir, xs + [Dir(name, sub)] + ys) == SubdirVisits(dir, xs + ys)
  {
    SubdirVisitsLast(dir, xs, Dir(name, sub));
    SubdirVisitsAppend(dir, xs + [Dir(name, sub)], ys);
    SubdirVisitsAppend(dir, xs, ys);
  }

  // ----- The rebuild -----

  /** readFile over the visits in turn; a failing file is caught, and the
      walk goes on from the state it left. */
  function RunVisits(s: State, blobs: Blobs, hash: Bytes -> Digest, vs: seq<Visit>): (r: State)
    ensures s.nodes.Keys <= r.nodes.Keys
    ensures vs == [] ==> r == s
    decreases |vs|
  {
    if vs == [] then s
    else
      var mid := RunVisits(s, blobs, hash, vs[..|vs| - 1]);
      ReadFileGrows(mid, blobs, hash, vs[|vs| - 1]);
      ReadFile(mid, blobs, hash, vs[|vs| - 1]).0
  }

  /** One more file read at the end of the walk. */
  lemma RunVisitsSnoc(s: State, blobs: Blobs, hash: Bytes -> Digest, vs: seq<Visit>, v: Visit)
    ensures RunVisits(s, blobs, hash, vs + [v]) == ReadFile(RunVisits(s, blobs, hash, vs), blobs, hash, v).0
  {
    assert (vs + [v])[..|vs|] == vs;
  }

  /** Graph.readAll: fresh maps, then the walk from the root directory.
      Whatever the tree holds, the rebuilt graph is well-formed,
      inverse-consistent and free of dangling ids, and every image entry
      names a file whose bytes hash to its key. */
  function ReadAll(blobs: Blobs, hash: Bytes -> Digest, root: string, entries: seq<Entry>): (r: State)
    ensures Good(r)
    ensures ImagesSound(r, blobs, hash)
  {
    RunVisitsKeepsGood(Empty(), blobs, hash, Visits(root, entries));
    RunVisits(Empty(), blobs, hash, Visits(root, entries))
  }

  lemma {:induction false} RunVisitsAppend(s: State, blobs: Blobs, hash: Bytes -> Digest, xs: seq<Visit>, ys: seq<Visit>)
    ensures RunVisits(s, blobs, hash, xs + ys) == RunVisits(RunVisits(s, blobs, hash, xs), blobs, hash, ys)
    decreases |ys|
  {
    if ys == [] {
      assert xs + ys == xs;
    } else {
      var init, y := ys[..|ys| - 1], ys[|ys| - 1];
      RunVisitsAppend(s, blobs, hash, xs, init);
      AppendSnoc(xs, ys);
      RunVisitsSnoc(s, blobs, hash, xs + init, y);
      RunVisitsSnoc(RunVisits(s, blobs, hash, xs), blobs, hash, init, y);
    }
  }

  lemma {:induction false} RunVisitsKeepsGood(s: State, blobs: Blobs, hash: Bytes -> Digest, vs: seq<Visit>)
    requires Good(s) && ImagesSound(s, blobs, hash)
    ensures Good(RunVisits(s, blobs, hash, vs)) && ImagesSound(RunVisits(s, blobs, hash, vs), blobs, hash)
    decreases |vs|
  {
    if vs != [] {
      RunVisitsKeepsGood(s, blobs, hash, vs[..|vs| - 1]);
      ReadFileKeepsGood(RunVisits(s, blobs, hash, vs[..|vs| - 1]), blobs, hash, vs[|vs| - 1]);
    }
  }

  /** Failure isolation: a file that cannot be read changes nothing, so the
      rebuild is the same as if it were not there. */
  lemma UnreadableFileIgnored(s: State, blobs: Blobs, hash: Bytes -> Digest, xs: seq<Visit>, v: Visit, ys: seq<Visit>)
    requires v.text.None?
    ensures RunVisits(s, blobs, hash, xs + [v] + ys) == RunVisits(s, blobs, hash, xs + ys)
  {
    RunVisitsAppend(s, blobs, hash, xs + [v], ys);
    RunVisitsAppend(s, blobs, hash, xs, [v]);
    RunVisitsAppend(s, blobs, hash, xs, ys);
    assert [v][..0] == [];
  }

  /** Later files never undo earlier ones: every node, link and image
      hash present before the walk goes on is present at its end. */
  lemma {:induction false} RunVisitsGrows(s: State, blobs: Blobs, hash: Bytes -> Digest, vs: seq<Visit>)
    ensures s.nodes.Keys <= RunVisits(s, blobs, hash, vs).nodes.Keys
    ensures s.images.Keys <= RunVisits(s, blobs, hash, vs).images.Keys
    ensures forall a, t, b :: R(s, a, t, b) ==> R(RunVisits(s, blobs, hash, vs), a, t, b)
    decreases |vs|
  {
    if vs != [] {
      RunVisitsGrows(s, blobs, hash, vs[..|vs| - 1]);
      ReadFileGrows(RunVisits(s, blobs, hash, vs[..|vs| - 1]), blobs, hash, vs[|vs| - 1]);
    }
  }

  /** Every file with a `graph` header whose id fields are strings or
      absent that the walk reaches defines its node, whatever failures
      occur in other files. */
  lemma ReadFileSurvives(s: State, blobs: Blobs, hash: Bytes -> Digest, xs: seq<Visit>, v: Visit, ys: seq<Visit>)
    requires v.text.Some? && |v.text.value| > 0 && v.text.value[0].Graph?
    requires Prepare(v.text.value[0].header).Ok?
    ensures Stem(v.name) in RunVisits(s, blobs, hash, xs + [v] + ys).nodes
  {
    RunVisitsAppend(s, blobs, hash, xs + [v], ys);
    RunVisitsAppend(s, blobs, hash, xs, [v]);
    assert [v][..0] == [];
    var mid := RunVisits(s, blobs, hash, xs);
    ReadFileOutcome(mid, blobs, hash, v);
    RunVisitsGrows(ReadFile(mid, blobs, hash, v).0, blobs, hash, ys);
  }
}
