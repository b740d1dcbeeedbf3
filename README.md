# minidosis graph store, modelled in Dafny

The minidosis graph store (`graph.js` and its near-identical copy `index.js`) holds topics as
nodes keyed by id. Each node has five relation sets: `bases`, `derived`, `parents`, `children`
and `related`.

- **Node operations.** `Node.addLink` dispatches on a closed string tag. `Graph.get` creates a
  node the first time an id is referenced.
- **Adding a node.** `Graph.addNode` writes a node's title, content and file name. It adds each
  declared link together with its inverse: Base/Derived, Child/Parent, Related/Related.
- **Images.** The image map is content-addressed (`hash -> path`). The `img` hook turns an
  unreadable image into a diagnostic block.
- **Reading files.** `readFile` (in `index.js`) derives the id from the file name and requires
  a leading `graph` block. It splits the header's id lists on whitespace; an id field that is
  present but not a string makes `trim` throw, and the file is skipped.
- **Rebuilding.** `readAll` rebuilds everything from a directory tree: subdirectories first,
  depth first, hidden ones skipped, then the `.minidosis` files, each read with its failure
  caught.
- **Searching.** `search` filters titles case-insensitively, in the map's insertion order.

The model has two layers.

- Pure modules describe the store as a value:
  - `Nodes`: link types, the node value, `WithLinks`.
  - `Snapshot`: `get` and `addNode` on the whole store, and the invariants.
  - `ImageStore`: `getImageHash` and the `img` hook.
  - `Loader`: header preparation, `readFile`, and the directory walk as a fold.
  - `Query`: `search`.
  - `Text`: `trim`, `split(/\s+/)`, `split('.')[0]`, `toUpperCase`, `indexOf`, and the path
    helpers.

  The properties are proved as lemmas on these functions:
  - inverse consistency;
  - no dangling ids;
  - idempotence and order independence of `addNode`;
  - image-map soundness and deduplication;
  - the failure isolation of the walk;
  - the exact result of `search`.
- The imperative module `Store` has the classes.
  - `Node` has its five set fields updated in place.
  - `Graph` holds the node map, the insertion order and the image map. Its methods have the
    source's loops.
  - Each method is proved to leave the store exactly as the corresponding pure function says.
  - The public operations (`Get`, `AddNode`, `ReadFile`, `ParseDir`, `ReadAll`) also state
    that inverse consistency and the absence of dangling ids hold after the call when they held
    before it. The internal steps of `addNode` (`LinkForward`, `LinkBack`, `LinkTo`,
    `AddLinkList`) state their exact new store; `AddLinkList`, `LinkBack` and `LinkTo` also keep
    well-formedness. They make no promise about inverse consistency: between the forward half
    and the inverse half of `add_links`, a link exists in one direction only.

Failures that JavaScript raises as exceptions are `Fail`/`Err` values (`Common.Error`). The
hash function, the readable files (`Blobs`), the directory listing (`Loader.Entry`) and the
parsed file contents are parameters.

Two behaviours of the code are modelled as written:
- A header field that is present but blank splits to the single id `""`, and so links the
  node to a node named `""` (`Loader.SplitField`).
- `index.js`'s `search` has no `typeof` check. A title that is truthy but not a string makes
  the whole search fail (`Query.ScanUnguarded`). A falsy title such as 0, null or false is
  skipped by the `node.title &&` test before `toUpperCase` is reached. `graph.js`'s `search`
  skips every title that is not a string (`Query.Search`).

## Model

| member | source | states |
|---|---|---|
| Nodes.ParseTag | graph.js:41-49 | a tag selects a link type exactly when it is one of Base, Derived, Child, Parent, Related; every other string, "None" included, selects none |
| Nodes.TagRoundTrip | graph.js:12-18 | the tag strings and the link types correspond one to one |
| Nodes.Inverse | graph.js:125-127 | Base and Derived are each other's inverse, Child and Parent likewise, Related is its own |
| Nodes.InverseInvolutive | graph.js:125-127 | taking the inverse twice gives the link type back |
| Nodes.FreshNode | graph.js:21-27 | a new node has the given id, five empty sets and no title, content or filename |
| Nodes.WithLinks | graph.js:31-35 | adding ids changes exactly the set the type names, by union; the other four sets and the attributes stay |
| Nodes.WithLinksIdempotent | graph.js:31-35 | adding the same ids a second time changes nothing |
| Nodes.WithLinksNone | graph.js:52-54 | adding an empty list changes nothing |
| Nodes.WithLinksUnion | graph.js:52-54 | adding ids one batch after another is adding their union |
| Store.Node.constructor | graph.js:21-27 | the new object's value is FreshNode(id) |
| Store.Node.AddBase | graph.js:31 | the object gains the id in `bases` and nothing else changes |
| Store.Node.AddParent | graph.js:32 | the object gains the id in `parents` and nothing else changes |
| Store.Node.AddChild | graph.js:33 | the object gains the id in `children` and nothing else changes |
| Store.Node.AddDerived | graph.js:34 | the object gains the id in `derived` and nothing else changes |
| Store.Node.AddRelated | graph.js:35 | the object gains the id in `related` and nothing else changes |
| Store.Node.SetFilename | graph.js:37 | only the filename changes |
| Store.Node.AddLink | graph.js:41-50 | a known tag adds the id to the set it names; an unknown tag fails with UnknownLinkType and leaves the node unchanged |
| Store.Node.AddLinks | graph.js:52-54 | with a known tag, the named set becomes its old value joined with the listed ids; with an unknown tag it fails on the first id and leaves the node unchanged; an empty list never fails |
| Snapshot.Empty | graph.js:188-189 | the fresh maps hold no node and no image, and satisfy the store invariants |
| Snapshot.Touch | graph.js:93-101 | get creates the node only when absent, appends it to the insertion order, leaves every other node unchanged and sets the filename only when a truthy one is given |
| Snapshot.TouchSize | graph.js:93-101 | get adds exactly one node when the id is absent and none otherwise |
| Snapshot.TouchWF | graph.js:93-101 | get keeps every node stored under its own id and the order duplicate-free |
| Snapshot.RelTouch | index.js:92-100 | get never changes any relation set of any node |
| Snapshot.TouchKeepsGood | graph.js:93-101 | get preserves well-formedness, inverse consistency and the absence of dangling ids |
| Snapshot.WFSize | graph.js:109-111 | the number of nodes equals the length of the insertion order |
| Snapshot.Back | graph.js:121 | the inverse pass adds exactly the listed ids as keys and leaves the image map alone |
| Snapshot.LinkAt | graph.js:120 | node.addLinks on node `k` joins the ids into the set the type names and changes no other node, key, order or image |
| Snapshot.RelLinkAt | graph.js:120 | node.addLinks adds exactly the edges from `id` to the listed ids and changes no attribute |
| Snapshot.RelBack | graph.js:121 | the inverse pass adds exactly the edges from each listed id back to `id` |
| Snapshot.BackAttrs | graph.js:121 | the inverse pass changes no title, content or filename; nodes it creates are fresh |
| Snapshot.BackWF | graph.js:121 | the inverse pass keeps the store well-formed |
| Snapshot.BackOrder | graph.js:121 | the inverse pass only appends to the insertion order, and leaves it unchanged when every listed node exists |
| Snapshot.AddLinks | graph.js:118-123 | add_links keeps node `id` present |
| Snapshot.RelAddLinks | graph.js:118-123 | add_links adds the listed ids as keys, and exactly the forward edges from `id` and the inverse edges back to it |
| Snapshot.AddLinksAttrs | graph.js:118-123 | add_links changes no node attribute |
| Snapshot.AddLinksOrder | graph.js:118-123 | add_links keeps the store well-formed and only appends to the order |
| Snapshot.AddNode | graph.js:113-128 | addNode leaves the image map alone |
| Snapshot.RelAddNode | graph.js:113-127 | after addNode the keys are the old ones plus the node and every id its header mentions, and the edges are the old ones plus exactly the declared edges and their inverses |
| Snapshot.AddNodeOrder | graph.js:113-127 | addNode keeps the store well-formed and only appends to the order, and leaves the order unchanged when all the ids already exist |
| Snapshot.Filled | graph.js:113-116 | `get(id, filename)` then the title and content writes: the node exists with the header's title and the content, the filename is set when non-empty, and no other node or image changes |
| Snapshot.AddNodeAttrs | graph.js:113-116 | the node gets the header's title, the content and (when non-empty) the filename; no other node's attributes change |
| Snapshot.AddNodeEffect | graph.js:113-127 | after addNode the node carries title, content and filename, and every declared link is present in both directions |
| Snapshot.AddNodeKeepsGood | graph.js:118-127 | addNode preserves well-formedness, inverse consistency (B in A.bases iff A in B.derived, and likewise) and the absence of dangling ids |
| Snapshot.GoodIgnoresImages | graph.js:137 | the invariants do not depend on the image map |
| Snapshot.AddNodeIdempotent | index.js:112-127 | declaring the same header twice for the same id gives the same store as declaring it once |
| Snapshot.AddNodeCommutes | index.js:112-127 | two files with different ids produce the same nodes, relation sets included, whichever is read first |
| ImageStore.GetImageHash | graph.js:134-139 | a readable path yields hash(bytes) and records `hash -> path`, overwriting an older entry with that hash and keeping the rest; an unreadable path fails with ImageReadError and changes nothing |
| ImageStore.GetImageHashSound | graph.js:134-139 | every image entry stays a readable path whose bytes hash to its key |
| ImageStore.GetImageHashDedup | graph.js:134-139 | two images with identical bytes get one key, which names the path registered last |
| ImageStore.FailureMessage | index.js:148 | the message names the image source first and the file's full path at its end |
| ImageStore.ImageHook | index.js:140-153 | the hook never fails: its block is HookBlock, the `img` block holding the hash of the image's bytes when the image is readable and FailureMessage(src, fullPath) otherwise; no node changes; on success the image map is the old one with only the hash entry set to the image's path, and on failure the store is unchanged |
| ImageStore.ImageHookRelative | index.js:143-144 | an image referenced from `dir/name` is looked up, and registered, as `dir/src` |
| ImageStore.ImageHookSound | index.js:140-153 | the hook keeps the image map sound |
| Text.Trim | index.js:170 | the result is the input with a run of leading and a run of trailing whitespace removed, and neither starts nor ends with whitespace; it is empty exactly when the input is all whitespace |
| Text.Split | index.js:170 | splitting yields at least one piece and no piece contains whitespace |
| Text.SplitJoinWith | index.js:170 | non-empty whitespace-free words separated by any non-empty runs of whitespace (spaces, tabs, line breaks) split back into exactly those words |
| Text.WordsJoinWith | index.js:170 | a header field holding such words, with any whitespace before and after, becomes exactly that list of ids |
| Text.TrimAround | index.js:170 | trim removes exactly the whitespace runs around a text that neither starts nor ends with whitespace |
| Text.LeadingRun | index.js:170 | a whitespace run before a non-space character is exactly the leading whitespace |
| Text.TrailingRun | index.js:170 | a whitespace run after a non-space character is exactly the trailing whitespace |
| Text.JoinWithEnds | index.js:170 | a field of words joined by whitespace runs begins with its first word and ends with its last |
| Text.SplitSep | index.js:170 | a word, a whitespace run and a text starting with a non-space split into the word and the pieces of that text |
| Text.WordsShape | index.js:170 | trim-then-split pieces are whitespace-free; all non-empty when the trimmed text is non-empty, the single "" when it is empty |
| Text.IndexOf | index.js:158 | the position of the first dot (or the end) and no dot before it |
| Text.Stem | index.js:158 | the id is a prefix of the file name, contains no dot, and is followed by a dot unless it is the whole name |
| Text.Upper | index.js:216 | upper-casing maps each ASCII letter to its capital and keeps every other character |
| Text.UpperIdempotent | graph.js:225-230 | upper-casing twice is upper-casing once |
| Text.Join | graph.js:135 | the joined path begins with the directory, then one slash, then ends with the relative path |
| Text.Dirname | index.js:143 | the directory part is "." when the path has no slash, "/" when the only slash leads, and otherwise everything before the last slash, after which no slash follows |
| Text.Words | index.js:170 | trim-then-split yields at least one whitespace-free piece, and the single "" when the field is blank |
| Text.Contains | index.js:219 | `indexOf(sub) !== -1` only when `sub` is no longer than the text, and always for the empty query or the whole text |
| Text.StartsWithConcat | index.js:185 | `startsWith(prefix)` holds exactly when the name is the prefix followed by something |
| Text.EndsWithConcat | index.js:189 | `endsWith(suffix)` holds exactly when the name is something followed by the suffix |
| Text.LastSlash | index.js:143 | the index of the last slash, none after it |
| Text.DirnameJoin | index.js:143-144 | the directory of `dir/name` is `dir` |
| Loader.SplitField | index.js:168-172 | a string field becomes a non-empty list of whitespace-free ids, [""] exactly when it is blank; an absent field stays absent; a field that is not a string is the FieldTypeError `trim` throws |
| Loader.Prepare | index.js:167-173 | the fields are split in the order bases, children, related; the first one that is not a string is the error, and otherwise the title is untouched and each list is its SplitField |
| Loader.PreparedIdsHaveNoSpace | index.js:167-173 | no id a prepared header mentions contains whitespace |
| Loader.ResolveImages | index.js:159-161 | every image reference becomes an `img` block, everything else is kept in place, no node changes and no image hash is removed |
| Loader.ResolveImagesBlocks | index.js:159-161 | each image reference becomes exactly the hook's block for it (the hash of that image's bytes, or the failure message), and every other block is kept |
| Loader.ResolveImagesSound | index.js:159-161 | resolving the images keeps the image map sound |
| Loader.ReadFile | index.js:155-176 | an unreadable file fails with FileReadError and changes nothing; a failing read adds no node; no image hash is removed |
| Loader.ReadFileFieldError | index.js:167-173 | a `graph` header with an id field that is not a string fails with that field's FieldTypeError, adds no node, and keeps the images recorded while parsing |
| Loader.ReadFileOutcome | index.js:163-173 | readFile succeeds exactly when the file is readable, its first block is a `graph` block and its id fields are strings or absent, and then the node named by the stem exists |
| Loader.ReadFileKeepsGood | index.js:155-176 | readFile preserves the store invariants and image soundness |
| Loader.ReadFileGrows | index.js:155-176 | readFile removes no node and no edge |
| Loader.FileVisits | index.js:189-191 | every entry of the directory whose name ends in ".minidosis" is read, in this directory, and no more files are read than there are entries |
| Loader.FileVisitsListed | index.js:189-191 | every file read in a directory comes from one of its entries ending in ".minidosis" |
| Loader.TextOf | index.js:189-192 | reading an entry yields text only for a file, and then the file's text; reading a directory fails |
| Loader.Visits | index.js:182-198 | the walk reads only files at or below the directory it starts from |
| Loader.SubdirVisits | index.js:184-188 | the first loop reads only files inside subdirectories of the directory |
| Loader.VisitsAreContentFiles | index.js:182-198 | every file the walk reads ends in ".minidosis" |
| Loader.SubdirVisitsAppend | index.js:185-188 | the first loop's walk of a concatenated listing is the walk of the first part followed by the walk of the second |
| Loader.HiddenDirSkipped | index.js:185 | a subdirectory whose name starts with '.' is not entered: wherever it stands in a listing, the walk is the walk of the listing without it |
| Loader.RunVisits | index.js:190-197 | the caught-failure loop never removes a node, and reading no file changes nothing |
| Loader.RunVisitsAppend | index.js:190-197 | reading two lists of files is reading the first, then the second from where it left off |
| Loader.RunVisitsKeepsGood | index.js:190-197 | every walk preserves the store invariants and image soundness |
| Loader.ReadAll | index.js:178-200 | starting from empty maps, the rebuilt store is well-formed, inverse-consistent and free of dangling ids, and its image map is sound, whatever the tree holds |
| Loader.UnreadableFileIgnored | index.js:190-195 | a file that cannot be read is caught and leaves the rest of the walk as if it were absent |
| Loader.RunVisitsGrows | index.js:190-197 | later files never remove nodes, edges or image hashes added by earlier ones |
| Loader.ReadFileSurvives | index.js:190-195 | the node of a file with a `graph` header whose id fields are strings or absent exists after the walk, whatever fails around it |
| Query.TitleMatches | index.js:219 | only a non-empty string title can match; with the empty query every non-empty string title matches |
| Query.Matching | graph.js:227-233 | the results are stored ids, no more than were scanned |
| Query.ScanUnguarded | index.js:218-222 | the unguarded loop can only fail with the title type error, and otherwise returns stored ids, no more than were scanned |
| Query.MatchingMembers | graph.js:224-235 | an id is found exactly when it is listed and its title is a non-empty string containing the query, ignoring case |
| Query.MatchingAppend | graph.js:227-233 | results follow the iteration order |
| Query.MatchingCaseInsensitive | graph.js:225 | the query's letter case does not matter |
| Query.MatchingSnoc | graph.js:227-233 | one more node is appended to the results exactly when its title matches |
| Query.Search | graph.js:224-235 | a node is in the result exactly when it is stored under its id and its title matches |
| Query.SearchUnguarded | index.js:215-224 | fails exactly when some title is truthy but not a string (an absent or falsy title is skipped), otherwise returns what graph.js's search returns |
| Query.ScanUnguardedAgrees | index.js:215-224 | the unguarded scan fails with TitleTypeError exactly when some title is truthy but not a string, and otherwise yields the guarded result |
| Query.StructuredSnoc | index.js:218-219 | one more node has a truthy non-string title exactly when it or an earlier one does |
| Query.SearchExample | graph.js:224-235 | among "Title One" and "Other", the query "tit" finds only the first |
| Store.Graph.constructor | graph.js:187-189 | the store starts with empty maps |
| Store.Graph.Has | graph.js:90 | true exactly when the id is stored |
| Store.Graph.HasImage | graph.js:91 | true exactly when the hash is recorded |
| Store.Graph.GetImage | graph.js:103 | the recorded path, or none |
| Store.Graph.NumNodes | graph.js:109-111 | the number of stored nodes |
| Store.Graph.Get | graph.js:93-101 | the store becomes Touch of the old one, the returned node is the one stored under the id, and the invariants are kept |
| Store.Graph.AddNode | graph.js:113-128 | the store becomes Snapshot.AddNode of the old one, stays well-formed, and keeps inverse consistency and the absence of dangling ids |
| Store.Graph.AddLinkList | graph.js:118-123 | the store becomes Snapshot.AddLinks of the old one |
| Store.Graph.LinkForward | graph.js:120 | the listed ids are added to node `id`'s set, one at a time |
| Store.Graph.LinkBack | graph.js:121 | each listed node is fetched (created when absent) and links back to `id` |
| Store.Graph.LinkTo | graph.js:121 | get(other) followed by addLink(inverse, id): `other` is now a node, no node is lost, the store stays well-formed, and the new state is `other` touched then linked to `id` |
| Store.Graph.GetImageHash | graph.js:134-139 | result and new store are those of ImageStore.GetImageHash, and the store stays well-formed |
| Store.Graph.PathToHash | index.js:140-153 | result and new store are those of ImageStore.ImageHook |
| Store.Graph.Parse | index.js:159-161 | the blocks and the store are those of Loader.ResolveImages |
| Store.Graph.ReadFile | index.js:155-176 | outcome and store are those of Loader.ReadFile, and the invariants and image soundness are kept |
| Store.Graph.ParseDir | index.js:182-198 | the store becomes the fold of readFile over Loader.Visits, and the invariants and image soundness are kept |
| Store.Graph.ParseSubdirs | index.js:185-188 | the non-hidden subdirectories are walked in order, each depth first |
| Store.Graph.ParseFiles | index.js:189-197 | the ".minidosis" entries are read in order, failures caught |
| Store.Graph.ReadAll | index.js:178-200 | the store becomes Loader.ReadAll: well-formed, inverse-consistent, free of dangling ids, with a sound image map |
| Store.Graph.Search | graph.js:224-235 | returns Query.Search of the store |
| Store.Graph.SearchUnguarded | index.js:215-224 | returns Query.SearchUnguarded of the store |

## Left out

- **File system.** Real reads are not modelled (`fs.readdirSync`, `fs.readFileSync`). A
  directory is a `Loader.Entry` tree, and a file's text is given already parsed or as
  unreadable. Image bytes come from a map of readable paths.
- **`sha1`.** It is an arbitrary function parameter. Nothing assumes it is free of collisions.
- **markright.** `markright.parse`, `isCommandNode` and `toJson` are not modelled. A file is a
  sequence of blocks, `Image` blocks are the `img` references, and the leading `graph` block
  carries the header fields.
- **Joined paths.** `path.join` and `path.dirname` are plain string operations, without
  normalisation.
- **graph.js `readFile`** (graph.js:156-185) is not modelled. Its `img` hook never registers
  an image: it calls `pathToHash`, which only returns a closure, logs that closure and returns
  `'image'`. Its parameter `path` also shadows the module, so `path.join` is whatever that
  argument provides (`Array.prototype.join` when it is the children array). The walk is
  modelled with `index.js`'s `readFile`, which both files' `readAll` then share.
- **Not modelled:**
  - `watchForChanges` and `fs.watch` (asynchronous event plumbing);
  - `show` and `clearLinks` (console output; `links` is never filled);
  - `Node.toJson` (JSON text, and it goes through the module-global graph);
  - the environment check and the singleton created when the module loads.
- **`forEachNode`** is inlined into `Store.Graph.Search` and `Store.Graph.SearchUnguarded` as a
  loop over the insertion order.
- **Unicode.** `toUpperCase` is modelled for ASCII letters only. Whitespace is the ASCII
  subset of `\s`.
- **Store.Graph:** the map holds node values, not shared `Node` objects. The nodes returned
  by `get` and `search` are copies. Changing one afterwards does not change the store, and
  `addNode`'s in-place edits are written as updates of the map entry. The `Node` class models
  one object's own methods.
- **Unlistable directories.** `fs.readdirSync` (index.js:183) throws on a directory that
  cannot be listed. Nothing in `parseDir` catches that, so `readAll` aborts, leaving the
  half-filled maps it installed at index.js:179-180. The model's `Loader.Entry` tree is always
  listable, so this abort is not modelled.
- **Diagnostics.** The `console.error` messages for a failed image (index.js:149) and a failed
  file (index.js:194) are dropped. The image failure message itself is kept in the `img`
  block.
- **Store.Graph.constructor:** it starts with empty maps. In JavaScript the maps are undefined
  until `readAll` runs.
- **Store.Graph.Search:** it returns node values in the store's order. The identity of the
  returned objects is not modelled.
