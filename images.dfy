/** The content-addressed image map: Graph.getImageHash and the image hook
    returned by Graph.pathToHash, as functions on the store's value. The
    hash is a parameter (any function of the bytes); the files the store
    can read are a map from path to bytes. */
module ImageStore {
  import opened Common
  import opened Markup
  import opened Text
  import opened Snapshot

  /** The readable files, by path. A path outside the map cannot be read. */
  type Blobs = map<string, Bytes>

  /** Graph.getImageHash(base_dir, imgpath): read the bytes at the joined
      path, record `hash -> path` (a later path with the same bytes
      overwrites the entry), and return the hash; a failed read throws and
      changes nothing. */
  function GetImageHash(s: State, blobs: Blobs, hash: Bytes -> Digest, baseDir: string, imgPath: string)
    : (r: (State, Result<Digest>))
    ensures r.0.nodes == s.nodes && r.0.order == s.order
    ensures r.1.Ok? <==> Join(baseDir, imgPath) in blobs
    ensures r.1.Ok? ==> r.1.value == hash(blobs[Join(baseDir, imgPath)])
    ensures r.1.Ok? ==> r.0.images.Keys == s.images.Keys + {r.1.value}
    ensures r.1.Ok? ==> r.0.images[r.1.value] == Join(baseDir, imgPath)
    ensures r.1.Ok? ==> forall d | d in s.images && d != r.1.value :: r.0.images[d] == s.images[d]
    ensures r.1.Err? ==> r.0 == s
  {
    var abspath := Join(baseDir, imgPath);
    if abspath !in blobs then (s, Err(ImageReadError(abspath)))
    else
      var h := hash(blobs[abspath]);
      (s.(images := s.images[h := abspath]), Ok(h))
  }

  /** Every entry of the image map names a readable file whose bytes hash to
      the entry's key. */
  ghost predicate ImagesSound(s: State, blobs: Blobs, hash: Bytes -> Digest)
  {
    forall d | d in s.images :: s.images[d] in blobs && hash(blobs[s.images[d]]) == d
  }

  /** getImageHash keeps the image map sound. */
  lemma GetImageHashSound(s: State, blobs: Blobs, hash: Bytes -> Digest, baseDir: string, imgPath: string)
    requires ImagesSound(s, blobs, hash)
    ensures ImagesSound(GetImageHash(s, blobs, hash, baseDir, imgPath).0, blobs, hash)
  {
  }

  /** Deduplication: two images with identical bytes get the same hash and
      share one entry of the map, which names the path registered last. */
  lemma GetImageHashDedup(s: State, blobs: Blobs, hash: Bytes -> Digest,
                          dir1: string, img1: string, dir2: string, img2: string)
    requires Join(dir1, img1) in blobs && Join(dir2, img2) in blobs
    requires blobs[Join(dir1, img1)] == blobs[Join(dir2, img2)]
    ensures var (s1, r1) := GetImageHash(s, blobs, hash, dir1, img1);
            var (s2, r2) := GetImageHash(s1, blobs, hash, dir2, img2);
            && r1 == r2
            && s2.images.Keys == s.images.Keys + {r1.value}
            && s2.images[r1.value] == Join(dir2, img2)
  {
  }

  /** The message of an `img` block whose image could not be read. */
  function FailureMessage(src: string, fullPath: string): (m: string)
    ensures StartsWith(m, "Failed to update image '" + src + "'")
    ensures EndsWith(m, "'" + fullPath + "':")
  {
    "Failed to update image '" + src + "' in node '" + fullPath + "':"
  }

  /** The block the `img` hook yields for the reference `src` in the file
      `fullPath`: the hash of the image's bytes when the image, resolved
      against the file's directory, is readable, and the failure message
      otherwise. It does not depend on the store. */
  function HookBlock(blobs: Blobs, hash: Bytes -> Digest, fullPath: string, src: string): Block
  {
    var p := Join(Dirname(fullPath), src);
    if p in blobs then Img(Hashes([hash(blobs[p])])) else Img(Message(FailureMessage(src, fullPath)))
  }

  /** The `img` hook that pathToHash(fullPath) returns, applied to an image
      reference `src`: it resolves `src` against the directory of the file,
      and yields an `img` block holding the hash, or holding the failure
      message when the image cannot be read. It never throws. */
  function ImageHook(s: State, blobs: Blobs, hash: Bytes -> Digest, fullPath: string, src: string)
    : (r: (State, Block))
    ensures r.0.nodes == s.nodes && r.0.order == s.order
    ensures r.1.Img?
    ensures r.1 == HookBlock(blobs, hash, fullPath, src)
    ensures r.1.children.Hashes? <==> Join(Dirname(fullPath), src) in blobs
    ensures r.1.children.Hashes? ==> r.1.children.hashes == [hash(blobs[Join(Dirname(fullPath), src)])]
    ensures r.1.children.Hashes? ==>
              r.0.images == s.images[r.1.children.hashes[0] := Join(Dirname(fullPath), src)]
    ensures r.1.children.Message? ==> r.0 == s
  {
    var (s1, res) := GetImageHash(s, blobs, hash, Dirname(fullPath), src);
    match res
    case Ok(h) => (s1, Img(Hashes([h])))
    case Err(_) => (s1, Img(Message(FailureMessage(src, fullPath))))
  }

  /** For a file `dir/name`, an image reference `src` is read from
      `dir/src`. */
  lemma ImageHookRelative(s: State, blobs: Blobs, hash: Bytes -> Digest, dir: string, name: string, src: string)
    requires dir != "" && '/' !in name
    ensures var (s1, b) := ImageHook(s, blobs, hash, Join(dir, name), src);
            b.children.Hashes? ==> s1.images[b.children.hashes[0]] == Join(dir, src)
  {
    DirnameJoin(dir, name);
  }

  /** The hook keeps the image map sound. */
  lemma ImageHookSound(s: State, blobs: Blobs, hash: Bytes -> Digest, fullPath: string, src: string)
    requires ImagesSound(s, blobs, hash)
    ensures ImagesSound(ImageHook(s, blobs, hash, fullPath, src).0, blobs, hash)
  {
    GetImageHashSound(s, blobs, hash, Dirname(fullPath), src);
  }
}
