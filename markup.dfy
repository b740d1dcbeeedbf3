/** The shapes the markup parser hands to the store: the raw header of a
    `graph` block and the content blocks, including the image blocks the
    image hook produces. The parser itself is not part of this model. */
module Markup {
  import opened Common

  newtype byte = x: int | 0 <= x < 256

  type Bytes = seq<byte>

  /** A content hash (a sha1 hex digest in the store). */
  type Digest = string

  /** A node title as JavaScript sees it: absent, a string, or some other
      truthy value the parser produced (a nested markup node). */
  datatype Title = NoTitle | Str(s: string) | Structured

  /** An id-list field of the header as JavaScript sees it: absent, a
      string of whitespace-separated ids, or some other value the parser
      produced (on which `trim` throws). */
  datatype Field = Absent | FieldText(text: string) | NonText

  /** The `graph` block before preprocessing: the id lists are still
      whitespace-separated strings, and each field may be absent. */
  datatype RawHeader = RawHeader(
    title: Title,
    bases: Field,
    children: Field,
    related: Field)

  /** The children of an `img` block produced by the image hook: the hash
      of the image, or the failure message in place of the list. */
  datatype ImgChildren = Hashes(hashes: seq<Digest>) | Message(msg: string)

  /** One parsed block. `Image(src)` is an image reference as written in the
      file; the parser replaces it by whatever the `img` hook returns. */
  datatype Block =
    | Graph(header: RawHeader)
    | Image(src: string)
    | Img(children: ImgChildren)
    | Text(text: string)

  type Content = seq<Block>
}
