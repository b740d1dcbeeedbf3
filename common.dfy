/** Small shared vocabulary: optional values, the failure kinds the graph
    store can raise, and the pass/fail outcome of an operation that may throw. */
module Common {

  datatype Option<+T> = None | Some(value: T)

  /** The errors the store raises or reports. */
  datatype Error =
    | UnknownLinkType(tag: string)   // Node.addLink on a tag outside the closed set
    | FileReadError(path: string)    // readFileSync failed (missing, unreadable, a directory)
    | MissingHeader(path: string)    // first parsed block is not a `graph` command
    | ImageReadError(path: string)   // image bytes could not be read
    | TitleTypeError                 // toUpperCase called on a title that is not a string
    | FieldTypeError(field: string)  // trim called on a header id field that is not a string

  /** Outcome of a statement that either completes or throws. */
  datatype Outcome = Pass | Fail(error: Error)

  /** Result of an expression that either yields a value or throws. */
  datatype Result<+T> = Ok(value: T) | Err(error: Error)

  /** A sequence without repeated elements. */
  ghost predicate NoDup<T>(xs: seq<T>)
  {
    forall i, j :: 0 <= i < j < |xs| ==> xs[i] != xs[j]
  }

  /** Appending a non-empty sequence is appending all of it but its last
      element, then that element. */
  lemma AppendSnoc<T>(xs: seq<T>, ys: seq<T>)
    requires ys != []
    ensures xs + ys == (xs + ys[..|ys| - 1]) + [ys[|ys| - 1]]
  {
    assert ys == ys[..|ys| - 1] + [ys[|ys| - 1]];
  }

  /** Splitting a concatenation into its parts and one part into a prefix
      and a last piece regroups as expected. */
  lemma Regroup<T>(whole: seq<T>, left: seq<T>, right: seq<T>, init: seq<T>, last: seq<T>)
    requires whole == (left + init) + last && right == init + last
    ensures whole == left + right
  {
  }

  /** A prefix one longer is the prefix and the next element. */
  lemma PrefixSnoc<T>(xs: seq<T>, i: nat)
    requires i < |xs|
    ensures xs[..i + 1] == xs[..i] + [xs[i]]
  {
  }
}
