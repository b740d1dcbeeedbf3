/** String helpers the store relies on, each with the meaning the
    JavaScript runtime gives it: `trim`, `split(/\s+/)`, `split('.')[0]`,
    `toUpperCase`, `indexOf(sub) !== -1`, and the two path operations. */
module Text {

  /** The whitespace class of `trim` and `\s` (ASCII part). */
  predicate IsSpace(c: char)
  {
    c == ' ' || c == '\t' || c == '\n' || c == '\r' || c == '\U{000B}' || c == '\U{000C}'
  }

  predicate NoSpace(s: string)
  {
    forall i :: 0 <= i < |s| ==> !IsSpace(s[i])
  }

  predicate AllSpace(s: string)
  {
    forall i :: 0 <= i < |s| ==> IsSpace(s[i])
  }

  /** Non-empty words free of whitespace. */
  predicate PlainWords(ws: seq<string>)
  {
    forall i :: 0 <= i < |ws| ==> ws[i] != "" && NoSpace(ws[i])
  }

  /** Non-empty runs of whitespace. */
  predicate SpaceRuns(seps: seq<string>)
  {
    forall j :: 0 <= j < |seps| ==> seps[j] != "" && AllSpace(seps[j])
  }

  /** Number of leading whitespace characters. */
  function LeadingSpaces(s: string): (k: nat)
    ensures k <= |s|
    ensures forall i :: 0 <= i < k ==> IsSpace(s[i])
    ensures k < |s| ==> !IsSpace(s[k])
  {
    if |s| > 0 && IsSpace(s[0]) then 1 + LeadingSpaces(s[1..]) else 0
  }

  /** Index where the trailing whitespace begins. */
  function TrailingStart(s: string): (k: nat)
    ensures k <= |s|
    ensures forall i :: k <= i < |s| ==> IsSpace(s[i])
    ensures 0 < k ==> !IsSpace(s[k - 1])
  {
    if |s| > 0 && IsSpace(s[|s| - 1]) then TrailingStart(s[..|s| - 1]) else |s|
  }

  /** Index of the first whitespace character, or |s| when there is none. */
  function FirstSpace(s: string): (k: nat)
    ensures k <= |s|
    ensures NoSpace(s[..k])
    ensures k < |s| ==> IsSpace(s[k])
  {
    if |s| == 0 || IsSpace(s[0]) then 0
    else
      var k := 1 + FirstSpace(s[1..]);
      assert s[..k] == [s[0]] + s[1..][..k - 1];
      k
  }

  /** `s.trim()`: `s` without its leading and trailing whitespace. */
  function Trim(s: string): (r: string)
    ensures r == "" || (!IsSpace(r[0]) && !IsSpace(r[|r| - 1]))
    ensures r == "" <==> forall i | 0 <= i < |s| :: IsSpace(s[i])
    ensures exists a, b | 0 <= a <= b <= |s| ::
              && r == s[a..b]
              && (forall i | 0 <= i < a :: IsSpace(s[i]))
              && (forall i | b <= i < |s| :: IsSpace(s[i]))
  {
    var a := LeadingSpaces(s);
    var t := s[a..];
    TrimSpan(s, a, TrailingStart(t));
    AllLeading(s);
    t[..TrailingStart(t)]
  }

  /** The span Trim keeps: everything after it is whitespace, and it is
      the slice of `s` between the two whitespace runs. */
  lemma TrimSpan(s: string, a: nat, k: nat)
    requires a <= |s| && k == TrailingStart(s[a..])
    ensures a + k <= |s| && (forall i | a + k <= i < |s| :: IsSpace(s[i]))
    ensures s[a..][..k] == s[a..a + k]
  {
    var t := s[a..];
    forall i | a + k <= i < |s|
      ensures IsSpace(s[i])
    {
      assert t[i - a] == s[i];
    }
  }

  /** Only a text of whitespace is all leading whitespace. */
  lemma AllLeading(s: string)
    ensures (forall i | 0 <= i < |s| :: IsSpace(s[i])) ==> LeadingSpaces(s) == |s|
  {
    var a := LeadingSpaces(s);
    assert a < |s| ==> !IsSpace(s[a]);
  }

  /** `s.split(/\s+/)`: the pieces between maximal runs of whitespace. As in
      JavaScript, a run at either end yields an empty first or last piece,
      and the empty string yields the single piece "". */
  function Split(s: string): (r: seq<string>)
    ensures |r| >= 1
    ensures forall i :: 0 <= i < |r| ==> NoSpace(r[i])
    decreases |s|
  {
    var k := FirstSpace(s);
    if k == |s| then
      assert s[..k] == s;
      [s]
    else
      var rest := s[k..];
      [s[..k]] + Split(rest[LeadingSpaces(rest)..])
  }

  /** `s.trim().split(/\s+/)`, the id-list splitting of the header fields. */
  function Words(s: string): (r: seq<string>)
    ensures |r| >= 1
    ensures forall i :: 0 <= i < |r| ==> NoSpace(r[i])
    ensures Trim(s) == "" ==> r == [""]
  {
    Split(Trim(s))
  }

  /** Every piece of Words(s) is free of whitespace, and the pieces are
      non-empty exactly when the trimmed text is; an all-blank field gives
      the single id "". */
  lemma {:induction false} WordsShape(s: string)
    ensures |Words(s)| >= 1
    ensures forall i :: 0 <= i < |Words(s)| ==> NoSpace(Words(s)[i])
    ensures Trim(s) == "" <==> Words(s) == [""]
    ensures Trim(s) != "" ==> forall i :: 0 <= i < |Words(s)| ==> Words(s)[i] != ""
  {
    var t := Trim(s);
    if t != "" {
      SplitTrimmedNonEmpty(t);
    }
  }

  lemma {:induction false} SplitTrimmedNonEmpty(t: string)
    requires t != "" && !IsSpace(t[0]) && !IsSpace(t[|t| - 1])
    ensures forall i :: 0 <= i < |Split(t)| ==> Split(t)[i] != ""
    decreases |t|
  {
    var k := FirstSpace(t);
    if k < |t| {
      var rest := t[k..];
      var u := rest[LeadingSpaces(rest)..];
      assert k > 0;
      assert rest[|rest| - 1] == t[|t| - 1];
      assert u != "";
      assert u[|u| - 1] == t[|t| - 1];
      SplitTrimmedNonEmpty(u);
      assert Split(t) == [t[..k]] + Split(u);
    }
  }

  /** A single whitespace-free word splits to itself. */
  lemma SplitWord(w: string)
    requires NoSpace(w)
    ensures Split(w) == [w]
  {
    assert w[..|w|] == w;
    FirstSpaceIs(w, |w|);
  }

  /** A word, a non-empty run of whitespace and a text starting with a
      non-space split into the word followed by the pieces of that text. */
  lemma SplitSep(w: string, sep: string, tail: string)
    requires w != "" && NoSpace(w) && sep != "" && AllSpace(sep) && |tail| > 0 && !IsSpace(tail[0])
    ensures Split(w + sep + tail) == [w] + Split(tail)
  {
    SepFirst(w, sep, tail);
    SepRest(w, sep, tail);
    SplitUnfold(w + sep + tail, |w|, |sep|, w, tail);
  }

  /** In `w + sep + tail` the first piece ends where the separator begins. */
  lemma SepFirst(w: string, sep: string, tail: string)
    requires NoSpace(w) && sep != "" && AllSpace(sep)
    ensures FirstSpace(w + sep + tail) == |w| && (w + sep + tail)[..|w|] == w
  {
    var s := w + sep + tail;
    assert s[..|w|] == w && s[|w|] == sep[0];
    FirstSpaceIs(s, |w|);
  }

  /** After the first piece of `w + sep + tail` comes exactly the run `sep`,
      then `tail`. */
  lemma SepRest(w: string, sep: string, tail: string)
    requires AllSpace(sep) && |tail| > 0 && !IsSpace(tail[0])
    ensures (w + sep + tail)[|w|..][|sep|..] == tail && LeadingSpaces((w + sep + tail)[|w|..]) == |sep|
  {
    var rest := (w + sep + tail)[|w|..];
    assert rest == sep + tail;
    assert rest[|sep|..] == tail;
    LeadingRun(sep, tail);
  }

  /** A run of whitespace followed by a text that does not start with
      whitespace: the run is exactly the leading whitespace. */
  lemma {:induction false} LeadingRun(sep: string, tail: string)
    requires AllSpace(sep) && (tail == "" || !IsSpace(tail[0]))
    ensures LeadingSpaces(sep + tail) == |sep|
    decreases |sep|
  {
    if sep != "" {
      assert (sep + tail)[1..] == sep[1..] + tail;
      LeadingRun(sep[1..], tail);
    } else {
      assert sep + tail == tail;
    }
  }

  /** A text that does not end in whitespace followed by a run of
      whitespace: the run is exactly the trailing whitespace. */
  lemma {:induction false} TrailingRun(head: string, sep: string)
    requires AllSpace(sep) && (head == "" || !IsSpace(head[|head| - 1]))
    ensures TrailingStart(head + sep) == |head|
    decreases |sep|
  {
    if sep != "" {
      var init := sep[..|sep| - 1];
      assert (head + sep)[..|head + sep| - 1] == head + init;
      TrailingRun(head, init);
    } else {
      assert head + sep == head;
    }
  }

  /** One step of Split: the piece before the first whitespace, then the
      pieces after the run of whitespace that follows it. */
  lemma SplitUnfold(s: string, k: nat, m: nat, first: string, after: string)
    requires k < |s| && FirstSpace(s) == k && LeadingSpaces(s[k..]) == m
    requires s[..k] == first && s[k..][m..] == after
    ensures Split(s) == [first] + Split(after)
  {
  }

  /** Words with an arbitrary separator after each word but the last:
      `seps[j]` follows `ws[j]`. */
  function JoinWith(ws: seq<string>, seps: seq<string>): string
    requires |ws| >= 1 && |seps| == |ws| - 1
    decreases |ws|
  {
    if |ws| == 1 then ws[0] else ws[0] + seps[0] + JoinWith(ws[1..], seps[1..])
  }

  /** The joined text starts with the first word and ends with the last. */
  lemma {:induction false} JoinWithEnds(ws: seq<string>, seps: seq<string>)
    requires |ws| >= 1 && |seps| == |ws| - 1
    ensures var r := JoinWith(ws, seps);
      |r| >= |ws[0]| && r[..|ws[0]|] == ws[0] &&
      |r| >= |ws[|ws| - 1]| && r[|r| - |ws[|ws| - 1]|..] == ws[|ws| - 1]
    decreases |ws|
  {
    if |ws| > 1 {
      var rest := JoinWith(ws[1..], seps[1..]);
      JoinWithEnds(ws[1..], seps[1..]);
      assert (ws[0] + seps[0] + rest)[|ws[0] + seps[0]|..] == rest;
    }
  }

  /** Splitting undoes joining with any separators: whitespace-free,
      non-empty words separated by non-empty runs of spaces, tabs, line
      breaks or form feeds are read back as the same list. */
  lemma {:induction false} SplitJoinWith(ws: seq<string>, seps: seq<string>)
    requires |ws| >= 1 && |seps| == |ws| - 1
    requires PlainWords(ws)
    requires SpaceRuns(seps)
    ensures Split(JoinWith(ws, seps)) == ws
    decreases |ws|
  {
    if |ws| == 1 {
      SplitWord(ws[0]);
    } else {
      SplitJoinWithStep(ws, seps);
      SplitJoinWithTail(ws, seps);
      SplitJoinWith(ws[1..], seps[1..]);
      assert ws == [ws[0]] + ws[1..];
    }
  }

  /** Dropping the first word and the first separator keeps the words and
      the separators as SplitJoinWith needs them. */
  lemma SplitJoinWithTail(ws: seq<string>, seps: seq<string>)
    requires |ws| >= 2 && |seps| == |ws| - 1
    requires PlainWords(ws)
    requires SpaceRuns(seps)
    ensures PlainWords(ws[1..]) && SpaceRuns(seps[1..])
  {
    var tw, ts := ws[1..], seps[1..];
    forall i | 0 <= i < |tw| ensures tw[i] != "" && NoSpace(tw[i]) {
      assert tw[i] == ws[i + 1];
    }
    forall j | 0 <= j < |ts| ensures ts[j] != "" && AllSpace(ts[j]) {
      assert ts[j] == seps[j + 1];
    }
  }

  /** Joining two or more words with separators, the first piece is the
      first word. */
  lemma SplitJoinWithStep(ws: seq<string>, seps: seq<string>)
    requires |ws| >= 2 && |seps| == |ws| - 1
    requires ws[0] != "" && NoSpace(ws[0]) && ws[1] != "" && NoSpace(ws[1])
    requires seps[0] != "" && AllSpace(seps[0])
    ensures Split(JoinWith(ws, seps)) == [ws[0]] + Split(JoinWith(ws[1..], seps[1..]))
  {
    var rest := JoinWith(ws[1..], seps[1..]);
    JoinWithEnds(ws[1..], seps[1..]);
    assert rest[0] == rest[..|ws[1]|][0] == ws[1][0];
    SplitSep(ws[0], seps[0], rest);
  }

  /** A header field holding such words, with any whitespace before and
      after them, is read back as the same list of ids. */
  lemma WordsJoinWith(pre: string, ws: seq<string>, seps: seq<string>, post: string)
    requires AllSpace(pre) && AllSpace(post)
    requires |ws| >= 1 && |seps| == |ws| - 1
    requires PlainWords(ws)
    requires SpaceRuns(seps)
    ensures Words(pre + JoinWith(ws, seps) + post) == ws
  {
    var body, last := JoinWith(ws, seps), ws[|ws| - 1];
    JoinWithEnds(ws, seps);
    assert body[0] == body[..|ws[0]|][0];
    assert body[|body| - 1] == body[|body| - |last|..][|last| - 1];
    TrimAround(pre, body, post);
    SplitJoinWith(ws, seps);
  }

  /** Trimming removes exactly the whitespace around a text whose first and
      last characters are not whitespace. */
  lemma TrimAround(pre: string, body: string, post: string)
    requires AllSpace(pre) && AllSpace(post)
    requires body != "" && !IsSpace(body[0]) && !IsSpace(body[|body| - 1])
    ensures Trim(pre + body + post) == body
  {
    var s := pre + body + post;
    assert s == pre + (body + post);
    LeadingRun(pre, body + post);
    var t := s[|pre|..];
    assert t == body + post;
    TrailingRun(body, post);
    assert t[..|body|] == body;
  }

  /** FirstSpace is the unique index with no whitespace before it and
      whitespace (or the end) at it. */
  lemma {:induction false} FirstSpaceIs(s: string, k: nat)
    requires k <= |s| && NoSpace(s[..k]) && (k < |s| ==> IsSpace(s[k]))
    ensures FirstSpace(s) == k
  {
    if k > 0 {
      assert s[..k][0] == s[0];
      assert s[1..][..k - 1] == s[..k][1..];
      FirstSpaceIs(s[1..], k - 1);
    }
  }

  /** Index of the first occurrence of `c`, or |s| when there is none. */
  function IndexOf(s: string, c: char): (k: nat)
    ensures k <= |s|
    ensures c !in s[..k]
    ensures k < |s| ==> s[k] == c
  {
    if |s| == 0 || s[0] == c then 0
    else
      var k := 1 + IndexOf(s[1..], c);
      assert s[..k] == [s[0]] + s[1..][..k - 1];
      k
  }

  /** `filename.split('.')[0]`: the file's id is the longest prefix of its
      name without a dot, so it ends at the first dot or at the end. */
  function Stem(filename: string): (id: string)
    ensures id <= filename
    ensures '.' !in id
    ensures id == filename || filename[|id|] == '.'
  {
    filename[..IndexOf(filename, '.')]
  }

  /** `s.startsWith(prefix)`. */
  predicate StartsWith(s: string, prefix: string)
  {
    prefix <= s
  }

  /** `s.endsWith(suffix)`. */
  predicate EndsWith(s: string, suffix: string)
  {
    |suffix| <= |s| && s[|s| - |suffix|..] == suffix
  }

  /** A string starts with `prefix` exactly when it is `prefix` followed by
      something. */
  lemma StartsWithConcat(s: string, prefix: string)
    ensures StartsWith(s, prefix) <==> exists w :: s == prefix + w
  {
    if StartsWith(s, prefix) {
      assert s == prefix + s[|prefix|..];
    }
  }

  /** A string ends with `suffix` exactly when it is something followed by
      `suffix`. */
  lemma EndsWithConcat(s: string, suffix: string)
    ensures EndsWith(s, suffix) <==> exists w :: s == w + suffix
  {
    if EndsWith(s, suffix) {
      assert s == s[..|s| - |suffix|] + suffix;
    }
  }

  /** ASCII `toUpperCase` on one character. */
  function UpperChar(c: char): (u: char)
    ensures 'a' <= c <= 'z' ==> u as int == c as int - 32
    ensures !('a' <= c <= 'z') ==> u == c
  {
    if 'a' <= c <= 'z' then (c as int - 32) as char else c
  }

  /** `s.toUpperCase()` restricted to ASCII letters. */
  function Upper(s: string): (r: string)
    ensures |r| == |s|
    ensures forall i :: 0 <= i < |s| ==> r[i] == UpperChar(s[i])
  {
    seq(|s|, i requires 0 <= i < |s| => UpperChar(s[i]))
  }

  /** Upper-casing is idempotent, so a query that is already upper case
      is left as it is. */
  lemma UpperIdempotent(s: string)
    ensures Upper(Upper(s)) == Upper(s)
  {
    assert forall i :: 0 <= i < |s| ==> UpperChar(UpperChar(s[i])) == UpperChar(s[i]);
  }

  /** `s.indexOf(sub) !== -1`: `sub` occurs in `s` at some position. */
  predicate Contains(s: string, sub: string)
    ensures Contains(s, sub) ==> |sub| <= |s|
    ensures sub == "" || s == sub ==> Contains(s, sub)
  {
    assert sub == "" || s == sub ==> OccursAt(s, sub, 0);
    exists i :: 0 <= i <= |s| - |sub| && OccursAt(s, sub, i)
  }

  predicate OccursAt(s: string, sub: string, i: nat)
  {
    i + |sub| <= |s| && s[i..i + |sub|] == sub
  }

  /** `path.join(a, b)` for a relative `b`, without normalisation. */
  function Join(a: string, b: string): (p: string)
    ensures |p| == |a| + 1 + |b| && p[|a|] == '/'
    ensures p[..|a|] == a && p[|a| + 1..] == b
  {
    a + "/" + b
  }

  /** Index of the last '/', or -1 when there is none. */
  function LastSlash(p: string): (k: int)
    ensures -1 <= k < |p|
    ensures k >= 0 ==> p[k] == '/'
    ensures forall i :: k < i < |p| ==> p[i] != '/'
  {
    if |p| == 0 then -1
    else if p[|p| - 1] == '/' then |p| - 1
    else LastSlash(p[..|p| - 1])
  }

  /** `path.dirname(p)` for a path without a trailing slash. */
  function Dirname(p: string): (d: string)
    ensures LastSlash(p) < 0 ==> d == "."
    ensures LastSlash(p) == 0 ==> d == "/"
    ensures LastSlash(p) > 0 ==> |d| == LastSlash(p) && p[..|d|] == d && p[|d|] == '/' && '/' !in p[|d| + 1..]
  {
    var k := LastSlash(p);
    if k < 0 then "." else if k == 0 then "/" else p[..k]
  }

  /** The directory of `dir/name` is `dir` again, so an image is looked up
      relative to the directory of the file that mentions it. */
  lemma DirnameJoin(dir: string, name: string)
    requires dir != "" && '/' !in name
    ensures Dirname(Join(dir, name)) == dir
  {
    var p := Join(dir, name);
    forall i | |dir| < i < |p|
      ensures p[i] != '/'
    {
      assert p[i] == name[i - |dir| - 1];
    }
  }
}
