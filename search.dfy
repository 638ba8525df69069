/** Substring search, as `str.split(sep)[0]` and `bytes.split(sep)[0]` use it:
    the part of a sequence before the first occurrence of a separator. */
module Search {
  import opened Wrappers

  /** `pat` occurs in `s` starting at position `p`. */
  predicate OccursAt<T(==)>(s: seq<T>, pat: seq<T>, p: nat)
  {
    p + |pat| <= |s| && s[p..p + |pat|] == pat
  }

  /** `s.find(pat, from)`: the leftmost occurrence at or after `from`. */
  function Find<T(==)>(s: seq<T>, pat: seq<T>, from: nat): (r: Option<nat>)
    decreases |s| - from
    ensures r.Some? ==> from <= r.value && OccursAt(s, pat, r.value)
    ensures r.Some? ==> forall q :: from <= q < r.value ==> !OccursAt(s, pat, q)
    ensures r.None? ==> forall q :: from <= q ==> !OccursAt(s, pat, q)
  {
    if from + |pat| > |s| then None
    else if s[from..from + |pat|] == pat then Some(from)
    else Find(s, pat, from + 1)
  }

  /** `s.split(sep)[0]`: everything before the first occurrence of `sep`,
      or all of `s` when `sep` does not occur. */
  function SplitHead<T(==)>(s: seq<T>, sep: seq<T>): seq<T>
    requires |sep| > 0
  {
    match Find(s, sep, 0)
    case Some(j) => s[..j]
    case None => s
  }

  /** The head ends exactly at the first occurrence. */
  lemma SplitHeadAtFirst<T>(s: seq<T>, sep: seq<T>, j: nat)
    requires |sep| > 0 && OccursAt(s, sep, j)
    requires forall q: nat :: q < j ==> !OccursAt(s, sep, q)
    ensures SplitHead(s, sep) == s[..j]
  {}

  /** Without an occurrence the whole sequence is kept. */
  lemma SplitHeadNone<T>(s: seq<T>, sep: seq<T>)
    requires |sep| > 0
    requires forall q: nat :: !OccursAt(s, sep, q)
    ensures SplitHead(s, sep) == s
  {}
}
