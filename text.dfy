/** Strings and the few JavaScript string operations the localisation tools use:
    `indexOf`, `includes`, `lastIndexOf` and `Array.prototype.join`. */
module Text {

  type String = seq<char>

  datatype Option<+T> = None | Some(value: T)

  /** `pat` occurs in `s` starting at index `i`. */
  predicate OccursAt(s: String, pat: String, i: nat)
  {
    i + |pat| <= |s| && s[i..i + |pat|] == pat
  }

  /** `s.includes(pat)`. */
  predicate Contains(s: String, pat: String)
  {
    exists i: nat | i <= |s| :: OccursAt(s, pat, i)
  }

  /** First occurrence of `pat` at or after `from` (JavaScript `indexOf` with a start
      position; `None` stands for -1). */
  function IndexFrom(s: String, pat: String, from: nat): (r: Option<nat>)
    decreases |s| - from
    ensures r.Some? ==> from <= r.value && OccursAt(s, pat, r.value)
    ensures r.Some? ==> forall j: nat :: from <= j < r.value ==> !OccursAt(s, pat, j)
    ensures r.None? ==> forall j: nat :: from <= j ==> !OccursAt(s, pat, j)
  {
    if |s| < from + |pat| then None
    else if s[from..from + |pat|] == pat then Some(from)
    else IndexFrom(s, pat, from + 1)
  }

  /** `s.indexOf(pat)`. */
  function IndexOf(s: String, pat: String): (r: Option<nat>)
    ensures r.Some? <==> Contains(s, pat)
    ensures r.Some? ==> OccursAt(s, pat, r.value)
    ensures r.Some? ==> forall j: nat :: j < r.value ==> !OccursAt(s, pat, j)
  {
    IndexFrom(s, pat, 0)
  }

  /** Last occurrence of `pat` starting below `bound`. */
  function LastIndexBelow(s: String, pat: String, bound: nat): (r: Option<nat>)
    ensures r.Some? ==> r.value < bound && OccursAt(s, pat, r.value)
    ensures r.Some? ==> forall j: nat :: r.value < j < bound ==> !OccursAt(s, pat, j)
    ensures r.None? ==> forall j: nat :: j < bound ==> !OccursAt(s, pat, j)
  {
    if bound == 0 then None
    else if OccursAt(s, pat, bound - 1) then Some(bound - 1)
    else LastIndexBelow(s, pat, bound - 1)
  }

  /** `s.lastIndexOf(pat)`: the search starts from the end of `s`. */
  function LastIndexOf(s: String, pat: String): (r: Option<nat>)
    ensures r.Some? <==> Contains(s, pat)
    ensures r.Some? ==> OccursAt(s, pat, r.value)
    ensures r.Some? ==> forall j: nat :: r.value < j ==> !OccursAt(s, pat, j)
  {
    LastIndexBelow(s, pat, |s| + 1)
  }

  /** `parts.join(sep)`. */
  function Join(parts: seq<String>, sep: String): String
  {
    if |parts| == 0 then []
    else if |parts| == 1 then parts[0]
    else Join(parts[..|parts| - 1], sep) + sep + parts[|parts| - 1]
  }

  /** Number of copies of `c` in `s`. */
  function CountChar(s: String, c: char): nat
  {
    if s == [] then 0 else (if s[0] == c then 1 else 0) + CountChar(s[1..], c)
  }

  /** Splitting a slice whose contents are a concatenation. */
  lemma Peel(s: String, i: nat, j: nat, x: String, y: String)
    requires i <= j <= |s| && s[i..j] == x + y
    ensures i + |x| <= j && s[i..i + |x|] == x && s[i + |x|..j] == y
  {
    assert s[i..i + |x|] == (x + y)[..|x|];
    assert s[i + |x|..j] == (x + y)[|x|..];
  }

  /** Joining two adjacent slices. */
  lemma Glue(s: String, i: nat, j: nat, k: nat, x: String, y: String)
    requires i <= j <= k <= |s| && s[i..j] == x && s[j..k] == y
    ensures s[i..k] == x + y
  {
    assert s[i..k] == s[i..j] + s[j..k];
  }
}
