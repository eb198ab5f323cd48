/** Character and string searching shared by the parsers: the counterparts of
    `std::string::find`, `QString::indexOf` and C's `isspace`/`isdigit`. */
module Text {
  import opened Wrappers

  /** The index of the first occurrence of `c` in `s` (`indexOf`). */
  function FirstIndex<T(==)>(s: seq<T>, c: T): (k: nat)
    requires c in s
    ensures k < |s| && s[k] == c
    ensures c !in s[..k]
  {
    if s[0] == c then 0 else 1 + FirstIndex(s[1..], c)
  }

  /** `FirstIndex` is determined by where `c` first appears. */
  lemma {:induction false} FirstIndexAfterPrefix(p: string, c: char, r: string)
    requires c !in p
    ensures c in p + [c] + r && FirstIndex(p + [c] + r, c) == |p|
  {
    var s := p + [c] + r;
    assert s[|p|] == c;
  }

  /** True when `pat` occurs in `s` starting at index `i`. */
  predicate OccursAt(s: string, pat: string, i: nat) {
    i + |pat| <= |s| && s[i..i + |pat|] == pat
  }

  /** `std::string::find(pat, from)`: the first index at or after `from` where
      `pat` occurs, or `None` for `npos`. */
  function Find(s: string, pat: string, from: nat): (r: Option<nat>)
    decreases |s| - from
    ensures r.Some? ==> from <= r.value && OccursAt(s, pat, r.value)
    ensures r.Some? ==> forall i :: from <= i < r.value ==> !OccursAt(s, pat, i)
    ensures r.None? ==> forall i :: from <= i ==> !OccursAt(s, pat, i)
  {
    if from + |pat| > |s| then None
    else if s[from..from + |pat|] == pat then Some(from)
    else Find(s, pat, from + 1)
  }
}
