/** Python's open-ended slice `s[start:]`, which the bot uses to keep the newest entries of a list. */
module Slices {

  function Min(a: int, b: int): int {
    if a <= b then a else b
  }

  /** Python's `s[start:]`: a negative `start` counts from the end, and out-of-range bounds clamp */
  function SliceFrom<T>(s: seq<T>, start: int): (r: seq<T>)
    ensures |r| <= |s| && r == s[|s| - |r|..]
  {
    if start >= 0 then (if start >= |s| then [] else s[start..])
    else if -start >= |s| then s
    else s[|s| + start..]
  }

  /** `s[-n:]` with `n >= 1` keeps exactly the last `min(n, |s|)` elements */
  lemma SliceLast<T>(s: seq<T>, n: int)
    requires n >= 1
    ensures |SliceFrom(s, -n)| == Min(n, |s|)
    ensures SliceFrom(s, -n) == s[|s| - Min(n, |s|)..]
  {
  }

  /** `s[-0:]` is `s[0:]`: the whole list, not an empty one */
  lemma SliceMinusZero<T>(s: seq<T>)
    ensures SliceFrom(s, -0) == s
  {
  }
}
