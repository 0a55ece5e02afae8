/** Small shared vocabulary: an optional value (the C++ NULL pointer or the
    "not found" result) and integer helpers used by several modules. */
module Common {

  /** A value that may be absent; `None` stands for a NULL pointer or a failed lookup. */
  datatype Option<T> = None | Some(value: T)

  function Min(a: int, b: int): int {
    if a <= b then a else b
  }

  function Max(a: int, b: int): int {
    if a >= b then a else b
  }

  /** Two to the power `n`, for stating the width of machine integers. */
  function Pow2(n: nat): (r: nat)
    ensures r >= 1
  {
    if n == 0 then 1 else 2 * Pow2(n - 1)
  }

  /** The head and tail of a concatenation whose left part is not empty. */
  lemma AppendTail<T>(a: seq<T>, b: seq<T>)
    requires |a| > 0
    ensures (a + b)[0] == a[0] && (a + b)[1..] == a[1..] + b
  {
  }

  /** A prefix is the shorter prefix and one more element. */
  lemma TakeSnoc<T>(s: seq<T>, n: nat)
    requires 0 < n <= |s|
    ensures s[..n] == s[..n - 1] + [s[n - 1]]
  {
  }

  /** Updating the right part of a concatenation is updating the whole at
      the shifted index. */
  lemma UpdateRight<T>(a: seq<T>, b: seq<T>, i: nat, v: T)
    requires i < |b|
    ensures a + b[i := v] == (a + b)[|a| + i := v]
  {
  }

  /** Updating the left part of a concatenation is updating the whole. */
  lemma UpdateLeft<T>(a: seq<T>, b: seq<T>, i: nat, v: T)
    requires i < |a|
    ensures a[i := v] + b == (a + b)[i := v]
  {
  }

  /** A window lying inside the middle part of a concatenation is a window
      of that part. */
  lemma MiddleWindow<T>(a: seq<T>, m: seq<T>, c: seq<T>, i: nat, j: nat)
    requires |a| <= i <= j <= |a| + |m|
    ensures (a + m + c)[i..j] == m[i - |a|..j - |a|]
  {
  }

  /** A window of a slice is the matching window of the whole. */
  lemma SliceOfSlice<T>(s: seq<T>, lo: nat, hi: nat, i: nat, j: nat)
    requires lo <= hi <= |s| && i <= j <= hi - lo
    ensures s[lo..hi][i..j] == s[lo + i..lo + j]
  {
    forall k | 0 <= k < j - i
      ensures s[lo..hi][i..j][k] == s[lo + i..lo + j][k]
    {
    }
  }
}
