/**
 * The two operations on Python lists that the board relies on:
 * subscription `s[k]` (negative `k` counts from the end) and the search
 * `s.index(x)`. A `None` result stands for the exception Python raises.
 */
module Lists {
  import opened Wrappers

  /** No element occurs twice. */
  predicate Distinct<T(==)>(s: seq<T>)
  {
    forall i, j :: 0 <= i < j < |s| ==> s[i] != s[j]
  }

  /**
   * `s[k]`: defined for `-|s| <= k < |s|` and `None` (IndexError) otherwise;
   * a negative subscript selects the same element as `k mod |s|`.
   */
  function At<T>(s: seq<T>, k: int): (r: Option<T>)
    ensures r.Some? <==> -|s| <= k < |s|
    ensures r.Some? ==> r.value == s[k % |s|]
  {
    if 0 <= k < |s| then Some(s[k])
    else if -|s| <= k < 0 then
      assert k % |s| == |s| + k by { ModOfNegative(k, |s|); }
      Some(s[|s| + k])
    else None
  }

  /** A subscript inside the list selects the element at that position. */
  lemma AtInRange<T>(s: seq<T>, k: int)
    requires 0 <= k < |s|
    ensures At(s, k) == Some(s[k])
  {
  }

  /** A negative subscript counts back from the end of the list. */
  lemma AtNegative<T>(s: seq<T>, k: int)
    requires -|s| <= k < 0
    ensures At(s, k) == Some(s[|s| + k])
  {
  }

  lemma ModOfNegative(k: int, n: int)
    requires -n <= k < 0
    ensures k % n == n + k
  {
    var q, m := k / n, k % n;
    assert k == q * n + m && 0 <= m < n;
  }

  /**
   * `s.index(x)`: the position of the FIRST occurrence of `x`, or `None`
   * (ValueError) when `x` does not occur at all.
   */
  function IndexOf<T(==)>(s: seq<T>, x: T): (r: Option<nat>)
    ensures r.None? <==> x !in s
    ensures r.Some? ==> r.value < |s| && s[r.value] == x
    ensures r.Some? ==> forall j :: 0 <= j < r.value ==> s[j] != x
  {
    if |s| == 0 then None
    else if s[0] == x then Some(0)
    else
      match IndexOf(s[1..], x)
      case None => None
      case Some(k) => Some(k + 1)
  }
}
