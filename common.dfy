/** Shared vocabulary of both engines: failure-compatible wrappers, the
    first-match lookup that both `list.index` and `np.where(...)[0][0]`
    perform, and Python's integer indexing with negative offsets. */
module Common {

  /** Days in the fixed (leap-free) year used by both engines. */
  const DaysInYear: nat := 365

  datatype Option<+T> = None | Some(value: T)

  datatype Result<+R, +E> = Success(value: R) | Failure(error: E)

  /** Position of the first element of `s` equal to `v`, or None where the
      source raises because `v` does not occur. */
  function IndexOf(s: seq<real>, v: real): (r: Option<nat>)
    ensures r.None? <==> v !in s
    ensures r.Some? ==> r.value < |s| && s[r.value] == v
    ensures r.Some? ==> forall k :: 0 <= k < r.value ==> s[k] != v
  {
    if |s| == 0 then None
    else if s[0] == v then Some(0)
    else
      match IndexOf(s[1..], v)
      case None => None
      case Some(k) => Some(k + 1)
  }

  /** No value occurs twice. */
  predicate Distinct(s: seq<real>) {
    forall i, j :: 0 <= i < j < |s| ==> s[i] != s[j]
  }

  /** In a sequence without repeats the first match of `s[k]` is `k` itself. */
  lemma IndexOfDistinct(s: seq<real>, k: nat)
    requires Distinct(s) && k < |s|
    ensures IndexOf(s, s[k]) == Some(k)
  {
  }

  /** The element an integer index selects along an axis of length `n` in
      Python/numpy: None where the source raises IndexError; otherwise the
      one position of the axis that is congruent to `i` modulo `n`, so a
      negative index counts back from the end. */
  function PyIndex(i: int, n: nat): (r: Option<nat>)
    ensures r.Some? <==> -(n as int) <= i < n
    ensures r.Some? ==> r.value < n && r.value as int % n == i % n
  {
    if 0 <= i < n then Some(i)
    else if -(n as int) <= i < 0 then ModOfNegative(i, n); Some(i + n)
    else None
  }

  /** A negative index of at most the axis length is congruent to its
      count back from the end. */
  lemma ModOfNegative(i: int, n: int)
    requires n > 0 && -n <= i < 0
    ensures (i + n) % n == i % n
  {
    var q, r := i / n, i % n;
    assert i == q * n + r && 0 <= r < n;
    assert q == -1;
    assert (i + n) % n == i + n;
  }

  /** The first present entry of `s`: the error a loop over `s` stops at. */
  function FirstSome<T>(s: seq<Option<T>>): (r: Option<T>)
    ensures r.None? <==> forall i :: 0 <= i < |s| ==> s[i].None?
    ensures r.Some? ==> exists i :: 0 <= i < |s| && s[i] == r && forall j :: 0 <= j < i ==> s[j].None?
  {
    if |s| == 0 then None
    else if s[0].Some? then s[0]
    else
      var r := FirstSome(s[1..]);
      assert forall i :: 1 <= i < |s| ==> s[i] == s[1..][i - 1];
      r
  }

  /** An entry preceded only by absent ones is the first present entry. */
  lemma {:induction false} FirstSomeAt<T>(s: seq<Option<T>>, i: nat)
    requires i < |s| && s[i].Some?
    requires forall j :: 0 <= j < i ==> s[j].None?
    ensures FirstSome(s) == s[i]
  {
    if i > 0 {
      FirstSomeAt(s[1..], i - 1);
    }
  }

  function Min(a: int, b: int): int {
    if a <= b then a else b
  }
}
