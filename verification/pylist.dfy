/** Python list indexing and slicing, as the original relies on them. */
module PyList {
  import opened Results

  function Min(a: int, b: int): int {
    if a <= b then a else b
  }

  /** Where a slice bound `i` lands in a list of length `n`: negative bounds count
      from the end, and every bound is clamped into [0, n]. */
  function Clamp(i: int, n: nat): (k: nat)
    ensures k <= n
    ensures 0 <= i ==> k == Min(i, n)
    ensures i < 0 ==> k == if i + n < 0 then 0 else i + n
  {
    if i < 0 then (if i + n < 0 then 0 else i + n)
    else if i > n then n
    else i
  }

  /** s[a:b]. A slice never fails: bounds past the end are clamped, and a
      start at or beyond the stop gives the empty list. */
  function Slice<T>(s: seq<T>, a: int, b: int): (r: seq<T>)
    ensures 0 <= a <= b <= |s| ==> r == s[a..b]
    ensures 0 <= b <= a ==> r == []
    ensures 0 <= a && 0 <= b ==>
              |r| == if Min(a, |s|) < Min(b, |s|) then Min(b, |s|) - Min(a, |s|) else 0
  {
    var lo := Clamp(a, |s|);
    var hi := Clamp(b, |s|);
    if lo < hi then s[lo..hi] else []
  }

  /** A slice holds only elements of the list it is taken from. */
  lemma SliceMembers<T>(s: seq<T>, a: int, b: int)
    ensures forall x :: x in Slice(s, a, b) ==> x in s
  {
  }

  /** s[i]: negative indices count from the end; anything else raises IndexError. */
  function Get<T>(s: seq<T>, i: int): (r: Option<T>)
    ensures r.Some? <==> -|s| <= i < |s|
    ensures 0 <= i < |s| ==> r == Some(s[i])
    ensures -|s| <= i < 0 ==> r == Some(s[|s| + i])
  {
    if 0 <= i < |s| then Some(s[i])
    else if -|s| <= i < 0 then Some(s[|s| + i])
    else None
  }

  /** No element occurs twice. */
  predicate Distinct<T(==)>(s: seq<T>) {
    forall i, j :: 0 <= i < j < |s| ==> s[i] != s[j]
  }

  /** [x] * n */
  function Repeat<T>(x: T, n: nat): (r: seq<T>)
    ensures |r| == n
    ensures forall k :: 0 <= k < n ==> r[k] == x
  {
    seq(n, _ => x)
  }

  lemma Assoc<T>(a: seq<T>, b: seq<T>, c: seq<T>)
    ensures (a + b) + c == a + (b + c)
  {
  }
}
