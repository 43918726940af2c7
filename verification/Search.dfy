/** Predecessor search: the simple form that the tables' lookups refine. */
module Search {
  import opened Results

  /** The index of the last element whose key is at or below x. */
  function LastAtOrBelow<T>(s: seq<T>, key: T -> int, x: int): (r: Option<nat>)
    ensures r.Some? ==> r.value < |s| && key(s[r.value]) <= x && forall i :: r.value < i < |s| ==> key(s[i]) > x
    ensures r.None? ==> forall i :: 0 <= i < |s| ==> key(s[i]) > x
  {
    if s == [] then None
    else if key(s[|s| - 1]) <= x then Some(|s| - 1)
    else LastAtOrBelow(s[..|s| - 1], key, x)
  }

  /** Only one index can be the last. */
  lemma LastUnique<T>(s: seq<T>, key: T -> int, x: int, k: nat)
    requires k < |s| && key(s[k]) <= x && forall i :: k < i < |s| ==> key(s[i]) > x
    ensures LastAtOrBelow(s, key, x) == Some(k)
  {}

  /** What comes before does not matter when something behind qualifies. */
  lemma {:induction false} LastInTail<T>(front: seq<T>, s: seq<T>, key: T -> int, x: int)
    requires LastAtOrBelow(s, key, x).Some?
    ensures LastAtOrBelow(front + s, key, x) == Some(|front| + LastAtOrBelow(s, key, x).value)
    decreases |s|
  {
    var all, n := front + s, |s| - 1;
    assert all[|front| + n] == s[n];
    if key(s[n]) > x {
      assert all[..|front| + n] == front + s[..n];
      LastInTail(front, s[..n], key, x);
    }
  }

  /** What comes behind does not matter when it all lies above. */
  lemma LastInFront<T>(front: seq<T>, s: seq<T>, key: T -> int, x: int)
    requires forall i :: 0 <= i < |s| ==> key(s[i]) > x
    ensures LastAtOrBelow(front + s, key, x) == LastAtOrBelow(front, key, x)
  {
    var all := front + s;
    assert forall i :: 0 <= i < |front| ==> all[i] == front[i];
    assert forall i :: |front| <= i < |all| ==> all[i] == s[i - |front|];
    var r := LastAtOrBelow(front, key, x);
    if r.Some? {
      LastUnique(all, key, x, r.value);
    }
  }
}
