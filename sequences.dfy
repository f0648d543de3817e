/** Sequence operations the store performs on its arrays. */
module Sequences {

  /** `s` without its element at index `i`: what `splice(i, 1)` leaves in an
      array.  The elements before `i` keep their positions, the ones after it
      move down by one. */
  function RemoveAt<T>(s: seq<T>, i: nat): (r: seq<T>)
    requires i < |s|
    ensures |r| == |s| - 1
    ensures forall k :: 0 <= k < i ==> r[k] == s[k]
    ensures forall k :: i <= k < |r| ==> r[k] == s[k + 1]
  {
    s[..i] + s[i + 1..]
  }

  /** No element occurs twice. */
  predicate Distinct<T(==)>(s: seq<T>)
  {
    forall i, j :: 0 <= i < j < |s| ==> s[i] != s[j]
  }

  /** Removing an element from a sequence without repetitions leaves no
      copy of it behind, and no repetitions. */
  lemma RemoveAtDistinct<T>(s: seq<T>, i: nat)
    requires i < |s| && Distinct(s)
    ensures Distinct(RemoveAt(s, i))
    ensures forall k :: 0 <= k < |RemoveAt(s, i)| ==> RemoveAt(s, i)[k] != s[i]
  {
    var r := RemoveAt(s, i);
    forall a, b | 0 <= a < b < |r| ensures r[a] != r[b] {
      var a', b' := if a < i then a else a + 1, if b < i then b else b + 1;
      assert r[a] == s[a'] && r[b] == s[b'] && a' < b';
    }
    forall k | 0 <= k < |r| ensures r[k] != s[i] {
      var k' := if k < i then k else k + 1;
      assert r[k] == s[k'] && k' != i;
    }
  }

  /** Appending an element that does not occur keeps a sequence free of
      repetitions. */
  lemma AppendDistinct<T>(s: seq<T>, x: T)
    requires Distinct(s) && forall k :: 0 <= k < |s| ==> s[k] != x
    ensures Distinct(s + [x])
  {
  }
}
