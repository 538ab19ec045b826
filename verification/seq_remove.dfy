/**
  Removing one occurrence of a value from a list the way
  `indexOf` followed by `splice(index, 1)` does it on a copy.
 */
module SeqRemove {

  /** `Array.prototype.indexOf`: the lowest index holding `x`, or -1. */
  function IndexOf<T(==)>(s: seq<T>, x: T): (i: int)
    ensures -1 <= i < |s|
    ensures i == -1 <==> x !in s
    ensures 0 <= i ==> s[i] == x && x !in s[..i]
  {
    if |s| == 0 then -1
    else if s[0] == x then 0
    else
      var j := IndexOf(s[1..], x);
      assert s[1..][..j + 1] == s[1..j + 2] by {
        if 0 <= j {
          assert s[1..][..j] == s[1..j + 1];
        }
      }
      if j == -1 then -1
      else
        assert s[..j + 1] == [s[0]] + s[1..][..j];
        j + 1
  }

  /** `splice(i, 1)` applied to a copy: the list without position `i`. */
  function Splice<T>(s: seq<T>, i: nat): (r: seq<T>)
    requires i < |s|
    ensures |r| == |s| - 1
    ensures forall j :: 0 <= j < i ==> r[j] == s[j]
    ensures forall j :: i <= j < |r| ==> r[j] == s[j + 1]
  {
    s[..i] + s[i + 1..]
  }

  /** Reference definition: drop the first `x`, keep everything else in order. */
  function RemoveFirst<T(==)>(s: seq<T>, x: T): seq<T> {
    if |s| == 0 then []
    else if s[0] == x then s[1..]
    else [s[0]] + RemoveFirst(s[1..], x)
  }

  /** Splicing out a position that holds the first `x` is removing the first occurrence. */
  lemma {:induction false} SpliceFirstIsRemoveFirst<T>(s: seq<T>, x: T, i: nat)
    requires i < |s| && s[i] == x && x !in s[..i]
    ensures Splice(s, i) == RemoveFirst(s, x)
  {
    if i == 0 {
      assert Splice(s, 0) == s[1..];
    } else {
      var t := s[1..];
      assert s[0] in s[..i];
      assert t[..i - 1] == s[1..i];
      assert x !in t[..i - 1];
      SpliceFirstIsRemoveFirst(t, x, i - 1);
      assert s[..i] == [s[0]] + t[..i - 1];
      assert s[i + 1..] == t[i..];
      assert Splice(s, i) == [s[0]] + Splice(t, i - 1);
    }
  }

  /** Splicing out the position `indexOf` finds is removing the first occurrence. */
  lemma SpliceIndexOfIsRemoveFirst<T>(s: seq<T>, x: T)
    requires x in s
    ensures Splice(s, IndexOf(s, x)) == RemoveFirst(s, x)
  {
    SpliceFirstIsRemoveFirst(s, x, IndexOf(s, x));
  }

  /** Removing the first `x` takes exactly one `x` out of the multiset. */
  lemma {:induction false} RemoveFirstMultiset<T>(s: seq<T>, x: T)
    requires x in s
    ensures multiset(RemoveFirst(s, x)) == multiset(s) - multiset{x}
  {
    assert s == [s[0]] + s[1..];
    if s[0] != x {
      RemoveFirstMultiset(s[1..], x);
    }
  }
}
