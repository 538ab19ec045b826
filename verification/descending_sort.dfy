/**
  A stable sort into non-increasing order of an integer key.

  `Array.prototype.sort` is stable (ECMAScript 2019 onwards). With the
  comparator `(a, b) => key(b) - key(a)` it therefore places `a` before `b`
  when key(a) > key(b), and keeps the input order of elements whose keys are
  equal. `Sort` below is an insertion sort with that behaviour; `SortCharacterized`
  shows that it is the only arrangement that is sorted and stable, so it
  stands for whatever stable algorithm the JavaScript engine uses.
 */
module DescendingSort {

  /** Keys never increase from left to right. */
  ghost predicate SortedDesc<T>(s: seq<T>, key: T -> int) {
    forall i, j :: 0 <= i < j < |s| ==> key(s[i]) >= key(s[j])
  }

  /** No two elements of `s` agree on `f`. */
  ghost predicate DistinctBy<T, K>(s: seq<T>, f: T -> K) {
    forall i, j :: 0 <= i < j < |s| ==> f(s[i]) != f(s[j])
  }

  /** The elements of `s` whose key is `k`, in their order in `s`. */
  function WithKey<T>(s: seq<T>, key: T -> int, k: int): seq<T>
  {
    if |s| == 0 then []
    else (if key(s[0]) == k then [s[0]] else []) + WithKey(s[1..], key, k)
  }

  /** `x` occurs in `s` at some position before a position holding `y`. */
  ghost predicate Before<T>(s: seq<T>, x: T, y: T) {
    exists p, q :: 0 <= p < q < |s| && s[p] == x && s[q] == y
  }

  /** Inserts `x` in front of the first element whose key is not larger than its own. */
  function Insert<T>(x: T, s: seq<T>, key: T -> int): (r: seq<T>)
    ensures multiset(r) == multiset(s) + multiset{x}
    ensures SortedDesc(s, key) ==> SortedDesc(r, key)
  {
    if |s| == 0 || key(x) >= key(s[0]) then [x] + s
    else
      var rest := Insert(x, s[1..], key);
      InsertBehind(x, s, rest, key);
      [s[0]] + rest
  }

  /** The step of `Insert` that keeps the head of `s` in front. */
  lemma InsertBehind<T>(x: T, s: seq<T>, rest: seq<T>, key: T -> int)
    requires |s| > 0 && key(x) < key(s[0])
    requires multiset(rest) == multiset(s[1..]) + multiset{x}
    requires SortedDesc(s[1..], key) ==> SortedDesc(rest, key)
    ensures multiset([s[0]] + rest) == multiset(s) + multiset{x}
    ensures SortedDesc(s, key) ==> SortedDesc([s[0]] + rest, key)
  {
    assert s == [s[0]] + s[1..];
    if SortedDesc(s, key) {
      var t := s[1..];
      forall i, j | 0 <= i < j < |t| ensures key(t[i]) >= key(t[j]) {
        assert t[i] == s[i + 1] && t[j] == s[j + 1];
      }
      forall y | y in rest ensures key(y) <= key(s[0]) {
        assert y in multiset(rest);
        if y != x {
          assert y in multiset(t);
          var m :| 0 <= m < |t| && t[m] == y;
          assert s[m + 1] == y;
        }
      }
      var r := [s[0]] + rest;
      forall i, j | 0 <= i < j < |r| ensures key(r[i]) >= key(r[j]) {
        assert r[j] == rest[j - 1];
        if 0 < i {
          assert r[i] == rest[i - 1];
        }
      }
    }
  }

  /** Insertion sort, newest (largest key) first. */
  function Sort<T>(s: seq<T>, key: T -> int): (r: seq<T>)
    ensures multiset(r) == multiset(s)
    ensures SortedDesc(r, key)
  {
    if |s| == 0 then []
    else
      assert s == [s[0]] + s[1..];
      Insert(s[0], Sort(s[1..], key), key)
  }

  /** Every element belongs to the group of its own key. */
  lemma {:induction false} InOwnGroup<T>(s: seq<T>, key: T -> int, x: T)
    requires x in s
    ensures x in WithKey(s, key, key(x))
  {
    if s[0] != x {
      InOwnGroup(s[1..], key, x);
    }
  }

  /** A key group holds only elements of `s` with that key. */
  lemma {:induction false} GroupMember<T>(s: seq<T>, key: T -> int, k: int, x: T)
    requires x in WithKey(s, key, k)
    ensures x in s && key(x) == k
  {
    ConsWithKey(s[0], s[1..], key, k);
    assert s == [s[0]] + s[1..];
    if x in WithKey(s[1..], key, k) {
      GroupMember(s[1..], key, k, x);
    }
  }

  /** The key group of `[x] + s`. */
  lemma ConsWithKey<T>(x: T, s: seq<T>, key: T -> int, k: int)
    ensures WithKey([x] + s, key, k) == (if key(x) == k then [x] else []) + WithKey(s, key, k)
  {
    assert ([x] + s)[1..] == s;
  }

  /** Taking a key group distributes over concatenation. */
  lemma {:induction false} WithKeyAppend<T>(s: seq<T>, t: seq<T>, key: T -> int, k: int)
    ensures WithKey(s + t, key, k) == WithKey(s, key, k) + WithKey(t, key, k)
  {
    if |s| == 0 {
      assert s + t == t;
    } else {
      var z := s + t;
      assert z[0] == s[0] && z[1..] == s[1..] + t;
      WithKeyAppend(s[1..], t, key, k);
      var h := if key(s[0]) == k then [s[0]] else [];
      assert WithKey(z, key, k) == h + WithKey(s[1..] + t, key, k);
      assert WithKey(s, key, k) == h + WithKey(s[1..], key, k);
    }
  }

  /** Two elements with the same key keep their relative order in that key's group. */
  lemma WithKeyKeepsBefore<T>(s: seq<T>, key: T -> int, x: T, y: T)
    requires Before(s, x, y) && key(x) == key(y)
    ensures Before(WithKey(s, key, key(x)), x, y)
  {
    var k := key(x);
    var p, q :| 0 <= p < q < |s| && s[p] == x && s[q] == y;
    var a, b, c := s[..p], s[p + 1..q], s[q + 1..];
    assert s == a + ([x] + (b + ([y] + c)));
    WithKeyAppend(a, [x] + (b + ([y] + c)), key, k);
    WithKeyAppend([x], b + ([y] + c), key, k);
    WithKeyAppend(b, [y] + c, key, k);
    WithKeyAppend([y], c, key, k);
    assert WithKey([x], key, k) == [x];
    assert WithKey([y], key, k) == [y];
    var wa, wb, wc := WithKey(a, key, k), WithKey(b, key, k), WithKey(c, key, k);
    var w := WithKey(s, key, k);
    assert w == wa + ([x] + (wb + ([y] + wc)));
    assert w[|wa|] == x && w[|wa| + 1 + |wb|] == y;
  }

  /** Order within a key group is order in the whole sequence. */
  lemma {:induction false} WithKeyBeforeBack<T>(s: seq<T>, key: T -> int, k: int, x: T, y: T)
    requires Before(WithKey(s, key, k), x, y)
    ensures Before(s, x, y)
  {
    var w := WithKey(s, key, k);
    var p, q :| 0 <= p < q < |w| && w[p] == x && w[q] == y;
    assert |s| > 0;
    var t := s[1..];
    var w' := WithKey(t, key, k);
    if key(s[0]) == k && p == 0 {
      assert w == [s[0]] + w';
      assert y in w';
      GroupMember(t, key, k, y);
      var m :| 0 <= m < |t| && t[m] == y;
      assert s[0] == x && s[m + 1] == y;
    } else {
      if key(s[0]) == k {
        assert w == [s[0]] + w';
        assert w'[p - 1] == x && w'[q - 1] == y;
      } else {
        assert w == w';
      }
      WithKeyBeforeBack(t, key, k, x, y);
      var a, b :| 0 <= a < b < |t| && t[a] == x && t[b] == y;
      assert s[a + 1] == x && s[b + 1] == y;
    }
  }

  /** Inserting `x` adds it at the front of its key group and leaves every other group alone. */
  lemma {:induction false} InsertWithKey<T>(x: T, s: seq<T>, key: T -> int, k: int)
    ensures WithKey(Insert(x, s, key), key, k)
         == (if key(x) == k then [x] else []) + WithKey(s, key, k)
  {
    if |s| == 0 || key(x) >= key(s[0]) {
      ConsWithKey(x, s, key, k);
    } else {
      var rest := Insert(x, s[1..], key);
      assert Insert(x, s, key) == [s[0]] + rest;
      assert s == [s[0]] + s[1..];
      var tailGroup := WithKey(s[1..], key, k);
      InsertWithKey(x, s[1..], key, k);
      ConsWithKey(s[0], rest, key, k);
      ConsWithKey(s[0], s[1..], key, k);
      if key(x) == k {
        assert WithKey(rest, key, k) == [x] + tailGroup;
        assert WithKey([s[0]] + rest, key, k) == [x] + tailGroup;
        assert WithKey(s, key, k) == tailGroup;
      } else if key(s[0]) == k {
        assert WithKey(rest, key, k) == tailGroup;
        assert WithKey([s[0]] + rest, key, k) == [s[0]] + tailGroup;
        assert WithKey(s, key, k) == [s[0]] + tailGroup;
      } else {
        assert WithKey(rest, key, k) == tailGroup;
        assert WithKey([s[0]] + rest, key, k) == tailGroup;
        assert WithKey(s, key, k) == tailGroup;
      }
    }
  }

  /** Stability: the elements sharing any one key keep their input order. */
  lemma {:induction false} SortStable<T>(s: seq<T>, key: T -> int, k: int)
    ensures WithKey(Sort(s, key), key, k) == WithKey(s, key, k)
  {
    if |s| > 0 {
      SortStable(s[1..], key, k);
      InsertWithKey(s[0], Sort(s[1..], key), key, k);
    }
  }

  /** Two sorted sequences with the same key groups are equal. */
  lemma {:induction false} SortedUnique<T>(t: seq<T>, u: seq<T>, key: T -> int)
    requires SortedDesc(t, key) && SortedDesc(u, key)
    requires forall k :: WithKey(t, key, k) == WithKey(u, key, k)
    ensures t == u
    decreases |t| + |u|
  {
    if |t| == 0 && |u| == 0 {
    } else if |t| == 0 {
      InOwnGroup(u, key, u[0]);
      assert false;
    } else if |u| == 0 {
      InOwnGroup(t, key, t[0]);
      assert false;
    } else {
      var a, b := t[0], u[0];
      assert t == [a] + t[1..] && u == [b] + u[1..];
      InOwnGroup(u, key, b);
      assert WithKey(t, key, key(b)) == WithKey(u, key, key(b));
      GroupMember(t, key, key(b), b);
      InOwnGroup(t, key, a);
      assert WithKey(t, key, key(a)) == WithKey(u, key, key(a));
      GroupMember(u, key, key(a), a);
      assert key(a) >= key(b) && key(b) >= key(a);
      var k0 := key(a);
      forall k
        ensures WithKey(t[1..], key, k) == WithKey(u[1..], key, k)
      {
        assert WithKey(t, key, k) == WithKey(u, key, k);
        ConsWithKey(a, t[1..], key, k);
        ConsWithKey(b, u[1..], key, k);
        if k == k0 {
          assert WithKey(t[1..], key, k) == WithKey(t, key, k)[1..];
          assert WithKey(u[1..], key, k) == WithKey(u, key, k)[1..];
        } else {
          assert WithKey(t, key, k) == WithKey(t[1..], key, k);
          assert WithKey(u, key, k) == WithKey(u[1..], key, k);
        }
      }
      ConsWithKey(a, t[1..], key, k0);
      ConsWithKey(b, u[1..], key, k0);
      assert WithKey(t, key, k0)[0] == a;
      assert WithKey(t, key, k0) == WithKey(u, key, k0);
      SortedUnique(t[1..], u[1..], key);
    }
  }

  /**
    `Sort(s)` is exactly the sequence that is sorted and has the key groups
    of `s`: both directions of the characterisation.
   */
  lemma {:induction false} SortCharacterized<T>(s: seq<T>, t: seq<T>, key: T -> int)
    ensures t == Sort(s, key) ==>
              SortedDesc(t, key) && forall k :: WithKey(t, key, k) == WithKey(s, key, k)
    ensures SortedDesc(t, key) && (forall k :: WithKey(t, key, k) == WithKey(s, key, k)) ==>
              t == Sort(s, key)
  {
    forall k
      ensures WithKey(Sort(s, key), key, k) == WithKey(s, key, k)
    {
      SortStable(s, key, k);
    }
    if SortedDesc(t, key) && forall k :: WithKey(t, key, k) == WithKey(s, key, k) {
      SortedUnique(t, Sort(s, key), key);
    }
  }

  /** Inserting an element whose projection is new keeps projections distinct. */
  lemma {:induction false} InsertDistinct<T, K>(x: T, s: seq<T>, key: T -> int, f: T -> K)
    requires DistinctBy(s, f)
    requires forall y :: y in s ==> f(y) != f(x)
    ensures DistinctBy(Insert(x, s, key), f)
  {
    if |s| == 0 || key(x) >= key(s[0]) {
    } else {
      var rest := Insert(x, s[1..], key);
      InsertDistinct(x, s[1..], key, f);
      forall y | y in rest ensures f(y) != f(s[0]) {
        assert y in multiset(rest);
        assert y == x || y in multiset(s[1..]);
        if y != x {
          var j :| 1 <= j < |s| && s[j] == y;
        }
      }
      var r := [s[0]] + rest;
      forall i, j | 0 <= i < j < |r| ensures f(r[i]) != f(r[j]) {
        if i == 0 {
          assert r[j] == rest[j - 1];
        } else {
          assert r[i] == rest[i - 1] && r[j] == rest[j - 1];
        }
      }
    }
  }

  /** Sorting never makes two elements agree on a projection on which no two agreed before. */
  lemma {:induction false} SortDistinct<T, K>(s: seq<T>, key: T -> int, f: T -> K)
    requires DistinctBy(s, f)
    ensures DistinctBy(Sort(s, key), f)
  {
    if |s| > 0 {
      var rest := Sort(s[1..], key);
      SortDistinct(s[1..], key, f);
      forall y | y in rest ensures f(y) != f(s[0]) {
        assert y in multiset(rest);
        var j :| 0 <= j < |s[1..]| && s[1..][j] == y;
        assert s[j + 1] == y;
      }
      InsertDistinct(s[0], rest, key, f);
    }
  }
}
