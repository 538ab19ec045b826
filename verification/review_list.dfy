/**
  The snapshot listener of src/components/Video_Section/Reviews.tsx: every
  revision of the Reviews document is decoded key by key, the entries whose
  avatar lookup failed are dropped, the rest are sorted newest first, and the
  result replaces `reviewData`. When decoding throws, `reviewData` keeps its
  previous value.
 */
module ReviewList {
  import opened Wrappers
  import opened Promises
  import opened DescendingSort
  import opened ReviewDecode

  /**
    What the listener can read from one revision: `NoFields` when the
    document (or its field map) is missing, so that `Object.keys` throws;
    otherwise the document's entries in `Object.keys` order.
   */
  datatype Snapshot = NoFields | Fields(entries: seq<RawEntry>)

  function EntryKey(e: RawEntry): string { e.key }

  function ReviewKey(r: Review): string { r.reviewId }

  /** The review ids of a list, in list order. */
  function Ids(s: seq<Review>): (ids: seq<string>)
    ensures |ids| == |s| && forall i :: 0 <= i < |s| ==> ids[i] == s[i].reviewId
  {
    seq(|s|, i requires 0 <= i < |s| => s[i].reviewId)
  }

  /**
    The sort key of the comparator `b.createdAt - a.createdAt`: a `Date`
    subtracts as its time value and `null` coerces to 0.
   */
  function CreatedKey(r: Review): (k: int)
    ensures r.createdAt == None ==> k == 0
    ensures r.createdAt.Some? ==> k == r.createdAt.value
  {
    match r.createdAt
    case None => 0
    case Some(t) => t
  }

  /** `filter(Boolean)`: the non-null values, in order. */
  function Present(xs: seq<Option<Review>>): (r: seq<Review>)
    ensures |r| <= |xs|
    ensures forall x :: x in r <==> Some(x) in xs
  {
    if |xs| == 0 then []
    else
      assert xs == [xs[0]] + xs[1..];
      (if xs[0].Some? then [xs[0].value] else []) + Present(xs[1..])
  }

  /** `filter(Boolean)` works piecewise: filtering a concatenation concatenates the filtered parts. */
  lemma {:induction false} PresentAppend(xs: seq<Option<Review>>, ys: seq<Option<Review>>)
    ensures Present(xs + ys) == Present(xs) + Present(ys)
  {
    if |xs| == 0 {
      assert xs + ys == ys;
    } else {
      var z := xs + ys;
      assert z[0] == xs[0] && z[1..] == xs[1..] + ys;
      PresentAppend(xs[1..], ys);
      var h := if xs[0].Some? then [xs[0].value] else [];
      assert Present(z) == h + Present(xs[1..] + ys);
      assert Present(xs) == h + Present(xs[1..]);
    }
  }

  /** A non-null value sits in the filtered list right after what the values before it filter to. */
  lemma PresentAt(xs: seq<Option<Review>>, i: nat)
    requires i < |xs| && xs[i].Some?
    ensures Present(xs) == Present(xs[..i]) + [xs[i].value] + Present(xs[i + 1..])
  {
    var a, m, c := xs[..i], [xs[i]], xs[i + 1..];
    assert xs == a + (m + c);
    PresentAppend(a, m + c);
    PresentAppend(m, c);
    assert m[1..] == [];
    assert Present(m) == [xs[i].value];
  }

  /** `filter(Boolean)` keeps the order of the values it keeps. */
  lemma PresentKeepsOrder(xs: seq<Option<Review>>, i: nat, j: nat)
    requires i < j < |xs| && xs[i].Some? && xs[j].Some?
    ensures Before(Present(xs), xs[i].value, xs[j].value)
  {
    var x, y := xs[i].value, xs[j].value;
    var u, k := xs[i + 1..], j - i - 1;
    assert u[k] == xs[j];
    PresentAt(xs, i);
    PresentAt(u, k);
    var front, back := Present(xs[..i]), Present(u);
    var p, q0 := |front|, |Present(u[..k])|;
    assert back[q0] == y;
    var r := Present(xs);
    assert r == front + [x] + back;
    assert r[p] == x && r[p + 1 + q0] == y;
  }

  /** One settled callback per key, in key order. */
  function DecodeEach(entries: seq<RawEntry>, storage: Storage, parse: JsVal -> Instant)
    : (ps: seq<Settled<Option<Review>>>)
    ensures |ps| == |entries|
    ensures forall i :: 0 <= i < |entries| ==> ps[i] == DecodeEntry(entries[i], storage, parse)
  {
    seq(|entries|, i requires 0 <= i < |entries| => DecodeEntry(entries[i], storage, parse))
  }

  /**
    `Promise.all` over the per-key callbacks followed by `filter(Boolean)`:
    rejects exactly when some entry cannot be destructured, and otherwise
    yields precisely the records some entry decoded to, in key order, each
    once when the keys are distinct (as `Object.keys` guarantees).
   */
  function Decode(snap: Snapshot, storage: Storage, parse: JsVal -> Instant): (r: Settled<seq<Review>>)
    ensures r.Rejected? <==>
              snap.NoFields? || exists i :: 0 <= i < |snap.entries| && !Destructurable(snap.entries[i])
    ensures r.Resolved? ==> |r.value| <= |snap.entries|
    ensures r.Resolved? ==>
              forall x :: x in r.value <==>
                exists i :: 0 <= i < |snap.entries| && DecodeEntry(snap.entries[i], storage, parse) == Resolved(Some(x))
    ensures r.Resolved? ==>
              forall i, j, x, y ::
                0 <= i < j < |snap.entries|
                && DecodeEntry(snap.entries[i], storage, parse) == Resolved(Some(x))
                && DecodeEntry(snap.entries[j], storage, parse) == Resolved(Some(y))
                ==> Before(r.value, x, y)
    ensures r.Resolved? && DistinctBy(snap.entries, EntryKey) ==> DistinctBy(r.value, ReviewKey)
  {
    match snap
    case NoFields => Rejected
    case Fields(es) =>
      var ps := DecodeEach(es, storage, parse);
      match All(ps)
      case Rejected => Rejected
      case Resolved(ds) =>
        assert forall x :: Some(x) in ds <==>
                 exists i :: 0 <= i < |es| && DecodeEntry(es[i], storage, parse) == Resolved(Some(x)) by {
          forall x ensures Some(x) in ds ==>
                             exists i :: 0 <= i < |es| && DecodeEntry(es[i], storage, parse) == Resolved(Some(x)) {
            if Some(x) in ds {
              var i :| 0 <= i < |ds| && ds[i] == Some(x);
              assert ps[i] == Resolved(ds[i]);
            }
          }
          forall x ensures (exists i :: 0 <= i < |es| && DecodeEntry(es[i], storage, parse) == Resolved(Some(x)))
                             ==> Some(x) in ds {
            if exists i :: 0 <= i < |es| && DecodeEntry(es[i], storage, parse) == Resolved(Some(x)) {
              var i :| 0 <= i < |es| && DecodeEntry(es[i], storage, parse) == Resolved(Some(x));
              assert ps[i] == Resolved(ds[i]);
            }
          }
        }
        forall i, j, x, y |
          0 <= i < j < |es|
          && DecodeEntry(es[i], storage, parse) == Resolved(Some(x))
          && DecodeEntry(es[j], storage, parse) == Resolved(Some(y))
          ensures Before(Present(ds), x, y)
        {
          assert ps[i] == Resolved(ds[i]) && ps[j] == Resolved(ds[j]);
          PresentKeepsOrder(ds, i, j);
        }
        assert DistinctBy(es, EntryKey) ==> DistinctBy(Present(ds), ReviewKey) by {
          if DistinctBy(es, EntryKey) {
            forall i | 0 <= i < |ds| && ds[i].Some? ensures ds[i].value.reviewId == es[i].key {
              assert ps[i] == Resolved(ds[i]);
            }
            PresentDistinct(ds, es);
          }
        }
        Resolved(Present(ds))
  }

  /**
    The listener body: the new `reviewData` after one revision. When decoding
    throws nothing is published and the previous list stays; otherwise the
    published list is the decoded records reordered newest first (null
    creation time counting as 0), equal creation times keeping key order.
   */
  function OnSnapshot(prev: seq<Review>, snap: Snapshot, storage: Storage, parse: JsVal -> Instant)
    : (r: seq<Review>)
    ensures (snap.NoFields? || exists i :: 0 <= i < |snap.entries| && !Destructurable(snap.entries[i])) ==>
              r == prev
    ensures Decode(snap, storage, parse).Resolved? ==>
              var kept := Decode(snap, storage, parse).value;
              && SortedDesc(r, CreatedKey)
              && multiset(r) == multiset(kept)
              && forall k :: WithKey(r, CreatedKey, k) == WithKey(kept, CreatedKey, k)
  {
    match Decode(snap, storage, parse)
    case Rejected => prev
    case Resolved(kept) =>
      var r := Sort(kept, CreatedKey);
      assert forall k :: WithKey(r, CreatedKey, k) == WithKey(kept, CreatedKey, k) by {
        forall k ensures WithKey(r, CreatedKey, k) == WithKey(kept, CreatedKey, k) {
          SortStable(kept, CreatedKey, k);
        }
      }
      r
  }

  /**
    The published list is the one arrangement of the decoded records that
    is newest first and keeps key order among equal creation times, so any
    stable sort with the comparator `b.createdAt - a.createdAt` produces it.
   */
  lemma OnSnapshotIsTheStableOrder(
    prev: seq<Review>, snap: Snapshot, storage: Storage, parse: JsVal -> Instant, t: seq<Review>)
    requires Decode(snap, storage, parse).Resolved?
    requires SortedDesc(t, CreatedKey)
    requires forall k :: WithKey(t, CreatedKey, k) == WithKey(Decode(snap, storage, parse).value, CreatedKey, k)
    ensures t == OnSnapshot(prev, snap, storage, parse)
  {
    SortCharacterized(Decode(snap, storage, parse).value, t, CreatedKey);
  }

  /**
    Ties keep key order: when the revision decodes and two kept entries have
    the same creation time, the record of the earlier key is published before
    the record of the later one.
   */
  lemma OnSnapshotTiesKeepKeyOrder(
    prev: seq<Review>, snap: Snapshot, storage: Storage, parse: JsVal -> Instant,
    i: nat, j: nat, x: Review, y: Review)
    requires snap.Fields? && forall k :: 0 <= k < |snap.entries| ==> Destructurable(snap.entries[k])
    requires i < j < |snap.entries|
    requires DecodeEntry(snap.entries[i], storage, parse) == Resolved(Some(x))
    requires DecodeEntry(snap.entries[j], storage, parse) == Resolved(Some(y))
    requires CreatedKey(x) == CreatedKey(y)
    ensures Before(OnSnapshot(prev, snap, storage, parse), x, y)
  {
    var kept := Decode(snap, storage, parse).value;
    var r := OnSnapshot(prev, snap, storage, parse);
    assert Before(kept, x, y);
    WithKeyKeepsBefore(kept, CreatedKey, x, y);
    assert WithKey(r, CreatedKey, CreatedKey(x)) == WithKey(kept, CreatedKey, CreatedKey(x));
    WithKeyBeforeBack(r, CreatedKey, CreatedKey(x), x, y);
  }

  /**
    `filter(Boolean)` over values that each stand for a distinct entry keeps
    the values' keys distinct.
   */
  lemma {:induction false} PresentDistinct(ds: seq<Option<Review>>, es: seq<RawEntry>)
    requires |ds| == |es|
    requires DistinctBy(es, EntryKey)
    requires forall i :: 0 <= i < |ds| && ds[i].Some? ==> ds[i].value.reviewId == es[i].key
    ensures DistinctBy(Present(ds), ReviewKey)
  {
    if |ds| > 0 {
      var tail := Present(ds[1..]);
      PresentDistinct(ds[1..], es[1..]);
      forall y | y in tail ensures y.reviewId != es[0].key {
        var j :| 0 <= j < |ds[1..]| && ds[1..][j] == Some(y);
        assert ds[j + 1] == Some(y);
      }
      var r := Present(ds);
      assert r == (if ds[0].Some? then [ds[0].value] else []) + tail;
      if ds[0].Some? {
        forall i, j | 0 <= i < j < |r| ensures r[i].reviewId != r[j].reviewId {
          assert r[j] == tail[j - 1];
          if i > 0 {
            assert r[i] == tail[i - 1];
          } else {
            assert r[j] in tail;
          }
        }
      }
    }
  }

  /**
    No published list ever holds two records with the same review id: the
    property holds of the initial empty list and every revision keeps it,
    because document keys are distinct.
   */
  lemma OnSnapshotKeepsIdsUnique(prev: seq<Review>, snap: Snapshot, storage: Storage, parse: JsVal -> Instant)
    requires DistinctBy(prev, ReviewKey)
    requires snap.Fields? ==> DistinctBy(snap.entries, EntryKey)
    ensures DistinctBy(OnSnapshot(prev, snap, storage, parse), ReviewKey)
  {
    var d := Decode(snap, storage, parse);
    if d.Resolved? {
      var es := snap.entries;
      var ps := DecodeEach(es, storage, parse);
      var ds := All(ps).value;
      forall i | 0 <= i < |ds| && ds[i].Some? ensures ds[i].value.reviewId == es[i].key {
        assert ps[i] == Resolved(ds[i]);
      }
      PresentDistinct(ds, es);
      SortDistinct(d.value, CreatedKey, ReviewKey);
    }
  }

  /** One entry of `SurvivesIffAvatarResolves`. */
  lemma EntrySurvivesIffAvatarResolves(
    prev: seq<Review>, snap: Snapshot, storage: Storage, parse: JsVal -> Instant, i: nat)
    requires snap.Fields? && DistinctBy(snap.entries, EntryKey)
    requires forall j :: 0 <= j < |snap.entries| ==> Destructurable(snap.entries[j])
    requires i < |snap.entries|
    ensures snap.entries[i].key in Ids(OnSnapshot(prev, snap, storage, parse)) <==>
              AvatarUrl(UserIdOf(snap.entries[i]), storage).Resolved?
  {
    var es := snap.entries;
    var r := OnSnapshot(prev, snap, storage, parse);
    var kept := Decode(snap, storage, parse).value;
    assert multiset(r) == multiset(kept);
    var dec := DecodeEntry(es[i], storage, parse);
    if es[i].key in Ids(r) {
      var p :| 0 <= p < |r| && Ids(r)[p] == es[i].key;
      assert r[p] in multiset(kept);
      assert r[p] in kept;
      var j :| 0 <= j < |es| && DecodeEntry(es[j], storage, parse) == Resolved(Some(r[p]));
      assert EntryKey(es[j]) == EntryKey(es[i]);
      assert j == i;
    }
    if AvatarUrl(UserIdOf(es[i]), storage).Resolved? {
      var x := dec.value.value;
      assert x in kept;
      assert x in multiset(r);
      var p :| 0 <= p < |r| && r[p] == x;
      assert Ids(r)[p] == es[i].key;
    }
  }

  /**
    When the revision decodes, an entry's key appears among the published
    ids exactly when that entry's avatar lookup resolved: a failed lookup
    removes its own entry and no other.
   */
  lemma SurvivesIffAvatarResolves(prev: seq<Review>, snap: Snapshot, storage: Storage, parse: JsVal -> Instant)
    requires snap.Fields? && DistinctBy(snap.entries, EntryKey)
    requires forall i :: 0 <= i < |snap.entries| ==> Destructurable(snap.entries[i])
    ensures forall i :: 0 <= i < |snap.entries| ==>
              (snap.entries[i].key in Ids(OnSnapshot(prev, snap, storage, parse)) <==>
                 AvatarUrl(UserIdOf(snap.entries[i]), storage).Resolved?)
  {
    forall i | 0 <= i < |snap.entries|
      ensures snap.entries[i].key in Ids(OnSnapshot(prev, snap, storage, parse)) <==>
                AvatarUrl(UserIdOf(snap.entries[i]), storage).Resolved?
    {
      EntrySurvivesIffAvatarResolves(prev, snap, storage, parse, i);
    }
  }
}
