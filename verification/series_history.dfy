/**
  The series list of the history and library pages
  (src/components/History_Page/SeriesHistory.tsx): the page category taken
  from the URL, the details join over the stored ids, the delete button
  and the heading.
 */
module SeriesHistory {
  import opened Wrappers
  import opened Promises
  import opened SeqRemove
  import opened Pathname

  /**
    `useLocation().pathname.split("/")[2]`: the category ("history" or
    "library") is the third slash-separated segment of the path; `None`
    stands for `undefined` when the path has fewer than two slashes.
   */
  function Location(pathname: string): (r: Option<string>)
    ensures r.None? <==> Slashes(pathname) < 2
    ensures r.Some? ==> '/' !in r.value
  {
    Segment(pathname, 2)
  }

  /** For a path built from slash-free segments, the category is the segment at index 2. */
  lemma LocationOfSegments(parts: seq<string>)
    requires |parts| >= 1
    requires forall p :: p in parts ==> '/' !in p
    ensures |parts| > 2 ==> Location(Join(parts)) == Some(parts[2])
    ensures |parts| <= 2 ==> Location(Join(parts)) == None
  {
    SplitJoin(parts);
  }

  /**
    `p` reads `a/b/c` followed either by nothing or by a further `/...`,
    with `a`, `b` and `c` free of slashes: `c` is the text between the
    second and the third slash.
   */
  ghost predicate ThirdSegmentIs(p: string, a: string, b: string, c: string, t: string) {
    && '/' !in a && '/' !in b && '/' !in c
    && (t == "" || t[0] == '/')
    && p == a + "/" + b + "/" + c + t
  }

  /** A path of the shape `a/b/c...` has category `c`. */
  lemma LocationOfShape(p: string, a: string, b: string, c: string, t: string)
    requires ThirdSegmentIs(p, a, b, c, t)
    ensures Location(p) == Some(c)
  {
    var tail := if t == "" then [c] else [c] + Split(t[1..]);
    if t == "" {
      SplitSlashFree(c);
      assert c + t == c;
    } else {
      SplitPrefix(c, t[1..]);
      assert c + t == c + "/" + t[1..];
    }
    assert Split(c + t) == tail;
    SplitPrefix(b, c + t);
    SplitPrefix(a, b + "/" + (c + t));
    assert p == a + "/" + (b + "/" + (c + t));
    assert Split(p) == [a] + ([b] + tail);
  }

  /** A path with a category has the shape `a/b/c...` around it. */
  lemma ShapeOfLocation(p: string) returns (a: string, b: string, t: string)
    requires Location(p).Some?
    ensures ThirdSegmentIs(p, a, b, Location(p).value, t)
  {
    var parts := Split(p);
    var c := parts[2];
    JoinSplit(p);
    var rest := parts[2..];
    assert Join(parts) == parts[0] + "/" + (parts[1] + "/" + Join(rest)) by {
      assert parts[1..][1..] == rest;
    }
    t := if |parts| == 3 then "" else "/" + Join(parts[3..]);
    assert Join(rest) == c + t by {
      if |parts| > 3 {
        assert rest[1..] == parts[3..];
      }
    }
    a, b := parts[0], parts[1];
    assert a in parts && b in parts && c in parts;
  }

  /**
    The category is `c` exactly when the path is `a/b/c`, possibly followed
    by more segments. The text before the first slash counts as a segment:
    "/user/history" has category "history", while "/history/x" has
    category "x" and "/history" has none.
   */
  lemma LocationOfPath(p: string, c: string)
    ensures Location(p) == Some(c) <==> exists a, b, t :: ThirdSegmentIs(p, a, b, c, t)
  {
    if Location(p) == Some(c) {
      var a, b, t := ShapeOfLocation(p);
    }
    if exists a, b, t :: ThirdSegmentIs(p, a, b, c, t) {
      var a, b, t :| ThirdSegmentIs(p, a, b, c, t);
      LocationOfShape(p, a, b, c, t);
    }
  }

  /** The write `updateHistoryOrLibrary(user.uid, location, "series", newIds)`. */
  datatype SeriesWrite = UpdateSeries(uid: string, category: Option<string>, field: string, ids: seq<string>)

  /**
    `handleDelete(idToDelete)`: remove the first occurrence of the id from a
    copy of `seriesIds` and write the copy; write nothing when the id is not
    there. `seriesIds` itself is a value and stays as it was: the list on
    screen changes only when the next snapshot arrives.
   */
  function HandleDelete(seriesIds: seq<string>, idToDelete: string, uid: string, location: Option<string>)
    : (w: Option<SeriesWrite>)
    ensures w.None? <==> idToDelete !in seriesIds
    ensures w.Some? ==>
              && w.value.uid == uid && w.value.category == location && w.value.field == "series"
              && |w.value.ids| == |seriesIds| - 1
              && exists i :: 0 <= i < |seriesIds| && seriesIds[i] == idToDelete
                   && idToDelete !in seriesIds[..i]
                   && w.value.ids == seriesIds[..i] + seriesIds[i + 1..]
  {
    var newIds := seriesIds;
    var indexToRemove := IndexOf(newIds, idToDelete);
    if indexToRemove != -1 then
      Some(UpdateSeries(uid, location, "series", Splice(newIds, indexToRemove)))
    else
      None
  }

  /**
    The written list is the reference "remove first occurrence": one copy of
    the id leaves, every other element stays, in order.
   */
  lemma DeleteRemovesFirstOccurrence(seriesIds: seq<string>, idToDelete: string, uid: string, location: Option<string>)
    requires idToDelete in seriesIds
    ensures HandleDelete(seriesIds, idToDelete, uid, location).value.ids == RemoveFirst(seriesIds, idToDelete)
    ensures multiset(HandleDelete(seriesIds, idToDelete, uid, location).value.ids)
         == multiset(seriesIds) - multiset{idToDelete}
  {
    SpliceIndexOfIsRemoveFirst(seriesIds, idToDelete);
    RemoveFirstMultiset(seriesIds, idToDelete);
  }

  /** With a repeated id, only one copy goes: the id is still in the written list. */
  lemma DeleteKeepsLaterCopies(seriesIds: seq<string>, idToDelete: string, uid: string, location: Option<string>)
    requires multiset(seriesIds)[idToDelete] >= 2
    ensures HandleDelete(seriesIds, idToDelete, uid, location).Some?
    ensures idToDelete in HandleDelete(seriesIds, idToDelete, uid, location).value.ids
  {
    DeleteRemovesFirstOccurrence(seriesIds, idToDelete, uid, location);
    assert idToDelete in multiset(HandleDelete(seriesIds, idToDelete, uid, location).value.ids);
  }

  /** No id occurs twice. */
  ghost predicate NoRepeats(s: seq<string>) {
    forall i, j :: 0 <= i < j < |s| ==> s[i] != s[j]
  }

  /** On a list without repeats, deleting an id removes it completely and keeps the list repeat-free. */
  lemma DeleteFromUniqueList(seriesIds: seq<string>, idToDelete: string, uid: string, location: Option<string>)
    requires NoRepeats(seriesIds)
    requires idToDelete in seriesIds
    ensures idToDelete !in HandleDelete(seriesIds, idToDelete, uid, location).value.ids
    ensures NoRepeats(HandleDelete(seriesIds, idToDelete, uid, location).value.ids)
  {
  }

  /**
    The effect on `seriesIds`: fetch the details of every id with
    `Promise.all`. When every fetch resolves, the new `seriesDetails` holds
    the response for `seriesIds[i]` at position i; when any fetch rejects,
    the error is logged and the previous details stay.
   */
  function OnSeriesIds<D>(prev: seq<D>, seriesIds: seq<string>, fetch: string -> Settled<D>): (r: seq<D>)
    ensures (forall i :: 0 <= i < |seriesIds| ==> fetch(seriesIds[i]).Resolved?) ==>
              |r| == |seriesIds| && forall i :: 0 <= i < |seriesIds| ==> fetch(seriesIds[i]) == Resolved(r[i])
    ensures (exists i :: 0 <= i < |seriesIds| && fetch(seriesIds[i]).Rejected?) ==> r == prev
  {
    var requests := seq(|seriesIds|, i requires 0 <= i < |seriesIds| => fetch(seriesIds[i]));
    match All(requests)
    case Rejected => prev
    case Resolved(details) =>
      assert forall i :: 0 <= i < |seriesIds| ==> fetch(seriesIds[i]) == requests[i] == Resolved(details[i]);
      details
  }

  /** Whether the "Series" heading is shown: only when there is at least one id to list. */
  function ShowsHeading(seriesIds: seq<string>): (shown: bool)
    ensures shown <==> seriesIds != []
  {
    !(|seriesIds| < 1)
  }
}
