/**
  `String.prototype.split("/")` and `Array.prototype.join("/")` on paths,
  and the indexed segment `pathname.split("/")[i]`.
 */
module Pathname {
  import opened Wrappers

  /** Number of '/' characters in `s`. */
  function Slashes(s: string): nat {
    if |s| == 0 then 0 else (if s[0] == '/' then 1 else 0) + Slashes(s[1..])
  }

  /**
    `s.split("/")`: the texts between consecutive slashes, one more than
    there are slashes; the empty string splits into one empty segment.
   */
  function Split(s: string): (parts: seq<string>)
    ensures |parts| == Slashes(s) + 1
    ensures forall p :: p in parts ==> '/' !in p
  {
    if |s| == 0 then [""]
    else
      var rest := Split(s[1..]);
      if s[0] == '/' then [""] + rest
      else
        assert forall p :: p in rest[1..] ==> p in rest;
        [[s[0]] + rest[0]] + rest[1..]
  }

  /** `parts.join("/")`. */
  function Join(parts: seq<string>): string
    requires |parts| >= 1
  {
    if |parts| == 1 then parts[0] else parts[0] + "/" + Join(parts[1..])
  }

  /** Joining the segments gives back the path. */
  lemma {:induction false} JoinSplit(s: string)
    ensures Join(Split(s)) == s
  {
    if |s| > 0 {
      JoinSplit(s[1..]);
      var rest := Split(s[1..]);
      if s[0] == '/' {
        assert Join([""] + rest) == "" + "/" + Join(rest);
      } else {
        var parts := [[s[0]] + rest[0]] + rest[1..];
        assert parts[1..] == rest[1..];
        if |rest| > 1 {
          assert Join(rest) == rest[0] + "/" + Join(rest[1..]);
        }
      }
      assert s == [s[0]] + s[1..];
    }
  }

  /** A text without slashes is a single segment. */
  lemma {:induction false} SplitSlashFree(p: string)
    requires '/' !in p
    ensures Split(p) == [p]
  {
    if |p| > 0 {
      SplitSlashFree(p[1..]);
      assert p == [p[0]] + p[1..];
    }
  }

  /** A slash-free prefix followed by a slash splits off as the first segment. */
  lemma {:induction false} SplitPrefix(p: string, t: string)
    requires '/' !in p
    ensures Split(p + "/" + t) == [p] + Split(t)
  {
    if |p| == 0 {
      assert p + "/" + t == ['/'] + t;
      assert (p + "/" + t)[1..] == t;
    } else {
      SplitPrefix(p[1..], t);
      assert (p + "/" + t)[1..] == p[1..] + "/" + t;
      assert p == [p[0]] + p[1..];
    }
  }

  /** Splitting joined slash-free segments gives back the segments. */
  lemma {:induction false} SplitJoin(parts: seq<string>)
    requires |parts| >= 1
    requires forall p :: p in parts ==> '/' !in p
    ensures Split(Join(parts)) == parts
  {
    if |parts| == 1 {
      SplitSlashFree(parts[0]);
    } else {
      SplitJoin(parts[1..]);
      SplitPrefix(parts[0], Join(parts[1..]));
      assert parts == [parts[0]] + parts[1..];
    }
  }

  /** `s.split("/")[i]`: `None` stands for `undefined` past the last segment. */
  function Segment(s: string, i: nat): (r: Option<string>)
    ensures r.None? <==> Slashes(s) < i
    ensures r.Some? ==> '/' !in r.value
  {
    var parts := Split(s);
    if i < |parts| then Some(parts[i]) else None
  }
}
