/**
 * URL pathnames as the navigation components see them: splitting on slashes,
 * dropping the empty pieces, and the cumulative join (a slash, then the
 * segment, once per segment) that builds breadcrumb links.
 */
module Paths {

  /** A segment of a pathname: a non-empty piece with no slash in it. */
  predicate IsSegment(s: string) {
    s != "" && '/' !in s
  }

  predicate ValidSegments(segs: seq<string>) {
    forall i :: 0 <= i < |segs| ==> IsSegment(segs[i])
  }

  /**
   * The pieces of a string between slashes, empty ones included;
   * there is always one piece more than there are slashes.
   */
  function Split(s: string): (parts: seq<string>)
    ensures |parts| >= 1
    ensures forall i :: 0 <= i < |parts| ==> '/' !in parts[i]
    decreases |s|
  {
    if |s| == 0 then [""]
    else
      var rest := Split(s[1..]);
      if s[0] == '/' then [""] + rest
      else [[s[0]] + rest[0]] + rest[1..]
  }

  /** The pieces glued back together with a slash between neighbours. */
  function Join(parts: seq<string>): string
  {
    if |parts| == 0 then ""
    else if |parts| == 1 then parts[0]
    else parts[0] + "/" + Join(parts[1..])
  }

  /**
   * Keeps the non-empty pieces in their order, as a truthiness filter does
   * (the empty string is the only falsy string). That every non-empty piece
   * is kept is NonEmptyKeepsExactly; how often each is kept is
   * NonEmptyOccurrences, and how many are kept is NonEmptyCount.
   */
  function NonEmpty(parts: seq<string>): (r: seq<string>)
    ensures |r| <= |parts|
    ensures forall i :: 0 <= i < |r| ==> r[i] != "" && r[i] in parts
  {
    if parts == [] then []
    else (if parts[0] == "" then [] else [parts[0]]) + NonEmpty(parts[1..])
  }

  /** The segments of a pathname: the pieces between slashes, with the empty ones dropped. */
  function Segments(pathname: string): (segs: seq<string>)
    ensures ValidSegments(segs)
  {
    NonEmpty(Split(pathname))
  }

  /**
   * The href built by appending a slash and the segment for every segment,
   * starting from the empty string: empty for no segments, otherwise
   * beginning with a slash and at least one character per segment longer.
   */
  function JoinPath(segs: seq<string>): (r: string)
    ensures segs == [] <==> r == ""
    ensures segs != [] ==> r[0] == '/'
    ensures |r| >= |segs|
  {
    if segs == [] then "" else "/" + segs[0] + JoinPath(segs[1..])
  }

  /** The canonical pathname of a list of segments: "/" for none. */
  function PathOf(segs: seq<string>): string
  {
    if segs == [] then "/" else JoinPath(segs)
  }

  // ---------------------------------------------------------------- split / join

  /** Splitting on a slash that is written between `a` and `b` splits them apart. */
  lemma {:induction false} SplitConcat(a: string, b: string)
    ensures Split(a + "/" + b) == Split(a) + Split(b)
    decreases |a|
  {
    if |a| == 0 {
      assert a + "/" + b == ['/'] + b;
      assert (['/'] + b)[1..] == b;
    } else {
      var s := a + "/" + b;
      assert s[0] == a[0];
      assert s[1..] == a[1..] + "/" + b;
      SplitConcat(a[1..], b);
    }
  }

  /** A slash-free string is a single piece. */
  lemma {:induction false} SplitNoSlash(a: string)
    requires '/' !in a
    ensures Split(a) == [a]
    decreases |a|
  {
    if |a| > 0 {
      assert '/' !in a[1..] by {
        forall k | 0 <= k < |a[1..]| ensures a[1..][k] != '/' {
          assert a[1..][k] == a[k + 1];
        }
      }
      SplitNoSlash(a[1..]);
      assert [a[0]] + a[1..] == a;
    }
  }

  /** Splitting on slashes and joining with slashes gives back the original string. */
  lemma {:induction false} JoinSplit(s: string)
    ensures Join(Split(s)) == s
    decreases |s|
  {
    if |s| > 0 {
      var rest := Split(s[1..]);
      JoinSplit(s[1..]);
      if s[0] == '/' {
        assert ([""] + rest)[1..] == rest;
        assert s == "/" + s[1..];
      } else if |rest| == 1 {
        assert s == [s[0]] + s[1..];
      } else {
        var parts := [[s[0]] + rest[0]] + rest[1..];
        assert parts[1..] == rest[1..];
        assert s == [s[0]] + s[1..];
      }
    }
  }

  /** Joining slash-free pieces with "/" and splitting again gives the pieces back. */
  lemma {:induction false} SplitJoin(parts: seq<string>)
    requires |parts| >= 1
    requires forall i :: 0 <= i < |parts| ==> '/' !in parts[i]
    ensures Split(Join(parts)) == parts
  {
    SplitNoSlash(parts[0]);
    if |parts| > 1 {
      SplitJoin(parts[1..]);
      SplitConcat(parts[0], Join(parts[1..]));
      assert [parts[0]] + parts[1..] == parts;
    }
  }

  // ---------------------------------------------------------------- segments

  lemma {:induction false} NonEmptyConcat(a: seq<string>, b: seq<string>)
    ensures NonEmpty(a + b) == NonEmpty(a) + NonEmpty(b)
  {
    if a != [] {
      assert (a + b)[1..] == a[1..] + b;
      NonEmptyConcat(a[1..], b);
    } else {
      assert a + b == b;
    }
  }

  /** Nothing non-empty is lost: a string is kept exactly when it is a non-empty piece. */
  lemma {:induction false} NonEmptyKeepsExactly(parts: seq<string>)
    ensures forall x :: x in NonEmpty(parts) <==> x in parts && x != ""
  {
    if parts != [] {
      NonEmptyKeepsExactly(parts[1..]);
      assert parts == [parts[0]] + parts[1..];
    }
  }

  /** As many pieces are kept as the input has, less the empty ones. */
  lemma {:induction false} NonEmptyCount(parts: seq<string>)
    ensures |NonEmpty(parts)| == |parts| - multiset(parts)[""]
  {
    if parts != [] {
      NonEmptyCount(parts[1..]);
      assert parts == [parts[0]] + parts[1..];
    }
  }

  /**
   * Every non-empty piece is kept as often as it occurs, and no empty one is;
   * that the kept pieces stay in the input's order is NonEmptyConcat.
   */
  lemma {:induction false} NonEmptyOccurrences(parts: seq<string>)
    ensures multiset(NonEmpty(parts)) == multiset(parts)["" := 0]
  {
    if parts != [] {
      NonEmptyOccurrences(parts[1..]);
      assert parts == [parts[0]] + parts[1..];
      assert multiset(parts) == multiset([parts[0]]) + multiset(parts[1..]);
    }
  }

  /** The segments on both sides of a slash are the segments of the whole. */
  lemma {:induction false} SegmentsConcat(a: string, b: string)
    ensures Segments(a + "/" + b) == Segments(a) + Segments(b)
  {
    SplitConcat(a, b);
    NonEmptyConcat(Split(a), Split(b));
  }

  lemma {:induction false} SegmentsLeadingSlash(p: string)
    ensures Segments("/" + p) == Segments(p)
  {
  }

  lemma {:induction false} SegmentsTrailingSlash(p: string)
    ensures Segments(p + "/") == Segments(p)
  {
    SegmentsConcat(p, "");
    assert p + "/" + "" == p + "/";
  }

  /** A run of two slashes splits like a single one. */
  lemma {:induction false} SegmentsRepeatedSlash(a: string, b: string)
    ensures Segments(a + "//" + b) == Segments(a + "/" + b)
  {
    calc {
      Segments(a + "//" + b);
      { assert a + "//" + b == a + "/" + ("/" + b); }
      Segments(a + "/" + ("/" + b));
      { SegmentsConcat(a, "/" + b); }
      Segments(a) + Segments("/" + b);
      { SegmentsLeadingSlash(b); }
      Segments(a) + Segments(b);
      { SegmentsConcat(a, b); }
      Segments(a + "/" + b);
    }
  }

  /** A pathname has no segments exactly when it consists of slashes only. */
  lemma {:induction false} SegmentsEmptyIff(p: string)
    ensures Segments(p) == [] <==> forall k :: 0 <= k < |p| ==> p[k] == '/'
    decreases |p|
  {
    if |p| > 0 {
      if p[0] == '/' {
        SegmentsLeadingSlash(p[1..]);
        assert "/" + p[1..] == p;
        SegmentsEmptyIff(p[1..]);
        if Segments(p) == [] {
          forall k | 0 <= k < |p| ensures p[k] == '/' {
            if k > 0 { assert p[1..][k - 1] == p[k]; }
          }
        } else {
          var k :| 0 <= k < |p[1..]| && p[1..][k] != '/';
          assert p[k + 1] != '/';
        }
      } else {
        var parts := Split(p);
        assert parts[0] != "";
        assert parts == [parts[0]] + parts[1..];
        NonEmptyConcat([parts[0]], parts[1..]);
        assert Segments(p) != [];
      }
    }
  }

  // ---------------------------------------------------------------- hrefs

  lemma {:induction false} JoinPathConcat(a: seq<string>, b: seq<string>)
    ensures JoinPath(a + b) == JoinPath(a) + JoinPath(b)
  {
    if a == [] {
      assert a + b == b;
    } else {
      assert (a + b)[0] == a[0];
      assert (a + b)[1..] == a[1..] + b;
      JoinPathConcat(a[1..], b);
    }
  }

  /** One accumulator step: appending a segment extends the href by a slash and that segment. */
  lemma {:induction false} JoinPathAppend(a: seq<string>, s: string)
    ensures JoinPath(a + [s]) == JoinPath(a) + "/" + s
  {
    JoinPathConcat(a, [s]);
    assert [s][1..] == [];
  }

  /** A non-empty list of segments joins to a string that starts with "/" followed by its first segment. */
  lemma {:induction false} JoinPathStart(segs: seq<string>)
    requires segs != []
    ensures |JoinPath(segs)| > |segs[0]|
    ensures JoinPath(segs)[0] == '/'
    ensures JoinPath(segs)[1..|segs[0]| + 1] == segs[0]
  {
  }

  /** The segments of a joined href are the segments it was built from. */
  lemma {:induction false} SegmentsJoinPath(segs: seq<string>)
    requires ValidSegments(segs)
    ensures Segments(JoinPath(segs)) == segs
  {
    if segs != [] {
      var s, rest := segs[0], segs[1..];
      assert segs == [s] + rest;
      SegmentsOfOne(s);
      if rest == [] {
        assert JoinPath(segs) == "/" + s + "";
        assert "/" + s + "" == "/" + s;
      } else {
        SegmentsJoinPath(rest);
        var tail := rest[0] + JoinPath(rest[1..]);
        assert JoinPath(rest) == "/" + tail;
        SegmentsLeadingSlash(tail);
        assert JoinPath(segs) == ("/" + s) + "/" + tail;
        SegmentsConcat("/" + s, tail);
      }
    }
  }

  /** A single segment, with or without its leading slash, is its own only segment. */
  lemma {:induction false} SegmentsOfOne(s: string)
    requires IsSegment(s)
    ensures Segments("/" + s) == [s]
  {
    SplitNoSlash(s);
    assert NonEmpty([s]) == [s] by {
      assert [s][1..] == [];
    }
    SegmentsLeadingSlash(s);
  }

  /** The canonical pathname of some segments splits back into them. */
  lemma {:induction false} SegmentsPathOf(segs: seq<string>)
    requires ValidSegments(segs)
    ensures Segments(PathOf(segs)) == segs
  {
    if segs == [] {
      SegmentsEmptyIff("/");
    } else {
      SegmentsJoinPath(segs);
    }
  }

  /** Different segment lists never share an href. */
  lemma JoinPathInjective(a: seq<string>, b: seq<string>)
    requires ValidSegments(a) && ValidSegments(b)
    requires JoinPath(a) == JoinPath(b)
    ensures a == b
  {
    SegmentsJoinPath(a);
    SegmentsJoinPath(b);
  }
}
