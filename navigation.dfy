/**
 * How the two navigation components agree with each other on canonical
 * pathnames: an internal non-root sidebar item with a canonical href is
 * highlighted exactly when some crumb after Home has its href.
 */
module Navigation {
  import opened Paths
  import opened BreadcrumbTrail
  import opened Sidebar

  /** The crumb after Dashboard at position |h| carries the href built from h, when h starts the segments. */
  lemma {:induction false} PrefixOnTrail(h: seq<string>, segs: seq<string>)
    requires ValidSegments(segs) && h != [] && h <= segs
    ensures var t := Trail(PathOf(segs));
      |h| < |t| && t[|h|].href == JoinPath(h)
  {
    SegmentsPathOf(segs);
    var t := Trail(PathOf(segs));
    assert t == [Home] + SegmentCrumbs(segs);
    assert segs[..|h|] == h;
  }

  /** A crumb after Dashboard whose href is built from valid segments h shows that h starts the segments. */
  lemma {:induction false} OnTrailPrefix(h: seq<string>, segs: seq<string>, k: nat)
    requires ValidSegments(h) && ValidSegments(segs)
    requires 1 <= k < |Trail(PathOf(segs))| && Trail(PathOf(segs))[k].href == JoinPath(h)
    ensures h <= segs
  {
    SegmentsPathOf(segs);
    var t := Trail(PathOf(segs));
    assert t == [Home] + SegmentCrumbs(segs);
    assert t[k].href == JoinPath(segs[..k]);
    assert ValidSegments(segs[..k]);
    JoinPathInjective(h, segs[..k]);
  }

  lemma {:induction false} HighlightedIffOnTrail(item: NavItem, h: seq<string>, segs: seq<string>)
    requires ValidSegments(h) && h != [] && item.href == JoinPath(h) && !item.external
    requires ValidSegments(segs)
    ensures var t := Trail(PathOf(segs));
      Active(item, PathOf(segs)) <==> exists k :: 1 <= k < |t| && t[k].href == item.href
  {
    var t := Trail(PathOf(segs));
    ActiveIffSegmentPrefix(item, h, segs);
    if h <= segs {
      PrefixOnTrail(h, segs);
      assert 1 <= |h| < |t| && t[|h|].href == item.href;
    }
    if exists k :: 1 <= k < |t| && t[k].href == item.href {
      var k :| 1 <= k < |t| && t[k].href == item.href;
      OnTrailPrefix(h, segs, k);
    }
  }
}
