/**
 * The breadcrumb trail shown above every page: a fixed "Dashboard" link to
 * "/", then one crumb per pathname segment whose href is built cumulatively
 * and whose label comes from a small table, the last crumb being plain text.
 */
module BreadcrumbTrail {
  import opened Paths

  /** One rendered crumb; `isLink` is false for the plain-text (current page) crumb. */
  datatype Crumb = Crumb(text: string, href: string, isLink: bool)

  /** Display names of the known segments. */
  const Labels: map<string, string> :=
    map["ventas" := "Ventas", "nueva" := "Nueva", "caja" := "Caja", "graficas" := "Gráficas"]

  /** The fixed link that always opens the trail. */
  const Home: Crumb := Crumb("Dashboard", "/", true)

  /** The display name of a segment: its entry in the table, or the segment itself when it has none. */
  function Label(segment: string): (r: string)
    ensures segment != "" ==> r != ""
    ensures r != segment ==> segment in Labels
  {
    if segment in Labels then Labels[segment] else segment
  }

  /**
   * The crumbs that follow Home, one per segment, described position by
   * position: crumb i is labelled from segment i, has the href of the first i + 1
   * segments, and only the last one is plain text.
   */
  function SegmentCrumbs(segs: seq<string>): seq<Crumb>
  {
    seq(|segs|, i requires 0 <= i < |segs| =>
      Crumb(Label(segs[i]), JoinPath(segs[..i + 1]), i < |segs| - 1))
  }

  /** The whole trail of a pathname: Home, then one crumb per segment. */
  function Trail(pathname: string): (r: seq<Crumb>)
    ensures |r| == |Segments(pathname)| + 1
    ensures r[0] == Home
  {
    [Home] + SegmentCrumbs(Segments(pathname))
  }

  /**
   * The component: split and filter the pathname, then walk the segments with
   * an `href` accumulator that grows by a slash and the segment at each step.
   */
  method Breadcrumbs(pathname: string) returns (crumbs: seq<Crumb>)
    ensures crumbs == Trail(pathname)
  {
    var segments := Segments(pathname);
    ghost var expected := SegmentCrumbs(segments);
    var href := "";
    crumbs := [Home];
    var index := 0;
    while index < |segments|
      invariant 0 <= index <= |segments|
      invariant href == JoinPath(segments[..index])
      invariant crumbs == [Home] + expected[..index]
    {
      var segment := segments[index];
      JoinPathAppend(segments[..index], segment);
      assert segments[..index] + [segment] == segments[..index + 1];
      href := href + "/" + segment;
      var text := Label(segment);
      assert expected[index] == Crumb(text, href, index != |segments| - 1);
      crumbs := crumbs + [Crumb(text, href, index != |segments| - 1)];
      assert expected[..index + 1] == expected[..index] + [expected[index]];
      index := index + 1;
    }
    assert expected[..index] == expected;
  }

  // ---------------------------------------------------------------- properties

  /** The labels of the four known segments, and every other segment shown as is. */
  lemma LabelTable(segment: string)
    ensures Label("ventas") == "Ventas" && Label("nueva") == "Nueva"
    ensures Label("caja") == "Caja" && Label("graficas") == "Gráficas"
    ensures segment !in {"ventas", "nueva", "caja", "graficas"} ==> Label(segment) == segment
  {
  }

  /** One crumb per segment after Home, each labelled from its own segment. */
  lemma TrailShape(pathname: string)
    ensures |Trail(pathname)| == |Segments(pathname)| + 1
    ensures Trail(pathname)[0] == Home
    ensures forall i :: 0 <= i < |Segments(pathname)| ==>
      Trail(pathname)[i + 1].text == Label(Segments(pathname)[i])
  {
    var segs := Segments(pathname);
    assert Trail(pathname) == [Home] + SegmentCrumbs(segs);
  }

  /** The trail is Home alone exactly when the pathname is made of slashes only, such as "/". */
  lemma {:induction false} OnlyHomeIff(pathname: string)
    ensures Trail(pathname) == [Home] <==> forall k :: 0 <= k < |pathname| ==> pathname[k] == '/'
  {
    SegmentsEmptyIff(pathname);
    if Trail(pathname) == [Home] {
      assert |SegmentCrumbs(Segments(pathname))| == 0;
    }
  }

  /** Crumb i (after Home) has the href "/" + the first i segments joined with "/". */
  lemma {:induction false} CrumbHref(pathname: string, i: nat)
    requires 0 < i < |Trail(pathname)|
    ensures var segs := Segments(pathname);
      Trail(pathname)[i].href == JoinPath(segs[..i])
      && Trail(pathname)[i].href == "/" + Join(segs[..i])
  {
    var segs := Segments(pathname);
    HrefIsSlashJoin(segs[..i]);
  }

  lemma {:induction false} HrefIsSlashJoin(segs: seq<string>)
    requires segs != []
    ensures JoinPath(segs) == "/" + Join(segs)
  {
    if |segs| > 1 {
      HrefIsSlashJoin(segs[1..]);
    }
  }

  /** Each segment crumb's href is a strict prefix of the next one's, extended by "/" + the next segment. */
  lemma {:induction false} HrefExtends(pathname: string, i: nat)
    requires 0 < i < |Trail(pathname)| - 1
    ensures var t := Trail(pathname);
      t[i + 1].href == t[i].href + "/" + Segments(pathname)[i] && t[i].href < t[i + 1].href
  {
    var segs := Segments(pathname);
    JoinPathAppend(segs[..i], segs[i]);
    assert segs[..i] + [segs[i]] == segs[..i + 1];
  }

  /** The first segment crumb extends Home's "/" by that segment. */
  lemma FirstCrumbHref(pathname: string)
    requires |Trail(pathname)| > 1
    ensures Trail(pathname)[1].href == Home.href + Segments(pathname)[0]
  {
    var segs := Segments(pathname);
    assert segs[..1] == [segs[0]];
    assert JoinPath([segs[0]]) == "/" + segs[0] + JoinPath([]);
    assert "/" + segs[0] + "" == "/" + segs[0];
  }

  /** No two crumbs share an href, so the hrefs are usable as element keys. */
  lemma {:induction false} HrefsDistinct(pathname: string)
    ensures var t := Trail(pathname);
      forall i, j :: 0 <= i < j < |t| ==> t[i].href != t[j].href
  {
    var t := Trail(pathname);
    var segs := Segments(pathname);
    assert t == [Home] + SegmentCrumbs(segs);
    forall i, j | 0 <= i < j < |t| ensures t[i].href != t[j].href {
      assert t[j].href == JoinPath(segs[..j]);
      JoinPathStart(segs[..j]);
      if i > 0 {
        assert segs[..j] == segs[..i] + segs[i..j];
        JoinPathConcat(segs[..i], segs[i..j]);
        JoinPathStart(segs[i..j]);
      }
    }
  }

  /** Exactly the last crumb is plain text, and only when there is a segment crumb. */
  lemma OnlyLastIsText(pathname: string)
    ensures var t := Trail(pathname);
      forall i :: 0 <= i < |t| ==> (!t[i].isLink <==> i == |t| - 1 && i > 0)
  {
  }

  /** The trail depends on the pathname only through its segments. */
  lemma TrailBySegments(p: string, q: string)
    requires Segments(p) == Segments(q)
    ensures Trail(p) == Trail(q)
  {
  }

  /** Leading, trailing and repeated slashes do not change the trail. */
  lemma {:induction false} SlashesIgnored(a: string, b: string)
    ensures Trail("/" + a) == Trail(a)
    ensures Trail(a + "/") == Trail(a)
    ensures Trail(a + "//" + b) == Trail(a + "/" + b)
  {
    SegmentsLeadingSlash(a);
    SegmentsTrailingSlash(a);
    SegmentsRepeatedSlash(a, b);
  }

  lemma {:induction false} SlashesIgnoredExample()
    ensures Trail("/ventas//nueva/") == Trail("/ventas/nueva")
  {
    var a, b := "/ventas", "nueva";
    SegmentsRepeatedSlash(a, b + "/");
    SegmentsTrailingSlash(a + "/" + b);
    assert a + "//" + (b + "/") == "/ventas//nueva/";
    assert a + "/" + (b + "/") == (a + "/" + b) + "/";
    assert a + "/" + b == "/ventas/nueva";
    TrailBySegments("/ventas//nueva/", "/ventas/nueva");
  }

  /**
   * Following the link of segment crumb i (i >= 1, after Home) leads to a page
   * whose trail repeats the first i + 1 crumbs, with crumb i now the plain-text one.
   */
  lemma {:induction false} LinkLeadsToPrefix(pathname: string, i: nat)
    requires 0 < i < |Trail(pathname)|
    ensures var t := Trail(pathname);
      var u := Trail(t[i].href);
      |u| == i + 1 && u[..i] == t[..i] && u[i] == t[i].(isLink := false)
  {
    var segs := Segments(pathname);
    var t := Trail(pathname);
    SegmentsJoinPath(segs[..i]);
    assert Segments(t[i].href) == segs[..i];
    var u := Trail(t[i].href);
    forall k | 0 <= k < i ensures u[k] == t[k] {
      if k > 0 {
        assert segs[..i][..k] == segs[..k];
      }
    }
    assert segs[..i][..i] == segs[..i];
  }
}
