/**
 * The side navigation: a fixed, ordered table of destinations, each rendered
 * as one entry that is highlighted when the current pathname is the item's
 * own page or one of the pages below it.
 */
module Sidebar {
  import opened Paths

  /** One row of the navigation table; `external` items open another site. */
  datatype NavItem = NavItem(href: string, caption: string, external: bool)

  /** One rendered entry: the item's data and whether it is highlighted. */
  datatype Entry = Entry(href: string, caption: string, external: bool, active: bool)

  /** The navigation table, in declaration order. */
  const Items: seq<NavItem> := [
    NavItem("/", "Dashboard", false),
    NavItem("/ventas", "Ventas", false),
    NavItem("/ventas/nueva", "Nueva venta", false),
    NavItem("/inventario", "Inventario", false),
    NavItem("/caja", "Caja", false),
    NavItem("/graficas", "Gráficas", false),
    NavItem("https://trackingt.github.io/order-tracking/admin.html", "Seguimiento pedidos", true)
  ]

  /**
   * Whether an item is highlighted: it is internal, and the pathname is its
   * href or starts with its href followed by a slash. A highlighted item's
   * href is therefore a prefix of the pathname that ends at a segment boundary.
   */
  predicate Active(item: NavItem, pathname: string)
    ensures Active(item, pathname) ==> !item.external && item.href <= pathname
    ensures Active(item, pathname) ==> |pathname| == |item.href| || pathname[|item.href|] == '/'
  {
    !item.external && (pathname == item.href || item.href + "/" <= pathname)
  }

  /**
   * The rendered entries: one per table item, in order, each carrying its
   * highlight flag. Only internal entries whose href is a prefix of the
   * pathname are highlighted.
   */
  function AppSidebar(pathname: string): (r: seq<Entry>)
    ensures |r| == |Items|
    ensures forall i :: 0 <= i < |r| ==> r[i].href == Items[i].href && r[i].caption == Items[i].caption
    ensures forall i :: 0 <= i < |r| && r[i].active ==> !r[i].external && r[i].href <= pathname
  {
    seq(|Items|, i requires 0 <= i < |Items| =>
      Entry(Items[i].href, Items[i].caption, Items[i].external, Active(Items[i], pathname)))
  }

  // ---------------------------------------------------------------- properties

  /** Every item yields exactly one entry, in declaration order, with its own data. */
  lemma EntriesFollowItems(pathname: string)
    ensures var r := AppSidebar(pathname);
      |r| == |Items|
      && forall i :: 0 <= i < |Items| ==>
           r[i].href == Items[i].href && r[i].caption == Items[i].caption
           && r[i].external == Items[i].external && (r[i].active <==> Active(Items[i], pathname))
  {
  }

  /** An external item is never highlighted. */
  lemma ExternalNeverActive(item: NavItem, pathname: string)
    requires item.external
    ensures !Active(item, pathname)
  {
  }

  /** The root item is highlighted on "/" and on pathnames that begin with "//", and nowhere else. */
  lemma RootActiveIff(pathname: string)
    ensures Active(Items[0], pathname) <==> pathname == "/" || "//" <= pathname
  {
  }

  /** On a canonical pathname the root item is highlighted only on "/" itself. */
  lemma {:induction false} RootOnlyAtRoot(segs: seq<string>)
    requires ValidSegments(segs)
    ensures Active(Items[0], PathOf(segs)) <==> segs == []
  {
    RootActiveIff(PathOf(segs));
    if segs != [] {
      JoinPathStart(segs);
      assert PathOf(segs)[1] == segs[0][0];
      assert segs[0][0] != '/' by {
        assert IsSegment(segs[0]);
      }
    }
  }

  /** A longer pathname that does not continue with "/" right after the href never highlights the item. */
  lemma SegmentBoundary(item: NavItem, c: char, rest: string)
    requires c != '/'
    ensures !Active(item, item.href + [c] + rest)
  {
    var p := item.href + [c] + rest;
    assert p[|item.href|] == c;
    assert (item.href + "/")[|item.href|] == '/';
  }

  /** "/ventasX" does not highlight "/ventas". */
  lemma {:induction false} SegmentBoundaryExample()
    ensures !Active(Items[1], "/ventasX")
  {
    SegmentBoundary(Items[1], 'X', "");
    assert Items[1].href + ['X'] + "" == "/ventasX";
  }

  /** A highlighted item stays highlighted on every page below the current one. */
  lemma ActiveUnderExtension(item: NavItem, pathname: string, s: string)
    requires Active(item, pathname)
    ensures Active(item, pathname + "/" + s)
  {
  }

  /** Two highlighted items are nested: one href is a prefix of the other. */
  lemma ActiveNested(x: NavItem, y: NavItem, pathname: string)
    requires Active(x, pathname) && Active(y, pathname)
    ensures x.href <= y.href || y.href <= x.href
  {
    assert x.href <= pathname by {
      if pathname != x.href { assert x.href <= x.href + "/"; }
    }
    assert y.href <= pathname by {
      if pathname != y.href { assert y.href <= y.href + "/"; }
    }
    if |x.href| <= |y.href| {
      assert x.href == pathname[..|x.href|] == y.href[..|x.href|];
    } else {
      assert y.href == pathname[..|y.href|] == x.href[..|y.href|];
    }
  }

  /** Highlighting is not exclusive: on "/ventas/nueva" both "/ventas" and "/ventas/nueva" are highlighted. */
  lemma NotExclusive()
    ensures Active(Items[1], "/ventas/nueva") && Active(Items[2], "/ventas/nueva")
  {
  }

  /** A highlighted item's segments start the canonical pathname's segments. */
  lemma {:induction false} ActiveOnlyBelowOwnSegments(item: NavItem, h: seq<string>, segs: seq<string>)
    requires ValidSegments(h) && h != [] && item.href == JoinPath(h)
    requires ValidSegments(segs)
    requires Active(item, PathOf(segs))
    ensures h <= segs
  {
    var p := PathOf(segs);
    JoinPathStart(h);
    if segs == [] {
      assert false;
    }
    assert p == JoinPath(segs);
    if p == item.href {
      JoinPathInjective(h, segs);
    } else {
      var x := p[|item.href| + 1..];
      assert p == item.href + "/" + x;
      SegmentsConcat(item.href, x);
      SegmentsJoinPath(h);
      SegmentsJoinPath(segs);
      assert segs == h + Segments(x);
    }
  }

  /** An internal non-root item is highlighted on every canonical pathname its segments start. */
  lemma {:induction false} ActiveBelowOwnSegments(item: NavItem, h: seq<string>, segs: seq<string>)
    requires ValidSegments(h) && h != [] && item.href == JoinPath(h) && !item.external
    requires ValidSegments(segs)
    requires h <= segs
    ensures Active(item, PathOf(segs))
  {
    var rest := segs[|h|..];
    assert segs == h + rest;
    JoinPathConcat(h, rest);
    assert PathOf(segs) == JoinPath(h) + JoinPath(rest);
    if rest != [] {
      JoinPathStart(rest);
      assert PathOf(segs) == item.href + "/" + JoinPath(rest)[1..];
    }
  }

  /**
   * On canonical paths, a non-root item is highlighted exactly when its
   * segments are a prefix of the current pathname's segments.
   */
  lemma {:induction false} ActiveIffSegmentPrefix(item: NavItem, h: seq<string>, segs: seq<string>)
    requires ValidSegments(h) && h != [] && item.href == JoinPath(h)
    requires ValidSegments(segs)
    ensures Active(item, PathOf(segs)) <==> !item.external && h <= segs
  {
    if Active(item, PathOf(segs)) {
      ActiveOnlyBelowOwnSegments(item, h, segs);
    }
    if !item.external && h <= segs {
      ActiveBelowOwnSegments(item, h, segs);
    }
  }

  /** The same, stated with the segments of the item's own href. */
  lemma {:induction false} ActiveIffOwnSegmentsPrefix(item: NavItem, h: seq<string>, segs: seq<string>)
    requires ValidSegments(h) && h != [] && item.href == JoinPath(h) && !item.external
    requires ValidSegments(segs)
    ensures Active(item, PathOf(segs)) <==> Segments(item.href) <= segs
  {
    SegmentsJoinPath(h);
    ActiveIffSegmentPrefix(item, h, segs);
  }

  /** The table has seven items: the root "/" first, then five internal items, and one external item last. */
  lemma TableShape()
    ensures |Items| == 7 && Items[0].href == "/"
    ensures forall i :: 0 <= i < 6 ==> !Items[i].external
    ensures Items[6].external
  {
  }

  /** The internal non-root items of the table are canonical paths of their own segments. */
  lemma TableHrefs()
    ensures Items[1].href == JoinPath(["ventas"])
    ensures Items[2].href == JoinPath(["ventas", "nueva"])
    ensures Items[3].href == JoinPath(["inventario"])
    ensures Items[4].href == JoinPath(["caja"])
    ensures Items[5].href == JoinPath(["graficas"])
    ensures Items[6].external
  {
    OneSegmentHref("ventas");
    JoinPathAppend(["ventas"], "nueva");
    assert ["ventas"] + ["nueva"] == ["ventas", "nueva"];
    OneSegmentHref("inventario");
    OneSegmentHref("caja");
    OneSegmentHref("graficas");
  }

  lemma OneSegmentHref(s: string)
    ensures JoinPath([s]) == "/" + s
  {
    assert [s][1..] == [];
    assert "/" + s + "" == "/" + s;
  }

  /**
   * For the table itself: on a canonical pathname, each internal non-root item
   * is highlighted exactly when its own segments start the pathname's segments.
   */
  lemma {:induction false} TableActivity(segs: seq<string>, i: nat)
    requires ValidSegments(segs) && 1 <= i < 6
    ensures Active(Items[i], PathOf(segs)) <==> Segments(Items[i].href) <= segs
  {
    var h: seq<string>;
    if i == 1 {
      h := ["ventas"];
    } else if i == 2 {
      h := ["ventas", "nueva"];
    } else if i == 3 {
      h := ["inventario"];
    } else if i == 4 {
      h := ["caja"];
    } else {
      h := ["graficas"];
    }
    assert Items[i].href == JoinPath(h) by {
      TableHrefs();
    }
    assert ValidSegments(h);
    ActiveIffOwnSegmentsPrefix(Items[i], h, segs);
  }

  /** Of any two highlighted entries, one href is a prefix of the other. */
  lemma {:induction false} HighlightedEntriesNested(pathname: string)
    ensures var r := AppSidebar(pathname);
      forall i, j :: 0 <= i < |r| && 0 <= j < |r| && r[i].active && r[j].active ==>
        r[i].href <= r[j].href || r[j].href <= r[i].href
  {
    var r := AppSidebar(pathname);
    forall i, j | 0 <= i < |r| && 0 <= j < |r| && r[i].active && r[j].active
      ensures r[i].href <= r[j].href || r[j].href <= r[i].href
    {
      ActiveNested(Items[i], Items[j], pathname);
    }
  }
}
