# Navigation path handling of the bookkeeping front end

This project models the two pieces of the point-of-sale front end that do real
work on URL pathnames:

- **Breadcrumbs** (`src/components/Breadcrumbs.tsx`). The pathname is split on
  `/` and the empty pieces are dropped. A fixed "Dashboard" link to `/` comes
  first. Then each segment gets one crumb. Its href is built cumulatively by
  `href += "/" + segment`. Its text is the segment's display name from a small
  table, or the segment itself when the table has no entry. Every crumb is a
  link except the last one.
- **Sidebar highlighting** (`src/components/AppSidebar.tsx`). A fixed, ordered
  table of destinations becomes one entry each. An entry is highlighted when the
  item is not external and the pathname is its href or starts with its href
  followed by `/`.

Files:

- `paths.dfy` (module `Paths`) models splitting on `/` (`Split`), dropping the
  empty pieces (`NonEmpty`), joining with `/` (`Join`) and the cumulative href
  (`JoinPath`), with their round trips.
- `breadcrumbs.dfy` (module `BreadcrumbTrail`) holds the crumb record, the label
  table `Labels`, the fixed first crumb `Home`, and `Trail`. `Trail` is `Home`
  followed by `SegmentCrumbs`, a position-by-position definition of the crumbs
  that follow it. It also
  holds the method `Breadcrumbs`. That method runs the source's mutable `href`
  accumulator in a loop and is proved equal to `Trail`. The lemmas state the
  properties of the trail.
- `sidebar.dfy` (module `Sidebar`) holds the item table `Items`, the `Active`
  predicate and the entry list `AppSidebar`. The lemmas state the boundary, root, extension and
  nesting facts, plus a characterisation by path segments.
- `navigation.dfy` (module `Navigation`) relates the two components.

The pathname is an input parameter; the framework hook that supplies it is not
modelled. A *canonical* pathname is `PathOf(segs)`: `/` when there are no
segments, otherwise `/` followed by the segments joined with `/`.

## Model

| member | source | states |
|---|---|---|
| `Paths.Split` | src/components/Breadcrumbs.tsx:16 | `split("/")` yields at least one piece, and no piece contains `/` |
| `Paths.JoinSplit` | src/components/Breadcrumbs.tsx:16 | joining the pieces of `split("/")` with `/` gives back the original string, so splitting loses nothing |
| `Paths.SplitJoin` | src/components/Breadcrumbs.tsx:16 | splitting slash-free pieces that were joined with `/` gives back exactly those pieces |
| `Paths.SplitConcat` | src/components/Breadcrumbs.tsx:16 | splitting `a + "/" + b` gives the pieces of `a` followed by the pieces of `b` |
| `Paths.NonEmpty` | src/components/Breadcrumbs.tsx:16 | `filter(Boolean)` keeps only non-empty pieces, each taken from the input, and never more than the input has |
| `Paths.NonEmptyKeepsExactly` | src/components/Breadcrumbs.tsx:16 | a string is kept by `filter(Boolean)` if and only if it is a non-empty piece of the input, so no non-empty piece is dropped |
| `Paths.NonEmptyCount` | src/components/Breadcrumbs.tsx:16 | the filter keeps as many pieces as the input has, less the number of empty ones |
| `Paths.NonEmptyOccurrences` | src/components/Breadcrumbs.tsx:16 | the filter keeps each non-empty piece exactly as often as it occurs in the input, and no empty piece |
| `Paths.NonEmptyConcat` | src/components/Breadcrumbs.tsx:16 | the filter distributes over concatenation, so it keeps the original order |
| `Paths.Segments` | src/components/Breadcrumbs.tsx:16 | every segment of a pathname is non-empty and contains no `/` |
| `Paths.SegmentsConcat` | src/components/Breadcrumbs.tsx:16 | the segments of `a + "/" + b` are the segments of `a` followed by those of `b` |
| `Paths.SegmentsLeadingSlash` | src/components/Breadcrumbs.tsx:16 | a leading slash does not change the segments |
| `Paths.SegmentsTrailingSlash` | src/components/Breadcrumbs.tsx:16 | a trailing slash does not change the segments |
| `Paths.SegmentsRepeatedSlash` | src/components/Breadcrumbs.tsx:16 | `//` splits exactly like `/` |
| `Paths.SegmentsEmptyIff` | src/components/Breadcrumbs.tsx:16 | a pathname has no segments if and only if it consists of slashes only |
| `Paths.SplitNoSlash` | src/components/Breadcrumbs.tsx:16 | a string without `/` splits into itself alone |
| `Paths.JoinPath` | src/components/Breadcrumbs.tsx:18-27 | the accumulated href is empty before any segment and afterwards starts with `/`, at least one character per segment long |
| `Paths.JoinPathConcat` | src/components/Breadcrumbs.tsx:18-27 | the href built from `a + b` is the href of `a` followed by the href of `b`, starting from the empty href |
| `Paths.JoinPathAppend` | src/components/Breadcrumbs.tsx:27 | one step of `href += "/" + segment` is the href of the segments one longer |
| `Paths.JoinPathStart` | src/components/Breadcrumbs.tsx:27 | the href of a non-empty segment list starts with `/` followed by its first segment |
| `Paths.SegmentsJoinPath` | src/components/Breadcrumbs.tsx:16-27 | splitting an href built from valid segments gives back those segments |
| `Paths.SegmentsPathOf` | src/components/Breadcrumbs.tsx:16 | splitting the canonical pathname of valid segments gives back those segments, and `/` has none |
| `Paths.JoinPathInjective` | src/components/Breadcrumbs.tsx:27 | different valid segment lists never build the same href |
| `BreadcrumbTrail.Label` | src/components/Breadcrumbs.tsx:7-28 | a non-empty segment never gets an empty label, and a label that differs from its segment comes from the `Labels` table |
| `BreadcrumbTrail.LabelTable` | src/components/Breadcrumbs.tsx:7-12 | fixes the `Labels` table: the four entries give their display names, and every other segment is shown unchanged |
| `BreadcrumbTrail.Trail` | src/components/Breadcrumbs.tsx:16-47 | the trail has one crumb per segment after a first crumb, and that first crumb is `Home`, the Dashboard link to `/` |
| `BreadcrumbTrail.Breadcrumbs` | src/components/Breadcrumbs.tsx:14-50 | the loop with the mutable `href` accumulator produces exactly the trail `Trail(pathname)` |
| `BreadcrumbTrail.TrailShape` | src/components/Breadcrumbs.tsx:16-28 | the trail is the Dashboard link followed by one crumb per segment, each labelled from its own segment |
| `BreadcrumbTrail.OnlyHomeIff` | src/components/Breadcrumbs.tsx:16-26 | the trail is the Dashboard link alone if and only if the pathname is only slashes, such as `/` |
| `BreadcrumbTrail.CrumbHref` | src/components/Breadcrumbs.tsx:18-27 | crumb i (i ≥ 1) has the href `/` followed by the first i segments joined with `/`; that href is a link target for every crumb but the last (see `OnlyLastIsText`) |
| `BreadcrumbTrail.HrefIsSlashJoin` | src/components/Breadcrumbs.tsx:27 | the cumulative href equals `/` followed by `join("/")` of its segments |
| `BreadcrumbTrail.HrefExtends` | src/components/Breadcrumbs.tsx:27 | each segment crumb's href, except the last, is a strict prefix of the next one's, which adds exactly `/` and the next segment |
| `BreadcrumbTrail.FirstCrumbHref` | src/components/Breadcrumbs.tsx:22-27 | the first segment crumb's href is the Dashboard href `/` followed by the first segment |
| `BreadcrumbTrail.HrefsDistinct` | src/components/Breadcrumbs.tsx:27-31 | no two crumbs share an href, so the `key` given to each crumb is unique |
| `BreadcrumbTrail.OnlyLastIsText` | src/components/Breadcrumbs.tsx:33-43 | a crumb is plain text if and only if it is the last one and follows Dashboard; every other crumb is a link |
| `BreadcrumbTrail.TrailBySegments` | src/components/Breadcrumbs.tsx:16 | two pathnames with the same segments have the same trail |
| `BreadcrumbTrail.SlashesIgnored` | src/components/Breadcrumbs.tsx:16 | leading, trailing and repeated slashes do not change the trail |
| `BreadcrumbTrail.SlashesIgnoredExample` | src/components/Breadcrumbs.tsx:16 | `/ventas//nueva/` has the same trail as `/ventas/nueva` |
| `BreadcrumbTrail.LinkLeadsToPrefix` | src/components/Breadcrumbs.tsx:27-43 | following segment crumb i's link (i ≥ 1, after Dashboard) leads to a page whose trail repeats the first i + 1 crumbs, with crumb i now plain text |
| `Sidebar.Active` | src/components/AppSidebar.tsx:64-66 | a highlighted item is internal, and its href is a prefix of the pathname that ends where the pathname ends or at a `/` |
| `Sidebar.AppSidebar` | src/components/AppSidebar.tsx:63-97 | one entry per table item, in order, with the item's href and label; a highlighted entry is internal and its href is a prefix of the pathname |
| `Sidebar.HighlightedEntriesNested` | src/components/AppSidebar.tsx:63-66 | of any two highlighted entries, one href is a prefix of the other |
| `Sidebar.EntriesFollowItems` | src/components/AppSidebar.tsx:15-66 | every table item yields exactly one entry, in declaration order, carrying its own href, label, external flag and highlight |
| `Sidebar.ExternalNeverActive` | src/components/AppSidebar.tsx:64-66 | an external item is never highlighted, whatever the pathname |
| `Sidebar.RootActiveIff` | src/components/AppSidebar.tsx:17-66 | the `/` item is highlighted if and only if the pathname is `/` or starts with `//` |
| `Sidebar.RootOnlyAtRoot` | src/components/AppSidebar.tsx:17-66 | on a canonical pathname the `/` item is highlighted only on `/` itself |
| `Sidebar.SegmentBoundary` | src/components/AppSidebar.tsx:66 | a pathname that continues the href with a character other than `/` never highlights the item |
| `Sidebar.SegmentBoundaryExample` | src/components/AppSidebar.tsx:22-66 | `/ventasX` does not highlight `/ventas` |
| `Sidebar.ActiveUnderExtension` | src/components/AppSidebar.tsx:66 | an item highlighted on P is also highlighted on P + `/` + s |
| `Sidebar.ActiveNested` | src/components/AppSidebar.tsx:64-66 | of any two highlighted items, one href is a prefix of the other |
| `Sidebar.NotExclusive` | src/components/AppSidebar.tsx:22-66 | on `/ventas/nueva` both the `/ventas` and `/ventas/nueva` items are highlighted |
| `Sidebar.ActiveOnlyBelowOwnSegments` | src/components/AppSidebar.tsx:64-66 | if an item with a canonical href is highlighted on a canonical pathname, its segments start the pathname's segments |
| `Sidebar.ActiveBelowOwnSegments` | src/components/AppSidebar.tsx:64-66 | an internal non-root item with a canonical href is highlighted on every canonical pathname whose segments its own segments start |
| `Sidebar.ActiveIffSegmentPrefix` | src/components/AppSidebar.tsx:64-66 | on canonical paths, a non-root item is highlighted if and only if it is internal and its segments are a prefix of the pathname's segments |
| `Sidebar.ActiveIffOwnSegmentsPrefix` | src/components/AppSidebar.tsx:64-66 | the same, stated with the segments split from the item's own href |
| `Sidebar.TableShape` | src/components/AppSidebar.tsx:15-55 | fixes the shape of the `Items` table: seven items, the root `/` first, six internal items and an external one last |
| `Sidebar.TableHrefs` | src/components/AppSidebar.tsx:15-55 | fixes the `Items` hrefs: the five internal non-root hrefs of the table are canonical paths of their segments, and the last item is external |
| `Sidebar.TableActivity` | src/components/AppSidebar.tsx:15-66 | for each internal non-root table item, highlighting on a canonical pathname means its segments start the pathname's segments |
| `Navigation.HighlightedIffOnTrail` | src/components/AppSidebar.tsx:64-66 | on a canonical pathname, an internal non-root item with a canonical href is highlighted if and only if some breadcrumb after Dashboard has its href |
| `Navigation.PrefixOnTrail` | src/components/Breadcrumbs.tsx:16-27 | for every non-empty prefix of a canonical pathname's segments, the crumb at the position of its last segment has the href built from that prefix |
| `Navigation.OnTrailPrefix` | src/components/Breadcrumbs.tsx:16-27 | an href built from valid segments that some crumb after Dashboard has is built from a prefix of the pathname's segments |

## Left out

- Rendering: the JSX, `className` strings, icons, the `Link` and `<a>` elements,
  and the `target` and `rel` attributes of external links are not modelled. A
  crumb's `key` is modelled only through `HrefsDistinct`.
- `usePathname()`: the pathname is a parameter of every member that reads the current route.
- BreadcrumbTrail.Label: the source looks up `LABELS[segment]` on a plain
  object, so inherited members such as `constructor` or `toString` would also be
  found. The model looks up only the four own keys.
- JavaScript strings are sequences of UTF-16 code units. The model uses `char`
  sequences. Splitting on `/` is the same either way.
- The sale-entry page `src/nueva/page.tsx` is a single insert through an
  external database client, with browser alerts and `Number(...)`
  floating-point conversions. It is I/O and is not modelled.
- The charts, header, theme toggling, layouts and configuration files have no
  path logic and are not modelled.
- The cart of the sale-entry page `src/app/(app)/ventas/nueva/page.tsx`
  (adding products, clamping quantities to stock, totals and submitting the
  sale) lies outside the two navigation components and is not modelled.
