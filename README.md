# Eventures map display: a Dafny model of its bookkeeping

Eventures shows geocoded events from a remote event directory as markers on
a map. Its `Map_display` controller keeps three pieces of state:

- `results`, the running count of fetched records;
- `currIndex`, the view cursor;
- `activePoints`, the list of displayed locations.

This project models how the controller updates and reads that state, and proves
what those updates promise:

- **Aggregation** (`createGraphics`). Fetched records are counted per exact
  `(lat, lng)` string pair in an ordered `std::map`. The map is walked in
  ascending key order. Each distinct location gets a marker whose `id` is its
  position in the walk, followed by a count badge (a circle and a text graphic,
  with no `id`) when more than one record is there. The location is appended to
  `activePoints`. `results` grows by
  the raw record count. With no records, the method returns before touching the
  point list.
- **View cursor** (`switchViews`). The cursor steps ±1 and wraps round the point
  list.
- **Page check** (`checkPage`). The current page is derived from `results`. The
  result is a neighbouring page index or −1. The one-record probe for the
  following page is issued only when the current page is full.
- **Search** (`searchHandler`). It computes the request offset `page * 20`. It
  zeroes `results` when `page > 0`. It then re-aggregates and focuses the first
  displayed location.
- **Graphic click** (line 230). The clicked graphic's `id` property indexes
  `activePoints`. A badge graphic has no `id`, which reads as 0.

Modules:

- `Coordinates` (coordinates.dfy): a location is its raw string pair,
  `Coord(lat, lng)`. `CoordLess` is the `std::pair<std::string, std::string>`
  order. Characters compare by code point, and for UTF-8 text that is the same
  order as comparing bytes unsigned, which is what `std::string` does.
- `Tallies` (tallies.dfy): the count map is the sequence of its nodes in
  iteration order. `Bump` is `points[k] += 1`. `Tally` is the counting loop
  (one `Bump` per record, in arrival order).
- `Cursor` (cursor.dfy): `Step` is the index arithmetic of `switchViews`.
- `Paging` (paging.dfy): the page arithmetic of `checkPage`, and the reset in
  `searchHandler`.
- `Display` (map_display.dfy): the class `MapDisplay` with the fields
  `results`, `currIndex` and `activePoints`, plus a `GraphicsOverlay` class
  whose `graphics` the aggregation appends markers and badges to.

The network is replaced by parameters:

- What `get_events()` returns arrives as the `records` sequence.
- The probe's answer arrives as `probeCount`.
- The request offset is returned as `offset`.
- The location the view pans to (`transition_coords`) is returned as
  `target` or `focus`.

A new search focuses the first point but does not reset `currIndex`, in the
code and so in the model. The next `switchViews` starts from the old cursor,
and turns any out-of-range cursor into 0 or the last index.

## Model

| member | source | states |
|---|---|---|
| `Coordinates.StrLessIrreflexive` | Eventures/src/Map_display.cpp:79 | no key string precedes itself in `std::string` order |
| `Coordinates.StrLessTransitive` | Eventures/src/Map_display.cpp:79 | `std::string` order is transitive |
| `Coordinates.StrLessTotal` | Eventures/src/Map_display.cpp:79 | any two different strings are ordered one way or the other |
| `Coordinates.CoordLessIrreflexive` | Eventures/src/Map_display.cpp:79 | the pair order on map keys is irreflexive |
| `Coordinates.CoordLessTransitive` | Eventures/src/Map_display.cpp:79 | the pair order on map keys is transitive |
| `Coordinates.CoordLessAsymmetric` | Eventures/src/Map_display.cpp:79 | of two keys at most one precedes the other |
| `Coordinates.CoordLessTotal` | Eventures/src/Map_display.cpp:79 | any two distinct keys are ordered, so the map's walk order is total |
| `Tallies.Bump` | Eventures/src/Map_display.cpp:82 | `points[k] += 1` keeps the map in strictly ascending key order, its key set becomes the old one plus `k`, and counters stay positive |
| `Tallies.LookupBump` | Eventures/src/Map_display.cpp:82 | one increment adds 1 to `k`'s counter (0 if it was absent) and leaves every other counter alone |
| `Tallies.TotalBump` | Eventures/src/Map_display.cpp:82 | one increment raises the sum of all counters by one |
| `Tallies.Tally` | Eventures/src/Map_display.cpp:79-83 | after the counting loop the map is ordered, every counter is at least 1, and the map is empty exactly when no records were fetched (the test at line 85) |
| `Tallies.TallyCounts` | Eventures/src/Map_display.cpp:79-83 | the counter of every location is the number of fetched records with exactly that `(lat, lng)` string pair, and 0 for locations no record has |
| `Tallies.TallySum` | Eventures/src/Map_display.cpp:79-83 | the counters sum to the number of fetched records |
| `Tallies.TallyKeys` | Eventures/src/Map_display.cpp:79-88 | the walk visits a location exactly when some fetched record is at it |
| `Tallies.TallyEntryCounts` | Eventures/src/Map_display.cpp:88-93 | each visited node's `occurrences` is its location's record count, at least 1 |
| `Tallies.OrderedMapUnique` | Eventures/src/Map_display.cpp:79-88 | two ordered maps with positive counters that agree on every counter are identical, nodes and order included |
| `Tallies.TallyOrderIndependent` | Eventures/src/Map_display.cpp:79-88 | records that are a permutation of each other give the same map, so the same walk, ids and point list, whatever the arrival order |
| `Tallies.DuplicatesMerge` | Eventures/src/Map_display.cpp:79-88 | records ("10.0","20.0") twice and ("30.0","40.0") once give nodes counted 2 and 1, in that order |
| `Tallies.SpellingsStayApart` | Eventures/src/Map_display.cpp:79-83 | "10.0" and "10.00" are different keys: the records are counted separately, with "10.0" first |
| `Display.GraphicOrigin` | Eventures/src/Map_display.cpp:105-123 | every graphic built from the map stands at one of its nodes: a marker's id is that node's position in the walk, and badge graphics stand only at nodes counted more than once, the text showing the count |
| `Display.GraphicsCover` | Eventures/src/Map_display.cpp:105-123 | every node gets the marker numbered by its position, and a circle and a text graphic when its count exceeds 1 |
| `Display.BadgeExactlyWhenShared` | Eventures/src/Map_display.cpp:108-123 | a location has a badge exactly when more than one record is at it, in both directions |
| `Display.ClickResolves` | Eventures/src/Map_display.cpp:230 | with the map's keys displayed, a click on a marker pans to the marker's own location. A click on a badge graphic reads id 0 and pans to the first location, which is the badge's own location exactly when the badge belongs to the first node |
| `Display.GraphicsOverlay.AppendLocation` | Eventures/src/Map_display.cpp:103-123 | the overlay gains the numbered marker, then the circle and the text graphic when the count exceeds 1, in that order |
| `Display.MapDisplay.CreateGraphics` | Eventures/src/Map_display.cpp:72-128 | `results` grows by the record count. With records, `activePoints` becomes the map's keys in walk order, and each key's marker, numbered 0..N-1 in that order, is appended followed by its badge graphics. With none, the point list and overlay are left unchanged. The point list stays strictly ascending |
| `Display.MapDisplay.SearchHandler` | Eventures/src/Map_display.cpp:163-185 | the offset is `page * 20`. `results` is zeroed only when `page > 0` and then grows by the record count. The overlay is fresh and holds the markers and badges built from the new records. A click on a marker in it pans to the marker's own location, a click on a badge to `activePoints[0]`. The focus is `activePoints[0]`. The cursor is untouched |
| `Display.MapDisplay.SwitchViews` | Eventures/src/Map_display.cpp:199-212 | the cursor becomes `Cursor.Step` of its old value and lies in `[0, N-1]` whatever it was before. The view pans to `activePoints` at the new cursor |
| `Display.MapDisplay.CheckPage` | Eventures/src/Map_display.cpp:237-256 | the probe is issued exactly when asking for the next page with a full current page. The answer is `Paging.NextPage` or `Paging.PreviousPage` of `results` |
| `Cursor.Step` | Eventures/src/Map_display.cpp:201-206 | for a list of N ≥ 1 points the stepped cursor lies in `[0, N-1]` for every prior value |
| `Cursor.SinglePointStays` | Eventures/src/Map_display.cpp:204-206 | with one point the cursor always lands on 0 |
| `Cursor.StepIsModular` | Eventures/src/Map_display.cpp:202-206 | inside the list, next is the successor mod N and previous the predecessor mod N |
| `Cursor.ForwardWraps` | Eventures/src/Map_display.cpp:202-206 | k ≤ N forward steps from index i land on i+k, less N once i+k reaches N |
| `Cursor.FullCycle` | Eventures/src/Map_display.cpp:202-206 | N forward steps from any index inside the list return to it |
| `Cursor.StepsUndo` | Eventures/src/Map_display.cpp:202-206 | inside the list, next then previous, and previous then next, are the identity |
| `Paging.NextPage` | Eventures/src/Map_display.cpp:238-247 | `checkPage(true)` gives a page other than −1 exactly when `results % 20 == 0` and the probe returned at least one record, and that page is `results / 20`, the one after the current page |
| `Paging.PreviousPage` | Eventures/src/Map_display.cpp:248-255 | `checkPage(false)` gives a page other than −1 exactly when `results >= 40` (current page above 0), and that page is the current page less one |
| `Paging.AsWrittenCountsOnePage` | Eventures/src/Map_display.cpp:165-167 | with the reset as written, after two or more full pages visited forward from page 0, `results` holds a single page's worth |
| `Paging.AsWrittenPagingLosesPlace` | Eventures/src/Map_display.cpp:166-167 | so on page 1 or later, reached forward from page 0, `checkPage(true)` offers page 1 and `checkPage(false)` offers nothing |
| `Paging.AsWrittenNewSearchKeepsCount` | Eventures/src/Map_display.cpp:166-167 | and a fresh page-0 search after a full page adds to the count, so page 0 appears to have a previous page |
| `Paging.CorrectedCountsAllPages` | Eventures/src/Map_display.cpp:165-167 | with a reset on page 0, full pages 0..k-1 visited in that order leave `results == 20 * k` |
| `Paging.CorrectedPagingTracksPage` | Eventures/src/Map_display.cpp:165-167 | with a reset on page 0, after full pages 0..k-1 visited in that order the current page is k-1. Next offers k exactly when the probe finds a record. Previous offers k-2 exactly when k ≥ 2 |
| `Paging.StepBackLosesPlace` | Eventures/src/Map_display.cpp:250-251 | stepping back to the page `checkPage(false)` offers breaks the count under either reset: after full pages 0, 1, 2 and then 1, the current page reads 0 as written and 3 with the page-0 reset, which then offers previous page 2 and next page 4 |
| `Paging.AnchoredTracksAnyOrder` | Eventures/src/Map_display.cpp:165-167 | when each search sets the count to `page * 20` instead, then after any sequence of searches whose last page came back full, the current page is that page, next offers the page after it exactly when the probe finds a record, and previous offers the page before it exactly when there is one |

Functions without a contract of their own model source lines that the rows above
cover:

- `Display.LocationGraphics` is the graphics of one walk step (lines 103-123).
- `Display.Graphics` is the graphics of the whole walk (lines 87-124).
- `Display.IdProperty` is `property("id").toInt()`, which gives 0 for a badge,
  and `Display.ClickTarget` is the `activePoints` lookup (line 230).
- `Paging.CurrentPage` is `results / 20 - 1` (line 238).
- `Paging.ResetOnSearch` is the reset of lines 166-168 as written.
- `Paging.ResetOnNewSearch` and `Paging.ResetToPage` are the two corrections.
- `Paging.Replay` is a sequence of `searchHandler` calls.
- `Tallies.Keys`, `Tallies.Lookup` and `Tallies.Total` read the count map:
  its walk keys, a counter, and the sum of the counters.

## Left out

- Rendering is not modelled: the basemap, symbols, viewpoints and animated
  transitions (lines 48-70, 92-123, 132-159). `setMapView`, which runs the first
  aggregation, is left out with them. So are `setZoom`'s floating-point scale
  arithmetic and the `mapView` accessor.
- The count badge's symbols (colour, size, offset, font) are left out. Its two
  graphics are modelled by their location and, for the text, the count shown.
- `Point(lng, lat)` construction is left out. Locations stay their raw strings,
  which is also how they are counted.
- Display.MapDisplay.CreateGraphics: assumes every `lat` and `lng` string parses
  as a number. In the source, `std::stod` (lines 89-90) throws on a string that
  does not, such as the `""` that `operator[]` reads for a record without the
  field, or on one out of range, such as `"1e999"`. Nothing catches it. The
  throw comes after `activePoints.clear()` (line 86), so the point list is left
  empty or partly rebuilt, `results` has already grown, and the exception
  leaves `searchHandler` before line 182.
- Qt signal wiring, mouse events and the asynchronous identify call are left
  out. Only the index lookup on the clicked marker is modelled.
- `get_events` (HTTP I/O with parameters stored in code that is not part of
  this model) is replaced by the `records` and `probeCount` parameters. The query
  strings it is given are not modelled, including the offset argument of the
  probe at line 242. That probe asks for 1 record at offset `page + 1`. The same
  argument at line 171 is the record offset `page * 20`, so the probe looks
  for record `page + 1`, not for the first record of the next page at
  `(page + 1) * 20` (read from the code, not executed). `searchHandler` fetches
  the page once itself (lines 170-171) and once more through `createGraphics`. The model has one `records` input for both.
- The initial field values live in the class header, which is not part of this
  model. The constructor assumes 0, 0 and an empty list.
- 32-bit `int` overflow of `results`, the counters, the marker index and
  `page * 20` is not modelled. All are unbounded integers. `results` is a `nat`
  because the code only adds record counts to it or zeroes it.
- Display.MapDisplay.SwitchViews: requires at least one displayed point. With
  none, the source reads `activePoints` out of range, which is undefined
  behaviour.
- Display.MapDisplay.SearchHandler: requires that the fetch returned records or
  that points are already displayed. Otherwise the source reads
  `activePoints[0]` of an empty list.
- Display.ClickTarget: answers None for an id outside the point list. The
  source does not check and reads out of range. On graphics of the overlay
  `searchHandler` builds this cannot happen (`Display.ClickResolves`).

## Findings

| source | as written | input that shows it | evidently intended | confidence | as-written member | corrected member |
|---|---|---|---|---|---|---|
| Eventures/src/Map_display.cpp:166 | `searchHandler` zeroes `results` when `page > 0` and keeps adding to it when `page == 0` | pages 0 and 1 each return 20 records: `results` is 20 on page 1, so `checkPage(true)` offers page 1 again and `checkPage(false)` finds no previous page | zero the count on a new search (`page == 0`) and keep adding across its later pages, so that `results / 20 - 1` is the current page while pages are visited forward from page 0. A step back breaks the count under either reset (`Paging.StepBackLosesPlace`) | medium, not executed | `Paging.AsWrittenPagingLosesPlace` | `Paging.CorrectedPagingTracksPage` |

`Display.MapDisplay.SearchHandler` keeps the reset as the code has it
(`Paging.ResetOnSearch`), because the class models the code as written. The
corrected reset is `Paging.ResetOnNewSearch`. `Paging.Replay` runs any reset
over a sequence of `searchHandler` calls, each a `Paging.Visit` of a page and
its record count, and the lemmas above compare the resets. The page-0 reset
keeps the count right only while paging forward. `Paging.ResetToPage`, which
sets the count to `page * 20` on each search, keeps it right for any order of
visits, stepping back included (`Paging.AnchoredTracksAnyOrder`).
