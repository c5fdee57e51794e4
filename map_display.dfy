/**
 * The bookkeeping of the `Map_display` controller: the running result count
 * `results`, the view cursor `currIndex` and the list of displayed points
 * `activePoints`, as `createGraphics`, `searchHandler`, `switchViews`,
 * `checkPage` and the marker-click handler update and read them.
 */
module Display {
  import opened Coordinates
  import opened Tallies
  import Cursor
  import Paging

  datatype Option<T> = None | Some(value: T)

  /**
   * A graphic `createGraphics` appends to the overlay: the picture marker of
   * a location, which carries the "id" property, or one of the two graphics
   * of the count badge drawn above a location with more than one event (a
   * white circle and the count as text), which carry no properties.
   */
  datatype Graphic =
    | PointGraphic(id: int, at: Coord)
    | CircleGraphic(at: Coord)
    | TextGraphic(at: Coord, text: nat)

  /** The graphics for node `n` of the walk: its marker, then its badge when more than one event is there. */
  function LocationGraphics(n: int, e: Entry): seq<Graphic> {
    [PointGraphic(n, e.key)] + if e.count > 1 then [CircleGraphic(e.key), TextGraphic(e.key, e.count)] else []
  }

  /** The graphics for a whole walk over a count map, node by node, markers numbered from 0. */
  function Graphics(t: seq<Entry>): seq<Graphic>
    decreases |t|
  {
    if |t| == 0 then [] else Graphics(t[..|t| - 1]) + LocationGraphics(|t| - 1, t[|t| - 1])
  }

  /**
   * `property("id").toInt()` on a clicked graphic: its id, or 0 for a badge
   * graphic, whose missing property reads as an invalid `QVariant`.
   */
  function IdProperty(g: Graphic): int {
    if g.PointGraphic? then g.id else 0
  }

  /**
   * The location a click on graphic `g` pans to, with `points` the displayed
   * locations: `points` at the graphic's id property. None stands for an id
   * outside the list, which the click handler does not guard against.
   */
  function ClickTarget(points: seq<Coord>, g: Graphic): Option<Coord> {
    var id := IdProperty(g);
    if 0 <= id < |points| then Some(points[id]) else None
  }

  /**
   * Every graphic built from a count map stands at one of its nodes: a
   * marker's id is that node's position, and badge graphics stand only at
   * nodes counted more than once, the text showing the count.
   */
  lemma {:induction false} GraphicOrigin(t: seq<Entry>, g: Graphic) returns (i: nat)
    requires g in Graphics(t)
    ensures i < |t| && g.at == t[i].key
    ensures g.PointGraphic? ==> g.id == i
    ensures !g.PointGraphic? ==> t[i].count > 1
    ensures g.TextGraphic? ==> g.text == t[i].count
    decreases |t|
  {
    var n := |t| - 1;
    if g in LocationGraphics(n, t[n]) {
      i := n;
    } else {
      i := GraphicOrigin(t[..n], g);
      assert t[..n][i] == t[i];
    }
  }

  /** Every node gets its numbered marker, and a badge when it is counted more than once. */
  lemma {:induction false} GraphicsCover(t: seq<Entry>, i: nat)
    requires i < |t|
    ensures PointGraphic(i, t[i].key) in Graphics(t)
    ensures t[i].count > 1 ==> CircleGraphic(t[i].key) in Graphics(t) && TextGraphic(t[i].key, t[i].count) in Graphics(t)
    decreases |t|
  {
    var n := |t| - 1;
    if i < n {
      GraphicsCover(t[..n], i);
      assert t[..n][i] == t[i];
    }
  }

  /** In an ordered count map, a location has a badge exactly when more than one record is at it. */
  lemma BadgeExactlyWhenShared(t: seq<Entry>, i: nat)
    requires Ordered(t) && i < |t|
    ensures CircleGraphic(t[i].key) in Graphics(t) <==> t[i].count > 1
    ensures TextGraphic(t[i].key, t[i].count) in Graphics(t) <==> t[i].count > 1
  {
    GraphicsCover(t, i);
    if CircleGraphic(t[i].key) in Graphics(t) {
      var j := GraphicOrigin(t, CircleGraphic(t[i].key));
      KeysDistinct(t, i, j);
    }
    if TextGraphic(t[i].key, t[i].count) in Graphics(t) {
      var j := GraphicOrigin(t, TextGraphic(t[i].key, t[i].count));
      KeysDistinct(t, i, j);
    }
  }

  lemma KeysDistinct(t: seq<Entry>, i: nat, j: nat)
    requires Ordered(t) && i < |t| && j < |t| && t[i].key == t[j].key
    ensures i == j
  {
    CoordLessIrreflexive(t[i].key);
    assert Keys(t)[i] == t[i].key && Keys(t)[j] == t[j].key;
  }

  /**
   * A click on a graphic built from a count map, with the map's keys
   * displayed, pans to the marker's own location; a click on a badge
   * graphic pans to the first location, which is the badge's own location
   * only when the badge belongs to the first node.
   */
  lemma ClickResolves(t: seq<Entry>, g: Graphic)
    requires g in Graphics(t)
    ensures g.PointGraphic? ==> ClickTarget(Keys(t), g) == Some(g.at)
    ensures !g.PointGraphic? ==> ClickTarget(Keys(t), g) == Some(t[0].key)
    ensures !g.PointGraphic? && Ordered(t) ==> (ClickTarget(Keys(t), g) == Some(g.at) <==> g.at == t[0].key)
  {
    var i := GraphicOrigin(t, g);
  }

  /** One more record through the counting loop is one more `Bump`. */
  lemma TallyExtend(records: seq<Coord>, n: nat)
    requires n < |records|
    ensures Tally(records[..n + 1]) == Bump(Tally(records[..n]), records[n])
  {
    assert records[..n + 1][..n] == records[..n];
  }

  /** One more node through the walk appends one key and that node's graphics. */
  lemma WalkExtend(t: seq<Entry>, n: nat)
    requires n < |t|
    ensures Keys(t[..n + 1]) == Keys(t[..n]) + [t[n].key]
    ensures Graphics(t[..n + 1]) == Graphics(t[..n]) + LocationGraphics(n, t[n])
  {
    assert t[..n + 1][..n] == t[..n];
  }

  lemma AppendAssoc<T>(a: seq<T>, b: seq<T>, c: seq<T>)
    ensures (a + b) + c == a + (b + c)
  {
  }

  /** The graphics layer markers and badges are appended to. */
  class GraphicsOverlay {
    var graphics: seq<Graphic>

    constructor ()
      ensures graphics == []
    {
      graphics := [];
    }

    /** Appends the marker numbered `index` for `location`, then its count badge when it has more than one event. */
    method AppendLocation(index: int, location: Entry)
      modifies this`graphics
      ensures graphics == old(graphics) + LocationGraphics(index, location)
    {
      graphics := graphics + [PointGraphic(index, location.key)];
      if location.count > 1 {
        graphics := graphics + [CircleGraphic(location.key)];
        graphics := graphics + [TextGraphic(location.key, location.count)];
      }
    }
  }

  class MapDisplay {
    /** Records fetched since the count was last zeroed. */
    var results: nat
    /** Index into `activePoints` of the marker last switched to. */
    var currIndex: int
    /** The displayed locations, in the order their markers were numbered. */
    var activePoints: seq<Coord>

    /** The displayed locations are distinct and in ascending key order. */
    ghost predicate Valid()
      reads this
    {
      StrictlyAscending(activePoints)
    }

    constructor ()
      ensures Valid()
      ensures results == 0 && currIndex == 0 && activePoints == []
    {
      results := 0;
      currIndex := 0;
      activePoints := [];
    }

    /**
     * Fetched `records` (the result of `get_events()`) are counted per exact
     * location; when there were any, `activePoints` is rebuilt as the
     * distinct locations in ascending order, and one marker per location,
     * numbered by that order, with a badge after it when more than one record
     * is there, goes into `overlay`. With no records, both are
     * left as they were. `results` grows by the number of records either way.
     */
    method CreateGraphics(overlay: GraphicsOverlay, records: seq<Coord>)
      requires Valid()
      modifies this`results, this`activePoints, overlay`graphics
      ensures Valid()
      ensures results == old(results) + |records|
      ensures |records| == 0 ==> activePoints == old(activePoints) && overlay.graphics == old(overlay.graphics)
      ensures |records| > 0 ==> activePoints == Keys(Tally(records))
      ensures |records| > 0 ==> overlay.graphics == old(overlay.graphics) + Graphics(Tally(records))
    {
      results := results + |records|;

      var points: seq<Entry> := [];
      var itr := 0;
      while itr < |records|
        invariant 0 <= itr <= |records|
        invariant points == Tally(records[..itr])
        invariant results == old(results) + |records|
        invariant unchanged(overlay) && activePoints == old(activePoints)
      {
        TallyExtend(records, itr);
        points := Bump(points, records[itr]);
        itr := itr + 1;
      }
      assert records[..|records|] == records;

      if |points| == 0 {
        return;
      }
      activePoints := [];
      var index := 0;
      var i := 0;
      while i < |points|
        invariant 0 <= i <= |points| && index == i
        invariant results == old(results) + |records|
        invariant activePoints == Keys(points[..i])
        invariant overlay.graphics == old(overlay.graphics) + Graphics(points[..i])
      {
        var location := points[i];
        WalkExtend(points, i);
        AppendAssoc(old(overlay.graphics), Graphics(points[..i]), LocationGraphics(i, location));
        overlay.AppendLocation(index, location);
        index := index + 1;
        activePoints := activePoints + [location.key];
        i := i + 1;
      }
      assert points[..i] == points;
    }

    /**
     * A search for `page` asks the event source for 20 records at offset
     * `page * 20`, zeroes `results` when `page > 0`, replaces the displayed
     * graphics by a fresh overlay built from the fetched `records`, and
     * focuses the first displayed location. The view cursor is not reset.
     * A click on a marker of the new overlay pans to its own location, a click
     * on a badge to the first displayed location.
     */
    method SearchHandler(page: int, records: seq<Coord>) returns (offset: int, overlay: GraphicsOverlay, focus: Coord)
      requires Valid()
      requires |records| > 0 || |activePoints| > 0
      modifies this`results, this`activePoints
      ensures Valid() && fresh(overlay)
      ensures offset == page * Paging.PageSize
      ensures results == Paging.ResetOnSearch(old(results), page) + |records|
      ensures |records| == 0 ==> activePoints == old(activePoints) && overlay.graphics == []
      ensures |records| > 0 ==> activePoints == Keys(Tally(records)) && overlay.graphics == Graphics(Tally(records))
      ensures forall g :: g in overlay.graphics ==>
        ClickTarget(activePoints, g) == Some(if g.PointGraphic? then g.at else activePoints[0])
      ensures focus == activePoints[0]
    {
      offset := page * Paging.PageSize;
      if page > 0 {
        results := 0;
      }
      overlay := new GraphicsOverlay();
      CreateGraphics(overlay, records);
      forall g | g in overlay.graphics
        ensures ClickTarget(activePoints, g) == Some(if g.PointGraphic? then g.at else activePoints[0])
      {
        ClickResolves(Tally(records), g);
      }
      focus := activePoints[0];
    }

    /**
     * Switching to the next (or previous) marker moves the cursor one place
     * round the list of displayed locations and pans to the location it
     * lands on.
     */
    method SwitchViews(next: bool) returns (target: Coord)
      requires |activePoints| >= 1
      modifies this`currIndex
      ensures currIndex == Cursor.Step(old(currIndex), next, |activePoints|)
      ensures 0 <= currIndex < |activePoints| && target == activePoints[currIndex]
    {
      var index := currIndex;
      index := index + if next then 1 else -1;
      var len := |activePoints| - 1;
      index := if index > len then 0 else if index < 0 then len else index;
      target := activePoints[index];
      currIndex := index;
    }

    /**
     * Whether the neighbouring page exists: `target` is its index or -1.
     * `probeCount` is the number of records the one-record probe for the
     * following page returns; `probed` says whether that probe is issued at
     * all, which happens only for `next` with a full current page.
     */
    method CheckPage(next: bool, probeCount: nat) returns (target: int, probed: bool)
      ensures probed <==> next && results % Paging.PageSize == 0
      ensures target == if next then Paging.NextPage(results, probeCount) else Paging.PreviousPage(results)
    {
      var page := results / Paging.PageSize - 1;
      probed := false;
      if next {
        if results % Paging.PageSize == 0 {
          probed := true;
          if probeCount >= 1 {
            return page + 1, true;
          }
        }
      } else if page > 0 {
        return page - 1, false;
      }
      target := -1;
    }
  }
}
