/**
 * The ordered count map of `Map_display::createGraphics`: a
 * `std::map<std::pair<std::string, std::string>, int>` from each location to
 * the number of fetched records at it, walked in ascending key order.
 *
 * The map is represented by the sequence of its nodes in iteration order
 * (ascending keys), which is all that the display code observes of it.
 */
module Tallies {
  import opened Coordinates

  /** One node of the count map: a location and its counter. */
  datatype Entry = Entry(key: Coord, count: nat)

  /** The keys of the map in iteration order. */
  function Keys(t: seq<Entry>): (ks: seq<Coord>)
    ensures |ks| == |t|
    ensures forall i :: 0 <= i < |t| ==> ks[i] == t[i].key
  {
    seq(|t|, i requires 0 <= i < |t| => t[i].key)
  }

  /** The set of keys the map holds. */
  ghost function KeySet(t: seq<Entry>): set<Coord> {
    set c | c in Keys(t)
  }

  /** The map invariant of `std::map`: nodes in strictly ascending key order. */
  ghost predicate Ordered(t: seq<Entry>) {
    StrictlyAscending(Keys(t))
  }

  /** Every counter that exists has been incremented at least once. */
  ghost predicate Positive(t: seq<Entry>) {
    forall i :: 0 <= i < |t| ==> t[i].count >= 1
  }

  /** The counter for `k`, or 0 when the map has no node for `k`. */
  function Lookup(t: seq<Entry>, k: Coord): nat {
    if |t| == 0 then 0
    else if t[0].key == k then t[0].count
    else Lookup(t[1..], k)
  }

  /** The sum of all counters. */
  function Total(t: seq<Entry>): nat {
    if |t| == 0 then 0 else t[0].count + Total(t[1..])
  }

  /**
   * `points[k] += 1`: `operator[]` finds the node for `k`, or inserts one
   * holding 0 at `k`'s place in key order, and the counter is incremented.
   */
  function Bump(t: seq<Entry>, k: Coord): (r: seq<Entry>)
    requires Ordered(t)
    ensures Ordered(r)
    ensures KeySet(r) == KeySet(t) + {k}
    ensures Positive(t) ==> Positive(r)
    decreases |t|
  {
    if |t| == 0 then
      KeySetCons([Entry(k, 1)]);
      [Entry(k, 1)]
    else if t[0].key == k then
      KeySetCons(t);
      KeySetCons([Entry(k, t[0].count + 1)] + t[1..]);
      assert Keys([Entry(k, t[0].count + 1)] + t[1..]) == Keys(t);
      [Entry(k, t[0].count + 1)] + t[1..]
    else if CoordLess(k, t[0].key) then
      BelowHeadBelowAll(t, k);
      PrependOrdered(Entry(k, 1), t);
      KeySetCons([Entry(k, 1)] + t);
      [Entry(k, 1)] + t
    else
      CoordLessTotal(k, t[0].key);
      TailOrdered(t);
      var rest := Bump(t[1..], k);
      PositiveCons(t[0], t[1..]);
      PositiveCons(t[0], rest);
      assert t == [t[0]] + t[1..];
      KeySetCons(t);
      TailAboveHead(t);
      PrependOrdered(t[0], rest);
      KeySetCons([t[0]] + rest);
      [t[0]] + rest
  }

  /**
   * The count map after the loop of lines 80-83 has run over `records`:
   * one `Bump` per record, in arrival order.
   */
  function Tally(records: seq<Coord>): (t: seq<Entry>)
    ensures Ordered(t) && Positive(t)
    ensures |t| == 0 <==> |records| == 0
    decreases |records|
  {
    if |records| == 0 then []
    else
      var t := Bump(Tally(records[..|records| - 1]), records[|records| - 1]);
      assert records[|records| - 1] in KeySet(t);
      t
  }

  // ---------------------------------------------------------------------
  // Helper facts about the node sequence.

  lemma KeySetCons(t: seq<Entry>)
    requires |t| > 0
    ensures KeySet(t) == {t[0].key} + KeySet(t[1..])
  {
    forall c | c in KeySet(t) ensures c in {t[0].key} + KeySet(t[1..]) {
      var i :| 0 <= i < |t| && t[i].key == c;
      if i > 0 {
        assert t[1..][i - 1].key == c;
      }
    }
    forall c | c in KeySet(t[1..]) ensures c in KeySet(t) {
      var i :| 0 <= i < |t| - 1 && t[1..][i].key == c;
      assert t[i + 1].key == c;
    }
  }

  lemma PositiveCons(e: Entry, t: seq<Entry>)
    ensures Positive([e] + t) <==> e.count >= 1 && Positive(t)
  {
    assert ([e] + t)[0] == e;
    assert forall i :: 0 <= i < |t| ==> ([e] + t)[i + 1] == t[i];
  }

  lemma TailOrdered(t: seq<Entry>)
    requires Ordered(t) && |t| > 0
    ensures Ordered(t[1..])
  {
    forall i, j | 0 <= i < j < |t| - 1 ensures CoordLess(Keys(t[1..])[i], Keys(t[1..])[j]) {
      assert Keys(t[1..])[i] == Keys(t)[i + 1] && Keys(t[1..])[j] == Keys(t)[j + 1];
    }
  }

  lemma PrependOrdered(e: Entry, t: seq<Entry>)
    requires Ordered(t)
    requires forall c :: c in KeySet(t) ==> CoordLess(e.key, c)
    ensures Ordered([e] + t)
  {
    var s := [e] + t;
    forall i, j | 0 <= i < j < |s| ensures CoordLess(s[i].key, s[j].key) {
      if i == 0 {
        assert s[j].key == t[j - 1].key;
        assert t[j - 1].key in KeySet(t);
      } else {
        assert s[i] == t[i - 1] && s[j] == t[j - 1];
      }
    }
  }

  /** In an ordered map, the first key precedes every other key it holds. */
  lemma HeadIsLeast(t: seq<Entry>, c: Coord)
    requires Ordered(t) && |t| > 0 && c in KeySet(t)
    ensures c == t[0].key || CoordLess(t[0].key, c)
  {
    var i :| 0 <= i < |t| && t[i].key == c;
  }

  lemma TailAboveHead(t: seq<Entry>)
    requires Ordered(t) && |t| > 0
    ensures forall c :: c in KeySet(t[1..]) ==> CoordLess(t[0].key, c)
  {
    forall c | c in KeySet(t[1..]) ensures CoordLess(t[0].key, c) {
      var i :| 0 <= i < |t| - 1 && t[1..][i].key == c;
      assert t[i + 1].key == c;
    }
  }

  lemma BelowHeadBelowAll(t: seq<Entry>, k: Coord)
    requires Ordered(t) && |t| > 0 && CoordLess(k, t[0].key)
    ensures forall c :: c in KeySet(t) ==> CoordLess(k, c)
  {
    forall c | c in KeySet(t) ensures CoordLess(k, c) {
      HeadIsLeast(t, c);
      if c != t[0].key {
        CoordLessTransitive(k, t[0].key, c);
      }
    }
  }

  lemma {:induction false} LookupAbsent(t: seq<Entry>, k: Coord)
    requires k !in KeySet(t)
    ensures Lookup(t, k) == 0
    decreases |t|
  {
    if |t| > 0 {
      KeySetCons(t);
      LookupAbsent(t[1..], k);
    }
  }

  lemma {:induction false} LookupPresent(t: seq<Entry>, k: Coord)
    requires Positive(t) && k in KeySet(t)
    ensures Lookup(t, k) >= 1
    decreases |t|
  {
    KeySetCons(t);
    if t[0].key != k {
      LookupPresent(t[1..], k);
    }
  }

  /**
   * In an ordered map, reading the counter of a node's own key gives that
   * node's counter (no other node shadows it).
   */
  lemma {:induction false} LookupAt(t: seq<Entry>, i: nat)
    requires Ordered(t) && i < |t|
    ensures Lookup(t, t[i].key) == t[i].count
    decreases i
  {
    if i > 0 {
      CoordLessIrreflexive(t[i].key);
      assert t[1..][i - 1] == t[i];
      LookupAt(t[1..], i - 1);
    }
  }

  lemma HeadNotInTail(t: seq<Entry>)
    requires Ordered(t) && |t| > 0
    ensures Lookup(t[1..], t[0].key) == 0
  {
    TailAboveHead(t);
    CoordLessIrreflexive(t[0].key);
    LookupAbsent(t[1..], t[0].key);
  }

  lemma KeysOfPositive(t: seq<Entry>, c: Coord)
    requires Positive(t)
    ensures c in KeySet(t) <==> Lookup(t, c) >= 1
  {
    if c in KeySet(t) {
      LookupPresent(t, c);
    } else {
      LookupAbsent(t, c);
    }
  }

  // ---------------------------------------------------------------------
  // One increment.

  /** `points[k] += 1` adds one to `k`'s counter and changes no other counter. */
  lemma {:induction false} LookupBump(t: seq<Entry>, k: Coord, c: Coord)
    requires Ordered(t)
    ensures Lookup(Bump(t, k), c) == Lookup(t, c) + (if c == k then 1 else 0)
    decreases |t|
  {
    if |t| == 0 {
    } else if t[0].key == k {
      assert ([Entry(k, t[0].count + 1)] + t[1..])[1..] == t[1..];
    } else if CoordLess(k, t[0].key) {
      assert ([Entry(k, 1)] + t)[1..] == t;
      if c == k {
        BelowHeadBelowAll(t, k);
        CoordLessIrreflexive(k);
        LookupAbsent(t, k);
      }
    } else {
      var rest := Bump(t[1..], k);
      assert ([t[0]] + rest)[1..] == rest;
      LookupBump(t[1..], k, c);
    }
  }

  /** One increment raises the sum of the counters by one. */
  lemma {:induction false} TotalBump(t: seq<Entry>, k: Coord)
    requires Ordered(t)
    ensures Total(Bump(t, k)) == Total(t) + 1
    decreases |t|
  {
    if |t| == 0 {
    } else if t[0].key == k {
      assert ([Entry(k, t[0].count + 1)] + t[1..])[1..] == t[1..];
    } else if CoordLess(k, t[0].key) {
      assert ([Entry(k, 1)] + t)[1..] == t;
    } else {
      var rest := Bump(t[1..], k);
      assert ([t[0]] + rest)[1..] == rest;
      TotalBump(t[1..], k);
    }
  }

  // ---------------------------------------------------------------------
  // What the counting loop leaves behind.

  lemma LastSplit(records: seq<Coord>)
    requires |records| > 0
    ensures multiset(records)
         == multiset(records[..|records| - 1]) + multiset{records[|records| - 1]}
  {
    assert records == records[..|records| - 1] + [records[|records| - 1]];
  }

  /**
   * Each location's counter is the number of fetched records carrying
   * exactly that (lat, lng) string pair; every other location reads 0.
   */
  lemma {:induction false} TallyCounts(records: seq<Coord>, c: Coord)
    ensures Lookup(Tally(records), c) == multiset(records)[c]
    decreases |records|
  {
    if |records| > 0 {
      var init := records[..|records| - 1];
      TallyCounts(init, c);
      LookupBump(Tally(init), records[|records| - 1], c);
      LastSplit(records);
    }
  }

  /** The counters sum to the number of fetched records. */
  lemma {:induction false} TallySum(records: seq<Coord>)
    ensures Total(Tally(records)) == |records|
    decreases |records|
  {
    if |records| > 0 {
      var init := records[..|records| - 1];
      TallySum(init);
      TotalBump(Tally(init), records[|records| - 1]);
    }
  }

  /** The map holds a node for a location exactly when some record is at it. */
  lemma TallyKeys(records: seq<Coord>, c: Coord)
    ensures c in Keys(Tally(records)) <==> c in records
  {
    TallyCounts(records, c);
    KeysOfPositive(Tally(records), c);
  }

  /** Every node carries the number of records at its own location. */
  lemma TallyEntryCounts(records: seq<Coord>, i: nat)
    requires i < |Tally(records)|
    ensures Tally(records)[i].count == multiset(records)[Tally(records)[i].key]
    ensures Tally(records)[i].count >= 1
  {
    LookupAt(Tally(records), i);
    TallyCounts(records, Tally(records)[i].key);
  }

  /** Two ordered maps with positive counters that agree on every counter are the same map. */
  lemma {:induction false} OrderedMapUnique(t1: seq<Entry>, t2: seq<Entry>)
    requires Ordered(t1) && Positive(t1) && Ordered(t2) && Positive(t2)
    requires forall c :: Lookup(t1, c) == Lookup(t2, c)
    ensures t1 == t2
    decreases |t1|
  {
    forall c ensures c in KeySet(t1) <==> c in KeySet(t2) {
      KeysOfPositive(t1, c);
      KeysOfPositive(t2, c);
    }
    assert |t1| > 0 ==> t1[0].key in KeySet(t1);
    assert |t2| > 0 ==> t2[0].key in KeySet(t2);
    if |t1| > 0 && |t2| > 0 {
      var h1, h2 := t1[0].key, t2[0].key;
      HeadIsLeast(t1, h2);
      HeadIsLeast(t2, h1);
      if h1 != h2 {
        CoordLessTransitive(h1, h2, h1);
        CoordLessIrreflexive(h1);
      }
      assert t1[0].count == Lookup(t1, h1) == Lookup(t2, h1) == t2[0].count;
      HeadNotInTail(t1);
      HeadNotInTail(t2);
      forall c ensures Lookup(t1[1..], c) == Lookup(t2[1..], c) {
        assert c != h1 ==> Lookup(t1, c) == Lookup(t1[1..], c);
      }
      assert Ordered(t1[1..]) && Positive(t1[1..]) by {
        forall i, j | 0 <= i < j < |t1| - 1 ensures CoordLess(t1[1..][i].key, t1[1..][j].key) {
          assert t1[1..][i] == t1[i + 1] && t1[1..][j] == t1[j + 1];
        }
      }
      assert Ordered(t2[1..]) && Positive(t2[1..]) by {
        forall i, j | 0 <= i < j < |t2| - 1 ensures CoordLess(t2[1..][i].key, t2[1..][j].key) {
          assert t2[1..][i] == t2[i + 1] && t2[1..][j] == t2[j + 1];
        }
      }
      OrderedMapUnique(t1[1..], t2[1..]);
      assert t1 == [t1[0]] + t1[1..] && t2 == [t2[0]] + t2[1..];
    }
  }

  /**
   * The count map, and so the walk over it, depends only on which records
   * arrived and how often, never on the order they arrived in.
   */
  lemma TallyOrderIndependent(r1: seq<Coord>, r2: seq<Coord>)
    requires multiset(r1) == multiset(r2)
    ensures Tally(r1) == Tally(r2)
  {
    forall c ensures Lookup(Tally(r1), c) == Lookup(Tally(r2), c) {
      TallyCounts(r1, c);
      TallyCounts(r2, c);
    }
    OrderedMapUnique(Tally(r1), Tally(r2));
  }

  // ---------------------------------------------------------------------
  // Worked inputs.

  /** Two records at one location and one at another give two nodes, counted 2 and 1, in latitude order. */
  lemma DuplicatesMerge()
    ensures Tally([Coord("10.0", "20.0"), Coord("10.0", "20.0"), Coord("30.0", "40.0")])
         == [Entry(Coord("10.0", "20.0"), 2), Entry(Coord("30.0", "40.0"), 1)]
  {
    var a, b := Coord("10.0", "20.0"), Coord("30.0", "40.0");
    assert [a, a, b][..2] == [a, a] && [a, a][..1] == [a] && [a][..0] == [];
    assert Tally([a]) == [Entry(a, 1)];
    assert Tally([a, a]) == Bump([Entry(a, 1)], a) == [Entry(a, 2)];
    assert a != b && !CoordLess(b, a);
    assert Bump([Entry(a, 2)], b) == [Entry(a, 2)] + Bump([], b);
  }

  /** Locations that differ only in how they are written are counted apart. */
  lemma SpellingsStayApart()
    ensures Tally([Coord("10.0", "20.0"), Coord("10.00", "20.0")])
         == [Entry(Coord("10.0", "20.0"), 1), Entry(Coord("10.00", "20.0"), 1)]
  {
    var a, b := Coord("10.0", "20.0"), Coord("10.00", "20.0");
    assert [a, b][..1] == [a] && [a][..0] == [];
    assert Tally([a]) == [Entry(a, 1)];
    assert a.lat != b.lat;
    assert StrLess("10.0", "10.00");
    CoordLessAsymmetric(a, b);
    assert Bump([Entry(a, 1)], b) == [Entry(a, 1)] + Bump([], b);
  }
}
