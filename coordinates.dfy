/**
 * Event locations as the map display keys them: the raw latitude and
 * longitude strings of an event record, ordered the way `std::map` orders a
 * `std::pair<std::string, std::string>` key.
 */
module Coordinates {

  /** An event's location exactly as the event source spells it. */
  datatype Coord = Coord(lat: string, lng: string)

  /**
   * `std::string` less-than: lexicographic on characters, a proper prefix
   * before any longer string. Characters compare by code point, which for
   * UTF-8 text is the same order as comparing the bytes unsigned.
   */
  predicate StrLess(a: string, b: string)
    decreases |a|
  {
    if |a| == 0 then |b| > 0
    else if |b| == 0 then false
    else if a[0] != b[0] then a[0] < b[0]
    else StrLess(a[1..], b[1..])
  }

  /** `std::pair` less-than: by latitude string, ties broken by longitude string. */
  predicate CoordLess(p: Coord, q: Coord) {
    StrLess(p.lat, q.lat) || (p.lat == q.lat && StrLess(p.lng, q.lng))
  }

  /** A sequence of locations in strictly ascending key order (so without repeats). */
  ghost predicate StrictlyAscending(s: seq<Coord>) {
    forall i, j :: 0 <= i < j < |s| ==> CoordLess(s[i], s[j])
  }

  lemma {:induction false} StrLessIrreflexive(a: string)
    ensures !StrLess(a, a)
  {
    if |a| > 0 {
      StrLessIrreflexive(a[1..]);
    }
  }

  lemma {:induction false} StrLessTransitive(a: string, b: string, c: string)
    requires StrLess(a, b) && StrLess(b, c)
    ensures StrLess(a, c)
  {
    if |a| > 0 && a[0] == b[0] && b[0] == c[0] {
      StrLessTransitive(a[1..], b[1..], c[1..]);
    }
  }

  lemma {:induction false} StrLessTotal(a: string, b: string)
    ensures a == b || StrLess(a, b) || StrLess(b, a)
  {
    if |a| > 0 && |b| > 0 && a[0] == b[0] {
      StrLessTotal(a[1..], b[1..]);
      if a[1..] == b[1..] {
        assert a == [a[0]] + a[1..] && b == [b[0]] + b[1..];
      }
    }
  }

  /** No location precedes itself: the key order never splits one key in two. */
  lemma CoordLessIrreflexive(p: Coord)
    ensures !CoordLess(p, p)
  {
    StrLessIrreflexive(p.lat);
    StrLessIrreflexive(p.lng);
  }

  lemma CoordLessTransitive(p: Coord, q: Coord, r: Coord)
    requires CoordLess(p, q) && CoordLess(q, r)
    ensures CoordLess(p, r)
  {
    if StrLess(p.lat, q.lat) && StrLess(q.lat, r.lat) {
      StrLessTransitive(p.lat, q.lat, r.lat);
    } else if p.lat == q.lat && q.lat == r.lat {
      StrLessTransitive(p.lng, q.lng, r.lng);
    }
  }

  /** Of two locations, at most one precedes the other. */
  lemma CoordLessAsymmetric(p: Coord, q: Coord)
    requires CoordLess(p, q)
    ensures !CoordLess(q, p)
  {
    if CoordLess(q, p) {
      CoordLessTransitive(p, q, p);
      CoordLessIrreflexive(p);
    }
  }

  /** Any two distinct locations are ordered one way or the other. */
  lemma CoordLessTotal(p: Coord, q: Coord)
    ensures p == q || CoordLess(p, q) || CoordLess(q, p)
  {
    StrLessTotal(p.lat, q.lat);
    StrLessTotal(p.lng, q.lng);
  }
}
