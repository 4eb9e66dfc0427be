/**
 * The page-wide snap behaviour installed by the top-level App component
 * (src/App.tsx): once the sections have mounted, the scroll triggers that pin
 * are collected, ordered by start offset and normalised by the maximum
 * scroll extent into fractions; the installed `snapTo` leaves a resting
 * fraction alone unless it lies in some range's slack-widened window, and
 * then moves it to the nearest range centre.
 *
 * Offsets and fractions are `real`; the divisions are exact.
 */
module Snap {
  import opened Wrappers

  /** A scroll trigger as seen after the settle delay: whether it pins, its
      start offset and its end offset (which may be missing). */
  datatype Trigger = Trigger(pin: bool, start: real, end: Option<real>)

  /** A pinned trigger's range as fractions of the maximum scroll extent. */
  datatype Range = Range(start: real, end: real, center: real)

  /** Slack added to both ends of every range when testing whether to snap. */
  const Slack: real := 0.02

  /** `st.end ?? st.start` */
  function EndOf(t: Trigger): real {
    match t.end
    case Some(e) => e
    case None => t.start
  }

  // ---------------------------------------------------------------------------
  // Collecting the pinned triggers: filter, then sort by start
  // ---------------------------------------------------------------------------

  /** `ScrollTrigger.getAll().filter(st => st.vars.pin)` */
  function Pinned(ts: seq<Trigger>): (ps: seq<Trigger>)
    ensures |ps| <= |ts|
    ensures forall i :: 0 <= i < |ps| ==> ps[i].pin
  {
    if ts == [] then []
    else (if ts[0].pin then [ts[0]] else []) + Pinned(ts[1..])
  }

  /** The filter keeps every pinning trigger as often as it occurs, and nothing else. */
  lemma {:induction false} PinnedCounts(ts: seq<Trigger>, t: Trigger)
    ensures multiset(Pinned(ts))[t] == if t.pin then multiset(ts)[t] else 0
  {
    if ts != [] {
      PinnedCounts(ts[1..], t);
      assert ts == [ts[0]] + ts[1..];
    }
  }

  /** The filter is empty exactly when no trigger pins. */
  lemma {:induction false} PinnedEmpty(ts: seq<Trigger>)
    ensures Pinned(ts) == [] <==> forall i :: 0 <= i < |ts| ==> !ts[i].pin
  {
    if ts != [] {
      PinnedEmpty(ts[1..]);
      if Pinned(ts) == [] {
        forall i | 0 <= i < |ts| ensures !ts[i].pin {
          if i > 0 { assert ts[i] == ts[1..][i - 1]; }
        }
      } else if ts[0].pin {
      } else {
        var j :| 0 <= j < |ts[1..]| && ts[1..][j].pin;
        assert ts[j + 1].pin;
      }
    }
  }

  predicate SortedByStart(ts: seq<Trigger>) {
    forall i, j :: 0 <= i < j < |ts| ==> ts[i].start <= ts[j].start
  }

  /** Inserts `t` before the first element that does not start earlier, so
      that equal starts keep their original order (the sort is stable). */
  function InsertByStart(t: Trigger, s: seq<Trigger>): (r: seq<Trigger>)
    ensures |r| == |s| + 1
  {
    if s == [] || t.start <= s[0].start then [t] + s
    else [s[0]] + InsertByStart(t, s[1..])
  }

  lemma {:induction false} InsertByStartPerm(t: Trigger, s: seq<Trigger>)
    ensures multiset(InsertByStart(t, s)) == multiset(s) + multiset{t}
  {
    if s != [] && t.start > s[0].start {
      InsertByStartPerm(t, s[1..]);
      assert s == [s[0]] + s[1..];
    }
  }

  lemma {:induction false} InsertByStartSorted(t: Trigger, s: seq<Trigger>)
    requires SortedByStart(s)
    ensures SortedByStart(InsertByStart(t, s))
  {
    if s != [] && t.start > s[0].start {
      var rest := InsertByStart(t, s[1..]);
      InsertByStartSorted(t, s[1..]);
      InsertByStartPerm(t, s[1..]);
      forall k | 0 <= k < |rest| ensures s[0].start <= rest[k].start {
        var x := rest[k];
        assert x in multiset(rest);
        if x != t {
          assert x in multiset(s[1..]);
          var m :| 0 <= m < |s[1..]| && s[1..][m] == x;
          assert x == s[m + 1];
        }
      }
    }
  }

  /** `.sort((a, b) => a.start - b.start)` */
  function SortByStart(ts: seq<Trigger>): (r: seq<Trigger>)
    ensures |r| == |ts|
    ensures SortedByStart(r)
    ensures multiset(r) == multiset(ts)
  {
    if ts == [] then []
    else
      var rest := SortByStart(ts[1..]);
      InsertByStartPerm(ts[0], rest);
      InsertByStartSorted(ts[0], rest);
      assert ts == [ts[0]] + ts[1..];
      InsertByStart(ts[0], rest)
  }

  // ---------------------------------------------------------------------------
  // Normalised ranges
  // ---------------------------------------------------------------------------

  /** `{ start: st.start / max, end: (st.end ?? st.start) / max,
        center: (st.start + ((st.end ?? st.start) - st.start) * 0.5) / max }`.
      The centre is the midpoint of the normalised range; for a positive
      extent and a trigger that does not end before it starts it lies between
      start and end; a trigger without an end collapses to a point. */
  function Normalize(t: Trigger, maxScroll: real): (r: Range)
    requires maxScroll != 0.0
    ensures r.center == (r.start + r.end) / 2.0
    ensures maxScroll > 0.0 && t.start <= EndOf(t) ==> r.start <= r.center <= r.end
    ensures t.end.None? ==> r.start == r.center == r.end
  {
    var s, e := t.start, EndOf(t);
    assert (s + (e - s) * 0.5) / maxScroll == (s / maxScroll + e / maxScroll) / 2.0;
    DivMonotone(s, e, maxScroll);
    Range(s / maxScroll, e / maxScroll, (s + (e - s) * 0.5) / maxScroll)
  }

  lemma DivMonotone(a: real, b: real, m: real)
    ensures a <= b && m > 0.0 ==> a / m <= b / m
  {
    if a <= b && m > 0.0 {
      assert b / m - a / m == (b - a) / m;
    }
  }

  predicate RangeOk(r: Range) { r.start <= r.center <= r.end }

  predicate RangesSortedByStart(rs: seq<Range>) {
    forall i, j :: 0 <= i < j < |rs| ==> rs[i].start <= rs[j].start
  }

  /** The snapshot the App component takes after its settle delay: `None`
      when no snap is installed, which happens exactly when the extent is zero
      or no trigger pins; else the pinned triggers' normalised ranges in start
      order. */
  function BuildRanges(triggers: seq<Trigger>, maxScroll: real): (r: Option<seq<Range>>)
    ensures r.None? <==> maxScroll == 0.0 || forall i :: 0 <= i < |triggers| ==> !triggers[i].pin
  {
    PinnedEmpty(triggers);
    var pinned := SortByStart(Pinned(triggers));
    if maxScroll == 0.0 || |pinned| == 0 then None
    else Some(seq(|pinned|, i requires 0 <= i < |pinned| => Normalize(pinned[i], maxScroll)))
  }

  /** An installed snapshot has one range per pinning trigger: the ranges
      are the normalisations of a reordering of the pinning triggers, each
      taken as often as it occurs; so every range is the normalisation of a
      pinning trigger of the input, and every pinning trigger of the input is
      normalised into some range. For a
      positive extent the ranges are in start order, and every range keeps its
      centre between its ends when no pinning trigger ends before it starts. */
  lemma BuildRangesShape(triggers: seq<Trigger>, maxScroll: real)
    requires BuildRanges(triggers, maxScroll).Some?
    ensures var rs := BuildRanges(triggers, maxScroll).value;
      |rs| == |Pinned(triggers)| &&
      (exists p: seq<Trigger> :: multiset(p) == multiset(Pinned(triggers)) && |p| == |rs| &&
         forall i :: 0 <= i < |rs| ==> rs[i] == Normalize(p[i], maxScroll)) &&
      (forall i :: 0 <= i < |rs| ==>
         exists t :: t in triggers && t.pin && rs[i] == Normalize(t, maxScroll)) &&
      (forall t :: t in triggers && t.pin ==> Normalize(t, maxScroll) in rs) &&
      (maxScroll > 0.0 ==> RangesSortedByStart(rs)) &&
      (maxScroll > 0.0 && (forall t :: t in triggers && t.pin ==> t.start <= EndOf(t)) ==>
         forall i :: 0 <= i < |rs| ==> RangeOk(rs[i]))
  {
    BuildRangesSources(triggers, maxScroll);
    BuildRangesCovers(triggers, maxScroll);
    BuildRangesOrdered(triggers, maxScroll);
    assert multiset(SortByStart(Pinned(triggers))) == multiset(Pinned(triggers));
  }

  lemma BuildRangesSources(triggers: seq<Trigger>, maxScroll: real)
    requires BuildRanges(triggers, maxScroll).Some?
    ensures var rs, pinned := BuildRanges(triggers, maxScroll).value, SortByStart(Pinned(triggers));
      |rs| == |Pinned(triggers)| &&
      (forall i :: 0 <= i < |rs| ==>
         pinned[i] in triggers && pinned[i].pin && rs[i] == Normalize(pinned[i], maxScroll)) &&
      (forall i :: 0 <= i < |rs| ==>
         exists t :: t in triggers && t.pin && rs[i] == Normalize(t, maxScroll))
  {
    var pinned := SortByStart(Pinned(triggers));
    forall i | 0 <= i < |pinned| ensures pinned[i] in triggers && pinned[i].pin {
      var t := pinned[i];
      assert t in multiset(pinned);
      PinnedCounts(triggers, t);
    }
  }

  lemma BuildRangesOrdered(triggers: seq<Trigger>, maxScroll: real)
    requires BuildRanges(triggers, maxScroll).Some?
    ensures var rs := BuildRanges(triggers, maxScroll).value;
      (maxScroll > 0.0 ==> RangesSortedByStart(rs)) &&
      (maxScroll > 0.0 && (forall t :: t in triggers && t.pin ==> t.start <= EndOf(t)) ==>
         forall i :: 0 <= i < |rs| ==> RangeOk(rs[i]))
  {
    var pinned := SortByStart(Pinned(triggers));
    var rs := BuildRanges(triggers, maxScroll).value;
    if maxScroll > 0.0 {
      forall i, j | 0 <= i < j < |rs| ensures rs[i].start <= rs[j].start {
        DivMonotone(pinned[i].start, pinned[j].start, maxScroll);
      }
      if forall t :: t in triggers && t.pin ==> t.start <= EndOf(t) {
        BuildRangesSources(triggers, maxScroll);
      }
    }
  }

  lemma BuildRangesCovers(triggers: seq<Trigger>, maxScroll: real)
    requires BuildRanges(triggers, maxScroll).Some?
    ensures var rs := BuildRanges(triggers, maxScroll).value;
      forall t :: t in triggers && t.pin ==> Normalize(t, maxScroll) in rs
  {
    var pinned := SortByStart(Pinned(triggers));
    var rs := BuildRanges(triggers, maxScroll).value;
    forall t | t in triggers && t.pin ensures Normalize(t, maxScroll) in rs {
      PinnedCounts(triggers, t);
      assert t in multiset(triggers);
      assert t in multiset(pinned);
      var i :| 0 <= i < |pinned| && pinned[i] == t;
      assert rs[i] == Normalize(t, maxScroll);
    }
  }

  // ---------------------------------------------------------------------------
  // The snapTo closure
  // ---------------------------------------------------------------------------

  /** `value >= r.start - 0.02 && value <= r.end + 0.02` (both ends included). */
  predicate InWindow(r: Range, v: real) {
    r.start - Slack <= v <= r.end + Slack
  }

  /** `pinnedRanges.some(r => ...)`: holds exactly when some range's window,
      ends included, contains `v`. */
  function InAnyWindow(rs: seq<Range>, v: real): (b: bool)
    ensures b <==> exists i :: 0 <= i < |rs| && InWindow(rs[i], v)
  {
    if rs == [] then false
    else
      WindowsSplit(rs, v);
      InWindow(rs[0], v) || InAnyWindow(rs[1..], v)
  }

  /** Some window of `rs` contains `v` exactly when the first one or some
      window of the rest does. */
  lemma WindowsSplit(rs: seq<Range>, v: real)
    requires rs != []
    ensures (exists i :: 0 <= i < |rs| && InWindow(rs[i], v)) <==>
      InWindow(rs[0], v) || exists i :: 0 <= i < |rs[1..]| && InWindow(rs[1..][i], v)
  {
    if exists i :: 0 <= i < |rs[1..]| && InWindow(rs[1..][i], v) {
      var i :| 0 <= i < |rs[1..]| && InWindow(rs[1..][i], v);
      assert InWindow(rs[i + 1], v);
    }
    if exists i :: 0 <= i < |rs| && InWindow(rs[i], v) {
      var i :| 0 <= i < |rs| && InWindow(rs[i], v);
      if i > 0 { assert InWindow(rs[1..][i - 1], v); }
    }
  }

  /** `Math.abs` */
  function Abs(x: real): real {
    if x < 0.0 then -x else x
  }

  /** `pinnedRanges.reduce((closest, r) => Math.abs(r.center - value) <
        Math.abs(closest - value) ? r.center : closest, closest)`:
      a left fold that only replaces the running centre when a strictly
      closer one appears. It ends on its seed or on one of the centres, and
      never farther from `v` than its seed. */
  function Closest(rs: seq<Range>, closest: real, v: real): (r: real)
    ensures r == closest || exists k :: 0 <= k < |rs| && r == rs[k].center
    ensures Abs(r - v) <= Abs(closest - v)
  {
    if rs == [] then closest
    else
      var next := if Abs(rs[0].center - v) < Abs(closest - v) then rs[0].center else closest;
      var r := Closest(rs[1..], next, v);
      assert r == next || exists k :: 0 <= k < |rs| && r == rs[k].center by {
        if r != next {
          var k :| 0 <= k < |rs[1..]| && r == rs[1..][k].center;
          assert r == rs[k + 1].center;
        }
      }
      r
  }

  /** The installed `snapTo(value)`: the result is `value` itself or the
      centre of one of the ranges. */
  function SnapTo(rs: seq<Range>, v: real): (r: real)
    ensures r == v || exists k :: 0 <= k < |rs| && r == rs[k].center
  {
    if !InAnyWindow(rs, v) then v
    else Closest(rs, if |rs| > 0 then rs[0].center else 0.0, v)
  }

  /** Index `k` holds a centre at least as close to `v` as every other, and
      strictly closer than every centre before it: the earliest nearest range. */
  predicate FirstNearest(rs: seq<Range>, v: real, k: int) {
    0 <= k < |rs| &&
    (forall j :: 0 <= j < |rs| ==> Abs(rs[k].center - v) <= Abs(rs[j].center - v)) &&
    (forall j :: 0 <= j < k ==> Abs(rs[k].center - v) < Abs(rs[j].center - v))
  }

  /** The fold ends no farther from `v` than its seed and than every centre. */
  lemma {:induction false} ClosestNoFarther(rs: seq<Range>, seed: real, v: real)
    ensures Abs(Closest(rs, seed, v) - v) <= Abs(seed - v)
    ensures forall j :: 0 <= j < |rs| ==> Abs(Closest(rs, seed, v) - v) <= Abs(rs[j].center - v)
  {
    if rs != [] {
      var c := rs[0].center;
      var next := if Abs(c - v) < Abs(seed - v) then c else seed;
      ClosestNoFarther(rs[1..], next, v);
      forall j | 0 < j < |rs| ensures Abs(Closest(rs, seed, v) - v) <= Abs(rs[j].center - v) {
        assert rs[j] == rs[1..][j - 1];
      }
    }
  }

  /** `r` is the centre of range `k` and strictly closer to `v` than every
      centre before it. */
  predicate StrictlyFirst(rs: seq<Range>, v: real, k: int, r: real) {
    0 <= k < |rs| && r == rs[k].center &&
    forall j :: 0 <= j < k ==> Abs(r - v) < Abs(rs[j].center - v)
  }

  /** The fold either keeps its seed or ends on a centre strictly closer than
      the seed and than every centre before it. */
  lemma {:induction false} ClosestSource(rs: seq<Range>, seed: real, v: real)
    ensures var r := Closest(rs, seed, v);
      r == seed || exists k :: StrictlyFirst(rs, v, k, r) && Abs(r - v) < Abs(seed - v)
  {
    if rs != [] {
      var c := rs[0].center;
      var r := Closest(rs, seed, v);
      if Abs(c - v) < Abs(seed - v) {
        assert r == Closest(rs[1..], c, v);
        ClosestSource(rs[1..], c, v);
        if r == c {
          assert StrictlyFirst(rs, v, 0, r);
        } else {
          var k :| StrictlyFirst(rs[1..], v, k, r) && Abs(r - v) < Abs(c - v);
          StrictlyFirstShift(rs, v, k, r);
        }
      } else {
        assert r == Closest(rs[1..], seed, v);
        ClosestSource(rs[1..], seed, v);
        if r != seed {
          var k :| StrictlyFirst(rs[1..], v, k, r) && Abs(r - v) < Abs(seed - v);
          StrictlyFirstShift(rs, v, k, r);
        }
      }
    }
  }

  lemma StrictlyFirstShift(rs: seq<Range>, v: real, k: int, r: real)
    requires rs != [] && StrictlyFirst(rs[1..], v, k, r) && Abs(r - v) < Abs(rs[0].center - v)
    ensures StrictlyFirst(rs, v, k + 1, r)
  {
    forall j | 0 <= j < k + 1 ensures Abs(r - v) < Abs(rs[j].center - v) {
      if j > 0 { assert rs[j] == rs[1..][j - 1]; }
    }
  }

  /** There is at most one earliest nearest range. */
  lemma FirstNearestUnique(rs: seq<Range>, v: real, k1: int, k2: int)
    requires FirstNearest(rs, v, k1) && FirstNearest(rs, v, k2)
    ensures k1 == k2
  {
    assert Abs(rs[k1].center - v) <= Abs(rs[k2].center - v);
    assert Abs(rs[k2].center - v) <= Abs(rs[k1].center - v);
  }

  /** Identity: a fraction outside every slack-widened window is left alone. */
  lemma SnapOutside(rs: seq<Range>, v: real)
    requires forall i :: 0 <= i < |rs| ==> !InWindow(rs[i], v)
    ensures SnapTo(rs, v) == v
  {
  }

  /** Choice and tie-break: a fraction inside some window moves to the centre
      of the earliest range among those whose centres are nearest, the
      nearest being taken over all ranges, not only those containing it. */
  lemma SnapInside(rs: seq<Range>, v: real)
    requires exists i :: 0 <= i < |rs| && InWindow(rs[i], v)
    ensures exists k :: FirstNearest(rs, v, k) && SnapTo(rs, v) == rs[k].center
  {
    var r := SnapTo(rs, v);
    ClosestNoFarther(rs, rs[0].center, v);
    ClosestSource(rs, rs[0].center, v);
    if r == rs[0].center {
      assert FirstNearest(rs, v, 0);
    } else {
      var k :| StrictlyFirst(rs, v, k, r) && Abs(r - v) < Abs(rs[0].center - v);
      assert FirstNearest(rs, v, k);
    }
  }

  /** Corollary of the choice law: the snapped fraction is a centre of the
      list and no centre is closer to `v`. */
  lemma SnapNearestCenter(rs: seq<Range>, v: real)
    requires exists i :: 0 <= i < |rs| && InWindow(rs[i], v)
    ensures exists k :: 0 <= k < |rs| && SnapTo(rs, v) == rs[k].center
    ensures forall j :: 0 <= j < |rs| ==> Abs(SnapTo(rs, v) - v) <= Abs(rs[j].center - v)
  {
    SnapInside(rs, v);
  }

  /** Window boundaries are inclusive: resting exactly on a widened boundary
      of a range whose window is not empty snaps to a centre. */
  lemma SnapAtBoundaries(rs: seq<Range>, i: int)
    requires 0 <= i < |rs| && rs[i].start <= rs[i].end + 2.0 * Slack
    ensures exists k :: 0 <= k < |rs| && SnapTo(rs, rs[i].start - Slack) == rs[k].center
    ensures exists k :: 0 <= k < |rs| && SnapTo(rs, rs[i].end + Slack) == rs[k].center
  {
    assert InWindow(rs[i], rs[i].start - Slack);
    assert InWindow(rs[i], rs[i].end + Slack);
    SnapNearestCenter(rs, rs[i].start - Slack);
    SnapNearestCenter(rs, rs[i].end + Slack);
  }

  /** Idempotence: when every centre lies within its range, a snapped
      fraction snaps to itself. */
  lemma SnapIdempotent(rs: seq<Range>, v: real)
    requires forall i :: 0 <= i < |rs| ==> RangeOk(rs[i])
    ensures SnapTo(rs, SnapTo(rs, v)) == SnapTo(rs, v)
  {
    if InAnyWindow(rs, v) {
      SnapNearestCenter(rs, v);
      var c := SnapTo(rs, v);
      var k :| 0 <= k < |rs| && c == rs[k].center;
      assert InWindow(rs[k], c);
      SnapNearestCenter(rs, c);
      assert Abs(SnapTo(rs, c) - c) <= Abs(rs[k].center - c) == 0.0;
    }
  }

  /** The snap the App component installs is idempotent whenever the extent
      is positive and no pinning trigger ends before it starts. */
  lemma InstalledSnapIdempotent(triggers: seq<Trigger>, maxScroll: real, v: real)
    requires maxScroll > 0.0
    requires forall t :: t in triggers && t.pin ==> t.start <= EndOf(t)
    requires BuildRanges(triggers, maxScroll).Some?
    ensures var rs := BuildRanges(triggers, maxScroll).value;
      SnapTo(rs, SnapTo(rs, v)) == SnapTo(rs, v)
  {
    BuildRangesShape(triggers, maxScroll);
    SnapIdempotent(BuildRanges(triggers, maxScroll).value, v);
  }

  // ---------------------------------------------------------------------------
  // Worked cases
  // ---------------------------------------------------------------------------

  /** Two separated ranges: inside the first, in the free zone between them,
      and just inside the second range's slack. */
  lemma SnapTwoRanges()
    ensures var rs := [Range(0.10, 0.30, 0.20), Range(0.40, 0.60, 0.50)];
      SnapTo(rs, 0.21) == 0.20 && SnapTo(rs, 0.35) == 0.35 && SnapTo(rs, 0.39) == 0.50
  {
    var rs := [Range(0.10, 0.30, 0.20), Range(0.40, 0.60, 0.50)];
    assert !InWindow(rs[0], 0.35) && !InWindow(rs[1], 0.35);
    SnapOutside(rs, 0.35);
    assert InWindow(rs[0], 0.21);
    assert InWindow(rs[1], 0.39);
  }

  /** Tie-break: when range `i` has a nearest centre, the snap picks the
      centre of a range no later than `i`, so of two ranges at the same
      nearest distance the later one is never the one chosen. */
  lemma SnapTieGoesToEarlier(rs: seq<Range>, v: real, i: int, j: int)
    requires 0 <= i < j < |rs| && InAnyWindow(rs, v)
    requires forall m :: 0 <= m < |rs| ==> Abs(rs[i].center - v) <= Abs(rs[m].center - v)
    requires Abs(rs[i].center - v) == Abs(rs[j].center - v)
    ensures exists k :: 0 <= k <= i && SnapTo(rs, v) == rs[k].center
  {
    SnapInside(rs, v);
    var k :| FirstNearest(rs, v, k) && SnapTo(rs, v) == rs[k].center;
    assert Abs(rs[i].center - v) <= Abs(rs[k].center - v);
  }

  /** On equal distance the earlier range wins: 0.30 is as far from 0.20 as
      from 0.40. */
  lemma SnapTieExample()
    ensures SnapTo([Range(0.10, 0.30, 0.20), Range(0.30, 0.50, 0.40)], 0.30) == 0.20
  {
  }

  /** The nearest centre can belong to a range whose window does not contain
      the fraction: 0.41 lies only in the first window, yet it snaps to the
      second range's centre. */
  lemma SnapMayLeaveContainingRange()
    ensures var rs := [Range(0.0, 0.40, 0.20), Range(0.45, 0.45, 0.45)];
      InWindow(rs[0], 0.41) && !InWindow(rs[1], 0.41) && SnapTo(rs, 0.41) == 0.45
  {
  }
}
