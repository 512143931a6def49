/** The "coverage" pass of the intersection engine: a sweep over the start and end points
    of one day's intervals that reports the blocks during which at least one user is
    available, with the number of users available. */
module Coverage {
  import opened Intervals
  import StableSort

  datatype Mark = Start | End

  /** A timeline entry `(time, type, user_id)`; type 1 is `Start`, type -1 is `End`. */
  datatype Point = Point(t: Minute, mark: Mark, uid: int)

  /** Which of a start and an end at the same time the sorted timeline takes first. The
      key `(time, -type)` as written takes the start first; the comment beside it, and
      users whose intervals meet end to start, call for the end first. */
  datatype TieBreak = StartsFirst | EndsFirst

  /** The second component of the sort key: `-type` for `StartsFirst`, `type` for
      `EndsFirst`. */
  function Rank(m: Mark, tie: TieBreak): int {
    if (m == Start) == (tie == StartsFirst) then -1 else 1
  }

  /** The timeline order: by time, and at equal times by rank. */
  predicate KeyLe(tie: TieBreak, p: Point, q: Point) {
    p.t < q.t || (p.t == q.t && Rank(p.mark, tie) <= Rank(q.mark, tie))
  }

  function Order(tie: TieBreak): (Point, Point) -> bool {
    (p: Point, q: Point) => KeyLe(tie, p, q)
  }

  /** A timeline in sweep order. */
  predicate Sorted(pts: seq<Point>, tie: TieBreak) {
    forall i, j :: 0 <= i < j < |pts| ==> KeyLe(tie, pts[i], pts[j])
  }

  /** Points in order of time, which is all the sweep itself relies on. */
  predicate Chronological(pts: seq<Point>) {
    forall i, j :: 0 <= i < j < |pts| ==> pts[i].t <= pts[j].t
  }

  lemma KeyLeIsTotalPreorder(tie: TieBreak)
    ensures StableSort.IsTotalPreorder(Order(tie))
  {
  }

  /** An interval the pass leaves out: one whose end precedes its start (an overnight
      span). Taking ends first, a zero-length interval is left out as well, since its end
      would come before its start and leave the user active. */
  predicate Skipped(s: Slot, tie: TieBreak): (r: bool)
    ensures !r ==> s.start <= s.end
    ensures tie == EndsFirst && !r ==> s.start < s.end
    ensures tie == StartsFirst ==> (r <==> s.end < s.start)
  {
    s.end < s.start || (tie == EndsFirst && s.end == s.start)
  }

  /** The two timeline points of an interval the pass keeps. */
  function PointsOf(s: Slot, tie: TieBreak): seq<Point> {
    if Skipped(s, tie) then [] else [Point(s.start, Start, s.uid), Point(s.end, End, s.uid)]
  }

  /** The timeline before sorting, built interval by interval. */
  function Timeline(slots: seq<Slot>, tie: TieBreak): seq<Point>
    decreases |slots|
  {
    if slots == [] then [] else Timeline(slots[..|slots| - 1], tie) + PointsOf(slots[|slots| - 1], tie)
  }

  /** The timeline after `timeline.sort(key=...)`. */
  function SortedTimeline(slots: seq<Slot>, tie: TieBreak): (pts: seq<Point>)
    ensures Sorted(pts, tie)
    ensures multiset(pts) == multiset(Timeline(slots, tie))
  {
    KeyLeIsTotalPreorder(tie);
    StableSort.Sort(Timeline(slots, tie), Order(tie))
  }

  /** One update of the active-user set. */
  function Step(active: set<int>, p: Point): set<int> {
    if p.mark == Start then active + {p.uid} else active - {p.uid}
  }

  /** The active-user set after processing the points `pts` in order. */
  function Active(pts: seq<Point>): set<int>
    decreases |pts|
  {
    if pts == [] then {} else Step(Active(pts[..|pts| - 1]), pts[|pts| - 1])
  }

  /** `current_time` when point `i` is reached: the first point's time, or the latest time
      seen so far, which in a sorted timeline is that of point `i - 1`. */
  function CurrentTime(pts: seq<Point>, i: nat): Minute
    requires 0 < |pts| && i <= |pts|
  {
    if i == 0 then pts[0].t else pts[i - 1].t
  }

  /** What reaching point `i` emits: the block from `current_time` to the point's time, when
      time moves forward, someone is active and the block is long enough. */
  function Emitted(pts: seq<Point>, i: nat, required: int): seq<Block>
    requires i < |pts|
  {
    var cur := CurrentTime(pts, i);
    var active := Active(pts[..i]);
    if pts[i].t > cur && |active| > 0 && pts[i].t - cur >= required
    then [Block(cur, pts[i].t, |active|)]
    else []
  }

  /** The blocks emitted while processing the first `n` points. */
  function Segments(pts: seq<Point>, n: nat, required: int): seq<Block>
    requires n <= |pts|
    decreases n
  {
    if n == 0 then [] else Segments(pts, n - 1, required) + Emitted(pts, n - 1, required)
  }

  /** The result of `_find_intersections_for_day(user_slots, required_duration_min)`,
      with the tie-break as written (`StartsFirst`) or as intended (`EndsFirst`). */
  function CoverageOf(slots: seq<Slot>, required: int, tie: TieBreak): seq<Block> {
    var pts := SortedTimeline(slots, tie);
    if pts == [] then [] else Segments(pts, |pts|, required)
  }

  /** `_find_intersections_for_day`: builds the timeline, sorts it and sweeps it. */
  method FindIntersectionsForDay(userSlots: seq<Slot>, requiredDurationMin: int, tie: TieBreak)
    returns (intersections: seq<Block>)
    ensures intersections == CoverageOf(userSlots, requiredDurationMin, tie)
  {
    var timeline := BuildTimeline(userSlots, tie);
    if timeline == [] {
      return [];
    }
    KeyLeIsTotalPreorder(tie);
    var pts := StableSort.Sort(timeline, Order(tie));
    intersections := Sweep(pts, requiredDurationMin);
  }

  /** The loop that expands each interval into its two timeline points. */
  method BuildTimeline(userSlots: seq<Slot>, tie: TieBreak) returns (timeline: seq<Point>)
    ensures timeline == Timeline(userSlots, tie)
  {
    timeline := [];
    var n := 0;
    while n < |userSlots|
      invariant 0 <= n <= |userSlots|
      invariant timeline == Timeline(userSlots[..n], tie)
    {
      var s := userSlots[n];
      assert userSlots[..n + 1][..n] == userSlots[..n];
      if !Skipped(s, tie) {
        timeline := timeline + [Point(s.start, Start, s.uid), Point(s.end, End, s.uid)];
      }
      n := n + 1;
    }
    assert userSlots[..n] == userSlots;
  }

  /** The sweep over a sorted, non-empty timeline, updating `active_users`,
      `intersections` and `current_time` point by point. */
  method Sweep(pts: seq<Point>, requiredDurationMin: int) returns (intersections: seq<Block>)
    requires 0 < |pts| && Chronological(pts)
    ensures intersections == Segments(pts, |pts|, requiredDurationMin)
  {
    var active: set<int> := {};
    var currentTime := pts[0].t;
    intersections := [];
    for i := 0 to |pts|
      invariant active == Active(pts[..i])
      invariant currentTime == CurrentTime(pts, i)
      invariant intersections == Segments(pts, i, requiredDurationMin)
    {
      active, currentTime, intersections := SweepPoint(pts, i, requiredDurationMin, active, currentTime, intersections);
    }
  }

  /** The body of the sweep loop for point `i`. */
  method SweepPoint(pts: seq<Point>, i: nat, requiredDurationMin: int,
                    active: set<int>, currentTime: Minute, intersections: seq<Block>)
    returns (active': set<int>, currentTime': Minute, intersections': seq<Block>)
    requires i < |pts| && Chronological(pts)
    requires active == Active(pts[..i]) && currentTime == CurrentTime(pts, i)
    ensures active' == Active(pts[..i + 1]) && currentTime' == CurrentTime(pts, i + 1)
    ensures intersections' == intersections + Emitted(pts, i, requiredDurationMin)
  {
    var p := pts[i];
    SweepStep(pts, i, requiredDurationMin);
    intersections', currentTime' := intersections, currentTime;
    if p.t > currentTime {
      if |active| > 0 {
        var duration := p.t - currentTime;
        if duration >= requiredDurationMin {
          intersections' := intersections + [Block(currentTime, p.t, |active|)];
        }
      }
      currentTime' := p.t;
    }
    if p.mark == Start {
      active' := active + {p.uid};
    } else {
      active' := active - {p.uid};
    }
  }

  /** What processing point `i` does to the sweep's state. */
  lemma SweepStep(pts: seq<Point>, i: nat, required: int)
    requires i < |pts| && Chronological(pts)
    ensures Active(pts[..i + 1]) == Step(Active(pts[..i]), pts[i])
    ensures CurrentTime(pts, i) <= pts[i].t == CurrentTime(pts, i + 1)
    ensures Segments(pts, i + 1, required) == Segments(pts, i, required) + Emitted(pts, i, required)
  {
    assert pts[..i + 1][..i] == pts[..i];
  }

  // ---------------------------------------------------------------------------
  // Where each block comes from

  /** Block `b` is the one emitted on reaching point `k`: it runs from the previous point's
      time to point `k`'s, and carries the size of the active set at that moment. */
  predicate EmittedAt(pts: seq<Point>, k: int, required: int, b: Block) {
    && 1 <= k < |pts|
    && pts[k - 1].t < pts[k].t
    && |Active(pts[..k])| > 0
    && pts[k].t - pts[k - 1].t >= required
    && b == Block(pts[k - 1].t, pts[k].t, |Active(pts[..k])|)
  }

  lemma {:induction false} SegmentsOrigin(pts: seq<Point>, n: nat, required: int)
    requires n <= |pts|
    ensures forall b :: b in Segments(pts, n, required) ==>
      exists k :: 0 <= k < n && EmittedAt(pts, k, required, b)
  {
    if n > 0 {
      SegmentsOrigin(pts, n - 1, required);
      var e := Emitted(pts, n - 1, required);
      assert Segments(pts, n, required) == Segments(pts, n - 1, required) + e;
      if e != [] {
        assert EmittedAt(pts, n - 1, required, e[0]);
      }
    }
  }

  /** In time order, consecutive blocks emitted from a sorted timeline do not overlap. */
  predicate Ordered(r: seq<Block>) {
    forall x, y :: 0 <= x < y < |r| ==> r[x].end <= r[y].start
  }

  lemma {:induction false} SegmentsOrdered(pts: seq<Point>, n: nat, required: int)
    requires n <= |pts| && Chronological(pts)
    ensures Ordered(Segments(pts, n, required))
  {
    if n > 0 {
      SegmentsOrdered(pts, n - 1, required);
      SegmentsOrigin(pts, n - 1, required);
      var old_ := Segments(pts, n - 1, required);
      var r := Segments(pts, n, required);
      var e := Emitted(pts, n - 1, required);
      assert r == old_ + e;
      if e != [] {
        assert e[0].start == pts[n - 2].t;
        forall x | 0 <= x < |old_|
          ensures old_[x].end <= e[0].start
        {
          assert old_[x] in old_;
          var k :| 0 <= k < n - 1 && EmittedAt(pts, k, required, old_[x]);
          assert pts[k].t <= pts[n - 2].t;
        }
        assert |r| == |old_| + 1;
        forall x, y | 0 <= x < y < |r|
          ensures r[x].end <= r[y].start
        {
          if y < |old_| {
            assert r[x] == old_[x] && r[y] == old_[y];
          } else {
            assert r[x] == old_[x] && r[y] == e[0];
          }
        }
      }
    }
  }

  // ---------------------------------------------------------------------------
  // The timeline and the input intervals

  lemma {:induction false} TimelineMember(slots: seq<Slot>, tie: TieBreak, p: Point)
    ensures p in Timeline(slots, tie) <==>
      exists q :: 0 <= q < |slots| && p in PointsOf(slots[q], tie)
    decreases |slots|
  {
    if slots != [] {
      var init := slots[..|slots| - 1];
      TimelineMember(init, tie, p);
      if p in Timeline(init, tie) {
        var q :| 0 <= q < |init| && p in PointsOf(init[q], tie);
        assert slots[q] == init[q];
      }
      if q :| 0 <= q < |slots| && p in PointsOf(slots[q], tie) {
        if q < |init| {
          assert init[q] == slots[q];
        }
      }
    }
  }

  lemma SortedTimelineMember(slots: seq<Slot>, tie: TieBreak, p: Point)
    ensures p in SortedTimeline(slots, tie) <==>
      exists q :: 0 <= q < |slots| && p in PointsOf(slots[q], tie)
  {
    var pts := SortedTimeline(slots, tie);
    assert p in pts <==> p in multiset(pts);
    assert p in Timeline(slots, tie) <==> p in multiset(Timeline(slots, tie));
    TimelineMember(slots, tie, p);
  }

  /** Every user in `Active(s)` has a start in `s` that no later end of theirs follows. */
  predicate StartedAndNotEnded(s: seq<Point>, j: int, u: int) {
    && 0 <= j < |s|
    && s[j].uid == u && s[j].mark == Start
    && forall l :: j < l < |s| ==> !(s[l].uid == u && s[l].mark == End)
  }

  lemma {:induction false} ActiveHasOpenStart(s: seq<Point>, u: int)
    requires u in Active(s)
    ensures exists j :: StartedAndNotEnded(s, j, u)
    decreases |s|
  {
    var init := s[..|s| - 1];
    var last := s[|s| - 1];
    if last.uid == u && last.mark == Start {
      assert StartedAndNotEnded(s, |s| - 1, u);
    } else {
      assert u in Active(init);
      ActiveHasOpenStart(init, u);
      var j :| StartedAndNotEnded(init, j, u);
      assert StartedAndNotEnded(s, j, u);
    }
  }

  lemma {:induction false} ActiveUids(s: seq<Point>)
    ensures forall u :: u in Active(s) ==> exists j :: 0 <= j < |s| && s[j].uid == u
    decreases |s|
  {
    if s != [] {
      ActiveUids(s[..|s| - 1]);
      forall u | u in Active(s)
        ensures exists j :: 0 <= j < |s| && s[j].uid == u
      {
        if u != s[|s| - 1].uid {
          var init := s[..|s| - 1];
          assert u in Active(init);
          var j :| 0 <= j < |init| && init[j].uid == u;
          assert s[j].uid == u;
        }
      }
    }
  }

  /** Each user active during an emitted block has an interval that contains the block:
      their last start came no later than the block's start, and the end of that same
      interval lies at or after the block's end. */
  lemma ActiveUsersSupport(slots: seq<Slot>, tie: TieBreak, k: nat)
    requires 1 <= k < |SortedTimeline(slots, tie)|
    ensures var pts := SortedTimeline(slots, tie);
      Active(pts[..k]) <= Supporters(slots, pts[k - 1].t, pts[k].t)
  {
    var pts := SortedTimeline(slots, tie);
    forall u | u in Active(pts[..k])
      ensures u in Supporters(slots, pts[k - 1].t, pts[k].t)
    {
      var q := ActiveUserSupports(slots, tie, pts, k, u);
    }
  }

  lemma ActiveUserSupports(slots: seq<Slot>, tie: TieBreak, pts: seq<Point>, k: nat, u: int) returns (q: nat)
    requires pts == SortedTimeline(slots, tie)
    requires 1 <= k < |pts|
    requires u in Active(pts[..k])
    ensures q < |slots| && slots[q].uid == u
    ensures slots[q].start <= pts[k - 1].t && pts[k].t <= slots[q].end
    ensures u in Supporters(slots, pts[k - 1].t, pts[k].t)
  {
    var j;
    q, j := OpenStartSlot(slots, tie, pts, k, u);
    var l := EndAfter(slots, tie, pts, k, q, j);
    assert j == k - 1 || KeyLe(tie, pts[j], pts[k - 1]);
    assert l == k || KeyLe(tie, pts[k], pts[l]);
  }

  /** An active user's open start belongs to one of their kept intervals. */
  lemma OpenStartSlot(slots: seq<Slot>, tie: TieBreak, pts: seq<Point>, k: nat, u: int) returns (q: nat, j: nat)
    requires pts == SortedTimeline(slots, tie)
    requires 1 <= k < |pts|
    requires u in Active(pts[..k])
    ensures q < |slots| && slots[q].uid == u && !Skipped(slots[q], tie)
    ensures j < k && pts[j] == Point(slots[q].start, Start, u)
    ensures StartedAndNotEnded(pts[..k], j, u)
  {
    ActiveHasOpenStart(pts[..k], u);
    j :| StartedAndNotEnded(pts[..k], j, u);
    assert pts[j] == pts[..k][j];
    SortedTimelineMember(slots, tie, pts[j]);
    q :| 0 <= q < |slots| && pts[j] in PointsOf(slots[q], tie);
  }

  /** The end of an interval whose start is still open comes at or after point `k`. */
  lemma EndAfter(slots: seq<Slot>, tie: TieBreak, pts: seq<Point>, k: nat, q: nat, j: nat) returns (l: nat)
    requires pts == SortedTimeline(slots, tie)
    requires 1 <= k < |pts| && q < |slots| && !Skipped(slots[q], tie)
    requires j < k && pts[j] == Point(slots[q].start, Start, slots[q].uid)
    requires StartedAndNotEnded(pts[..k], j, slots[q].uid)
    ensures k <= l < |pts| && pts[l] == Point(slots[q].end, End, slots[q].uid)
  {
    var sl := slots[q];
    var e := Point(sl.end, End, sl.uid);
    assert e in PointsOf(sl, tie);
    SortedTimelineMember(slots, tie, e);
    l :| 0 <= l < |pts| && pts[l] == e;
    LaterEnd(pts, tie, k, j, l, sl.uid);
  }

  lemma LaterEnd(pts: seq<Point>, tie: TieBreak, k: nat, j: nat, l: nat, u: int)
    requires Sorted(pts, tie) && k <= |pts| && l < |pts|
    requires StartedAndNotEnded(pts[..k], j, u)
    requires pts[l].uid == u && pts[l].mark == End && !KeyLe(tie, pts[l], pts[j])
    ensures l >= k
  {
    assert forall i :: 0 <= i < k ==> pts[..k][i] == pts[i];
  }

  // ---------------------------------------------------------------------------
  // Properties of the coverage pass

  /** Every emitted block is non-empty, lasts at least the required number of whole
      minutes and has at least one user available; so no zero-length block is emitted
      at a shared boundary. */
  lemma CoverageWellFormed(slots: seq<Slot>, required: int, tie: TieBreak)
    ensures forall b :: b in CoverageOf(slots, required, tie) ==>
      b.start < b.end && b.end - b.start >= required && b.count >= 1
  {
    var pts := SortedTimeline(slots, tie);
    if pts != [] {
      SegmentsOrigin(pts, |pts|, required);
    }
  }

  /** Blocks come out in time order and never overlap; so their starts strictly increase. */
  lemma CoverageOrdered(slots: seq<Slot>, required: int, tie: TieBreak)
    ensures Ordered(CoverageOf(slots, required, tie))
    ensures var r := CoverageOf(slots, required, tie);
      forall x, y :: 0 <= x < y < |r| ==> r[x].start < r[y].start
  {
    var pts := SortedTimeline(slots, tie);
    if pts != [] {
      SegmentsOrdered(pts, |pts|, required);
      CoverageWellFormed(slots, required, tie);
      var r := CoverageOf(slots, required, tie);
      forall x, y | 0 <= x < y < |r| ensures r[x].start < r[y].start {
        assert r[x] in r;
      }
    }
  }

  /** `t` is the start or the end of an interval the pass does not skip. */
  predicate IsEndpoint(slots: seq<Slot>, tie: TieBreak, t: int) {
    exists q :: 0 <= q < |slots| && !Skipped(slots[q], tie) && (slots[q].start == t || slots[q].end == t)
  }

  /** Each block begins and ends at an endpoint of an input interval. */
  lemma CoverageEndpoints(slots: seq<Slot>, required: int, tie: TieBreak)
    ensures forall b :: b in CoverageOf(slots, required, tie) ==>
      IsEndpoint(slots, tie, b.start) && IsEndpoint(slots, tie, b.end)
  {
    var pts := SortedTimeline(slots, tie);
    if pts != [] {
      SegmentsOrigin(pts, |pts|, required);
      forall b | b in CoverageOf(slots, required, tie)
        ensures IsEndpoint(slots, tie, b.start) && IsEndpoint(slots, tie, b.end)
      {
        var k :| 0 <= k < |pts| && EmittedAt(pts, k, required, b);
        PointTimeIsEndpoint(slots, tie, pts[k - 1]);
        PointTimeIsEndpoint(slots, tie, pts[k]);
      }
    }
  }

  lemma PointTimeIsEndpoint(slots: seq<Slot>, tie: TieBreak, p: Point)
    requires p in SortedTimeline(slots, tie)
    ensures IsEndpoint(slots, tie, p.t)
    ensures p.uid in UidSet(slots)
  {
    SortedTimelineMember(slots, tie, p);
    var q :| 0 <= q < |slots| && p in PointsOf(slots[q], tie);
    assert !Skipped(slots[q], tie) && (slots[q].start == p.t || slots[q].end == p.t);
  }

  lemma SubsetCard(a: set<int>, b: set<int>)
    requires a <= b
    ensures |a| <= |b|
  {
    assert b == a + (b - a);
    assert a * (b - a) == {};
  }

  /** A block's count never exceeds the number of distinct users in the input. */
  lemma CoverageCountBound(slots: seq<Slot>, required: int, tie: TieBreak)
    ensures forall b :: b in CoverageOf(slots, required, tie) ==> b.count <= |UidSet(slots)|
  {
    var pts := SortedTimeline(slots, tie);
    if pts != [] {
      SegmentsOrigin(pts, |pts|, required);
      forall b | b in CoverageOf(slots, required, tie)
        ensures b.count <= |UidSet(slots)|
      {
        var k :| 0 <= k < |pts| && EmittedAt(pts, k, required, b);
        ActiveWithinUids(slots, tie, pts, k);
        SubsetCard(Active(pts[..k]), UidSet(slots));
      }
    }
  }

  lemma ActiveWithinUids(slots: seq<Slot>, tie: TieBreak, pts: seq<Point>, k: nat)
    requires pts == SortedTimeline(slots, tie) && k <= |pts|
    ensures Active(pts[..k]) <= UidSet(slots)
  {
    ActiveUids(pts[..k]);
    forall u | u in Active(pts[..k]) ensures u in UidSet(slots) {
      var j :| 0 <= j < k && pts[..k][j].uid == u;
      assert pts[j] == pts[..k][j];
      PointTimeIsEndpoint(slots, tie, pts[j]);
    }
  }

  /** A block's count is never more than the number of users one of whose intervals
      contains the block. */
  lemma CoverageSupported(slots: seq<Slot>, required: int, tie: TieBreak)
    ensures forall b :: b in CoverageOf(slots, required, tie) ==>
      b.count <= |Supporters(slots, b.start, b.end)|
  {
    var pts := SortedTimeline(slots, tie);
    if pts != [] {
      SegmentsOrigin(pts, |pts|, required);
      forall b | b in CoverageOf(slots, required, tie)
        ensures b.count <= |Supporters(slots, b.start, b.end)|
      {
        var k :| 0 <= k < |pts| && EmittedAt(pts, k, required, b);
        ActiveUsersSupport(slots, tie, k);
        SubsetCard(Active(pts[..k]), Supporters(slots, pts[k - 1].t, pts[k].t));
      }
    }
  }

  /** With no interval left after skipping the overnight ones (in particular with no
      input at all) the pass emits nothing. */
  lemma CoverageEmpty(slots: seq<Slot>, required: int, tie: TieBreak)
    requires forall q :: 0 <= q < |slots| ==> Skipped(slots[q], tie)
    ensures CoverageOf(slots, required, tie) == []
  {
    var pts := SortedTimeline(slots, tie);
    if pts != [] {
      SortedTimelineMember(slots, tie, pts[0]);
    }
  }

  // ---------------------------------------------------------------------------
  // Counting every available user: what taking ends first gives

  /** Each user's intervals may meet, end to start, but do not overlap. */
  predicate NoOverlapPerUser(slots: seq<Slot>) {
    forall q, r :: 0 <= q < |slots| && 0 <= r < |slots| && q != r && slots[q].uid == slots[r].uid
      && slots[q].start < slots[q].end && slots[r].start < slots[r].end
      ==> slots[q].end <= slots[r].start || slots[r].end <= slots[q].start
  }

  /** A user whose start has no later end of theirs is active. */
  lemma {:induction false} OpenStartActive(s: seq<Point>, j: int, u: int)
    requires StartedAndNotEnded(s, j, u)
    ensures u in Active(s)
    decreases |s|
  {
    if j < |s| - 1 {
      var init := s[..|s| - 1];
      assert StartedAndNotEnded(init, j, u);
      OpenStartActive(init, j, u);
    }
  }

  /** In a sorted timeline a point at an earlier time comes earlier. */
  lemma EarlierFirst(pts: seq<Point>, tie: TieBreak, x: nat, y: nat)
    requires Sorted(pts, tie) && x < |pts| && y < |pts| && pts[x].t < pts[y].t
    ensures x < y
  {
  }

  /** An end of user `u` lies outside each other interval `u` has. */
  lemma EndOutside(slots: seq<Slot>, q: nat, p: Point)
    requires NoOverlapPerUser(slots)
    requires q < |slots| && slots[q].start < slots[q].end
    requires p in SortedTimeline(slots, EndsFirst)
    ensures p.mark == End && p.uid == slots[q].uid ==> p.t <= slots[q].start || slots[q].end <= p.t
  {
    SortedTimelineMember(slots, EndsFirst, p);
    var r :| 0 <= r < |slots| && p in PointsOf(slots[r], EndsFirst);
  }

  /** Taking ends first, when user `u` has an interval that contains the block that
      reaching point `k` emits, `u` is active at that moment. */
  lemma SupporterActive(slots: seq<Slot>, pts: seq<Point>, k: nat, u: int)
    requires NoOverlapPerUser(slots) && pts == SortedTimeline(slots, EndsFirst)
    requires 1 <= k < |pts| && pts[k - 1].t < pts[k].t
    requires u in Supporters(slots, pts[k - 1].t, pts[k].t)
    ensures u in Active(pts[..k])
  {
    var q :| 0 <= q < |slots| && slots[q].start <= pts[k - 1].t && pts[k].t <= slots[q].end && slots[q].uid == u;
    var sl := slots[q];
    var st := Point(sl.start, Start, u);
    assert st in PointsOf(sl, EndsFirst);
    SortedTimelineMember(slots, EndsFirst, st);
    var j :| 0 <= j < |pts| && pts[j] == st;
    EarlierFirst(pts, EndsFirst, j, k);
    NoEndBetween(slots, pts, k, q, j);
    OpenStartActive(pts[..k], j, u);
  }

  /** Between the start of a kept interval `q` and a block inside it, `q`'s user has no
      end. */
  lemma NoEndBetween(slots: seq<Slot>, pts: seq<Point>, k: nat, q: nat, j: nat)
    requires NoOverlapPerUser(slots) && pts == SortedTimeline(slots, EndsFirst)
    requires 1 <= k < |pts| && q < |slots|
    requires slots[q].start <= pts[k - 1].t < pts[k].t <= slots[q].end
    requires j < k && pts[j] == Point(slots[q].start, Start, slots[q].uid)
    ensures StartedAndNotEnded(pts[..k], j, slots[q].uid)
  {
    var u := slots[q].uid;
    forall l | j < l < k
      ensures !(pts[..k][l].uid == u && pts[..k][l].mark == End)
    {
      EndOutside(slots, q, pts[l]);
      assert KeyLe(EndsFirst, pts[j], pts[l]);
      assert l == k - 1 || KeyLe(EndsFirst, pts[l], pts[k - 1]);
      assert pts[..k][l] == pts[l];
    }
    assert pts[..k][j] == pts[j];
  }

  /** Taking ends first, and with no user's intervals overlapping, every block counts
      exactly the users one of whose intervals contains it. */
  lemma CoverageExact(slots: seq<Slot>, required: int)
    requires NoOverlapPerUser(slots)
    ensures forall b :: b in CoverageOf(slots, required, EndsFirst) ==>
      b.count == |Supporters(slots, b.start, b.end)|
  {
    forall b | b in CoverageOf(slots, required, EndsFirst)
      ensures b.count == |Supporters(slots, b.start, b.end)|
    {
      BlockExact(slots, required, b);
    }
  }

  lemma BlockExact(slots: seq<Slot>, required: int, b: Block)
    requires NoOverlapPerUser(slots)
    requires b in CoverageOf(slots, required, EndsFirst)
    ensures b.count == |Supporters(slots, b.start, b.end)|
  {
    var pts := SortedTimeline(slots, EndsFirst);
    SegmentsOrigin(pts, |pts|, required);
    var k :| 0 <= k < |pts| && EmittedAt(pts, k, required, b);
    ActiveUsersSupport(slots, EndsFirst, k);
    forall u | u in Supporters(slots, b.start, b.end)
      ensures u in Active(pts[..k])
    {
      SupporterActive(slots, pts, k, u);
    }
    assert Active(pts[..k]) == Supporters(slots, b.start, b.end);
  }


  /** The blocks emitted at each point up to `n` are among the first `n` points' blocks. */
  lemma {:induction false} SegmentsHoldEmitted(pts: seq<Point>, n: nat, required: int, k: nat)
    requires k < n <= |pts|
    ensures forall b :: b in Emitted(pts, k, required) ==> b in Segments(pts, n, required)
    decreases n
  {
    assert Segments(pts, n, required) == Segments(pts, n - 1, required) + Emitted(pts, n - 1, required);
    if k < n - 1 {
      SegmentsHoldEmitted(pts, n - 1, required, k);
    }
  }

  /** Taking ends first, and with no user's intervals overlapping, every stretch between
      two consecutive timeline times that is long enough and during which some user is
      free is reported, with the number of users free for all of it. */
  lemma CoverageComplete(slots: seq<Slot>, required: int, k: nat)
    requires NoOverlapPerUser(slots)
    requires var pts := SortedTimeline(slots, EndsFirst);
      1 <= k < |pts| && pts[k - 1].t < pts[k].t && pts[k].t - pts[k - 1].t >= required
    requires var pts := SortedTimeline(slots, EndsFirst);
      Supporters(slots, pts[k - 1].t, pts[k].t) != {}
    ensures var pts := SortedTimeline(slots, EndsFirst);
      Block(pts[k - 1].t, pts[k].t, |Supporters(slots, pts[k - 1].t, pts[k].t)|) in CoverageOf(slots, required, EndsFirst)
  {
    var pts := SortedTimeline(slots, EndsFirst);
    var sup := Supporters(slots, pts[k - 1].t, pts[k].t);
    ActiveUsersSupport(slots, EndsFirst, k);
    forall u | u in sup
      ensures u in Active(pts[..k])
    {
      SupporterActive(slots, pts, k, u);
    }
    assert Active(pts[..k]) == sup;
    assert Emitted(pts, k, required) == [Block(pts[k - 1].t, pts[k].t, |sup|)];
    SegmentsHoldEmitted(pts, |pts|, required, k);
  }
}
