/** The "common to all" pass: each user's list of ranges, folded with a two-pointer merge. */
module FullIntersection {
  import opened Intervals
  import Outcomes

  /** Minute `m` lies in the half-open range `[r.start, r.end)`. */
  predicate InRange(r: Range, m: int) {
    r.start <= m < r.end
  }

  /** Minute `m` lies in some range of the list. */
  predicate Covers(rs: seq<Range>, m: int) {
    exists k :: 0 <= k < |rs| && InRange(rs[k], m)
  }

  /** The list is sorted and its ranges do not overlap: each ends before the next starts. */
  predicate Disjoint(rs: seq<Range>) {
    forall k, l :: 0 <= k < l < |rs| ==> rs[k].end <= rs[l].start
  }

  predicate Within(p: Range, q: Range) {
    q.start <= p.start && p.end <= q.end
  }

  predicate WithinSome(p: Range, rs: seq<Range>) {
    exists k :: 0 <= k < |rs| && Within(p, rs[k])
  }

  /** The piece `max(starts) .. min(ends)` that two ranges have in common. */
  function Overlap(a: Range, b: Range): (r: Range)
    ensures Within(r, a) || r.start >= r.end
    ensures Within(r, b) || r.start >= r.end
    ensures forall m :: InRange(r, m) <==> InRange(a, m) && InRange(b, m)
  {
    Range(if a.start < b.start then b.start else a.start, if a.end < b.end then a.end else b.end)
  }

  /** Every earlier piece ends no later than every range from index `i` on starts. */
  predicate EndsBefore(p: Range, rs: seq<Range>, i: int) {
    forall l :: 0 <= i <= l < |rs| ==> p.end <= rs[l].start
  }

  /** `_intersect_two_slot_lists`: walks both lists with two pointers, emits each non-empty
      overlap, and advances the pointer (or both pointers) whose range ends first. */
  method IntersectTwoSlotLists(listA: seq<Range>, listB: seq<Range>) returns (result: seq<Range>)
    ensures forall k :: 0 <= k < |result| ==> result[k].start < result[k].end
    ensures forall k :: 0 <= k < |result| ==> WithinSome(result[k], listA) && WithinSome(result[k], listB)
    ensures forall m :: Covers(result, m) ==> Covers(listA, m) && Covers(listB, m)
    ensures Disjoint(listA) && Disjoint(listB) ==> Disjoint(result)
    ensures Disjoint(listA) && Disjoint(listB) ==>
      forall m :: Covers(result, m) <==> Covers(listA, m) && Covers(listB, m)
  {
    result := [];
    var i, j := 0, 0;
    ghost var sorted := Disjoint(listA) && Disjoint(listB);
    while i < |listA| && j < |listB|
      invariant 0 <= i <= |listA| && 0 <= j <= |listB|
      invariant forall k :: 0 <= k < |result| ==> result[k].start < result[k].end
      invariant forall k :: 0 <= k < |result| ==> WithinSome(result[k], listA) && WithinSome(result[k], listB)
      invariant sorted ==> Disjoint(result)
      invariant sorted ==> forall k :: 0 <= k < |result| ==>
        EndsBefore(result[k], listA, i) || EndsBefore(result[k], listB, j)
      invariant sorted ==> forall m :: Covers(listA, m) && Covers(listB, m) ==>
        Covers(result, m) || (Covers(listA[i..], m) && Covers(listB[j..], m))
      decreases |listA| - i + |listB| - j
    {
      var a, b := listA[i], listB[j];
      var ov := Overlap(a, b);
      ghost var before := result;
      if ov.start < ov.end {
        result := result + [ov];
        assert result[|before|] == ov;
        assert Within(ov, listA[i]) && Within(ov, listB[j]);
      }
      ghost var i0, j0 := i, j;
      if a.end <= b.end {
        i := i + 1;
      }
      if b.end <= a.end {
        j := j + 1;
      }
      if sorted {
        MergeStepKeepsCover(listA, listB, i0, j0, i, j, before, result);
        MergeStepKeepsOrder(listA, listB, i0, j0, i, j, before, result);
      }
    }
    forall m | Covers(result, m) ensures Covers(listA, m) && Covers(listB, m) {
      var k :| 0 <= k < |result| && InRange(result[k], m);
      var x :| 0 <= x < |listA| && Within(result[k], listA[x]);
      var y :| 0 <= y < |listB| && Within(result[k], listB[y]);
      assert InRange(listA[x], m) && InRange(listB[y], m);
    }
    if sorted {
      assert |listA[i..]| == 0 || |listB[j..]| == 0;
      forall m | Covers(listA, m) && Covers(listB, m) ensures Covers(result, m) {
      }
    }
  }

  /** One step of the merge keeps the result in order, each range of it ending before
      what is left of one of the two lists. */
  lemma MergeStepKeepsOrder(listA: seq<Range>, listB: seq<Range>, i0: nat, j0: nat, i: nat, j: nat,
                            before: seq<Range>, result: seq<Range>)
    requires Disjoint(listA) && Disjoint(listB)
    requires i0 < |listA| && j0 < |listB|
    requires i == (if listA[i0].end <= listB[j0].end then i0 + 1 else i0)
    requires j == (if listB[j0].end <= listA[i0].end then j0 + 1 else j0)
    requires var ov := Overlap(listA[i0], listB[j0]);
      result == if ov.start < ov.end then before + [ov] else before
    requires Disjoint(before)
    requires forall k :: 0 <= k < |before| ==> EndsBefore(before[k], listA, i0) || EndsBefore(before[k], listB, j0)
    ensures Disjoint(result)
    ensures forall k :: 0 <= k < |result| ==> EndsBefore(result[k], listA, i) || EndsBefore(result[k], listB, j)
  {
    var a, b := listA[i0], listB[j0];
    var ov := Overlap(a, b);
    if ov.start < ov.end {
      forall k | 0 <= k < |before| ensures before[k].end <= ov.start {
        assert EndsBefore(before[k], listA, i0) || EndsBefore(before[k], listB, j0);
      }
    }
    forall k | 0 <= k < |result|
      ensures EndsBefore(result[k], listA, i) || EndsBefore(result[k], listB, j)
    {
      if k < |before| {
        assert result[k] == before[k];
        assert EndsBefore(before[k], listA, i0) || EndsBefore(before[k], listB, j0);
      } else {
        assert result[k] == ov;
        if a.end <= b.end {
          assert EndsBefore(ov, listA, i);
        } else {
          assert EndsBefore(ov, listB, j);
        }
      }
    }
  }

  /** One step of the merge loses no common minute: a minute common to both lists that lay
      in the ranges passed over is inside the overlap just considered. */
  lemma MergeStepKeepsCover(listA: seq<Range>, listB: seq<Range>, i0: nat, j0: nat, i: nat, j: nat,
                            before: seq<Range>, result: seq<Range>)
    requires Disjoint(listA) && Disjoint(listB)
    requires i0 < |listA| && j0 < |listB|
    requires i == (if listA[i0].end <= listB[j0].end then i0 + 1 else i0)
    requires j == (if listB[j0].end <= listA[i0].end then j0 + 1 else j0)
    requires var ov := Overlap(listA[i0], listB[j0]);
      result == if ov.start < ov.end then before + [ov] else before
    requires forall m :: Covers(listA, m) && Covers(listB, m) ==>
      Covers(before, m) || (Covers(listA[i0..], m) && Covers(listB[j0..], m))
    ensures forall m :: Covers(listA, m) && Covers(listB, m) ==>
      Covers(result, m) || (Covers(listA[i..], m) && Covers(listB[j..], m))
  {
    forall m | Covers(listA, m) && Covers(listB, m)
      ensures Covers(result, m) || (Covers(listA[i..], m) && Covers(listB[j..], m))
    {
      MergeStepKeepsMinute(listA, listB, i0, j0, i, j, before, result, m);
    }
  }

  /** `MergeStepKeepsCover` for one minute `m`. */
  lemma MergeStepKeepsMinute(listA: seq<Range>, listB: seq<Range>, i0: nat, j0: nat, i: nat, j: nat,
                             before: seq<Range>, result: seq<Range>, m: int)
    requires Disjoint(listA) && Disjoint(listB)
    requires i0 < |listA| && j0 < |listB|
    requires i == (if listA[i0].end <= listB[j0].end then i0 + 1 else i0)
    requires j == (if listB[j0].end <= listA[i0].end then j0 + 1 else j0)
    requires var ov := Overlap(listA[i0], listB[j0]);
      result == if ov.start < ov.end then before + [ov] else before
    requires Covers(before, m) || (Covers(listA[i0..], m) && Covers(listB[j0..], m))
    ensures Covers(result, m) || (Covers(listA[i..], m) && Covers(listB[j..], m))
  {
    var a, b := listA[i0], listB[j0];
    var ov := Overlap(a, b);
    if Covers(before, m) {
      var k :| 0 <= k < |before| && InRange(before[k], m);
      assert result[k] == before[k];
    } else {
      var x :| 0 <= x < |listA[i0..]| && InRange(listA[i0..][x], m);
      var y :| 0 <= y < |listB[j0..]| && InRange(listB[j0..][y], m);
      var xa, yb := i0 + x, j0 + y;
      assert listA[xa] == listA[i0..][x] && listB[yb] == listB[j0..][y];
      if xa == i0 && yb == j0 {
        assert InRange(ov, m);
        assert result[|before|] == ov;
      } else if xa == i0 {
        // m < a.end and m >= listB[yb].start >= b.end, so only j advanced
        assert b.end <= listB[yb].start;
        assert listA[i..][0] == a;
        assert listB[j..][yb - j] == listB[yb];
      } else if yb == j0 {
        assert a.end <= listA[xa].start;
        assert listB[j..][0] == b;
        assert listA[i..][xa - i] == listA[xa];
      } else {
        assert listA[i..][xa - i] == listA[xa];
        assert listB[j..][yb - j] == listB[yb];
      }
    }
  }

  // ---------------------------------------------------------------------------
  // Grouping by user

  /** The user ids in the order a dictionary keyed by user id first sees them. */
  function UsersInOrder(slots: seq<Slot>): seq<int>
    decreases |slots|
  {
    if slots == [] then []
    else
      var seen := UsersInOrder(slots[..|slots| - 1]);
      var u := slots[|slots| - 1].uid;
      if u in seen then seen else seen + [u]
  }

  /** User `u`'s `(start, end)` pairs, in input order. */
  function RangesOf(slots: seq<Slot>, u: int): seq<Range>
    decreases |slots|
  {
    if slots == [] then []
    else
      var s := slots[|slots| - 1];
      RangesOf(slots[..|slots| - 1], u) + (if s.uid == u then [Range(s.start, s.end)] else [])
  }

  /** `UsersInOrder` lists each distinct user id exactly once. */
  lemma {:induction false} UsersInOrderDistinct(slots: seq<Slot>)
    ensures var ids := UsersInOrder(slots);
      && (forall x, y :: 0 <= x < y < |ids| ==> ids[x] != ids[y])
      && (forall u :: u in ids <==> u in UidSet(slots))
      && |ids| == |UidSet(slots)|
    decreases |slots|
  {
    var ids := UsersInOrder(slots);
    if slots != [] {
      var init := slots[..|slots| - 1];
      UsersInOrderDistinct(init);
      forall u ensures u in UidSet(slots) <==> u in UidSet(init) || u == slots[|slots| - 1].uid {
        if u in UidSet(slots) {
          var k :| 0 <= k < |slots| && slots[k].uid == u;
          if k < |init| { assert init[k] == slots[k]; }
        }
        if u in UidSet(init) {
          var k :| 0 <= k < |init| && init[k].uid == u;
          assert slots[k] == init[k];
        }
      }
    }
    DistinctCard(ids, UidSet(slots));
  }

  lemma {:induction false} DistinctCard(ids: seq<int>, s: set<int>)
    requires forall x, y :: 0 <= x < y < |ids| ==> ids[x] != ids[y]
    requires forall u :: u in ids <==> u in s
    ensures |ids| == |s|
    decreases |ids|
  {
    if ids != [] {
      var last := ids[|ids| - 1];
      var init := ids[..|ids| - 1];
      assert forall u :: u in init <==> u in s - {last} by {
        forall u ensures u in init <==> u in s - {last} {
          if u in init {
            var x :| 0 <= x < |init| && init[x] == u;
            assert ids[x] == u;
          }
          if u in s - {last} {
            assert u in ids;
            var x :| 0 <= x < |ids| && ids[x] == u;
            assert x < |init| && init[x] == u;
          }
        }
      }
      DistinctCard(init, s - {last});
    } else {
      assert forall u :: u !in s;
      assert s == {};
    }
  }

  /** A range inside one of `u`'s pairs is inside one of `u`'s intervals. */
  lemma {:induction false} RangesOfCovers(slots: seq<Slot>, u: int, p: Range)
    requires WithinSome(p, RangesOf(slots, u))
    ensures UserCovers(slots, u, p.start, p.end)
    decreases |slots|
  {
    var init := slots[..|slots| - 1];
    var s := slots[|slots| - 1];
    var rs := RangesOf(slots, u);
    var k :| 0 <= k < |rs| && Within(p, rs[k]);
    if k < |RangesOf(init, u)| {
      assert rs[k] == RangesOf(init, u)[k];
      RangesOfCovers(init, u, p);
      var q :| 0 <= q < |init| && init[q].uid == u && init[q].start <= p.start && p.end <= init[q].end;
      assert slots[q] == init[q];
    } else {
      assert s.uid == u && rs[k] == Range(s.start, s.end);
    }
  }

  /** The list a `defaultdict(list)` holds for `u`: empty until `u` is first seen. */
  function Lookup(m: map<int, seq<Range>>, u: int): seq<Range> {
    if u in m then m[u] else []
  }

  /** The grouping loop that fills `slots_by_user`; `user_ids` is its key order. */
  method GroupByUser(userSlots: seq<Slot>) returns (userIds: seq<int>, slotsByUser: map<int, seq<Range>>)
    ensures userIds == UsersInOrder(userSlots)
    ensures forall u :: u in slotsByUser <==> u in userIds
    ensures forall u :: Lookup(slotsByUser, u) == RangesOf(userSlots, u)
  {
    userIds, slotsByUser := [], map[];
    for n := 0 to |userSlots|
      invariant userIds == UsersInOrder(userSlots[..n])
      invariant forall u :: u in slotsByUser <==> u in userIds
      invariant forall u :: Lookup(slotsByUser, u) == RangesOf(userSlots[..n], u)
    {
      var s := userSlots[n];
      var ids' := if s.uid in slotsByUser then userIds else userIds + [s.uid];
      var m' := slotsByUser[s.uid := Lookup(slotsByUser, s.uid) + [Range(s.start, s.end)]];
      GroupStep(userSlots, n, userIds, slotsByUser, ids', m');
      userIds, slotsByUser := ids', m';
    }
    assert userSlots[..|userSlots|] == userSlots;
  }

  /** One iteration of the grouping loop keeps the dictionary and its key order in step
      with the intervals seen so far. */
  lemma GroupStep(all: seq<Slot>, n: nat, ids: seq<int>, m: map<int, seq<Range>>,
                  ids': seq<int>, m': map<int, seq<Range>>)
    requires n < |all|
    requires ids == UsersInOrder(all[..n])
    requires forall u :: u in m <==> u in ids
    requires forall u :: Lookup(m, u) == RangesOf(all[..n], u)
    requires ids' == if all[n].uid in m then ids else ids + [all[n].uid]
    requires m' == m[all[n].uid := Lookup(m, all[n].uid) + [Range(all[n].start, all[n].end)]]
    ensures ids' == UsersInOrder(all[..n + 1])
    ensures forall u :: u in m' <==> u in ids'
    ensures forall u :: Lookup(m', u) == RangesOf(all[..n + 1], u)
  {
    var next := all[..n + 1];
    assert next[..|next| - 1] == all[..n] && next[|next| - 1] == all[n];
    forall u ensures Lookup(m', u) == RangesOf(next, u) {
      RangesSnoc(all, n, u);
    }
  }

  lemma RangesSnoc(all: seq<Slot>, n: nat, u: int)
    requires n < |all|
    ensures RangesOf(all[..n + 1], u)
      == RangesOf(all[..n], u) + (if all[n].uid == u then [Range(all[n].start, all[n].end)] else [])
  {
    var next := all[..n + 1];
    assert next[..|next| - 1] == all[..n] && next[|next| - 1] == all[n];
  }


  // ---------------------------------------------------------------------------
  // The full intersection

  lemma WithinSomeTrans(p: Range, cs: seq<Range>, rs: seq<Range>)
    requires WithinSome(p, cs)
    requires forall k :: 0 <= k < |cs| ==> WithinSome(cs[k], rs)
    ensures WithinSome(p, rs)
  {
    var k :| 0 <= k < |cs| && Within(p, cs[k]);
    var l :| 0 <= l < |rs| && Within(cs[k], rs[l]);
    assert Within(p, rs[l]);
  }

  /** `_find_full_intersection_for_day`. */
  method FindFullIntersectionForDay(userSlots: seq<Slot>, requiredDurationMin: int, totalParticipants: int)
    returns (r: Outcomes.Result<seq<Block>>)
    ensures r.Err? <==> userSlots == [] && totalParticipants == 0
    ensures r.Err? ==> r.failure == Outcomes.IndexOutOfRange
    ensures r.Ok? && |UidSet(userSlots)| != totalParticipants ==> r.value == []
    ensures r.Ok? ==> forall k :: 0 <= k < |r.value| ==>
      r.value[k].count == totalParticipants && r.value[k].end - r.value[k].start >= requiredDurationMin
    ensures r.Ok? ==> forall k, l :: 0 <= k < |r.value| && 0 <= l < |userSlots| ==>
      UserCovers(userSlots, userSlots[l].uid, r.value[k].start, r.value[k].end)
    ensures r.Ok? && (forall l :: 0 <= l < |userSlots| ==> Disjoint(RangesOf(userSlots, userSlots[l].uid))) ==>
      BlocksDisjoint(r.value)
  {
    var userIds, slotsByUser := GroupByUser(userSlots);
    UsersInOrderDistinct(userSlots);
    assert userSlots != [] ==> userSlots[0].uid in UidSet(userSlots);
    if |userIds| != totalParticipants {
      return Outcomes.Ok([]);
    }
    if |userIds| == 0 {
      return Outcomes.Err(Outcomes.IndexOutOfRange);
    }
    var commonRanges := FoldCommonRanges(userSlots, userIds, slotsByUser);
    var valid := FilterByDuration(commonRanges, requiredDurationMin, |userIds|);
    forall k, l | 0 <= k < |valid| && 0 <= l < |userSlots|
      ensures UserCovers(userSlots, userSlots[l].uid, valid[k].start, valid[k].end)
    {
      var q :| 0 <= q < |commonRanges| && Range(valid[k].start, valid[k].end) == commonRanges[q];
      var u := userSlots[l].uid;
      assert u in UidSet(userSlots);
      var x :| 0 <= x < |userIds| && userIds[x] == u;
      assert AllWithinSome(commonRanges, RangesOf(userSlots, userIds[x]));
      RangesOfCovers(userSlots, u, commonRanges[q]);
    }
    if forall l :: 0 <= l < |userSlots| ==> Disjoint(RangesOf(userSlots, userSlots[l].uid)) {
      forall x | 0 <= x < |userIds|
        ensures Disjoint(RangesOf(userSlots, userIds[x]))
      {
        assert userIds[x] in UidSet(userSlots);
      }
    }
    r := Outcomes.Ok(valid);
  }

  /** Every range of `cs` lies inside one range of `rs`. */
  predicate AllWithinSome(cs: seq<Range>, rs: seq<Range>) {
    forall k :: 0 <= k < |cs| ==> WithinSome(cs[k], rs)
  }

  /** Every user's list is sorted and free of overlaps, as the pairwise merge assumes. */
  predicate AllDisjoint(userSlots: seq<Slot>, userIds: seq<int>) {
    forall x :: 0 <= x < |userIds| ==> Disjoint(RangesOf(userSlots, userIds[x]))
  }

  /** Minute `m` is free for each of the first `n` users of `userIds`. */
  predicate CommonTo(userSlots: seq<Slot>, userIds: seq<int>, n: int, m: int)
    requires n <= |userIds|
  {
    forall x :: 0 <= x < n ==> Covers(RangesOf(userSlots, userIds[x]), m)
  }

  /** The loop over `user_ids[1:]`: folds the pairwise merge over every user's ranges,
      stopping early once nothing is left in common. When every user's list is sorted and
      free of overlaps, the common ranges are too, and they hold exactly the minutes free
      for every user. */
  method FoldCommonRanges(userSlots: seq<Slot>, userIds: seq<int>, slotsByUser: map<int, seq<Range>>)
    returns (commonRanges: seq<Range>)
    requires |userIds| >= 1
    requires forall x :: 0 <= x < |userIds| ==> Lookup(slotsByUser, userIds[x]) == RangesOf(userSlots, userIds[x])
    ensures forall x :: 0 <= x < |userIds| ==> AllWithinSome(commonRanges, RangesOf(userSlots, userIds[x]))
    ensures AllDisjoint(userSlots, userIds) ==> Disjoint(commonRanges)
    ensures AllDisjoint(userSlots, userIds) ==>
      forall m :: Covers(commonRanges, m) <==> CommonTo(userSlots, userIds, |userIds|, m)
  {
    commonRanges := Lookup(slotsByUser, userIds[0]);
    WithinSomeRefl(commonRanges);
    ghost var sorted := AllDisjoint(userSlots, userIds);
    var n := 1;
    while n < |userIds|
      invariant 1 <= n <= |userIds|
      invariant forall x :: 0 <= x < n ==> AllWithinSome(commonRanges, RangesOf(userSlots, userIds[x]))
      invariant sorted ==> Disjoint(commonRanges)
      invariant sorted ==> forall m :: Covers(commonRanges, m) <==> CommonTo(userSlots, userIds, n, m)
    {
      var userRanges := Lookup(slotsByUser, userIds[n]);
      var merged := IntersectTwoSlotLists(commonRanges, userRanges);
      FoldStep(commonRanges, merged, userSlots, userIds, n);
      if sorted {
        FoldCoverStep(commonRanges, merged, userSlots, userIds, n);
      }
      commonRanges := merged;
      if commonRanges == [] {
        NothingCommon(userSlots, userIds, n);
        break;
      }
      n := n + 1;
    }
  }

  /** Merging with user `n`'s ranges keeps exactly the minutes common to the first `n + 1`
      users. */
  lemma FoldCoverStep(common: seq<Range>, merged: seq<Range>, userSlots: seq<Slot>, userIds: seq<int>, n: nat)
    requires n < |userIds|
    requires forall m :: Covers(common, m) <==> CommonTo(userSlots, userIds, n, m)
    requires forall m :: Covers(merged, m) <==> Covers(common, m) && Covers(RangesOf(userSlots, userIds[n]), m)
    ensures forall m :: Covers(merged, m) <==> CommonTo(userSlots, userIds, n + 1, m)
  {
  }

  /** With no minute common to the first `n + 1` users, none is common to all of them. */
  lemma NothingCommon(userSlots: seq<Slot>, userIds: seq<int>, n: nat)
    requires n < |userIds|
    ensures forall m :: CommonTo(userSlots, userIds, |userIds|, m) ==> CommonTo(userSlots, userIds, n + 1, m)
  {
  }

  lemma WithinSomeRefl(cs: seq<Range>)
    ensures AllWithinSome(cs, cs)
  {
    forall k | 0 <= k < |cs| ensures WithinSome(cs[k], cs) {
      assert Within(cs[k], cs[k]);
    }
  }

  /** Merging with user `n`'s ranges keeps the common ranges inside every earlier user's. */
  lemma FoldStep(common: seq<Range>, merged: seq<Range>, userSlots: seq<Slot>, userIds: seq<int>, n: nat)
    requires n < |userIds|
    requires forall x :: 0 <= x < n ==> AllWithinSome(common, RangesOf(userSlots, userIds[x]))
    requires AllWithinSome(merged, common)
    requires AllWithinSome(merged, RangesOf(userSlots, userIds[n]))
    ensures forall x :: 0 <= x < n + 1 ==> AllWithinSome(merged, RangesOf(userSlots, userIds[x]))
  {
    forall x | 0 <= x < n ensures AllWithinSome(merged, RangesOf(userSlots, userIds[x])) {
      forall k | 0 <= k < |merged| ensures WithinSome(merged[k], RangesOf(userSlots, userIds[x])) {
        WithinSomeTrans(merged[k], common, RangesOf(userSlots, userIds[x]));
      }
    }
  }

  /** The common ranges at least `duration` long, in their order, each tagged with
      `participants`. */
  function LongEnough(rs: seq<Range>, duration: int, participants: nat): seq<Block>
    decreases |rs|
  {
    if rs == [] then []
    else
      var p := rs[|rs| - 1];
      LongEnough(rs[..|rs| - 1], duration, participants)
        + (if p.end - p.start >= duration then [Block(p.start, p.end, participants)] else [])
  }

  /** Blocks in order, each ending before the next starts. */
  predicate BlocksDisjoint(bs: seq<Block>) {
    forall k, l :: 0 <= k < l < |bs| ==> bs[k].end <= bs[l].start
  }

  /** A block is kept exactly when it is one of the ranges, long enough, with the count. */
  lemma {:induction false} LongEnoughMember(rs: seq<Range>, duration: int, participants: nat, b: Block)
    ensures b in LongEnough(rs, duration, participants) <==>
      Range(b.start, b.end) in rs && b.end - b.start >= duration && b.count == participants
    decreases |rs|
  {
    if rs != [] {
      var init := rs[..|rs| - 1];
      LongEnoughMember(init, duration, participants, b);
      assert rs == init + [rs[|rs| - 1]];
    }
  }

  /** Each kept block comes from a range at or after the one the previous block came
      from, so sorted, non-overlapping ranges give sorted, non-overlapping blocks. */
  lemma {:induction false} LongEnoughOrdered(rs: seq<Range>, duration: int, participants: nat)
    requires Disjoint(rs)
    ensures BlocksDisjoint(LongEnough(rs, duration, participants))
    decreases |rs|
  {
    if rs != [] {
      var init := rs[..|rs| - 1];
      var p := rs[|rs| - 1];
      var v := LongEnough(init, duration, participants);
      LongEnoughOrdered(init, duration, participants);
      if p.end - p.start >= duration {
        forall k | 0 <= k < |v|
          ensures v[k].end <= p.start
        {
          LongEnoughMember(init, duration, participants, v[k]);
          var q :| 0 <= q < |init| && init[q] == Range(v[k].start, v[k].end);
          assert rs[q] == init[q];
        }
      }
    }
  }

  /** The final loop: keeps, in order, the common ranges at least the required length,
      tagging each with the number of participants. */
  method FilterByDuration(commonRanges: seq<Range>, requiredDurationMin: int, participants: nat)
    returns (valid: seq<Block>)
    ensures valid == LongEnough(commonRanges, requiredDurationMin, participants)
    ensures forall k :: 0 <= k < |valid| ==>
      valid[k].count == participants && valid[k].end - valid[k].start >= requiredDurationMin
    ensures forall k :: 0 <= k < |valid| ==> Range(valid[k].start, valid[k].end) in commonRanges
    ensures forall q :: 0 <= q < |commonRanges| && commonRanges[q].end - commonRanges[q].start >= requiredDurationMin ==>
      Block(commonRanges[q].start, commonRanges[q].end, participants) in valid
    ensures Disjoint(commonRanges) ==> BlocksDisjoint(valid)
  {
    valid := [];
    var c := 0;
    while c < |commonRanges|
      invariant 0 <= c <= |commonRanges|
      invariant valid == LongEnough(commonRanges[..c], requiredDurationMin, participants)
    {
      var p := commonRanges[c];
      var duration := p.end - p.start;
      if duration >= requiredDurationMin {
        valid := valid + [Block(p.start, p.end, participants)];
      }
      assert commonRanges[..c + 1][..c] == commonRanges[..c];
      c := c + 1;
    }
    assert commonRanges[..c] == commonRanges;
    forall b | true
      ensures b in valid <==>
        Range(b.start, b.end) in commonRanges && b.end - b.start >= requiredDurationMin && b.count == participants
    {
      LongEnoughMember(commonRanges, requiredDurationMin, participants, b);
    }
    if Disjoint(commonRanges) {
      LongEnoughOrdered(commonRanges, requiredDurationMin, participants);
    }
  }
}
