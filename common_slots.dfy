/** `calculate_common_slots`: groups an event's availability records by day, runs the
    coverage sweep on each day and sorts the blocks found by day and start time. The
    database reads become inputs: the event (absent when no event has the id) and its
    availability records in the order the query returns them. */
module CommonSlots {
  import opened Intervals
  import opened Outcomes
  import Calendar
  import StableSort
  import Coverage

  /** The two columns of an `Event` the calculation reads. */
  datatype Event = Event(isRecurring: bool, durationMinutes: int)

  /** The columns of an `Availability` record the calculation reads. */
  datatype Availability = Availability(
    userId: int,
    date: Option<Calendar.Date>,
    dayOfWeek: Option<int>,
    timeStart: Minute,
    timeEnd: Minute)

  /** A key of `slots_by_day`: a date, a weekday number, or `None`. */
  datatype DayKey = OnDate(date: Calendar.Date) | OnWeekday(weekday: int) | Unset

  /** One `(date, start_time, end_time, participant_count)` tuple of the result. */
  datatype CommonSlot = CommonSlot(day: DayKey, start: Minute, end: Minute, count: nat)

  /** `av.date` for a one-off event, `av.day_of_week` for a recurring one: a one-off event
      files its records by date and a recurring one by weekday, with `None` as a key of
      its own for records lacking the field. */
  function DayKeyOf(isRecurring: bool, av: Availability): (k: DayKey)
    ensures !isRecurring ==> !k.OnWeekday? && (k.OnDate? <==> av.date.Some?)
    ensures isRecurring ==> !k.OnDate? && (k.OnWeekday? <==> av.dayOfWeek.Some?)
    ensures k.OnDate? ==> av.date == Some(k.date)
    ensures k.OnWeekday? ==> av.dayOfWeek == Some(k.weekday)
  {
    if !isRecurring then
      if av.date.Some? then OnDate(av.date.value) else Unset
    else
      if av.dayOfWeek.Some? then OnWeekday(av.dayOfWeek.value) else Unset
  }

  function SlotOf(av: Availability): Slot {
    Slot(av.timeStart, av.timeEnd, av.userId)
  }

  /** The keys of `slots_by_day`, in the order the dictionary first sees them. */
  function DayKeys(isRecurring: bool, avs: seq<Availability>): seq<DayKey>
    decreases |avs|
  {
    if avs == [] then []
    else
      var seen := DayKeys(isRecurring, avs[..|avs| - 1]);
      var key := DayKeyOf(isRecurring, avs[|avs| - 1]);
      if key in seen then seen else seen + [key]
  }

  /** `slots_by_day[key]`: the `(start, end, user_id)` triples filed under `key`, in input order. */
  function DaySlots(isRecurring: bool, avs: seq<Availability>, key: DayKey): seq<Slot>
    decreases |avs|
  {
    if avs == [] then []
    else
      var last := avs[|avs| - 1];
      DaySlots(isRecurring, avs[..|avs| - 1], key)
        + (if DayKeyOf(isRecurring, last) == key then [SlotOf(last)] else [])
  }

  /** The blocks of one day, each tagged with the day. */
  function Tagged(day: DayKey, blocks: seq<Block>): seq<CommonSlot> {
    seq(|blocks|, k requires 0 <= k < |blocks| => CommonSlot(day, blocks[k].start, blocks[k].end, blocks[k].count))
  }

  /** `common_slots` before sorting: the days' blocks, day by day in key order. */
  function Collected(isRecurring: bool, avs: seq<Availability>, duration: int, keys: seq<DayKey>, tie: Coverage.TieBreak): seq<CommonSlot>
    decreases |keys|
  {
    if keys == [] then []
    else
      var day := keys[|keys| - 1];
      Collected(isRecurring, avs, duration, keys[..|keys| - 1], tie)
        + Tagged(day, Coverage.CoverageOf(DaySlots(isRecurring, avs, day), duration, tie))
  }

  // ---------------------------------------------------------------------------
  // The sort key `(x[0] if isinstance(x[0], date) else float(x[0] or 999), x[1])`

  /** The first component of the sort key: the date itself, or a number. */
  datatype SortKey = ByDate(date: Calendar.Date) | ByNumber(n: int)

  /** `x[0] or 999` replaces every falsy key: `None`, and weekday 0 as well, so both sort
      after every other weekday; dates and the other weekdays keep their own value. */
  function SortKeyOf(day: DayKey): (k: SortKey)
    ensures k.ByDate? <==> day.OnDate?
    ensures day.OnDate? ==> k.date == day.date
    ensures day.OnWeekday? && day.weekday != 0 ==> k.n == day.weekday
    ensures day.Unset? || day == OnWeekday(0) ==> k == ByNumber(999)
  {
    match day
    case OnDate(d) => ByDate(d)
    case OnWeekday(w) => if w == 0 then ByNumber(999) else ByNumber(w)
    case Unset => ByNumber(999)
  }

  /** Python's `<` on the first key component. A date and a number are never compared
      by a sort that succeeds (see `Unorderable`); the order given to them here is only
      there to make the relation total. */
  predicate KeyLess(a: SortKey, b: SortKey) {
    match (a, b)
    case (ByDate(x), ByDate(y)) => Calendar.Before(x, y)
    case (ByNumber(x), ByNumber(y)) => x < y
    case (ByDate(_), ByNumber(_)) => true
    case (ByNumber(_), ByDate(_)) => false
  }

  /** Tuple order on `(key, start_time)`. */
  predicate SlotLe(x: CommonSlot, y: CommonSlot) {
    var a, b := SortKeyOf(x.day), SortKeyOf(y.day);
    KeyLess(a, b) || (a == b && x.start <= y.start)
  }

  lemma SlotLeIsTotalPreorder()
    ensures StableSort.IsTotalPreorder(SlotLe)
  {
    forall x: CommonSlot, y: CommonSlot, z: CommonSlot
      ensures SlotLe(x, y) || SlotLe(y, x)
      ensures SlotLe(x, y) && SlotLe(y, z) ==> SlotLe(x, z)
    {
      var a, b, c := SortKeyOf(x.day), SortKeyOf(y.day), SortKeyOf(z.day);
      if a.ByDate? && b.ByDate? && c.ByDate? {
        Calendar.BeforeIsStrictTotalOrder(a.date, b.date, c.date);
      }
    }
  }

  /** The sort raises `TypeError` when it has to compare a `date` key with a `float` key,
      which any sort of a list holding both kinds must do. */
  predicate Unorderable(c: seq<CommonSlot>): (r: bool)
    ensures r ==> |c| >= 2
    ensures !r ==> forall i, j :: 0 <= i < |c| && 0 <= j < |c| ==> c[i].day.OnDate? == c[j].day.OnDate?
  {
    && (exists i :: 0 <= i < |c| && c[i].day.OnDate?)
    && (exists j :: 0 <= j < |c| && !c[j].day.OnDate?)
  }

  /** What `calculate_common_slots` returns or raises. `tie` is the order the sweep gives
      an end and a start at the same minute: the code sweeps with `StartsFirst`, and
      `EndsFirst` gives the corrected calculation. */
  function CommonSlotsOf(event: Option<Event>, avs: seq<Availability>, tie: Coverage.TieBreak): Result<seq<CommonSlot>> {
    if event.None? then Err(EventNotFound)
    else if avs == [] then Ok([])
    else
      var ev := event.value;
      var c := Collected(ev.isRecurring, avs, ev.durationMinutes, DayKeys(ev.isRecurring, avs), tie);
      if Unorderable(c) then Err(UnorderableKeys)
      else
        SlotLeIsTotalPreorder();
        Ok(StableSort.Sort(c, SlotLe))
  }

  // ---------------------------------------------------------------------------
  // The calculation

  function Lookup(m: map<DayKey, seq<Slot>>, key: DayKey): seq<Slot> {
    if key in m then m[key] else []
  }

  method CalculateCommonSlots(event: Option<Event>, avs: seq<Availability>, tie: Coverage.TieBreak)
    returns (r: Result<seq<CommonSlot>>)
    ensures r == CommonSlotsOf(event, avs, tie)
  {
    if event.None? {
      return Err(EventNotFound);
    }
    if avs == [] {
      return Ok([]);
    }
    var ev := event.value;
    var keys, slotsByDay := GroupByDay(ev.isRecurring, avs);
    var commonSlots: seq<CommonSlot> := [];
    for n := 0 to |keys|
      invariant commonSlots == Collected(ev.isRecurring, avs, ev.durationMinutes, keys[..n], tie)
    {
      var day := keys[n];
      var intersections := Coverage.FindIntersectionsForDay(Lookup(slotsByDay, day), ev.durationMinutes, tie);
      commonSlots := AppendDay(commonSlots, day, intersections);
      CollectedSnoc(ev.isRecurring, avs, ev.durationMinutes, keys, n, tie);
    }
    assert keys[..|keys|] == keys;
    if Unorderable(commonSlots) {
      return Err(UnorderableKeys);
    }
    SlotLeIsTotalPreorder();
    r := Ok(StableSort.Sort(commonSlots, SlotLe));
  }

  lemma CollectedSnoc(isRecurring: bool, avs: seq<Availability>, duration: int, keys: seq<DayKey>, n: nat, tie: Coverage.TieBreak)
    requires n < |keys|
    ensures Collected(isRecurring, avs, duration, keys[..n + 1], tie) == Collected(isRecurring, avs, duration, keys[..n], tie)
      + Tagged(keys[n], Coverage.CoverageOf(DaySlots(isRecurring, avs, keys[n]), duration, tie))
  {
    assert keys[..n + 1][..n] == keys[..n];
  }


  /** The inner loop: appends `(day, start_t, end_t, count)` for each block of the day. */
  method AppendDay(commonSlots: seq<CommonSlot>, day: DayKey, intersections: seq<Block>)
    returns (out: seq<CommonSlot>)
    ensures out == commonSlots + Tagged(day, intersections)
  {
    out := commonSlots;
    for k := 0 to |intersections|
      invariant out == commonSlots + Tagged(day, intersections[..k])
    {
      var b := intersections[k];
      assert Tagged(day, intersections[..k + 1]) == Tagged(day, intersections[..k]) + [CommonSlot(day, b.start, b.end, b.count)];
      out := out + [CommonSlot(day, b.start, b.end, b.count)];
    }
    assert intersections[..|intersections|] == intersections;
  }

  /** The grouping loop that fills `slots_by_day`; `keys` is its key order. */
  method GroupByDay(isRecurring: bool, avs: seq<Availability>)
    returns (keys: seq<DayKey>, slotsByDay: map<DayKey, seq<Slot>>)
    ensures keys == DayKeys(isRecurring, avs)
    ensures forall k :: k in slotsByDay <==> k in keys
    ensures forall k :: Lookup(slotsByDay, k) == DaySlots(isRecurring, avs, k)
  {
    keys, slotsByDay := [], map[];
    for n := 0 to |avs|
      invariant keys == DayKeys(isRecurring, avs[..n])
      invariant forall k :: k in slotsByDay <==> k in keys
      invariant forall k :: Lookup(slotsByDay, k) == DaySlots(isRecurring, avs[..n], k)
    {
      var av := avs[n];
      var dayKey := DayKeyOf(isRecurring, av);
      var keys' := if dayKey in slotsByDay then keys else keys + [dayKey];
      var m' := slotsByDay[dayKey := Lookup(slotsByDay, dayKey) + [SlotOf(av)]];
      GroupDayStep(isRecurring, avs, n, keys, slotsByDay, keys', m');
      keys, slotsByDay := keys', m';
    }
    assert avs[..|avs|] == avs;
  }

  /** One iteration of the grouping loop keeps the dictionary and its key order in step
      with the records seen so far. */
  lemma GroupDayStep(isRecurring: bool, avs: seq<Availability>, n: nat,
                     keys: seq<DayKey>, m: map<DayKey, seq<Slot>>,
                     keys': seq<DayKey>, m': map<DayKey, seq<Slot>>)
    requires n < |avs|
    requires keys == DayKeys(isRecurring, avs[..n])
    requires forall k :: k in m <==> k in keys
    requires forall k :: Lookup(m, k) == DaySlots(isRecurring, avs[..n], k)
    requires var key := DayKeyOf(isRecurring, avs[n]);
      && keys' == (if key in m then keys else keys + [key])
      && m' == m[key := Lookup(m, key) + [SlotOf(avs[n])]]
    ensures keys' == DayKeys(isRecurring, avs[..n + 1])
    ensures forall k :: k in m' <==> k in keys'
    ensures forall k :: Lookup(m', k) == DaySlots(isRecurring, avs[..n + 1], k)
  {
    var next := avs[..n + 1];
    assert next[..|next| - 1] == avs[..n] && next[|next| - 1] == avs[n];
    forall k ensures Lookup(m', k) == DaySlots(isRecurring, next, k) {
      DaySlotsSnoc(isRecurring, avs, n, k);
    }
  }

  lemma DaySlotsSnoc(isRecurring: bool, avs: seq<Availability>, n: nat, k: DayKey)
    requires n < |avs|
    ensures DaySlots(isRecurring, avs[..n + 1], k)
      == DaySlots(isRecurring, avs[..n], k) + (if DayKeyOf(isRecurring, avs[n]) == k then [SlotOf(avs[n])] else [])
  {
    var next := avs[..n + 1];
    assert next[..|next| - 1] == avs[..n] && next[|next| - 1] == avs[n];
  }

  // ---------------------------------------------------------------------------
  // What the result holds

  lemma TaggedMember(day: DayKey, blocks: seq<Block>, cs: CommonSlot)
    ensures cs in Tagged(day, blocks) <==> cs.day == day && Block(cs.start, cs.end, cs.count) in blocks
  {
    var t := Tagged(day, blocks);
    if cs.day == day && Block(cs.start, cs.end, cs.count) in blocks {
      var k :| 0 <= k < |blocks| && blocks[k] == Block(cs.start, cs.end, cs.count);
      assert t[k] == cs;
    }
  }

  /** The sweep of the records filed under `cs.day` finds the block `cs` describes. */
  predicate DayFinds(isRecurring: bool, avs: seq<Availability>, duration: int, cs: CommonSlot, tie: Coverage.TieBreak) {
    Block(cs.start, cs.end, cs.count) in Coverage.CoverageOf(DaySlots(isRecurring, avs, cs.day), duration, tie)
  }

  /** A tagged block is in the collected list exactly when its day is a key and the
      block is one the sweep finds for that day. */
  lemma {:induction false} CollectedMember(isRecurring: bool, avs: seq<Availability>, duration: int,
                                         keys: seq<DayKey>, cs: CommonSlot, tie: Coverage.TieBreak)
    ensures cs in Collected(isRecurring, avs, duration, keys, tie) <==>
      cs.day in keys && DayFinds(isRecurring, avs, duration, cs, tie)
    decreases |keys|
  {
    if keys != [] {
      var day := keys[|keys| - 1];
      var init := keys[..|keys| - 1];
      var blocks := Coverage.CoverageOf(DaySlots(isRecurring, avs, day), duration, tie);
      var a, t := Collected(isRecurring, avs, duration, init, tie), Tagged(day, blocks);
      assert Collected(isRecurring, avs, duration, keys, tie) == a + t;
      CollectedMember(isRecurring, avs, duration, init, cs, tie);
      TaggedMember(day, blocks, cs);
      assert cs.day == day ==> (Block(cs.start, cs.end, cs.count) in blocks <==> DayFinds(isRecurring, avs, duration, cs, tie));
      assert keys == init + [day];
      assert cs.day in keys <==> cs.day in init || cs.day == day;
    }
  }


  /** A key is in `slots_by_day` exactly when some record is filed under it. */
  lemma {:induction false} DayKeysMember(isRecurring: bool, avs: seq<Availability>, key: DayKey)
    ensures key in DayKeys(isRecurring, avs) <==> DaySlots(isRecurring, avs, key) != []
    ensures DaySlots(isRecurring, avs, key) != [] ==>
      exists i :: 0 <= i < |avs| && DayKeyOf(isRecurring, avs[i]) == key
    decreases |avs|
  {
    if avs != [] {
      var init := avs[..|avs| - 1];
      DayKeysMember(isRecurring, init, key);
      if DaySlots(isRecurring, init, key) != [] {
        var i :| 0 <= i < |init| && DayKeyOf(isRecurring, init[i]) == key;
        assert avs[i] == init[i];
      }
    }
  }

  lemma CoverageOfNone(duration: int, tie: Coverage.TieBreak)
    ensures Coverage.CoverageOf([], duration, tie) == []
  {
    assert Coverage.Timeline([], tie) == [];
  }

  /** A block is in the (successful) result exactly when the sweep finds it for its own
      day's records. */
  lemma CommonSlotsMembership(event: Option<Event>, avs: seq<Availability>, cs: CommonSlot, tie: Coverage.TieBreak)
    requires event.Some?
    ensures var r := CommonSlotsOf(event, avs, tie);
      r.Ok? ==> (cs in r.value <==> DayFinds(event.value.isRecurring, avs, event.value.durationMinutes, cs, tie))
  {
    var ev := event.value;
    var rec, dur := ev.isRecurring, ev.durationMinutes;
    CoverageOfNone(dur, tie);
    if avs != [] {
      var keys := DayKeys(rec, avs);
      var c := Collected(rec, avs, dur, keys, tie);
      CollectedMember(rec, avs, dur, keys, cs, tie);
      DayKeysMember(rec, avs, cs.day);
      assert cs.day !in keys ==> DaySlots(rec, avs, cs.day) == [];
      assert cs in c <==> DayFinds(rec, avs, dur, cs, tie);
      SlotLeIsTotalPreorder();
      SortedMember(c, cs);
      var r := CommonSlotsOf(event, avs, tie);
      assert r.Ok? ==> r.value == StableSort.Sort(c, SlotLe);
    } else {
      assert DaySlots(rec, avs, cs.day) == [];
    }
  }

  /** Sorting keeps exactly the entries it is given. */
  lemma SortedMember(c: seq<CommonSlot>, cs: CommonSlot)
    requires StableSort.IsTotalPreorder(SlotLe)
    ensures cs in StableSort.Sort(c, SlotLe) <==> cs in c
  {
    var sorted := StableSort.Sort(c, SlotLe);
    assert cs in sorted <==> cs in multiset(sorted);
    assert cs in c <==> cs in multiset(c);
  }

  /** The (successful) result is sorted by `(key, start_time)`. */
  lemma CommonSlotsSorted(event: Option<Event>, avs: seq<Availability>, tie: Coverage.TieBreak)
    ensures var r := CommonSlotsOf(event, avs, tie);
      r.Ok? ==> StableSort.SortedBy(r.value, SlotLe)
  {
  }



  /** Every block of the result lies inside the availability of as many of that day's
      participants as it counts, and is at least as long as the event. */
  lemma CommonSlotsSupported(event: Option<Event>, avs: seq<Availability>, tie: Coverage.TieBreak)
    requires event.Some?
    ensures var r := CommonSlotsOf(event, avs, tie);
      r.Ok? ==> forall cs :: cs in r.value ==>
        && cs.start < cs.end
        && cs.end - cs.start >= event.value.durationMinutes
        && 1 <= cs.count <= |Supporters(DaySlots(event.value.isRecurring, avs, cs.day), cs.start, cs.end)|
  {
    var r := CommonSlotsOf(event, avs, tie);
    if r.Ok? {
      forall cs | cs in r.value
        ensures && cs.start < cs.end
                && cs.end - cs.start >= event.value.durationMinutes
                && 1 <= cs.count <= |Supporters(DaySlots(event.value.isRecurring, avs, cs.day), cs.start, cs.end)|
      {
        var slots := DaySlots(event.value.isRecurring, avs, cs.day);
        CommonSlotsMembership(event, avs, cs, tie);
        Coverage.CoverageWellFormed(slots, event.value.durationMinutes, tie);
        Coverage.CoverageSupported(slots, event.value.durationMinutes, tie);
      }
    }
  }

  /** The corrected driver, the one sweeping with ends before starts at equal times: on a
      day where no participant's intervals overlap, each block of the result counts exactly
      the participants one of whose intervals contains it. */
  lemma CommonSlotsExact(event: Option<Event>, avs: seq<Availability>)
    requires event.Some?
    ensures var r := CommonSlotsOf(event, avs, Coverage.EndsFirst);
      r.Ok? ==> forall cs :: cs in r.value && Coverage.NoOverlapPerUser(DaySlots(event.value.isRecurring, avs, cs.day)) ==>
        cs.count == |Supporters(DaySlots(event.value.isRecurring, avs, cs.day), cs.start, cs.end)|
  {
    var r := CommonSlotsOf(event, avs, Coverage.EndsFirst);
    if r.Ok? {
      forall cs | cs in r.value && Coverage.NoOverlapPerUser(DaySlots(event.value.isRecurring, avs, cs.day))
        ensures cs.count == |Supporters(DaySlots(event.value.isRecurring, avs, cs.day), cs.start, cs.end)|
      {
        CommonSlotsMembership(event, avs, cs, Coverage.EndsFirst);
        Coverage.CoverageExact(DaySlots(event.value.isRecurring, avs, cs.day), event.value.durationMinutes);
      }
    }
  }

  /** A recurring event's keys are weekday numbers or `None`, so its sort never fails. */
  lemma RecurringIsOrderable(event: Option<Event>, avs: seq<Availability>, tie: Coverage.TieBreak)
    requires event.Some? && event.value.isRecurring
    ensures CommonSlotsOf(event, avs, tie).Ok?
  {
    var ev := event.value;
    if avs != [] {
      var keys := DayKeys(true, avs);
      var c := Collected(true, avs, ev.durationMinutes, keys, tie);
      forall i | 0 <= i < |c| ensures !c[i].day.OnDate? {
        CollectedMember(true, avs, ev.durationMinutes, keys, c[i], tie);
        DayKeysMember(true, avs, c[i].day);
      }
    }
  }

  /** Some dated day of a one-off event has a block. */
  predicate DatedBlocks(avs: seq<Availability>, duration: int, tie: Coverage.TieBreak) {
    exists i :: 0 <= i < |avs| && avs[i].date.Some? &&
      Coverage.CoverageOf(DaySlots(false, avs, OnDate(avs[i].date.value)), duration, tie) != []
  }

  /** The records of a one-off event without a date have a block. */
  predicate UndatedBlocks(avs: seq<Availability>, duration: int, tie: Coverage.TieBreak) {
    Coverage.CoverageOf(DaySlots(false, avs, Unset), duration, tie) != []
  }

  /** A one-off event fails exactly when blocks are found both on some dated day and among
      the records without a date. */
  lemma OneOffUnorderable(event: Option<Event>, avs: seq<Availability>, tie: Coverage.TieBreak)
    requires event.Some? && !event.value.isRecurring && avs != []
    ensures CommonSlotsOf(event, avs, tie).Err? <==>
      DatedBlocks(avs, event.value.durationMinutes, tie) && UndatedBlocks(avs, event.value.durationMinutes, tie)
  {
    var dur := event.value.durationMinutes;
    var c := Collected(false, avs, dur, DayKeys(false, avs), tie);
    if Unorderable(c) {
      UnorderableHasBoth(avs, dur, tie);
    }
    if DatedBlocks(avs, dur, tie) && UndatedBlocks(avs, dur, tie) {
      BothAreUnorderable(avs, dur, tie);
    }
  }

  lemma UnorderableHasBoth(avs: seq<Availability>, dur: int, tie: Coverage.TieBreak)
    requires Unorderable(Collected(false, avs, dur, DayKeys(false, avs), tie))
    ensures DatedBlocks(avs, dur, tie) && UndatedBlocks(avs, dur, tie)
  {
    var keys := DayKeys(false, avs);
    var c := Collected(false, avs, dur, keys, tie);
    CoverageOfNone(dur, tie);
    var i :| 0 <= i < |c| && c[i].day.OnDate?;
    var j :| 0 <= j < |c| && !c[j].day.OnDate?;
    CollectedMember(false, avs, dur, keys, c[i], tie);
    CollectedMember(false, avs, dur, keys, c[j], tie);
    DayKeysMember(false, avs, c[i].day);
    DayKeysMember(false, avs, c[j].day);
    var x :| 0 <= x < |avs| && DayKeyOf(false, avs[x]) == c[i].day;
    var y :| 0 <= y < |avs| && DayKeyOf(false, avs[y]) == c[j].day;
    assert c[j].day == Unset;
    assert avs[x].date.Some? && OnDate(avs[x].date.value) == c[i].day;
  }

  lemma BothAreUnorderable(avs: seq<Availability>, dur: int, tie: Coverage.TieBreak)
    requires DatedBlocks(avs, dur, tie) && UndatedBlocks(avs, dur, tie)
    ensures Unorderable(Collected(false, avs, dur, DayKeys(false, avs), tie))
  {
    var i :| 0 <= i < |avs| && avs[i].date.Some? &&
      Coverage.CoverageOf(DaySlots(false, avs, OnDate(avs[i].date.value)), dur, tie) != [];
    var p := DayHasSlot(false, avs, dur, OnDate(avs[i].date.value), tie);
    var q := DayHasSlot(false, avs, dur, Unset, tie);
  }

  /** A day whose sweep finds a block contributes an entry to the collected list. */
  lemma DayHasSlot(isRecurring: bool, avs: seq<Availability>, dur: int, day: DayKey, tie: Coverage.TieBreak) returns (p: nat)
    requires Coverage.CoverageOf(DaySlots(isRecurring, avs, day), dur, tie) != []
    ensures var c := Collected(isRecurring, avs, dur, DayKeys(isRecurring, avs), tie);
      p < |c| && c[p].day == day
  {
    var keys := DayKeys(isRecurring, avs);
    var blocks := Coverage.CoverageOf(DaySlots(isRecurring, avs, day), dur, tie);
    CoverageOfNone(dur, tie);
    DayKeysMember(isRecurring, avs, day);
    var cs := CommonSlot(day, blocks[0].start, blocks[0].end, blocks[0].count);
    CollectedMember(isRecurring, avs, dur, keys, cs, tie);
    var c := Collected(isRecurring, avs, dur, keys, tie);
    var k :| 0 <= k < |c| && c[k] == cs;
    p := k;
  }

  /** `x[0] or 999` turns weekday 0 (Monday) into 999, so Monday's blocks sort after
      Sunday's (weekday 6). */
  lemma MondaySortsAfterSunday(start: Minute, end: Minute, count: nat)
    ensures var monday, sunday := CommonSlot(OnWeekday(0), start, end, count), CommonSlot(OnWeekday(6), start, end, count);
      SlotLe(sunday, monday) && !SlotLe(monday, sunday)
  {
  }
}
