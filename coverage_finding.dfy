/** The tie-break of the coverage pass on one day where a user's two intervals meet. */
module CoverageFinding {
  import opened Intervals
  import opened Outcomes
  import opened Coverage
  import Calendar
  import CommonSlots

  /** A timeline in which each point's key comes strictly before the next one's. */
  predicate StrictlySorted(a: seq<Point>, tie: TieBreak) {
    forall i, j :: 0 <= i < j < |a| ==> !KeyLe(tie, a[j], a[i])
  }

  /** A sort whose keys are all distinct has only one possible result. */
  lemma {:induction false} SortedUnique(a: seq<Point>, b: seq<Point>, tie: TieBreak)
    requires StrictlySorted(a, tie) && Sorted(b, tie) && multiset(a) == multiset(b)
    ensures a == b
    decreases |a|
  {
    assert |a| == |multiset(a)| == |multiset(b)| == |b|;
    if a != [] {
      HeadsEqual(a, b, tie);
      TailsAgree(a, b);
      SortedUnique(a[1..], b[1..], tie);
      assert a == [a[0]] + a[1..] && b == [b[0]] + b[1..];
    }
  }

  lemma HeadsEqual(a: seq<Point>, b: seq<Point>, tie: TieBreak)
    requires StrictlySorted(a, tie) && Sorted(b, tie) && multiset(a) == multiset(b)
    requires a != [] && b != []
    ensures a[0] == b[0]
  {
    assert a[0] in multiset(b) && b[0] in multiset(a);
    var i :| 0 <= i < |b| && b[i] == a[0];
    var j :| 0 <= j < |a| && a[j] == b[0];
    assert KeyLe(tie, b[0], b[i]) by { if i > 0 { assert KeyLe(tie, b[0], b[i]); } }
    assert KeyLe(tie, a[j], a[0]);
  }

  lemma TailsAgree(a: seq<Point>, b: seq<Point>)
    requires a != [] && b != [] && a[0] == b[0] && multiset(a) == multiset(b)
    ensures multiset(a[1..]) == multiset(b[1..])
  {
    assert a == [a[0]] + a[1..] && b == [b[0]] + b[1..];
    assert multiset(a) == multiset{a[0]} + multiset(a[1..]);
    assert multiset(b) == multiset{a[0]} + multiset(b[1..]);
    forall x ensures multiset(a[1..])[x] == multiset(b[1..])[x] {
      assert multiset(a)[x] == multiset{a[0]}[x] + multiset(a[1..])[x];
      assert multiset(b)[x] == multiset{a[0]}[x] + multiset(b[1..])[x];
    }
  }

  /** User 1 is free 9:00-10:00 and 10:00-11:00. */
  function Day(): seq<Slot> {
    [Slot(540, 600, 1), Slot(600, 660, 1)]
  }

  lemma DayTimeline(tie: TieBreak)
    ensures Timeline(Day(), tie) ==
      [Point(540, Start, 1), Point(600, End, 1), Point(600, Start, 1), Point(660, End, 1)]
  {
    var d := Day();
    assert d[..1] == [d[0]];
    assert Timeline([d[0]], tie) == PointsOf(d[0], tie);
  }

  /** The sorted timeline of `Day` as written: the start at 10:00 before the end. */
  function AsWritten(): seq<Point> {
    [Point(540, Start, 1), Point(600, Start, 1), Point(600, End, 1), Point(660, End, 1)]
  }

  /** The sorted timeline of `Day` as intended: the end at 10:00 before the start. */
  function AsIntended(): seq<Point> {
    [Point(540, Start, 1), Point(600, End, 1), Point(600, Start, 1), Point(660, End, 1)]
  }

  /** A strictly sorted arrangement of a timeline's points is its sorted timeline. */
  lemma SortedTimelineIs(slots: seq<Slot>, tie: TieBreak, a: seq<Point>)
    requires StrictlySorted(a, tie) && multiset(a) == multiset(Timeline(slots, tie))
    ensures SortedTimeline(slots, tie) == a
  {
    SortedUnique(a, SortedTimeline(slots, tie), tie);
  }

  lemma AsWrittenSorted()
    ensures StrictlySorted(AsWritten(), StartsFirst)
  {
  }

  lemma AsIntendedSorted()
    ensures StrictlySorted(AsIntended(), EndsFirst)
  {
  }

  lemma AsWrittenPoints()
    ensures multiset(AsWritten()) == multiset(Timeline(Day(), StartsFirst))
  {
    DayTimeline(StartsFirst);
  }

  lemma AsWrittenTimeline()
    ensures SortedTimeline(Day(), StartsFirst) == AsWritten()
  {
    AsWrittenSorted();
    AsWrittenPoints();
    SortedTimelineIs(Day(), StartsFirst, AsWritten());
  }

  lemma AsIntendedTimeline()
    ensures SortedTimeline(Day(), EndsFirst) == AsIntended()
  {
    AsIntendedSorted();
    DayTimeline(EndsFirst);
    SortedTimelineIs(Day(), EndsFirst, AsIntended());
  }

  /** The active set after one more point. */
  lemma ActiveStep(pts: seq<Point>, i: nat)
    requires 0 < i <= |pts|
    ensures Active(pts[..i]) == Step(Active(pts[..i - 1]), pts[i - 1])
  {
    assert pts[..i][..i - 1] == pts[..i - 1];
  }

  lemma AsWrittenActive()
    ensures Active(AsWritten()[..1]) == {1}
    ensures Active(AsWritten()[..3]) == {}
  {
    var w := AsWritten();
    assert w[..0] == [];
    ActiveStep(w, 1);
    ActiveStep(w, 2);
    ActiveStep(w, 3);
  }

  lemma AsIntendedActive()
    ensures Active(AsIntended()[..1]) == {1}
    ensures Active(AsIntended()[..3]) == {1}
  {
    var w := AsIntended();
    assert w[..0] == [];
    ActiveStep(w, 1);
    ActiveStep(w, 2);
    ActiveStep(w, 3);
  }

  /** The blocks of a four-point timeline from its points' blocks. */
  lemma FourSegments(pts: seq<Point>, required: int)
    requires |pts| == 4
    ensures Segments(pts, 4, required) ==
      Emitted(pts, 0, required) + Emitted(pts, 1, required) + Emitted(pts, 2, required) + Emitted(pts, 3, required)
  {
    assert Segments(pts, 1, required) == Emitted(pts, 0, required);
  }

  lemma AsWrittenEmitted()
    ensures Emitted(AsWritten(), 0, 60) == [] && Emitted(AsWritten(), 1, 60) == [Block(540, 600, 1)]
    ensures Emitted(AsWritten(), 2, 60) == [] && Emitted(AsWritten(), 3, 60) == []
  {
    AsWrittenActive();
  }

  lemma AsIntendedEmitted()
    ensures Emitted(AsIntended(), 0, 60) == [] && Emitted(AsIntended(), 1, 60) == [Block(540, 600, 1)]
    ensures Emitted(AsIntended(), 2, 60) == [] && Emitted(AsIntended(), 3, 60) == [Block(600, 660, 1)]
  {
    AsIntendedActive();
  }

  lemma AsWrittenSegments()
    ensures Segments(AsWritten(), 4, 60) == [Block(540, 600, 1)]
  {
    AsWrittenEmitted();
    FourSegments(AsWritten(), 60);
  }

  lemma AsIntendedSegments()
    ensures Segments(AsIntended(), 4, 60) == [Block(540, 600, 1), Block(600, 660, 1)]
  {
    AsIntendedEmitted();
    FourSegments(AsIntended(), 60);
  }

  /** As written, user 1's second hour is not reported. */
  lemma AsWrittenCoverage()
    ensures CoverageOf(Day(), 60, StartsFirst) == [Block(540, 600, 1)]
  {
    AsWrittenTimeline();
    AsWrittenSegments();
  }

  /** As intended, both hours are. */
  lemma AsIntendedCoverage()
    ensures CoverageOf(Day(), 60, EndsFirst) == [Block(540, 600, 1), Block(600, 660, 1)]
  {
    AsIntendedTimeline();
    AsIntendedSegments();
  }

  /** User 1 is free for the whole of 10:00-11:00. */
  lemma DaySupporters()
    ensures Supporters(Day(), 600, 660) == {1}
  {
    var d := Day();
    assert d[1].uid == 1;
  }

  lemma DayNoOverlap()
    ensures NoOverlapPerUser(Day())
  {
  }

  /** Taking starts first, a day whose intervals satisfy the hypothesis of
      `CoverageComplete` loses an hour during which its user is free. */
  lemma StartsFirstLosesHour()
    ensures NoOverlapPerUser(Day())
    ensures Supporters(Day(), 600, 660) == {1}
    ensures forall b :: b in CoverageOf(Day(), 60, StartsFirst) ==> b.end <= 600
  {
    DayNoOverlap();
    AsWrittenCoverage();
    DaySupporters();
  }

  /** Taking ends first, the same day is reported in full. */
  lemma EndsFirstKeepsHour()
    ensures Block(600, 660, 1) in CoverageOf(Day(), 60, EndsFirst)
  {
    AsIntendedCoverage();
  }

  // ---------------------------------------------------------------------------
  // The same day through `calculate_common_slots`

  /** One participant's two records for one date of a one-off event, 9:00-10:00 and
      10:00-11:00. */
  function DayRecords(d: Calendar.Date): seq<CommonSlots.Availability> {
    [CommonSlots.Availability(1, Some(d), None, 540, 600), CommonSlots.Availability(1, Some(d), None, 600, 660)]
  }

  /** The records file `Day()` under their date and nothing under any other key. */
  lemma RecordsDay(d: Calendar.Date, key: CommonSlots.DayKey)
    ensures CommonSlots.DayKeys(false, DayRecords(d)) == [CommonSlots.OnDate(d)]
    ensures CommonSlots.DaySlots(false, DayRecords(d), key) ==
      if key == CommonSlots.OnDate(d) then Day() else []
  {
    var avs := DayRecords(d);
    assert avs[..1][..0] == [] && avs[..1] == [avs[0]];
    assert CommonSlots.DayKeys(false, avs[..1]) == [CommonSlots.OnDate(d)];
    assert CommonSlots.DaySlots(false, avs[..1], key) ==
      if key == CommonSlots.OnDate(d) then [Slot(540, 600, 1)] else [];
  }

  /** Before sorting, the calculation holds the date's blocks and nothing else. */
  lemma RecordsCollected(d: Calendar.Date, tie: TieBreak)
    ensures CommonSlots.Collected(false, DayRecords(d), 60, CommonSlots.DayKeys(false, DayRecords(d)), tie)
      == CommonSlots.Tagged(CommonSlots.OnDate(d), CoverageOf(Day(), 60, tie))
  {
    var keys := [CommonSlots.OnDate(d)];
    RecordsDay(d, CommonSlots.OnDate(d));
    assert keys[..0] == [];
  }

  /** The calculation succeeds on these records whatever the tie-break. */
  lemma RecordsOk(d: Calendar.Date, tie: TieBreak)
    ensures CommonSlots.CommonSlotsOf(Some(CommonSlots.Event(false, 60)), DayRecords(d), tie).Ok?
  {
    RecordsCollected(d, tie);
    OneDayOrderable(CommonSlots.OnDate(d), CoverageOf(Day(), 60, tie));
  }

  /** The blocks of a single day can always be sorted. */
  lemma OneDayOrderable(day: CommonSlots.DayKey, blocks: seq<Block>)
    ensures !CommonSlots.Unorderable(CommonSlots.Tagged(day, blocks))
  {
    var t := CommonSlots.Tagged(day, blocks);
    assert forall i :: 0 <= i < |t| ==> t[i].day == day;
  }

  /** Its blocks are exactly those the sweep finds for the date. */
  lemma RecordsResult(d: Calendar.Date, tie: TieBreak, cs: CommonSlots.CommonSlot)
    ensures var r := CommonSlots.CommonSlotsOf(Some(CommonSlots.Event(false, 60)), DayRecords(d), tie);
      r.Ok? && (cs in r.value <==> cs.day == CommonSlots.OnDate(d) && Block(cs.start, cs.end, cs.count) in CoverageOf(Day(), 60, tie))
  {
    RecordsOk(d, tie);
    RecordsDay(d, cs.day);
    CommonSlots.CoverageOfNone(60, tie);
    CommonSlots.CommonSlotsMembership(Some(CommonSlots.Event(false, 60)), DayRecords(d), cs, tie);
  }

  /** `calculate_common_slots` as written offers nothing after 10:00 on that date, although
      its one participant is free from 10:00 to 11:00 and asked for an hour. */
  lemma DriverLosesHour(d: Calendar.Date)
    ensures var r := CommonSlots.CommonSlotsOf(Some(CommonSlots.Event(false, 60)), DayRecords(d), StartsFirst);
      r.Ok? && forall cs :: cs in r.value ==> cs.end <= 600
  {
    var r := CommonSlots.CommonSlotsOf(Some(CommonSlots.Event(false, 60)), DayRecords(d), StartsFirst);
    RecordsOk(d, StartsFirst);
    forall cs | cs in r.value
      ensures cs.end <= 600
    {
      RecordsResult(d, StartsFirst, cs);
      StartsFirstLosesHour();
    }
  }

  /** The corrected calculation offers that hour. */
  lemma DriverKeepsHour(d: Calendar.Date)
    ensures var r := CommonSlots.CommonSlotsOf(Some(CommonSlots.Event(false, 60)), DayRecords(d), EndsFirst);
      r.Ok? && CommonSlots.CommonSlot(CommonSlots.OnDate(d), 600, 660, 1) in r.value
  {
    RecordsResult(d, EndsFirst, CommonSlots.CommonSlot(CommonSlots.OnDate(d), 600, 660, 1));
    EndsFirstKeepsHour();
  }
}
