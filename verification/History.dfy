/**
 The history store: raw samples, one energy row per battery and closed UTC day, and the
 periodic aggregation that fills the rows and purges old samples.
 Days are numbered from the epoch; the row of a day is keyed by that number.
 */
module History {
  import opened Arith
  import opened Samples
  import opened Energy

  type Key = (BatteryId, int)

  datatype DailyEnergy = DailyEnergy(charged: real, discharged: real)

  type Daily = map<Key, DailyEnergy>

  /** Today's midnight. */
  function Today(now: Time): Time {
    now / DAY_MS * DAY_MS
  }

  /** Battery-days before today with a sample and without a row. */
  function Pending(t: Table, daily: Daily, today: Time): set<Key> {
    set k | k in t && k.1 < today && (k.0, DayOf(k.1)) !in daily :: (k.0, DayOf(k.1))
  }

  function PointsAt(t: Table, battery: BatteryId, times: seq<Time>): seq<Point>
    requires forall x :: x in times ==> (battery, x) in t
  {
    seq(|times|, i requires 0 <= i < |times| => PointOf(times[i], t[(battery, times[i])]))
  }

  /** A battery's power points in a window, oldest first. */
  function PointsBetween(t: Table, battery: BatteryId, from: Time, to: Time): seq<Point> {
    PointsAt(t, battery, OldestFirst(Between(t, battery, from, to)))
  }

  function DayPoints(t: Table, k: Key): seq<Point> {
    PointsBetween(t, k.0, k.1 * DAY_MS, k.1 * DAY_MS + DAY_MS)
  }

  function DayEnergy(t: Table, k: Key): DailyEnergy {
    DailyEnergy(Charged(DayPoints(t, k)), Discharged(DayPoints(t, k)))
  }

  /** The samples that are left when the ones before a time are deleted. */
  function Purged(t: Table, before: Time): Table {
    map k | k in t && k.1 >= before :: t[k]
  }

  /** The rows with those of the given battery-days added. */
  function WithRows(t: Table, daily: Daily, days: set<Key>): Daily {
    daily + map k | k in days :: DayEnergy(t, k)
  }

  lemma OneMoreRow(t: Table, daily: Daily, days: set<Key>, k: Key)
    ensures WithRows(t, daily, days)[k := DayEnergy(t, k)] == WithRows(t, daily, days + {k})
  {
    hide DayEnergy;
  }

  lemma NoMoreRows(t: Table, daily: Daily)
    ensures WithRows(t, daily, {}) == daily
  {
    hide DayEnergy;
  }

  /** aggregate_pending(): rows for all pending days, then the purge; nothing at all if no day is pending. */
  function Aggregate(t: Table, daily: Daily, now: Time): (Table, Daily) {
    var pending := Pending(t, daily, Today(now));
    if pending == {} then (t, daily)
    else (Purged(t, Today(now) - 8 * DAY_MS), WithRows(t, daily, pending))
  }

  class History {
    var samples: Table
    var daily: Daily

    constructor ()
      ensures samples == map[] && daily == map[]
    {
      samples, daily := map[], map[];
    }

    method Append(battery: BatteryId, ts: Time, reading: Reading)
      modifies this
      ensures samples == old(samples)[(battery, ts) := reading] && daily == old(daily)
    {
      samples := samples[(battery, ts) := reading];
    }

    method AggregatePending(now: Time)
      modifies this
      ensures (samples, daily) == Aggregate(old(samples), old(daily), now)
    {
      hide DayPoints, Charged, Discharged, WithRows;
      NoMoreRows(samples, daily);
      var today := now / DAY_MS * DAY_MS;
      var purge := today - 8 * DAY_MS;
      var pending := Pending(samples, daily, today);
      if pending == {} {
        return;
      }
      var left := pending;
      assert pending - left == {};
      while left != {}
        invariant left <= pending && samples == old(samples)
        invariant daily == WithRows(samples, old(daily), pending - left)
        decreases left
      {
        var k :| k in left;
        var charged, discharged := Integrate(DayPoints(samples, k));
        OneMoreRow(samples, old(daily), pending - left, k);
        assert pending - left + {k} == pending - (left - {k});
        daily := daily[k := DailyEnergy(charged, discharged)];
        left := left - {k};
      }
      assert pending - left == pending;
      samples := map k | k in samples && k.1 >= purge :: samples[k];
    }
  }

  // ---- Histories ---------------------------------------------------------------

  /** The store, the clock, and every sample ever appended. */
  datatype World = World(samples: Table, daily: Daily, clock: Time, ever: Table)

  datatype Event =
    | Append(battery: BatteryId, reading: Reading)
    | Tick(ms: nat)
    | AggregatePending

  /** Samples carry the time of their append, and a battery has at most one per millisecond. */
  predicate Possible(w: World, e: Event) {
    e.Append? ==> (e.battery, w.clock) !in w.ever
  }

  function Do(w: World, e: Event): World {
    match e
    case Append(b, r) => w.(samples := w.samples[(b, w.clock) := r], ever := w.ever[(b, w.clock) := r])
    case Tick(ms) => w.(clock := w.clock + ms)
    case AggregatePending =>
      var (samples, daily) := Aggregate(w.samples, w.daily, w.clock);
      w.(samples := samples, daily := daily)
  }

  ghost predicate Run(run: seq<World>, events: seq<Event>) {
    && |run| == |events| + 1
    && forall i :: 0 <= i < |events| ==> Possible(run[i], events[i]) && run[i + 1] == Do(run[i], events[i])
  }

  predicate Initial(w: World) {
    w.samples == map[] && w.daily == map[] && w.ever == map[] && w.clock >= 0
  }

  ghost predicate RowOk(w: World, k: Key)
    requires k in w.daily
  {
    && k.1 < DayOf(w.clock)
    && w.daily[k] == DayEnergy(w.ever, k)
    && exists x :: (k.0, x) in w.ever && DayOf(x) == k.1
  }

  /** A sample has been purged properly: its day has a row and is long over. */
  predicate PurgedOk(daily: Daily, today: Time, k: (BatteryId, Time)) {
    (k.0, DayOf(k.1)) in daily && k.1 < today - 8 * DAY_MS
  }

  ghost predicate TimesOk(w: World) {
    forall k :: k in w.ever ==> 0 <= k.1 <= w.clock
  }

  ghost predicate SamplesOk(w: World) {
    forall k :: k in w.samples ==> k in w.ever && w.samples[k] == w.ever[k]
  }

  ghost predicate RowsOk(w: World) {
    forall k :: k in w.daily ==> RowOk(w, k)
  }

  ghost predicate PurgesOk(w: World, today: Time) {
    forall k :: k in w.ever && k !in w.samples ==> PurgedOk(w.daily, today, k)
  }

  ghost predicate Inv(w: World) {
    && w.clock >= 0
    && TimesOk(w)
    && SamplesOk(w)
    && PurgesOk(w, Today(w.clock))
    && RowsOk(w)
  }

  lemma DayBounds(x: Time, day: int)
    ensures day * DAY_MS <= x < day * DAY_MS + DAY_MS <==> DayOf(x) == day
  {
  }

  /** The samples a day's query selects. */
  lemma DayTimes(t: Table, k: Key)
    ensures Between(t, k.0, k.1 * DAY_MS, k.1 * DAY_MS + DAY_MS) == set s | s in t && s.0 == k.0 && DayOf(s.1) == k.1 :: s.1
  {
    forall s: (BatteryId, Time) | s in t ensures k.1 * DAY_MS <= s.1 < k.1 * DAY_MS + DAY_MS <==> DayOf(s.1) == k.1 {
      DayBounds(s.1, k.1);
    }
  }

  /** A battery-day looks the same in two tables that agree on its samples. */
  lemma SameDay(t: Table, u: Table, k: Key)
    requires forall s: (BatteryId, Time) :: s.0 == k.0 && DayOf(s.1) == k.1 ==> (s in t <==> s in u) && (s in t ==> t[s] == u[s])
    ensures DayPoints(t, k) == DayPoints(u, k) && DayEnergy(t, k) == DayEnergy(u, k)
  {
    hide DayOf;
    DayTimes(t, k);
    DayTimes(u, k);
    assert (set s | s in t && s.0 == k.0 && DayOf(s.1) == k.1 :: s.1) == (set s | s in u && s.0 == k.0 && DayOf(s.1) == k.1 :: s.1);
    var times := OldestFirst(Between(t, k.0, k.1 * DAY_MS, k.1 * DAY_MS + DAY_MS));
    assert forall i :: 0 <= i < |times| ==> times[i] in times;
  }

  /** An append falls on the current day, which has no row yet. */
  lemma AppendKeepsInv(w: World, b: BatteryId, r: Reading)
    requires Inv(w) && Possible(w, Append(b, r))
    ensures Inv(Do(w, Append(b, r)))
  {
    hide DayPoints, DayEnergy;
    var w' := Do(w, Append(b, r));
    forall k | k in w'.daily ensures RowOk(w', k) {
      assert RowOk(w, k);
      SameDay(w.ever, w'.ever, k);
      var x :| (k.0, x) in w.ever && DayOf(x) == k.1;
      assert (k.0, x) in w'.ever;
    }
  }

  lemma TodayGrows(now: Time, later: Time)
    requires now <= later
    ensures DayOf(now) <= DayOf(later) && Today(now) <= Today(later)
  {
    DivMonotone(now, later, DAY_MS);
  }

  lemma RowsStayOk(w: World, w': World)
    requires RowsOk(w) && w'.daily == w.daily && w'.ever == w.ever && DayOf(w.clock) <= DayOf(w'.clock)
    ensures RowsOk(w')
  {
    hide DayOf, RowOk;
    forall k | k in w'.daily ensures RowOk(w', k) {
      RowStaysOk(w, w', k);
    }
  }

  lemma SamplesStayOk(w: World, w': World, today: Time, later: Time)
    requires TimesOk(w) && SamplesOk(w) && PurgesOk(w, today)
    requires w'.daily == w.daily && w'.ever == w.ever && w'.samples == w.samples && w.clock <= w'.clock && today <= later
    ensures TimesOk(w') && SamplesOk(w') && PurgesOk(w', later)
  {
    hide DayOf;
  }

  lemma TickKeepsInv(w: World, ms: nat)
    requires Inv(w)
    ensures Inv(Do(w, Tick(ms)))
  {
    var w' := Do(w, Tick(ms));
    hide DayOf, Today, RowsOk, PurgesOk, TimesOk, SamplesOk;
    TodayGrows(w.clock, w'.clock);
    RowsStayOk(w, w');
    SamplesStayOk(w, w', Today(w.clock), Today(w'.clock));
  }

  lemma RowStaysOk(w: World, w': World, k: Key)
    requires k in w.daily && RowOk(w, k) && w'.daily == w.daily && w'.ever == w.ever && DayOf(w.clock) <= DayOf(w'.clock)
    ensures RowOk(w', k)
  {
    hide DayPoints, DayEnergy, DayOf;
  }

  /** A pending day has lost no sample, so its row is computed over all samples ever appended. */
  lemma PendingDayIsComplete(w: World, k: Key)
    requires Inv(w) && k in Pending(w.samples, w.daily, Today(w.clock))
    ensures k !in w.daily && k.1 < DayOf(w.clock)
    ensures DayEnergy(w.samples, k) == DayEnergy(w.ever, k)
    ensures exists x :: (k.0, x) in w.ever && DayOf(x) == k.1
  {
    hide DayPoints, DayEnergy;
    var s :| s in w.samples && s.1 < Today(w.clock) && (s.0, DayOf(s.1)) == k;
    assert (k.0, s.1) in w.ever;
    DayBounds(s.1, DayOf(w.clock));
    SameDay(w.samples, w.ever, k);
  }

  lemma AggregateKeepsRows(w: World, k: Key)
    requires Inv(w) && k in Do(w, AggregatePending).daily
    ensures RowOk(Do(w, AggregatePending), k)
  {
    hide DayPoints, DayEnergy, DayOf, Today;
    var pending := Pending(w.samples, w.daily, Today(w.clock));
    if k in pending {
      PendingDayIsComplete(w, k);
    } else {
      assert RowOk(w, k);
    }
  }

  lemma AggregateKeepsPurges(w: World, k: (BatteryId, Time))
    requires Inv(w) && k in w.ever && k !in Do(w, AggregatePending).samples
    ensures PurgedOk(Do(w, AggregatePending).daily, Today(w.clock), k)
  {
    hide DayPoints, DayEnergy, DayOf, Today, RowsOk;
    if k in w.samples && (k.0, DayOf(k.1)) !in w.daily {
      assert (k.0, DayOf(k.1)) in Pending(w.samples, w.daily, Today(w.clock));
    }
  }

  lemma AggregateKeepsInv(w: World)
    requires Inv(w)
    ensures Inv(Do(w, AggregatePending))
  {
    hide DayPoints, DayEnergy, DayOf, Today, RowOk, PurgedOk;
    var w' := Do(w, AggregatePending);
    forall k | k in w'.daily ensures RowOk(w', k) {
      AggregateKeepsRows(w, k);
    }
    forall k | k in w'.ever && k !in w'.samples
      ensures PurgedOk(w'.daily, Today(w'.clock), k)
    {
      AggregateKeepsPurges(w, k);
    }
  }

  lemma StepKeepsInv(w: World, e: Event)
    requires Inv(w) && Possible(w, e)
    ensures Inv(Do(w, e))
  {
    match e
    case Append(b, r) => AppendKeepsInv(w, b, r);
    case Tick(ms) => TickKeepsInv(w, ms);
    case AggregatePending => AggregateKeepsInv(w);
  }

  lemma {:induction false} RunKeepsInv(run: seq<World>, events: seq<Event>, i: nat)
    requires Run(run, events) && Initial(run[0]) && i < |run|
    ensures Inv(run[i])
  {
    if i > 0 {
      RunKeepsInv(run, events, i - 1);
      StepKeepsInv(run[i - 1], events[i - 1]);
    }
  }

  // ---- What a row holds ----------------------------------------------------------

  /** The first and the last of ascending times. */
  lemma Ends(times: seq<Time>, first: Time, last: Time)
    requires Ascending(times) && first in times && last in times && forall x :: x in times ==> first <= x <= last
    ensures times[0] == first && times[|times| - 1] == last
  {
    var i :| 0 <= i < |times| && times[i] == first;
    var j :| 0 <= j < |times| && times[j] == last;
    assert times[0] in times && times[|times| - 1] in times;
  }

  /** The day's points run from the first to the last sample of the day. */
  lemma DaySpan(t: Table, k: Key, first: Time, last: Time)
    requires DaySamples(t, k, first, last)
    ensures var p := DayPoints(t, k); p != [] && InOrder(p) && p[0].ts == first && p[|p| - 1].ts == last
    ensures forall i :: 0 <= i < |DayPoints(t, k)| ==>
              var q := DayPoints(t, k)[i]; first <= q.ts <= last && (k.0, q.ts) in t && q == PointOf(q.ts, t[(k.0, q.ts)])
  {
    hide PointOf, PointsAt, OldestFirst;
    var times := OldestFirst(Between(t, k.0, k.1 * DAY_MS, k.1 * DAY_MS + DAY_MS));
    Ends(times, first, last);
    PointsOfTimes(t, k.0, times, first, last);
  }

  lemma PointsOfTimes(t: Table, battery: BatteryId, times: seq<Time>, first: Time, last: Time)
    requires Ascending(times) && forall x :: x in times ==> (battery, x) in t && first <= x <= last
    ensures var p := PointsAt(t, battery, times);
      && |p| == |times| && InOrder(p)
      && (forall i :: 0 <= i < |p| ==> p[i].ts == times[i])
      && forall i :: 0 <= i < |p| ==>
           var q := p[i]; first <= q.ts <= last && (battery, q.ts) in t && q == PointOf(q.ts, t[(battery, q.ts)])
  {
    hide PointOf;
    TimesOfPoints(t, battery, times);
    assert forall i :: 0 <= i < |times| ==> times[i] in times;
  }

  lemma TimesOfPoints(t: Table, battery: BatteryId, times: seq<Time>)
    requires forall x :: x in times ==> (battery, x) in t
    ensures var p := PointsAt(t, battery, times);
      |p| == |times| && forall i :: 0 <= i < |times| ==> p[i] == PointOf(times[i], t[(battery, times[i])]) && p[i].ts == times[i]
  {
  }

  /** `first` and `last` are the first and the last sample of a battery on a day. */
  ghost predicate DaySamples(t: Table, k: Key, first: Time, last: Time) {
    var times := Between(t, k.0, k.1 * DAY_MS, k.1 * DAY_MS + DAY_MS);
    first in times && last in times && forall x :: x in times ==> first <= x <= last
  }

  /** A day of constant voltage and current: its row holds their product over the time between first and last sample. */
  lemma ConstantDay(t: Table, k: Key, first: Time, last: Time, mv: int, ma: int)
    requires DaySamples(t, k, first, last) && mv >= 0
    requires forall x :: first <= x <= last && (k.0, x) in t ==> t[(k.0, x)] == Reading(mv, ma)
    ensures var wh := EnergyOf(mv, ma, last - first);
      && (ma >= 0 ==> DayEnergy(t, k) == DailyEnergy(wh, 0.0))
      && (ma <= 0 ==> DayEnergy(t, k) == DailyEnergy(0.0, 0.0 - wh))
  {
    hide DayPoints, EnergyOf, Charged, Discharged, PointOf, DaySamples;
    DaySpan(t, k, first, last);
    var p := DayPoints(t, k);
    ConstantEnergy(p, mv, ma);
    assert p[|p| - 1].ts - p[0].ts == last - first;
    assert DayEnergy(t, k) == DailyEnergy(Charged(p), Discharged(p));
  }

  // ---- What every history guarantees -------------------------------------------

  /** A row, once written, keeps its value for the rest of the history. */
  lemma {:induction false} RowsAreNeverRewritten(run: seq<World>, events: seq<Event>, i: nat, j: nat, k: Key)
    requires Run(run, events) && Initial(run[0]) && i <= j < |run| && k in run[i].daily
    ensures k in run[j].daily && run[j].daily[k] == run[i].daily[k]
    decreases j
  {
    if i < j {
      RowsAreNeverRewritten(run, events, i, j - 1, k);
    }
  }

  /** At every moment each row is the energy of all samples ever appended on its day, and the day is over. */
  lemma RowsAreExact(run: seq<World>, events: seq<Event>, i: nat, k: Key)
    requires Run(run, events) && Initial(run[0]) && i < |run| && k in run[i].daily
    ensures k.1 < DayOf(run[i].clock)
    ensures run[i].daily[k] == DailyEnergy(Charged(DayPoints(run[i].ever, k)), Discharged(DayPoints(run[i].ever, k)))
    ensures exists x :: (k.0, x) in run[i].ever && DayOf(x) == k.1
  {
    RunKeepsInv(run, events, i);
    assert RowOk(run[i], k);
  }

  /** After an aggregation every closed day on which a sample was ever appended has its row. */
  lemma AggregationCoversClosedDays(run: seq<World>, events: seq<Event>, i: nat, battery: BatteryId, x: Time)
    requires Run(run, events) && Initial(run[0]) && i < |events| && events[i] == AggregatePending
    requires (battery, x) in run[i].ever && DayOf(x) < DayOf(run[i].clock)
    ensures (battery, DayOf(x)) in run[i + 1].daily
  {
    hide DayPoints, DayEnergy;
    RunKeepsInv(run, events, i);
    DayBounds(x, DayOf(run[i].clock));
    var w, k := run[i], (battery, DayOf(x));
    if k !in w.daily {
      assert (battery, x) in w.samples;
      TodayBounds(x, w.clock);
      assert k in Pending(w.samples, w.daily, Today(w.clock));
    }
  }

  /** A sample leaves the table only with its day's row in place and more than eight days old. */
  lemma PurgedOnlyAfterAggregation(run: seq<World>, events: seq<Event>, i: nat, k: (BatteryId, Time))
    requires Run(run, events) && Initial(run[0]) && i < |run| && k in run[i].ever
    ensures k in run[i].samples ==> run[i].samples[k] == run[i].ever[k]
    ensures k !in run[i].samples ==> (k.0, DayOf(k.1)) in run[i].daily && k.1 < Today(run[i].clock) - 8 * DAY_MS
  {
    RunKeepsInv(run, events, i);
  }

  /** The purge is skipped when no day is pending: old samples stay exactly then. */
  lemma PurgeRunsOnlyWithPendingDays(t: Table, daily: Daily, now: Time)
    ensures (forall k :: k in Aggregate(t, daily, now).0 ==> k.1 >= Today(now) - 8 * DAY_MS)
            <==> Pending(t, daily, Today(now)) != {} || (forall k :: k in t ==> k.1 >= Today(now) - 8 * DAY_MS)
  {
    hide DayEnergy;
  }

  // ---- Energy balance ----------------------------------------------------------

  function OnDay(times: set<Time>, day: int): set<Time> {
    set x | x in times && DayOf(x) == day
  }

  lemma PointsAtSnoc(t: Table, battery: BatteryId, times: seq<Time>, m: Time)
    requires forall x :: x in times + [m] ==> (battery, x) in t
    ensures forall x :: x in times ==> x in times + [m]
    ensures m in times + [m]
    ensures PointsAt(t, battery, times + [m]) == PointsAt(t, battery, times) + [PointOf(m, t[(battery, m)])]
  {
    assert (times + [m])[|times|] == m;
    assert forall i :: 0 <= i < |times| ==> (times + [m])[i] == times[i];
  }

  lemma NewestIsLast(times: set<Time>, m: Time)
    requires IsMax(times, m)
    ensures OldestFirst(times) == OldestFirst(times - {m}) + [m]
  {
  }

  /** Picking one day out of the sorted samples is sorting that day's samples. */
  lemma {:induction false} DayPartOfSorted(t: Table, battery: BatteryId, times: set<Time>, day: int)
    requires forall x :: x in times ==> (battery, x) in t
    ensures DayPart(PointsAt(t, battery, OldestFirst(times)), day) == PointsAt(t, battery, OldestFirst(OnDay(times, day)))
  {
    hide DayOf, OldestFirst, PointsAt;
    if times != {} {
      var m := Max(times);
      var rest := times - {m};
      DayPartOfSorted(t, battery, rest, day);
      NewestIsLast(times, m);
      PointsAtSnoc(t, battery, OldestFirst(rest), m);
      var p := PointsAt(t, battery, OldestFirst(times));
      assert p[..|p| - 1] == PointsAt(t, battery, OldestFirst(rest));
      if DayOf(m) == day {
        NewestIsLast(OnDay(times, day), m);
        assert OnDay(times, day) - {m} == OnDay(rest, day);
        PointsAtSnoc(t, battery, OldestFirst(OnDay(rest, day)), m);
      } else {
        assert OnDay(times, day) == OnDay(rest, day);
      }
    } else {
      assert OnDay(times, day) == {};
      NothingAt(t, battery);
    }
  }

  lemma NothingAt(t: Table, battery: BatteryId)
    ensures PointsAt(t, battery, OldestFirst({})) == []
  {
  }

  lemma {:induction false} PointsAreInOrder(t: Table, battery: BatteryId, from: Time, to: Time)
    ensures var p := PointsBetween(t, battery, from, to);
      InOrder(p) && forall i :: 0 <= i < |p| ==> from <= p[i].ts < to
  {
    var times := OldestFirst(Between(t, battery, from, to));
    assert forall i :: 0 <= i < |times| ==> times[i] in times;
  }

  /** All points before today's midnight. */
  function ClosedPoints(t: Table, battery: BatteryId, now: Time): seq<Point> {
    PointsBetween(t, battery, 0, Today(now))
  }

  lemma DayPartIsDay(t: Table, battery: BatteryId, now: Time, day: int)
    requires 0 <= day < DayOf(now)
    ensures DayPart(ClosedPoints(t, battery, now), day) == DayPoints(t, (battery, day))
  {
    hide DayOf, Today, OldestFirst, PointsAt;
    var times := Between(t, battery, 0, Today(now));
    DayPartOfSorted(t, battery, times, day);
    DayTimes(t, (battery, day));
    forall x | (battery, x) in t && DayOf(x) == day ensures 0 <= x < Today(now) {
      DayBounds(x, day);
      TodayBounds(x, now);
    }
    assert OnDay(times, day) == Between(t, battery, day * DAY_MS, day * DAY_MS + DAY_MS);
  }

  /** Charged minus discharged of a row; nothing for a day without one. */
  function RowNet(daily: Daily, k: Key): real {
    if k in daily then daily[k].charged - daily[k].discharged else 0.0
  }

  /** Over the rows of one battery for the days from 0 up to `days`. */
  function RowBalance(daily: Daily, battery: BatteryId, days: nat): real {
    if days == 0 then 0.0 else RowBalance(daily, battery, days - 1) + RowNet(daily, (battery, days - 1))
  }

  lemma EmptyDay(t: Table, k: Key)
    requires forall s: (BatteryId, Time) :: s in t && s.0 == k.0 ==> DayOf(s.1) != k.1
    ensures DayPoints(t, k) == []
  {
    hide DayOf;
    DayTimes(t, k);
    assert Between(t, k.0, k.1 * DAY_MS, k.1 * DAY_MS + DAY_MS) == {};
  }

  /** With all closed days aggregated, a row's balance is the net of its day, also where there is neither. */
  lemma RowIsNet(w: World, k: Key)
    requires Inv(w) && k.1 < DayOf(w.clock)
    requires forall s: (BatteryId, Time) :: s in w.ever && DayOf(s.1) < DayOf(w.clock) ==> (s.0, DayOf(s.1)) in w.daily
    ensures RowNet(w.daily, k) == Net(DayPoints(w.ever, k))
  {
    hide DayOf, DayPoints, Charged, Discharged, PurgedOk;
    if k in w.daily {
      assert RowOk(w, k);
      ChargedMinusDischargedIsNet(DayPoints(w.ever, k));
    } else {
      EmptyDay(w.ever, k);
    }
  }

  lemma {:induction false} RowsAreDailyNets(w: World, battery: BatteryId, days: nat)
    requires Inv(w) && days <= DayOf(w.clock)
    requires forall s: (BatteryId, Time) :: s in w.ever && DayOf(s.1) < DayOf(w.clock) ==> (s.0, DayOf(s.1)) in w.daily
    ensures RowBalance(w.daily, battery, days) == DailyNets(ClosedPoints(w.ever, battery, w.clock), days)
  {
    hide DayOf, DayPoints, ClosedPoints, Inv, RowNet, Net, DayPart;
    if days > 0 {
      RowsAreDailyNets(w, battery, days - 1);
      DayPartIsDay(w.ever, battery, w.clock, days - 1);
      RowIsNet(w, (battery, days - 1));
    }
  }

  /**
   After an aggregation the rows of a battery, together with the segments that cross a
   midnight, account for the trapezoid over its whole history up to today.
   */
  lemma RowsBalanceHistory(run: seq<World>, events: seq<Event>, i: nat, battery: BatteryId)
    requires Run(run, events) && Initial(run[0]) && i < |events| && events[i] == AggregatePending
    ensures DayOf(run[i + 1].clock) >= 0
    ensures var w := run[i + 1];
      RowBalance(w.daily, battery, DayOf(w.clock)) + Crossing(ClosedPoints(w.ever, battery, w.clock))
      == Net(ClosedPoints(w.ever, battery, w.clock))
  {
    hide DayPoints, DayEnergy, Pending, Aggregate;
    var w := run[i + 1];
    RunKeepsInv(run, events, i + 1);
    forall s: (BatteryId, Time) | s in w.ever && DayOf(s.1) < DayOf(w.clock)
      ensures (s.0, DayOf(s.1)) in w.daily
    {
      AggregationCoversClosedDays(run, events, i, s.0, s.1);
    }
    RowsAreDailyNets(w, battery, DayOf(w.clock));
    PointsAreInOrder(w.ever, battery, 0, Today(w.clock));
    var p := ClosedPoints(w.ever, battery, w.clock);
    forall j | 0 <= j < |p| ensures DayOf(p[j].ts) < DayOf(w.clock) {
      TodayBounds(p[j].ts, w.clock);
    }
    DaysAndCrossingsAreWhole(p, DayOf(w.clock));
  }

  lemma TodayBounds(x: Time, now: Time)
    ensures x < Today(now) <==> DayOf(x) < DayOf(now)
  {
  }
}
