/** Trapezoidal energy over power samples: Wh in and out of a battery. Reals stand for doubles. */
module Energy {
  import opened Samples

  datatype Point = Point(ts: Time, power: real)

  /** P [W] = mV / 1000 * mA / 1000 */
  function PointOf(ts: Time, r: Reading): Point {
    Point(ts, r.voltageMv as real * r.currentMa as real / 1_000_000.0)
  }

  function Segment(a: Point, b: Point): real {
    (a.power + b.power) / 2.0 * ((b.ts - a.ts) as real / 3_600_000.0)
  }

  function LastSegment(p: seq<Point>): real
    requires |p| >= 2
  {
    Segment(p[|p| - 2], p[|p| - 1])
  }

  function Charged(p: seq<Point>): real {
    if |p| < 2 then 0.0
    else Charged(p[..|p| - 1]) + if LastSegment(p) > 0.0 then LastSegment(p) else 0.0
  }

  function Discharged(p: seq<Point>): real {
    if |p| < 2 then 0.0
    else Discharged(p[..|p| - 1]) + if LastSegment(p) > 0.0 then 0.0 else -LastSegment(p)
  }

  /** The trapezoid over all points. */
  function Net(p: seq<Point>): real {
    if |p| < 2 then 0.0 else Net(p[..|p| - 1]) + LastSegment(p)
  }

  /** The loop of the aggregation over one day's rows. */
  method Integrate(p: seq<Point>) returns (charged: real, discharged: real)
    ensures charged == Charged(p) && discharged == Discharged(p)
  {
    charged, discharged := 0.0, 0.0;
    var prevTs, prevPower, hasPrev := 0, 0.0, false;
    for i := 0 to |p|
      invariant hasPrev == (i > 0)
      invariant i > 0 ==> prevTs == p[i - 1].ts && prevPower == p[i - 1].power
      invariant charged == Charged(p[..i]) && discharged == Discharged(p[..i])
    {
      var ts, power := p[i].ts, p[i].power;
      if hasPrev {
        var hours := (ts - prevTs) as real / 3_600_000.0;
        var wh := (prevPower + power) / 2.0 * hours;
        assert p[..i + 1][..i] == p[..i] && wh == LastSegment(p[..i + 1]);
        if wh > 0.0 {
          charged := charged + wh;
        } else {
          discharged := discharged - wh;
        }
      }
      prevTs, prevPower, hasPrev := ts, power, true;
    }
    assert p[..|p|] == p;
  }

  /** Both totals are non-negative, and their difference is the trapezoid. */
  lemma {:induction false} ChargedMinusDischargedIsNet(p: seq<Point>)
    ensures Charged(p) >= 0.0 && Discharged(p) >= 0.0
    ensures Charged(p) - Discharged(p) == Net(p)
  {
    if |p| >= 2 {
      ChargedMinusDischargedIsNet(p[..|p| - 1]);
    }
  }

  function DayOf(ts: Time): int {
    ts / DAY_MS
  }

  /** The points of one day. */
  function DayPart(p: seq<Point>, day: int): seq<Point> {
    if p == [] then []
    else DayPart(p[..|p| - 1], day) + if DayOf(p[|p| - 1].ts) == day then [p[|p| - 1]] else []
  }

  /** The segments that cross a midnight. */
  function Crossing(p: seq<Point>): real {
    if |p| < 2 then 0.0
    else
      Crossing(p[..|p| - 1])
      + if DayOf(p[|p| - 2].ts) == DayOf(p[|p| - 1].ts) then 0.0 else LastSegment(p)
  }

  /** The nets of the days from 0 up to `days`. */
  function DailyNets(p: seq<Point>, days: nat): real {
    if days == 0 then 0.0 else DailyNets(p, days - 1) + Net(DayPart(p, days - 1))
  }

  ghost predicate InOrder(p: seq<Point>) {
    forall i, j :: 0 <= i < j < |p| ==> p[i].ts < p[j].ts
  }

  lemma {:induction false} DayPartEndsWithLast(p: seq<Point>, day: int)
    requires InOrder(p) && p != [] && DayOf(p[|p| - 1].ts) <= day
    ensures DayOf(p[|p| - 1].ts) == day ==> DayPart(p, day) != [] && DayPart(p, day)[|DayPart(p, day)| - 1] == p[|p| - 1]
    ensures DayOf(p[|p| - 1].ts) < day ==> DayPart(p, day) == []
  {
    if |p| > 1 {
      DayMonotone(p[|p| - 2].ts, p[|p| - 1].ts);
      DayPartEndsWithLast(p[..|p| - 1], day);
    }
  }

  lemma DayMonotone(a: Time, b: Time)
    requires a <= b
    ensures DayOf(a) <= DayOf(b)
  {
  }

  lemma NetGrows(part: seq<Point>, x: Point)
    ensures Net(part + [x]) == Net(part) + if part == [] then 0.0 else Segment(part[|part| - 1], x)
  {
    hide Segment, Net;
    NetOfLast(part + [x]);
    assert (part + [x])[..|part|] == part;
  }

  lemma NetOfLast(p: seq<Point>)
    requires p != []
    ensures Net(p) == Net(p[..|p| - 1]) + if |p| == 1 then 0.0 else Segment(p[|p| - 2], p[|p| - 1])
  {
    hide Segment;
  }

  lemma LastPointJoinsDay(p: seq<Point>, day: int)
    requires p != []
    ensures var part := DayPart(p[..|p| - 1], day);
      DayPart(p, day) == if DayOf(p[|p| - 1].ts) == day then part + [p[|p| - 1]] else part
  {
  }

  /** On the day of the last point its net grows by the last segment, if that stays within the day. */
  lemma LastPointAddsSegment(p: seq<Point>)
    requires InOrder(p) && |p| >= 2
    ensures var day := DayOf(p[|p| - 1].ts);
      Net(DayPart(p, day)) == Net(DayPart(p[..|p| - 1], day)) + if DayOf(p[|p| - 2].ts) == day then LastSegment(p) else 0.0
  {
    hide Net, Segment, DayPart, DayOf;
    var q, day := p[..|p| - 1], DayOf(p[|p| - 1].ts);
    LastPointJoinsDay(p, day);
    DayMonotone(p[|p| - 2].ts, p[|p| - 1].ts);
    DayPartEndsWithLast(q, day);
    NetGrows(DayPart(q, day), p[|p| - 1]);
  }

  /** Adding a last point changes only its own day's net. */
  lemma {:induction false} LastPointAddsToItsDay(p: seq<Point>, days: nat)
    requires InOrder(p) && |p| >= 2 && 0 <= p[0].ts
    ensures var q := p[..|p| - 1]; var day := DayOf(p[|p| - 1].ts);
      DailyNets(p, days) == DailyNets(q, days)
        + if day < days && DayOf(p[|p| - 2].ts) == day then LastSegment(p) else 0.0
  {
    hide Net, LastSegment, DayPart;
    DayIsNatural(p);
    if days > 0 {
      LastPointAddsToItsDay(p, days - 1);
      LastPointAddsSegment(p);
      LastPointJoinsDay(p, days - 1);
    }
  }

  lemma DayIsNatural(p: seq<Point>)
    requires InOrder(p) && p != [] && 0 <= p[0].ts
    ensures DayOf(p[|p| - 1].ts) >= 0
  {
  }

  lemma {:induction false} SinglePointHasNoNet(p: seq<Point>, days: nat)
    requires |p| <= 1
    ensures DailyNets(p, days) == 0.0
  {
    if days > 0 {
      SinglePointHasNoNet(p, days - 1);
      if |p| == 1 { assert DayPart(p[..0], days - 1) == []; }
    }
  }

  /** Daily nets and the segments across midnights together are the trapezoid of the whole history. */
  lemma {:induction false} DaysAndCrossingsAreWhole(p: seq<Point>, days: nat)
    requires InOrder(p)
    requires forall i :: 0 <= i < |p| ==> 0 <= p[i].ts && DayOf(p[i].ts) < days
    ensures DailyNets(p, days) + Crossing(p) == Net(p)
  {
    if |p| < 2 {
      SinglePointHasNoNet(p, days);
    } else {
      DaysAndCrossingsAreWhole(p[..|p| - 1], days);
      LastPointAddsToItsDay(p, days);
    }
  }

  // ---- The trapezoid -------------------------------------------------------------

  /** `m` lies strictly between `a` and `b` in time, on the straight line between their powers. */
  predicate OnLine(a: Point, m: Point, b: Point) {
    && a.ts < m.ts < b.ts
    && (m.power - a.power) * ((b.ts - a.ts) as real) == (b.power - a.power) * ((m.ts - a.ts) as real)
  }

  /** Twice the area under a line over `t`, cut at `u`. */
  lemma AreaSplits(p: real, q: real, m: real, t: real, u: real)
    requires (m - p) * t == (q - p) * u
    ensures (p + m) * u + (m + q) * (t - u) == (p + q) * t
  {
    calc {
      (p + m) * u + (m + q) * (t - u);
      p * u + m * t + q * t - q * u;
      == { assert m * t == p * t + q * u - p * u; }
      p * t + q * t;
    }
  }

  lemma SegmentIsArea(a: Point, b: Point)
    ensures Segment(a, b) * 7_200_000.0 == (a.power + b.power) * ((b.ts - a.ts) as real)
  {
    var s, d := a.power + b.power, (b.ts - a.ts) as real;
    Rescaled(s, d);
  }

  lemma Rescaled(s: real, d: real)
    ensures s / 2.0 * (d / 3_600_000.0) * 7_200_000.0 == s * d
  {
    var h, k := s / 2.0, d / 3_600_000.0;
    assert s == 2.0 * h && d == 3_600_000.0 * k;
    assert h * k * 7_200_000.0 == (2.0 * h) * (3_600_000.0 * k);
  }

  lemma SegmentSplits(a: Point, m: Point, b: Point)
    requires OnLine(a, m, b)
    ensures Segment(a, m) + Segment(m, b) == Segment(a, b)
  {
    hide Segment;
    SegmentIsArea(a, m);
    SegmentIsArea(m, b);
    SegmentIsArea(a, b);
    var t, u := (b.ts - a.ts) as real, (m.ts - a.ts) as real;
    assert t - u == (b.ts - m.ts) as real;
    AreaSplits(a.power, b.power, m.power, t, u);
  }

  lemma {:induction false} NetJoins(p: seq<Point>, q: seq<Point>)
    requires p != [] && q != []
    ensures Net(p + q) == Net(p) + Segment(p[|p| - 1], q[0]) + Net(q)
    decreases |q|
  {
    hide Segment, Net;
    var init, x := q[..|q| - 1], q[|q| - 1];
    assert init + [x] == q;
    NetGrows(init, x);
    if init == [] {
      assert p + q == p + [x];
      NetGrows(p, x);
      NoNet(init);
    } else {
      NetJoins(p, init);
      assert p + q == (p + init) + [x];
      NetGrows(p + init, x);
    }
  }

  lemma NoNet(p: seq<Point>)
    requires |p| < 2
    ensures Net(p) == 0.0
  {
  }

  /** A sample on the straight line between its neighbours adds nothing: the net is the area under the line through the points. */
  lemma LinePointAddsNothing(p: seq<Point>, i: nat, m: Point)
    requires 0 < i < |p| && OnLine(p[i - 1], m, p[i])
    ensures var q := p[..i] + [m] + p[i..];
      Net(q) == Net(p) && Charged(q) - Discharged(q) == Charged(p) - Discharged(p)
  {
    hide Segment, Net, OnLine, Charged, Discharged;
    var before, after := p[..i], p[i..];
    assert before + after == p;
    LinePointKeepsNet(before, m, after);
    ChargedMinusDischargedIsNet(p);
    ChargedMinusDischargedIsNet(before + [m] + after);
  }

  lemma LinePointKeepsNet(before: seq<Point>, m: Point, after: seq<Point>)
    requires before != [] && after != [] && OnLine(before[|before| - 1], m, after[0])
    ensures Net(before + [m] + after) == Net(before + after)
  {
    hide Segment, Net, OnLine;
    NetJoins(before, after);
    NetJoins(before + [m], after);
    NetGrows(before, m);
    SegmentSplits(before[|before| - 1], m, after[0]);
  }

  /** Energy in Wh of `mv` and `ma` over `ms`. */
  function EnergyOf(mv: int, ma: int, ms: int): real {
    (mv * ma * ms) as real / 3_600_000_000_000.0
  }

  ghost predicate Constant(p: seq<Point>, mv: int, ma: int) {
    forall i :: 0 <= i < |p| ==> p[i] == PointOf(p[i].ts, Reading(mv, ma))
  }

  lemma ConstantSegment(a: Point, b: Point, mv: int, ma: int)
    requires a == PointOf(a.ts, Reading(mv, ma)) && b == PointOf(b.ts, Reading(mv, ma))
    ensures Segment(a, b) == EnergyOf(mv, ma, b.ts - a.ts)
  {
    SegmentIsArea(a, b);
    var w, d := a.power, (b.ts - a.ts) as real;
    assert w == mv as real * ma as real / 1_000_000.0;
    ProductAsReal(mv, ma, b.ts - a.ts);
    hide Segment;
    assert Segment(a, b) * 7_200_000.0 == (w + w) * d;
    assert (w + w) * d == 2.0 * (w * d);
    assert (w * 1_000_000.0) * d == (mv * ma * (b.ts - a.ts)) as real;
    assert (w * 1_000_000.0) * d == (w * d) * 1_000_000.0;
  }

  lemma ProductAsReal(x: int, y: int, z: int)
    ensures (x as real) * (y as real) * (z as real) == (x * y * z) as real
  {
    assert (x as real) * (y as real) == (x * y) as real;
  }

  lemma EnergyAdds(mv: int, ma: int, d: int, e: int)
    ensures EnergyOf(mv, ma, d) + EnergyOf(mv, ma, e) == EnergyOf(mv, ma, d + e)
  {
    assert mv * ma * (d + e) == mv * ma * d + mv * ma * e;
  }

  lemma EnergyHasSign(mv: int, ma: int, d: int)
    requires mv >= 0 && d >= 0
    ensures ma >= 0 ==> EnergyOf(mv, ma, d) >= 0.0
    ensures ma <= 0 ==> EnergyOf(mv, ma, d) <= 0.0
  {
    var x := mv * d;
    assert mv * ma * d == x * ma;
    if ma >= 0 { assert x * ma >= 0; } else { assert x * (0 - ma) >= 0; }
  }

  /** Constant voltage and current: all of it charge for a current into the battery, all discharge for one out of it. */
  lemma {:induction false} ConstantEnergy(p: seq<Point>, mv: int, ma: int)
    requires p != [] && Constant(p, mv, ma) && InOrder(p) && mv >= 0
    ensures var d := p[|p| - 1].ts - p[0].ts;
      && Net(p) == EnergyOf(mv, ma, d)
      && (ma >= 0 ==> Charged(p) == EnergyOf(mv, ma, d) && Discharged(p) == 0.0)
      && (ma <= 0 ==> Charged(p) == 0.0 && Discharged(p) == 0.0 - EnergyOf(mv, ma, d))
  {
    hide Segment, EnergyOf, PointOf;
    var n := |p| - 1;
    ZeroEnergy(mv, ma);
    if n > 0 {
      ConstantEnergy(p[..n], mv, ma);
      ConstantSegment(p[n - 1], p[n], mv, ma);
      EnergyAdds(mv, ma, p[n - 1].ts - p[0].ts, p[n].ts - p[n - 1].ts);
      EnergyHasSign(mv, ma, p[n].ts - p[n - 1].ts);
    }
  }

  lemma ZeroEnergy(mv: int, ma: int)
    ensures EnergyOf(mv, ma, 0) == 0.0
  {
  }
}
