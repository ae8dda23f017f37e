/** Fitting capacities of large packs into the 16-bit fields of the protocol. */
module Capacity {
  import opened Arith
  import opened Bytes
  import opened Wrappers

  /** The largest capacity of one module, in mAh. */
  const CAPACITY_MAX := 65000

  /** From here on the rounding up of the quotient wraps around 32 bits. */
  const WRAPS_FROM := 0x1_0000_0000 - CAPACITY_MAX + 1

  /** How many modules' worth of capacity, rounded up, in 32-bit arithmetic. */
  function Parts(total: u32): u32 {
    Wrap32(total + CAPACITY_MAX - 1) / CAPACITY_MAX
  }

  function Share(x: nat, parts: nat): nat
    requires parts > 0
  {
    x / parts
  }

  datatype Scaled = Scaled(total: u16, remain: u16)

  /** Both capacities divided by the same factor; None where the program divides by zero. */
  function ScaleCapacity(total: u32, remain: u32): Option<Scaled> {
    if total <= CAPACITY_MAX then Some(Scaled(total, Wrap16(remain)))
    else if Parts(total) == 0 then None
    else Some(Scaled(Wrap16(Share(total, Parts(total))), Wrap16(Share(remain, Parts(total)))))
  }

  function ModuleCount(capacity: u32): u8 {
    if capacity <= CAPACITY_MAX then 1 else if Parts(capacity) < 0xFF then Parts(capacity) else 0xFF
  }

  /** Rounded up exactly below the wrap, zero above it. */
  lemma PartsRoundUp(total: u32)
    ensures Parts(total) == 0 <==> total == 0 || total >= WRAPS_FROM
    ensures total < WRAPS_FROM ==> CAPACITY_MAX * (Parts(total) - 1) < total <= CAPACITY_MAX * Parts(total)
  {
  }

  /** Scaling divides by zero exactly for the last 64999 values of a 32-bit total. */
  lemma ScalingFails(total: u32, remain: u32)
    ensures ScaleCapacity(total, remain) == None <==> total >= WRAPS_FROM
  {
    PartsRoundUp(total);
  }

  /** For total == s * t + a and remain == s * r + b. */
  lemma CrossTerms(s: int, t: int, r: int, a: int, b: int)
    ensures r * (s * t + a) - (s * r + b) * t == r * a - b * t
  {
    assert r * (s * t) == s * r * t;
  }

  lemma ProductBelow(x: nat, y: nat, xMax: nat, yMax: nat)
    requires x <= xMax && y <= yMax
    ensures 0 <= x * y <= xMax * yMax
  {
    MulMonotone(x, y, yMax);
    MulMonotone(yMax, x, xMax);
  }

  /** Dividing two capacities by the same number and rounding down moves their ratio little. */
  lemma RatioSurvives(total: nat, remain: nat, s: nat)
    requires remain <= total && s > 0
    ensures remain / s <= total / s
    ensures var d := remain / s * total - remain * (total / s);
      0 - total / s * (s - 1) <= d <= total / s * (s - 1)
  {
    DivMonotone(remain, total, s);
    var t, r, a, b := total / s, remain / s, total % s, remain % s;
    CrossTerms(s, t, r, a, b);
    ProductBelow(r, a, t, s - 1);
    ProductBelow(t, b, t, s - 1);
  }

  /** A divisor of `total` that rounds up its quotient by 65000 keeps the ratio to one part in 65000. */
  lemma SmallError(total: nat, t: nat, s: nat, d: int)
    requires CAPACITY_MAX * (s - 1) < total && t > 0 && s > 0 && 0 - t * (s - 1) <= d <= t * (s - 1)
    ensures 0 - (total * t) < d * CAPACITY_MAX < total * t
  {
    MulMonotone(t, CAPACITY_MAX * (s - 1) + 1, total);
    assert t * (CAPACITY_MAX * (s - 1) + 1) == CAPACITY_MAX * (t * (s - 1)) + t;
  }

  /**
   The scaled capacities fit, stay in order, and their ratio differs from the true one by less
   than one part in 65000. Nothing changes for packs that fit already.
   */
  lemma ScalingKeepsCharge(total: u32, remain: u32)
    requires remain <= total < WRAPS_FROM
    ensures var c := ScaleCapacity(total, remain).value;
      && c.remain <= c.total <= CAPACITY_MAX
      && (total <= CAPACITY_MAX ==> c == Scaled(total, remain))
      && (total > 0 ==> RatioWithin(total, remain, c))
  {
    hide RatioWithin, ScaleCapacity, Parts, Share;
    if total > CAPACITY_MAX {
      PartsOfLarge(total);
      ScaledRatio(total, remain, Parts(total));
      ScaledLarge(total, remain);
    } else {
      ScaledSmall(total, remain);
      if total > 0 {
        SameRatio(total, remain);
      }
    }
  }

  /** Packs that fit are not scaled. */
  lemma ScaledSmall(total: u32, remain: u32)
    requires remain <= total <= CAPACITY_MAX
    ensures ScaleCapacity(total, remain) == Some(Scaled(total, remain))
  {
    hide Wrap16;
    NoWrap16(remain);
  }

  lemma PartsOfLarge(total: u32)
    requires CAPACITY_MAX < total < WRAPS_FROM
    ensures 1 < Parts(total) && CAPACITY_MAX * (Parts(total) - 1) < total <= CAPACITY_MAX * Parts(total)
  {
    PartsRoundUp(total);
  }

  /** Larger packs are divided by the number of their parts, and the shares fit 16 bits. */
  lemma ScaledLarge(total: u32, remain: u32)
    requires CAPACITY_MAX < total && 1 < Parts(total) && Share(remain, Parts(total)) <= Share(total, Parts(total)) <= CAPACITY_MAX
    ensures ScaleCapacity(total, remain) == Some(Scaled(Share(total, Parts(total)), Share(remain, Parts(total))))
  {
    hide Parts, Share, Wrap16;
    NoWrap16(Share(total, Parts(total)));
    NoWrap16(Share(remain, Parts(total)));
  }

  lemma NoWrap16(x: nat)
    requires x < 0x1_0000
    ensures Wrap16(x) == x
  {
  }

  lemma SameRatio(total: u16, remain: u16)
    requires total > 0
    ensures RatioWithin(total, remain, Scaled(total, remain))
  {
    ProductBelow(1, 1, total, total);
  }

  /** Less than one part in 65000 between remain / total before and after. */
  predicate RatioWithin(total: int, remain: int, c: Scaled) {
    var d := c.remain * total - remain * c.total;
    0 - total * c.total < d * CAPACITY_MAX < total * c.total
  }

  lemma ScaledRatio(total: nat, remain: nat, s: nat)
    requires remain <= total && 1 < s && CAPACITY_MAX * (s - 1) < total <= CAPACITY_MAX * s
    ensures Share(remain, s) <= Share(total, s) <= CAPACITY_MAX
    ensures RatioWithin(total, remain, Scaled(Share(total, s), Share(remain, s)))
  {
    RatioSurvives(total, remain, s);
    DivBetween(total, s, 1, CAPACITY_MAX);
    SmallError(total, total / s, s, remain / s * total - remain * (total / s));
  }

  /** Up to 16575 Ah the count is the capacity in modules, rounded up, and at least one. */
  lemma ModulesRoundUp(capacity: u32)
    requires capacity <= 0xFF * CAPACITY_MAX
    ensures var n := ModuleCount(capacity);
      1 <= n && CAPACITY_MAX * (n - 1) < (if capacity == 0 then 1 else capacity) <= CAPACITY_MAX * n
  {
    PartsRoundUp(capacity);
  }

  /** A module's share fits exactly below 255 modules of 65001 mAh; a battery gets no module exactly above the wrap. */
  lemma SharesFit(capacity: u32)
    ensures ModuleCount(capacity) == 0 <==> capacity >= WRAPS_FROM
    ensures capacity < WRAPS_FROM ==> (capacity / ModuleCount(capacity) <= CAPACITY_MAX <==> capacity < 0xFF * (CAPACITY_MAX + 1))
  {
    PartsRoundUp(capacity);
    if CAPACITY_MAX < capacity < WRAPS_FROM && Parts(capacity) < 0xFF {
      DivBetween(capacity, Parts(capacity), 1, CAPACITY_MAX);
    }
  }
}
