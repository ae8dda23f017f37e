/**
 What each module advertises: telemetry and limits of its source battery, divided by the number
 of modules of the battery it belongs to, so that the inverter's sum comes back to the whole battery.
 */
module Advertising {
  import opened AddressMap
  import opened Arith
  import opened Bms
  import opened Bytes
  import opened Capacity
  import opened Config
  import opened Wrappers

  datatype Snapshot = Snapshot(cells: CellInfo, pack: PackInfo, limits: Settings)

  const RESERVE_C_RATE_TENTHS := 5

  /** Division that truncates towards zero. */
  function TruncDiv(a: int, n: int): int
    requires n > 0
  {
    if a >= 0 then a / n else 0 - (0 - a) / n
  }

  function Clamp16(v: int): i16 {
    if v > 32767 then 32767 else if v < -32768 then -32768 else v
  }

  /** The current limit of a reserve: 0.5C of its own capacity. */
  function ReserveLimit(b: Battery): u32 {
    Wrap32(CapacityMah(b) * RESERVE_C_RATE_TENTHS) / 10
  }

  /** A reserve shows its mirror with its own capacity at the mirror's state of charge, no current and its own limits. */
  function ForReserve(b: Battery, s: Snapshot): Snapshot {
    var cap := CapacityMah(b);
    s.(pack := s.pack.(total := cap, remaining := Wrap32((cap as int) * s.pack.soc) / 100, current := 0),
       limits := s.limits.(maxCharge := ReserveLimit(b), maxDischarge := ReserveLimit(b)))
  }

  function Sliced(s: Snapshot, n: Count): Snapshot {
    s.(pack := s.pack.(current := TruncDiv(s.pack.current, n),
                       remaining := Share(s.pack.remaining, n),
                       total := Share(s.pack.total, n)),
       limits := s.limits.(maxCharge := Share(s.limits.maxCharge, n), maxDischarge := Share(s.limits.maxDischarge, n)))
  }

  function ModuleView(slot: Slot, s: Snapshot): Snapshot {
    Sliced(if slot.mirror.Some? then ForReserve(slot.battery, s) else s, slot.modules)
  }

  // ---- The fields on the wire, in units of 100 mA -------------------------------

  function ChargeField(limits: Settings): i16 {
    Clamp16(limits.maxCharge / 100)
  }

  function DischargeField(limits: Settings): i16 {
    Clamp16(0 - limits.maxDischarge / 100)
  }

  function CurrentField(pack: PackInfo): i16 {
    Clamp16(TruncDiv(pack.current, 100))
  }

  // ---- One battery -------------------------------------------------------------

  /** A whole of `n` shares of `u` units of 100 each, and what rounding has cut off. */
  lemma UnitsInWhole(limit: nat, n: nat)
    requires n > 0
    ensures var u := limit / n / 100; 100 * (n * u) <= limit < 100 * (n * u) + 100 * n
  {
    var share := limit / n;
    var u, v := share / 100, share % 100;
    assert limit == n * share + limit % n;
    Spread(n, u, v);
    ProductBelow(n, v, n, 99);
  }

  lemma Spread(n: int, u: int, v: int)
    ensures n * (100 * u + v) == 100 * (n * u) + n * v
  {
    assert n * (100 * u) == 100 * (n * u);
  }

  /** `n` modules with the rounded-down share in whole units of 100, capped, against the whole. */
  lemma ShareInUnits(limit: nat, n: Count, cap: nat)
    ensures var adv := if limit / n / 100 > cap then cap else limit / n / 100;
      && 0 <= n * adv * 100 <= limit
      && (limit - n * adv * 100 < n * 100 <==> limit / n / 100 <= cap)
  {
    UnitsInWhole(limit, n);
    CapUnits(limit, n, limit / n / 100, cap);
  }

  lemma CapUnits(limit: nat, n: nat, u: nat, cap: nat)
    requires n > 0 && 100 * (n * u) <= limit < 100 * (n * u) + 100 * n
    ensures var adv := if u > cap then cap else u;
      0 <= n * adv * 100 <= limit && (limit - n * adv * 100 < n * 100 <==> u <= cap)
  {
    if u > cap {
      MulMonotone(n, cap + 1, u);
      assert n * (cap + 1) == n * cap + n;
    }
  }

  /** The modules of a battery together never exceed its charge limit, and fall short by less than n * 100 mA unless the field clamps. */
  lemma ChargeLimitSlices(limits: Settings, n: Count)
    ensures var adv := Clamp16(Share(limits.maxCharge, n) / 100);
      && 0 <= n * adv * 100 <= limits.maxCharge
      && (limits.maxCharge - n * adv * 100 < n * 100 <==> Share(limits.maxCharge, n) / 100 <= 32767)
  {
    ShareInUnits(limits.maxCharge, n, 32767);
  }

  lemma DischargeLimitSlices(limits: Settings, n: Count)
    ensures var adv := 0 - Clamp16(0 - Share(limits.maxDischarge, n) / 100) as int;
      && 0 <= n * adv * 100 <= limits.maxDischarge
      && (limits.maxDischarge - n * adv * 100 < n * 100 <==> Share(limits.maxDischarge, n) / 100 <= 32768)
  {
    ShareInUnits(limits.maxDischarge, n, 32768);
  }

  /** The modules together show a current of the battery's direction and no larger, and less than n * 100 mA smaller unless the field clamps. */
  lemma CurrentSlices(current: i32, n: Count)
    ensures var adv := Clamp16(TruncDiv(TruncDiv(current, n), 100));
      && (current >= 0 ==> 0 <= n * adv * 100 <= current)
      && (current <= 0 ==> current <= n * adv * 100 <= 0)
      && (current >= 0 ==> (current - n * adv * 100 < n * 100 <==> current / n / 100 <= 32767))
      && (current <= 0 ==> (n * adv * 100 - current < n * 100 <==> (0 - current) / n / 100 <= 32768))
  {
    hide Clamp16, TruncDiv;
    if current >= 0 {
      PositiveSlices(current, n);
    } else {
      NegativeSlices(current, n);
    }
  }

  lemma PositiveSlices(current: nat, n: Count)
    ensures var adv := Clamp16(TruncDiv(TruncDiv(current, n), 100));
      && 0 <= n * adv * 100 <= current
      && (current - n * adv * 100 < n * 100 <==> current / n / 100 <= 32767)
      && (current == 0 ==> adv == 0)
  {
    ShareInUnits(current, n, 32767);
  }

  lemma NegativeSlices(current: int, n: Count)
    requires current < 0
    ensures var adv := Clamp16(TruncDiv(TruncDiv(current, n), 100));
      && current <= n * adv * 100 <= 0
      && (n * adv * 100 - current < n * 100 <==> (0 - current) / n / 100 <= 32768)
  {
    hide Clamp16, TruncDiv;
    ShareInUnits(0 - current, n, 32768);
    NegativeCut(current, n);
    var units := (0 - current) / n / 100;
    Negate(n, if units > 32768 then 32768 else units);
  }

  lemma Negate(n: int, x: int)
    ensures n * (0 - x) * 100 == 0 - n * x * 100
  {
  }

  /** A negative current is cut like its magnitude. */
  lemma NegativeCut(current: int, n: Count)
    requires current < 0
    ensures var units := (0 - current) / n / 100;
      Clamp16(TruncDiv(TruncDiv(current, n), 100)) == 0 - if units > 32768 then 32768 else units
  {
    hide TruncDiv;
    TruncDivOfNegative(current, n);
    TruncDivOfNegative(0 - (0 - current) / n, 100);
  }

  lemma TruncDivOfNegative(a: int, b: Count)
    requires a <= 0
    ensures TruncDiv(a, b) == 0 - (0 - a) / b
  {
  }

  // ---- All batteries -----------------------------------------------------------

  function Sum(slots: seq<Slot>, f: Slot -> int): int {
    if slots == [] then 0 else Sum(slots[..|slots| - 1], f) + f(slots[|slots| - 1])
  }

  function SumBatteries(bs: seq<Battery>, f: Battery -> int): int {
    if bs == [] then 0 else SumBatteries(bs[..|bs| - 1], f) + f(bs[|bs| - 1])
  }

  lemma {:induction false} SumAppend(s: seq<Slot>, t: seq<Slot>, f: Slot -> int)
    ensures Sum(s + t, f) == Sum(s, f) + Sum(t, f)
    decreases |t|
  {
    if t == [] {
      assert s + t == s;
    } else {
      var init := t[..|t| - 1];
      assert (s + t)[..|s + t| - 1] == s + init;
      SumAppend(s, init, f);
    }
  }

  lemma {:induction false} SumEqual(slots: seq<Slot>, slot: Slot, f: Slot -> int)
    requires forall i :: 0 <= i < |slots| ==> slots[i] == slot
    ensures Sum(slots, f) == |slots| * f(slot)
    decreases |slots|
  {
    if slots != [] {
      SumEqual(slots[..|slots| - 1], slot, f);
      assert |slots| * f(slot) == (|slots| - 1) * f(slot) + f(slot);
    }
  }

  lemma NoSlots(f: Slot -> int)
    ensures Sum([], f) == 0
  {
  }

  lemma {:induction false} SumNonNegative(slots: seq<Slot>, f: Slot -> int)
    requires forall i :: 0 <= i < |slots| ==> f(slots[i]) >= 0
    ensures 0 <= Sum(slots, f)
    decreases |slots|
  {
    if slots != [] {
      SumNonNegative(slots[..|slots| - 1], f);
    }
  }

  /** The first modules of a block, too, stay within a non-negative bound of the whole block. */
  lemma CutBlock(bs: seq<Battery>, b: Battery, f: Slot -> int, bound: nat, m: nat)
    requires m <= |Block(bs, b)| && Sum(Block(bs, b), f) <= bound
    ensures Sum(Block(bs, b)[..m], f) <= bound
  {
    hide Sum;
    var block := Block(bs, b);
    if m == 0 {
      assert block[..0] == [];
      NoSlots(f);
    } else {
      SumEqual(block, block[0], f);
      SumEqual(block[..m], block[0], f);
      if f(block[0]) >= 0 {
        MulMonotone(f(block[0]), m, |block|);
      } else {
        MulMonotone(0 - f(block[0]), 0, m);
      }
    }
  }

  /** If each block stays within the bound of its battery, the first slots together stay within the sum of the bounds. */
  lemma {:induction false} BlockwiseBound(bs: seq<Battery>, k: nat, f: Slot -> int, bound: Battery -> int, m: nat)
    requires k <= |bs| && m <= |Slots(bs, k)|
    requires forall i :: 0 <= i < k ==> Sum(Block(bs, bs[i]), f) <= bound(bs[i]) && bound(bs[i]) >= 0
    ensures Sum(Slots(bs, k)[..m], f) <= SumBatteries(bs[..k], bound)
    decreases k
  {
    hide Block, Sum;
    if k == 0 {
      NoSlots(f);
      assert Slots(bs, 0)[..m] == [] && bs[..0] == [];
    } else {
      var init, block := Slots(bs, k - 1), Block(bs, bs[k - 1]);
      assert bs[..k][..k - 1] == bs[..k - 1];
      if m <= |init| {
        BlockwiseBound(bs, k - 1, f, bound, m);
        assert Slots(bs, k)[..m] == init[..m];
      } else {
        BlockwiseBound(bs, k - 1, f, bound, |init|);
        assert init[..|init|] == init;
        CutBlock(bs, bs[k - 1], f, bound(bs[k - 1]), m - |init|);
        SumAppend(init, block[..m - |init|], f);
        assert Slots(bs, k)[..m] == init + block[..m - |init|];
      }
    }
  }

  datatype Side = Charging | Discharging

  function LimitOf(limits: Settings, side: Side): u32 {
    if side == Charging then limits.maxCharge else limits.maxDischarge
  }

  /** What a module advertises, in mA; nothing while its source has no fresh telemetry. */
  function AdvertisedBy(ready: map<string, Snapshot>, side: Side, slot: Slot): int {
    if Source(slot).name !in ready then 0
    else
      var limits := ModuleView(slot, ready[Source(slot).name]).limits;
      (if side == Charging then ChargeField(limits) as int else 0 - DischargeField(limits) as int) * 100
  }

  function Advertised(ready: map<string, Snapshot>, side: Side): Slot -> int {
    slot => AdvertisedBy(ready, side, slot)
  }

  /** What a battery allows: a monitored one its own limit, a reserve 0.5C of its capacity. */
  function AllowedBy(ready: map<string, Snapshot>, side: Side, b: Battery): int {
    if !b.Monitored() then (b.capacity as int) * 1000 / 2
    else if b.name in ready then LimitOf(ready[b.name].limits, side)
    else 0
  }

  function Allowed(ready: map<string, Snapshot>, side: Side): Battery -> int {
    b => AllowedBy(ready, side, b)
  }

  lemma SideSlices(limits: Settings, n: Count, side: Side)
    ensures var l := limits.(maxCharge := Share(limits.maxCharge, n), maxDischarge := Share(limits.maxDischarge, n));
      var adv := if side == Charging then ChargeField(l) as int else 0 - DischargeField(l) as int;
      0 <= adv * 100 && n * (adv * 100) <= LimitOf(limits, side)
  {
    hide Clamp16, Share;
    if side == Charging {
      ChargeLimitSlices(limits, n);
    } else {
      DischargeLimitSlices(limits, n);
    }
  }

  lemma ReserveIsHalfC(b: Battery)
    requires b.capacity > 0
    ensures ReserveLimit(b) <= (b.capacity as int) * 1000 / 2
  {
  }

  /** A reserve may carry 0.5C of its capacity exactly while that, in tenths of a mA, fits 32 bits. */
  lemma ReserveLimitIsHalfC(b: Battery)
    ensures ReserveLimit(b) == 500 * b.capacity <==> b.capacity >= 0 && 5000 * (b.capacity as int) < 0x1_0000_0000
  {
    var c: int := b.capacity;
    if 0 <= c && 5000 * c < 0x1_0000_0000 {
      assert CapacityMah(b) == 1000 * c;
    }
  }

  /** What the modules of a battery can draw on: its own limit, or for a reserve 0.5C of its capacity. */
  function Budget(ready: map<string, Snapshot>, side: Side, b: Battery): u32
    requires b.Monitored() ==> b.name in ready
  {
    if b.Monitored() then LimitOf(ready[b.name].limits, side) else ReserveLimit(b)
  }

  /**
   With telemetry at hand the modules of one battery use its budget: together they advertise no
   more, and less than 100 mA per module less, if and only if their fields do not clamp.
   */
  lemma BlockUsesBudget(bs: seq<Battery>, i: nat, ready: map<string, Snapshot>, side: Side)
    requires Accepted(bs) && i < |bs| && Block(bs, bs[i]) != [] && Source(Block(bs, bs[i])[0]).name in ready
    ensures bs[i].Monitored() ==> bs[i].name in ready
    ensures var n, budget := |Block(bs, bs[i])|, Budget(ready, side, bs[i]);
      var sum := Sum(Block(bs, bs[i]), Advertised(ready, side));
      && n > 0 && 0 <= sum <= budget
      && (budget - sum < n * 100 <==> budget / n / 100 <= if side == Charging then 32767 else 32768)
  {
    hide Sum, MirrorOf, ModuleCount, CapacityMah, AdvertisedBy, ReserveLimit;
    MirrorIsMonitored(bs, i);
    var block := Block(bs, bs[i]);
    SumEqual(block, block[0], Advertised(ready, side));
    ModuleUsesShare(block[0], ready, side);
  }

  /** What the view of a module draws on before it is sliced. */
  function Undivided(slot: Slot, s: Snapshot): Settings {
    (if slot.mirror.Some? then ForReserve(slot.battery, s) else s).limits
  }

  lemma ModuleUsesShare(slot: Slot, ready: map<string, Snapshot>, side: Side)
    requires Source(slot).name in ready
    ensures var n, whole := slot.modules, LimitOf(Undivided(slot, ready[Source(slot).name]), side);
      var sum := n * AdvertisedBy(ready, side, slot);
      0 <= sum <= whole && (whole - sum < n * 100 <==> whole / n / 100 <= if side == Charging then 32767 else 32768)
  {
    hide Clamp16, Share, ForReserve;
    var n, limits := slot.modules, Undivided(slot, ready[Source(slot).name]);
    ShareIsQuotient(LimitOf(limits, side), n);
    if side == Charging {
      ChargeLimitSlices(limits, n);
      Regroup(n, Clamp16(Share(limits.maxCharge, n) / 100));
    } else {
      DischargeLimitSlices(limits, n);
      Regroup(n, 0 - Clamp16(0 - Share(limits.maxDischarge, n) / 100) as int);
    }
  }

  lemma Regroup(n: int, x: int)
    ensures n * (x * 100) == n * x * 100
  {
  }

  lemma ShareIsQuotient(x: nat, n: Count)
    ensures Share(x, n) == x / n
  {
  }

  /** The modules of one battery together advertise no more than it allows. */
  lemma BlockAdvertises(bs: seq<Battery>, i: nat, ready: map<string, Snapshot>, side: Side)
    requires Accepted(bs) && i < |bs|
    ensures Sum(Block(bs, bs[i]), Advertised(ready, side)) <= AllowedBy(ready, side, bs[i])
    ensures AllowedBy(ready, side, bs[i]) >= 0
    ensures forall j :: 0 <= j < |Block(bs, bs[i])| ==> AdvertisedBy(ready, side, Block(bs, bs[i])[j]) >= 0
  {
    hide ChargeField, DischargeField, ReserveLimit, Sum;
    var b := bs[i];
    var block, f := Block(bs, b), Advertised(ready, side);
    NoSlots(f);
    MirrorIsMonitored(bs, i);
    if !b.Monitored() {
      ReserveIsHalfC(b);
    }
    if block != [] {
      var slot := block[0];
      SumEqual(block, slot, f);
      if Source(slot).name in ready {
        var s := ready[Source(slot).name];
        SideSlices((if slot.mirror.Some? then ForReserve(b, s) else s).limits, slot.modules, side);
      }
    }
  }

  /** The modules an address byte can name, from address 2 on. */
  const REACHABLE := 0xFF - 2 + 1

  function Reachable(bs: seq<Battery>): seq<Slot> {
    var all := Slots(bs, |bs|);
    if |all| > REACHABLE then all[..REACHABLE] else all
  }

  /**
   For any telemetry, all modules together advertise charge and discharge limits no larger than
   those of the monitored batteries plus 0.5C for each reserve.
   */
  lemma NeverOverAdvertises(bs: seq<Battery>, ready: map<string, Snapshot>, side: Side)
    requires Accepted(bs)
    ensures 0 <= Sum(Reachable(bs), Advertised(ready, side)) <= SumBatteries(bs, Allowed(ready, side))
  {
    hide Block, AdvertisedBy, AllowedBy, Sum, Accepted, SumBatteries;
    var all, f := Slots(bs, |bs|), Advertised(ready, side);
    forall i | 0 <= i < |bs| ensures Sum(Block(bs, bs[i]), f) <= Allowed(ready, side)(bs[i]) && Allowed(ready, side)(bs[i]) >= 0 {
      BlockAdvertises(bs, i, ready, side);
    }
    BlockwiseBound(bs, |bs|, f, Allowed(ready, side), |Reachable(bs)|);
    assert bs[..|bs|] == bs;
    forall j | 0 <= j < |all| ensures f(all[j]) >= 0 {
      var i := EveryAddressHasOwner(bs, |bs|, j);
      InOwnBlock(bs, i, j);
      BlockAdvertises(bs, i, ready, side);
    }
    assert all[..|Reachable(bs)|] == Reachable(bs);
    SumNonNegative(Reachable(bs), f);
  }

  lemma InOwnBlock(bs: seq<Battery>, i: nat, j: nat)
    requires i < |bs| && |Slots(bs, i)| <= j < |Slots(bs, i + 1)|
    ensures j < |Slots(bs, |bs|)| && j - |Slots(bs, i)| < |Block(bs, bs[i])|
    ensures Slots(bs, |bs|)[j] == Block(bs, bs[i])[j - |Slots(bs, i)|]
  {
    hide Block;
    SlotsGrow(bs, i + 1, |bs|);
    assert Slots(bs, |bs|)[j] == Slots(bs, |bs|)[..|Slots(bs, i + 1)|][j];
  }

  // ---- Current -----------------------------------------------------------------

  /** The current a module shows, in mA; `sign` is 1 for charge and -1 for discharge. */
  function ShownBy(ready: map<string, Snapshot>, sign: int, slot: Slot): int {
    if Source(slot).name !in ready then 0
    else (CurrentField(ModuleView(slot, ready[Source(slot).name]).pack) as int) * 100 * sign
  }

  function Shown(ready: map<string, Snapshot>, sign: int): Slot -> int {
    slot => ShownBy(ready, sign, slot)
  }

  /** The current of a battery in one direction; nothing if it flows in the other. A reserve carries none. */
  function CarriedBy(ready: map<string, Snapshot>, sign: int, b: Battery): int {
    if !b.Monitored() || b.name !in ready then 0
    else
      var c := (ready[b.name].pack.current as int) * sign;
      if c > 0 then c else 0
  }

  function Carried(ready: map<string, Snapshot>, sign: int): Battery -> int {
    b => CarriedBy(ready, sign, b)
  }

  lemma DirectedSlices(current: i32, n: Count, sign: int)
    requires sign == 1 || sign == -1
    ensures var adv := Clamp16(TruncDiv(TruncDiv(current, n), 100)) as int; var c := current * sign;
      n * (adv * 100 * sign) <= if c > 0 then c else 0
  {
    hide TruncDiv, Clamp16;
    CurrentSlices(current, n);
    var adv := Clamp16(TruncDiv(TruncDiv(current, n), 100)) as int;
    if sign == 1 {
      assert n * (adv * 100 * sign) == n * adv * 100;
    } else {
      assert n * (adv * 100 * sign) == 0 - n * adv * 100;
    }
  }

  lemma BlockShows(bs: seq<Battery>, i: nat, ready: map<string, Snapshot>, sign: int)
    requires Accepted(bs) && i < |bs| && (sign == 1 || sign == -1)
    ensures Sum(Block(bs, bs[i]), Shown(ready, sign)) <= CarriedBy(ready, sign, bs[i])
    ensures CarriedBy(ready, sign, bs[i]) >= 0
  {
    hide TruncDiv, Clamp16, Share, ReserveLimit, Sum, MirrorOf, ModuleCount;
    var b := bs[i];
    var block := Block(bs, b);
    MirrorIsMonitored(bs, i);
    if block == [] {
      NoSlots(Shown(ready, sign));
    } else {
      var slot := block[0];
      SumEqual(block, slot, Shown(ready, sign));
      if Source(slot).name in ready {
        var c := if b.Monitored() then ready[b.name].pack.current else 0;
        DirectedSlices(c, slot.modules, sign);
      }
    }
  }

  /**
   With telemetry at hand the modules of a monitored battery together show its current, cut by
   less than 100 mA per module if and only if their fields do not clamp; those of a reserve show none.
   */
  lemma BlockShowsCurrent(bs: seq<Battery>, i: nat, ready: map<string, Snapshot>)
    requires Accepted(bs) && i < |bs| && Block(bs, bs[i]) != [] && Source(Block(bs, bs[i])[0]).name in ready
    ensures var n, sum := |Block(bs, bs[i])|, Sum(Block(bs, bs[i]), Shown(ready, 1));
      if bs[i].Monitored() then
        && bs[i].name in ready
        && var c := ready[bs[i].name].pack.current;
        && n > 0
        && (c >= 0 ==> 0 <= sum <= c && (c - sum < n * 100 <==> c / n / 100 <= 32767))
        && (c <= 0 ==> c <= sum <= 0 && (sum - c < n * 100 <==> (0 - c) / n / 100 <= 32768))
      else sum == 0
  {
    hide Sum, MirrorOf, ModuleCount, CapacityMah, ShownBy, ReserveLimit;
    MirrorIsMonitored(bs, i);
    var block := Block(bs, bs[i]);
    SumEqual(block, block[0], Shown(ready, 1));
    ModuleShowsShare(block[0], ready);
  }

  lemma ModuleShowsShare(slot: Slot, ready: map<string, Snapshot>)
    requires Source(slot).name in ready
    ensures var n, sum := slot.modules, slot.modules * ShownBy(ready, 1, slot);
      var c := if slot.mirror.Some? then 0 else ready[Source(slot).name].pack.current;
      && (c >= 0 ==> 0 <= sum <= c && (c - sum < n * 100 <==> c / n / 100 <= 32767))
      && (c <= 0 ==> c <= sum <= 0 && (sum - c < n * 100 <==> (0 - c) / n / 100 <= 32768))
  {
    hide TruncDiv, Clamp16, Share, ReserveLimit, CapacityMah;
    var n := slot.modules;
    var c := if slot.mirror.Some? then 0 else ready[Source(slot).name].pack.current;
    CurrentSlices(c, n);
    Regroup(n, Clamp16(TruncDiv(TruncDiv(c, n), 100)));
  }

  /** Summed over the addressable modules, the current is between the discharge and the charge the monitored batteries carry. */
  lemma CurrentStaysWithin(bs: seq<Battery>, ready: map<string, Snapshot>, sign: int)
    requires Accepted(bs) && (sign == 1 || sign == -1)
    ensures Sum(Reachable(bs), Shown(ready, sign)) <= SumBatteries(bs, Carried(ready, sign))
  {
    hide Block, ShownBy, CarriedBy, Sum, SumBatteries, Accepted;
    forall i | 0 <= i < |bs|
      ensures Sum(Block(bs, bs[i]), Shown(ready, sign)) <= Carried(ready, sign)(bs[i]) && Carried(ready, sign)(bs[i]) >= 0
    {
      BlockShows(bs, i, ready, sign);
    }
    BlockwiseBound(bs, |bs|, Shown(ready, sign), Carried(ready, sign), |Reachable(bs)|);
    assert bs[..|bs|] == bs && Slots(bs, |bs|)[..|Reachable(bs)|] == Reachable(bs);
  }

  // ---- Capacity ----------------------------------------------------------------

  /** What a module's state of charge is computed from stays in order; a monitored battery's ratio moves little. */
  lemma SlicedChargeStaysInOrder(slot: Slot, s: Snapshot)
    requires s.pack.remaining <= s.pack.total && s.pack.soc <= 100
    ensures var p := ModuleView(slot, s).pack; p.remaining <= p.total
    ensures slot.mirror == None ==>
      var p := ModuleView(slot, s).pack;
      var d := p.remaining as int * s.pack.total - s.pack.remaining as int * p.total;
      0 - p.total as int * (slot.modules - 1) <= d <= p.total as int * (slot.modules - 1)
  {
    var n := slot.modules;
    if slot.mirror.Some? {
      ReserveChargeInOrder(slot.battery, s.pack.soc);
      DivMonotone(Wrap32((CapacityMah(slot.battery) as int) * s.pack.soc) / 100, CapacityMah(slot.battery), n);
    } else {
      RatioSurvives(s.pack.total, s.pack.remaining, n);
    }
  }

  lemma ReserveChargeInOrder(b: Battery, soc: u8)
    requires soc <= 100
    ensures Wrap32((CapacityMah(b) as int) * soc) / 100 <= CapacityMah(b)
  {
    PercentOf(CapacityMah(b), soc);
  }

  lemma PercentOf(cap: nat, soc: nat)
    requires soc <= 100
    ensures Wrap32(cap * soc) / 100 <= cap
  {
    MulMonotone(cap, soc, 100);
    WrapIsBelow(cap * soc);
  }

  lemma WrapIsBelow(x: nat)
    ensures Wrap32(x) <= x
  {
  }

  // ---- The state of charge of a reserve -----------------------------------------

  /** The product of a reserve's capacity and its mirror's percentage, before it is cut to 32 bits. */
  function ChargeProduct(b: Battery, soc: u8): nat {
    (CapacityMah(b) as int) * soc
  }

  /** A reserve shows its mirror's percentage of its own capacity if and only if the product fits 32 bits. */
  lemma ReserveShowsMirrorsCharge(b: Battery, s: Snapshot)
    ensures ForReserve(b, s).pack.total == CapacityMah(b)
    ensures ForReserve(b, s).pack.remaining == ChargeProduct(b, s.pack.soc) / 100 <==> ChargeProduct(b, s.pack.soc) < 0x1_0000_0000
  {
    hide CapacityMah;
    WrapShowsInHundredths(ChargeProduct(b, s.pack.soc));
  }

  lemma WrapShowsInHundredths(x: nat)
    ensures Wrap32(x) / 100 == x / 100 <==> x < 0x1_0000_0000
  {
  }

  /**
   A reserve looks full if and only if it has no capacity, or its mirror is at 100% or beyond by
   less than one mAh of the reserve, up to wrap-around, and all of that fits 32 bits.
   */
  lemma ReserveLooksFull(b: Battery, s: Snapshot)
    ensures var p, cap := ForReserve(b, s).pack, CapacityMah(b) as int;
      p.remaining == p.total <==>
      || cap == 0
      || (s.pack.soc >= 100 && var beyond := Wrap32(cap * (s.pack.soc - 100)); beyond < 100 && 100 * cap + beyond < 0x1_0000_0000)
    ensures s.pack.soc <= 100 ==>
      var p, cap := ForReserve(b, s).pack, CapacityMah(b) as int;
      (p.remaining == p.total <==> cap == 0 || (s.pack.soc == 100 && 100 * cap < 0x1_0000_0000))
  {
    hide CapacityMah;
    FullExactly(CapacityMah(b), s.pack.soc);
  }

  lemma FullExactly(cap: u32, soc: nat)
    ensures Wrap32(cap as int * soc) / 100 == cap <==>
      || cap == 0
      || (soc >= 100 && var beyond := Wrap32(cap as int * (soc - 100)); beyond < 100 && 100 * cap + beyond < 0x1_0000_0000)
    ensures soc <= 100 && cap > 0 ==>
      (Wrap32(cap as int * soc) / 100 == cap <==> soc == 100 && 100 * (cap as int) < 0x1_0000_0000)
  {
    if cap == 0 {
    } else if soc < 100 {
      LessThanFull(cap, soc);
    } else {
      hide Wrap32;
      Beyond(cap, soc);
      SameRemainder(cap as int * soc, 100 * cap as int, cap as int * (soc - 100));
      if soc == 100 {
        NothingBeyond(cap);
      }
    }
  }

  lemma LessThanFull(cap: nat, soc: nat)
    requires cap > 0 && soc < 100
    ensures Wrap32(cap * soc) / 100 < cap
  {
    MulMonotone(cap, soc, 99);
    WrapIsBelow(cap * soc);
  }

  lemma Beyond(cap: nat, soc: nat)
    requires soc >= 100
    ensures cap * soc == 100 * cap + cap * (soc - 100) && cap * (soc - 100) >= 0
  {
  }

  lemma NothingBeyond(cap: nat)
    ensures Wrap32(cap * (100 - 100)) == 0
  {
  }

  /** `x` is `a` and a little more, up to wrap-around, if and only if the rest is little and nothing is cut off. */
  lemma SameRemainder(x: nat, a: nat, rest: nat)
    requires x == a + rest && a % 100 == 0
    ensures Wrap32(x) / 100 == a / 100 <==> Wrap32(rest) < 100 && a + Wrap32(rest) < 0x1_0000_0000
  {
    var r := Wrap32(rest) as int;
    var q := rest / 0x1_0000_0000;
    assert x == (a + r) + q * 0x1_0000_0000;
    Wraps(a + r, q);
    if a + r < 0x1_0000_0000 {
      assert Wrap32(x) == a + r;
    } else {
      assert Wrap32(x) == Wrap32(a + r);
    }
  }

  lemma Wraps(x: int, q: int)
    ensures Wrap32(x + q * 0x1_0000_0000) == Wrap32(x)
  {
  }

  /** Slicing a reserve keeps its ratio within one mAh of a module from the mirror's percentage, if and only if the product fits 32 bits. */
  lemma SlicedReserveKeepsPercentage(slot: Slot, s: Snapshot)
    requires slot.mirror.Some?
    ensures var p := ModuleView(slot, s).pack; var d := 100 * (p.remaining as int) - s.pack.soc as int * p.total;
      -100 < d <= s.pack.soc <==> ChargeProduct(slot.battery, s.pack.soc) < 0x1_0000_0000
  {
    hide CapacityMah, Share, Wrap32;
    PercentageOfShares(CapacityMah(slot.battery), s.pack.soc, slot.modules);
  }

  lemma PercentageOfShares(cap: u32, soc: u8, n: Count)
    ensures var d := 100 * Share(Wrap32(cap as int * soc) / 100, n) - soc as int * Share(cap, n);
      -100 < d <= soc <==> cap as int * soc < 0x1_0000_0000
  {
    var w: int := Wrap32(cap as int * soc);
    hide Wrap32;
    UnitsOf(w, n);
    SharesOf(cap, n);
    hide Share;
    CompareShares(cap, soc, n, w, Share(w / 100, n), Share(cap, n), cap as int - n * Share(cap, n));
  }

  lemma SharesOf(cap: nat, n: nat)
    requires n > 0
    ensures 0 <= cap - n * Share(cap, n) < n
  {
  }

  /** `r` and `t` are the shares of `w` hundredths and of `cap`, `a` what is left of `cap`. */
  lemma CompareShares(cap: nat, soc: nat, n: nat, w: nat, r: nat, t: nat, a: nat)
    requires 0 < n <= 255 && soc <= 255 && w == Wrap32(cap * soc)
    requires n * (100 * r) <= w < n * (100 * r) + 100 * n && cap == n * t + a && a < n
    ensures -100 < 100 * r - soc * t <= soc <==> cap * soc < 0x1_0000_0000
  {
    hide Wrap32;
    ProductOfShares(cap, soc, n, t, a);
    ProductBelow(soc, a, soc, n - 1);
    SpreadDifference(n, r, soc, t);
    BetweenMultiples(n, 100 * r - soc * t, w, cap * soc, soc, soc * a, w - n * (100 * r));
  }

  lemma SpreadDifference(n: int, r: int, soc: int, t: int)
    ensures n * (100 * r - soc * t) == n * (100 * r) - n * (soc * t)
  {
  }

  lemma ProductOfShares(cap: int, soc: int, n: int, t: int, a: int)
    requires cap == n * t + a
    ensures cap * soc == n * (soc * t) + soc * a
  {
    assert (n * t) * soc == n * (soc * t);
  }

  lemma UnitsOf(w: nat, n: nat)
    requires n > 0
    ensures n * (100 * Share(w / 100, n)) <= w < n * (100 * Share(w / 100, n)) + 100 * n
  {
    SharesOf(w / 100, n);
    hide Share;
    var r := Share(w / 100, n);
    assert n * (100 * r) == 100 * (n * r);
  }

  lemma BetweenMultiples(n: nat, d: int, w: nat, product: nat, soc: nat, over: nat, cut: nat)
    requires 0 < n <= 255 && soc <= 255 && over <= soc * (n - 1) && cut < 100 * n
    requires n * d == (w - cut) - (product - over)
    requires w == Wrap32(product)
    ensures -100 < d <= soc <==> product < 0x1_0000_0000
  {
    if product < 0x1_0000_0000 {
      assert n * d <= soc * (n - 1) && n * d > -100 * (n as int);
      assert n * (soc + 1) == soc * (n - 1) + soc + n;
      if d > soc {
        MulMonotone(n, soc + 1, d);
        assert false;
      }
      if d <= -100 {
        MulMonotone(n, d, -100);
        assert false;
      }
    } else {
      ProductBelow(soc, n - 1, 255, 254);
      assert w <= product - 0x1_0000_0000;
      if d > -100 {
        MulMonotone(n, -99, d);
        assert false;
      }
    }
  }

  /** For every reserve whose capacity the address map can hold in full, the product fits. */
  lemma UsualReservesFit(b: Battery, soc: u8)
    requires 0 <= b.capacity <= 16575
    ensures ChargeProduct(b, soc) < 0x1_0000_0000
  {
    ProductBelow(CapacityMah(b), soc, 16_575_000, 255);
  }

  /** A reserve of 42950 Ah whose mirror is full does not look full. */
  lemma LargeReserveLooksEmpty(b: Battery, s: Snapshot)
    requires b.capacity == 42950 && s.pack.soc == 100
    ensures ForReserve(b, s).pack.total == 42_950_000 && ForReserve(b, s).pack.remaining == 327
  {
  }
}
