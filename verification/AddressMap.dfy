/** Which Pylontech module addresses the bridge answers to: a block of modules per configured battery. */
module AddressMap {
  import opened Bytes
  import opened Capacity
  import opened Config
  import opened Wrappers

  type Count = n: int | 1 <= n <= 0xFF witness 1

  /** One module. A reserve battery's modules copy the telemetry of its mirror. */
  datatype Slot = Slot(battery: Battery, mirror: Option<Battery>, modules: Count)

  /** The battery whose telemetry a module shows. */
  function Source(s: Slot): Battery {
    if s.mirror.Some? then s.mirror.value else s.battery
  }

  function CapacityMah(b: Battery): u32 {
    Wrap32((b.capacity as int) * 1000)
  }

  function MirrorOf(bs: seq<Battery>, b: Battery): Option<Battery> {
    var k := FindName(bs, b.mirror, 0);
    if b.Monitored() || k == |bs| then None else Some(bs[k])
  }

  function Block(bs: seq<Battery>, b: Battery): seq<Slot> {
    var n := ModuleCount(CapacityMah(b));
    if n == 0 then [] else seq(n, _ => Slot(b, MirrorOf(bs, b), n))
  }

  /** The blocks of the first `k` batteries, one after the other. */
  function Slots(bs: seq<Battery>, k: nat): seq<Slot>
    requires k <= |bs|
  {
    if k == 0 then [] else Slots(bs, k - 1) + Block(bs, bs[k - 1])
  }

  method BuildAddressMap(bs: seq<Battery>) returns (slots: seq<Slot>)
    ensures slots == Slots(bs, |bs|)
  {
    hide ModuleCount, CapacityMah, FindName;
    slots := [];
    for i := 0 to |bs|
      invariant slots == Slots(bs, i)
    {
      var b := bs[i];
      var mirror := None;
      if !b.Monitored() {
        var k := FindName(bs, b.mirror, 0);
        mirror := if k < |bs| then Some(bs[k]) else None;
      }
      var n := ModuleCount(CapacityMah(b));
      for m := 0 to n
        invariant n > 0 ==> slots == Slots(bs, i) + Block(bs, b)[..m]
        invariant n == 0 ==> slots == Slots(bs, i)
      {
        slots := slots + [Slot(b, mirror, n)];
      }
      assert Block(bs, b)[..n] == Block(bs, b);
    }
  }

  // ---- Layout ------------------------------------------------------------------

  lemma {:induction false} SlotsGrow(bs: seq<Battery>, i: nat, k: nat)
    requires i <= k <= |bs|
    ensures |Slots(bs, i)| <= |Slots(bs, k)| && Slots(bs, k)[..|Slots(bs, i)|] == Slots(bs, i)
    decreases k
  {
    hide Block;
    if i < k { SlotsGrow(bs, i, k - 1); }
  }

  /** Battery `i` owns the addresses after those of the batteries before it, as many as its count says. */
  lemma BlocksInOrder(bs: seq<Battery>, i: nat)
    requires i < |bs|
    ensures var from, to := |Slots(bs, i)|, |Slots(bs, i + 1)|;
      && to == from + ModuleCount(CapacityMah(bs[i])) <= |Slots(bs, |bs|)|
      && forall j :: from <= j < to ==>
           Slots(bs, |bs|)[j] == Slot(bs[i], MirrorOf(bs, bs[i]), ModuleCount(CapacityMah(bs[i])))
  {
    hide MirrorOf, ModuleCount, CapacityMah;
    SlotsGrow(bs, i + 1, |bs|);
    var all, from, to := Slots(bs, |bs|), |Slots(bs, i)|, |Slots(bs, i + 1)|;
    assert Slots(bs, i + 1) == Slots(bs, i) + Block(bs, bs[i]);
    forall j | from <= j < to ensures all[j] == Slot(bs[i], MirrorOf(bs, bs[i]), ModuleCount(CapacityMah(bs[i]))) {
      assert all[j] == all[..to][j] == Block(bs, bs[i])[j - from];
    }
  }

  /** Every address belongs to the block of one of the batteries. */
  lemma {:induction false} EveryAddressHasOwner(bs: seq<Battery>, k: nat, j: nat) returns (i: nat)
    requires k <= |bs| && j < |Slots(bs, k)|
    ensures i < k && |Slots(bs, i)| <= j < |Slots(bs, i + 1)|
    decreases k
  {
    hide Block;
    if j < |Slots(bs, k - 1)| {
      i := EveryAddressHasOwner(bs, k - 1, j);
    } else {
      i := k - 1;
    }
  }

  /** With an accepted configuration every module shows a monitored battery: its own, or the mirror it names. */
  lemma SourceIsMonitored(bs: seq<Battery>, j: nat)
    requires Accepted(bs) && j < |Slots(bs, |bs|)|
    ensures var s := Slots(bs, |bs|)[j];
      && s.battery in bs && Source(s) in bs && Source(s).Monitored()
      && (s.mirror.Some? <==> !s.battery.Monitored())
      && (if s.mirror.Some? then Source(s).name == s.battery.mirror else Source(s) == s.battery)
  {
    hide Slots, MirrorOf, ModuleCount, CapacityMah;
    var i := EveryAddressHasOwner(bs, |bs|, j);
    BlocksInOrder(bs, i);
    MirrorIsMonitored(bs, i);
  }

  lemma MirrorIsMonitored(bs: seq<Battery>, i: nat)
    requires Accepted(bs) && i < |bs|
    ensures var m := MirrorOf(bs, bs[i]);
      if bs[i].Monitored() then m == None
      else m.Some? && m.value in bs && m.value.Monitored() && m.value.name == bs[i].mirror
  {
    if !bs[i].Monitored() {
      assert HasMirror(bs, bs[i]);
      FoundMirror(bs, i);
    }
  }

  /**
   With capacities up to 16575 Ah every battery has the modules its capacity needs, rounded up
   and at least one, and a module's share fits the protocol's capacity fields.
   */
  lemma BlocksFitCapacity(bs: seq<Battery>, i: nat)
    requires i < |bs| && 0 <= bs[i].capacity <= 16575
    ensures var n, mah := |Slots(bs, i + 1)| - |Slots(bs, i)|, (bs[i].capacity as int) * 1000;
      && n >= 1 && CAPACITY_MAX * (n - 1) < (if mah == 0 then 1 else mah) <= CAPACITY_MAX * n
      && mah / n <= CAPACITY_MAX
  {
    hide Slots, ModuleCount, MirrorOf;
    assert CapacityMah(bs[i]) == (bs[i].capacity as int) * 1000;
    hide CapacityMah;
    BlocksInOrder(bs, i);
    ModulesRoundUp(CapacityMah(bs[i]));
    SharesFit(CapacityMah(bs[i]));
  }

  /** A battery gets no address at all exactly when its capacity is among the last 32-bit values. */
  lemma NoAddress(bs: seq<Battery>, i: nat)
    requires i < |bs|
    ensures |Slots(bs, i + 1)| == |Slots(bs, i)| <==> CapacityMah(bs[i]) >= WRAPS_FROM
  {
    BlocksInOrder(bs, i);
    SharesFit(CapacityMah(bs[i]));
  }

  lemma NegativeCapacityHasNoAddress(bs: seq<Battery>, i: nat)
    requires i < |bs| && -64 <= bs[i].capacity < 0
    ensures |Slots(bs, i + 1)| == |Slots(bs, i)|
  {
    hide Slots;
    NoAddress(bs, i);
  }
}
