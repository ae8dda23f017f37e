/** The limits the modules advertise against what Pylontech batteries have sent, rather than what was decoded. */
module SentLimits {
  import opened AddressMap
  import opened Advertising
  import opened Arith
  import opened Bms
  import opened Bytes
  import opened Capacity
  import opened Config
  import opened Payload
  import PylontechMaster

  /** A limit a Pylontech battery has sent, in mA. */
  function SentLimit(p: SystemParameters, side: Side): int {
    if side == Charging then 100 * p.chargeCurrent as int
    else 100 * if p.dischargeCurrent < 0 then 0 - p.dischargeCurrent as int else p.dischargeCurrent as int
  }

  /** The settings of the batteries in `sent` have been decoded from the parameters given there. */
  predicate Decoded(ready: map<string, Snapshot>, sent: map<string, SystemParameters>) {
    forall name :: name in ready && name in sent ==> PylontechMaster.SentAs(ready[name].limits, sent[name])
  }

  /** What a battery allows, going by what it has sent. */
  function SentBy(ready: map<string, Snapshot>, sent: map<string, SystemParameters>, side: Side, b: Battery): int {
    if b.Monitored() && b.name in ready && b.name in sent then SentLimit(sent[b.name], side)
    else AllowedBy(ready, side, b)
  }

  function Sent(ready: map<string, Snapshot>, sent: map<string, SystemParameters>, side: Side): Battery -> int {
    b => SentBy(ready, sent, side, b)
  }

  /** What a battery allows is what it has sent, except exactly for a negative charge limit. */
  lemma AllowedAsSent(ready: map<string, Snapshot>, sent: map<string, SystemParameters>, side: Side, b: Battery)
    requires Decoded(ready, sent) && b.Monitored() && b.name in ready && b.name in sent
    ensures AllowedBy(ready, side, b) == SentBy(ready, sent, side, b) <==> side == Discharging || sent[b.name].chargeCurrent >= 0
  {
    PylontechMaster.LimitsSurvive(sent[b.name], ready[b.name].limits.cellCount);
  }

  /** The modules of a monitored battery together stay within what it has sent exactly if that is not a negative charge limit. */
  lemma BlockStaysWithinSent(bs: seq<Battery>, i: nat, ready: map<string, Snapshot>, sent: map<string, SystemParameters>, side: Side)
    requires Accepted(bs) && i < |bs| && Decoded(ready, sent)
    requires bs[i].Monitored() && bs[i].name in ready && bs[i].name in sent
    ensures Sum(Block(bs, bs[i]), Advertised(ready, side)) <= SentBy(ready, sent, side, bs[i])
            <==> side == Discharging || sent[bs[i].name].chargeCurrent >= 0
  {
    hide Block, AdvertisedBy, AllowedBy, Sum, Accepted;
    AllowedAsSent(ready, sent, side, bs[i]);
    BlockAdvertises(bs, i, ready, side);
    SumNonNegative(Block(bs, bs[i]), Advertised(ready, side));
  }

  /** If no battery has sent a negative charge limit, all modules together stay within what the batteries have sent. */
  lemma NeverOverAdvertisesSent(bs: seq<Battery>, ready: map<string, Snapshot>, sent: map<string, SystemParameters>, side: Side)
    requires Accepted(bs) && Decoded(ready, sent)
    requires side == Charging ==> forall name :: name in ready && name in sent ==> sent[name].chargeCurrent >= 0
    ensures 0 <= Sum(Reachable(bs), Advertised(ready, side)) <= SumBatteries(bs, Sent(ready, sent, side))
  {
    hide AllowedBy, SumBatteries, Sum, Advertised, Reachable, Accepted, Decoded;
    NeverOverAdvertises(bs, ready, side);
    forall b ensures AllowedBy(ready, side, b) == SentBy(ready, sent, side, b) {
      if b.Monitored() && b.name in ready && b.name in sent {
        AllowedAsSent(ready, sent, side, b);
      }
    }
    SumOfEqual(bs, Allowed(ready, side), Sent(ready, sent, side));
  }

  lemma {:induction false} SumOfEqual(bs: seq<Battery>, f: Battery -> int, g: Battery -> int)
    requires forall b :: f(b) == g(b)
    ensures SumBatteries(bs, f) == SumBatteries(bs, g)
  {
    if bs != [] { SumOfEqual(bs[..|bs| - 1], f, g); }
  }

  /** With any negative charge limit every module of the battery advertises 3276.7 A. */
  lemma NegativeLimitLooksHuge(p: SystemParameters, cellCount: u8, n: Count)
    requires p.chargeCurrent < 0
    ensures var limits := PylontechMaster.SettingsOf(p, cellCount);
      ChargeField(limits.(maxCharge := Share(limits.maxCharge, n))) == 32767
    ensures p.chargeCurrent == -1 ==> PylontechMaster.SettingsOf(p, cellCount).maxCharge == 4_294_967_196
  {
    hide Share, Clamp16;
    PylontechMaster.LimitsSurvive(p, cellCount);
    ShareOfHuge(PylontechMaster.SettingsOf(p, cellCount).maxCharge, n);
  }

  lemma ShareOfHuge(limit: u32, n: Count)
    requires limit > 4_000_000_000
    ensures Clamp16(Share(limit, n) / 100) == 32767
  {
    MulMonotone(4_000_000, n, 0xFF);
    DivBetween(limit, n, 4_000_000, limit);
  }
}
