/** The battery sections of a configuration file: what is accepted, and the error reported otherwise. */
module Config {
  import opened Bytes
  import opened Wrappers

  datatype Link = Bluetooth | Ttl | Reserve

  datatype Battery = Battery(name: string, link: Link, address: string, capacity: i32, protocol: string, mirror: string) {
    predicate Monitored() {
      link != Reserve
    }
  }

  datatype Error =
    | NoBatteries
    | MissingName
    | DuplicateName(name: string)
    | MissingAddress(name: string)
    | MissingProtocol(name: string)
    | CapacityNotPositive(name: string)
    | UnknownMirror(name: string, mirror: string)
    | MirrorNotMonitored(name: string, mirror: string)

  /** The first battery called `name`, or the number of batteries. */
  function FindName(bs: seq<Battery>, name: string, i: nat): (k: nat)
    requires i <= |bs|
    ensures i <= k <= |bs| && (k < |bs| ==> bs[k].name == name) && forall j :: i <= j < k ==> bs[j].name != name
    decreases |bs| - i
  {
    if i == |bs| || bs[i].name == name then i else FindName(bs, name, i + 1)
  }

  // ---- What is accepted --------------------------------------------------------

  ghost predicate NamesDiffer(bs: seq<Battery>) {
    forall i, j :: 0 <= i < j < |bs| ==> bs[i].name != bs[j].name
  }

  predicate Complete(b: Battery) {
    && b.name != "" && b.address != ""
    && (if b.Monitored() then b.protocol != "" else b.capacity > 0)
  }

  /** The mirror is a monitored battery of the configuration. */
  ghost predicate HasMirror(bs: seq<Battery>, b: Battery) {
    exists j :: 0 <= j < |bs| && bs[j].name == b.mirror && bs[j].Monitored()
  }

  ghost predicate Accepted(bs: seq<Battery>) {
    && bs != []
    && NamesDiffer(bs)
    && (forall i :: 0 <= i < |bs| ==> Complete(bs[i]))
    && (forall i :: 0 <= i < |bs| && !bs[i].Monitored() ==> HasMirror(bs, bs[i]))
  }

  // ---- What is reported --------------------------------------------------------

  /** What is wrong with the section at `i` after the ones before it. */
  function SectionError(bs: seq<Battery>, i: nat): Option<Error>
    requires i < |bs|
  {
    var b := bs[i];
    if b.name == "" then Some(MissingName)
    else if FindName(bs, b.name, 0) < i then Some(DuplicateName(b.name))
    else if b.address == "" then Some(MissingAddress(b.name))
    else if b.Monitored() && b.protocol == "" then Some(MissingProtocol(b.name))
    else if !b.Monitored() && b.capacity <= 0 then Some(CapacityNotPositive(b.name))
    else None
  }

  /** What is wrong with the mirror of the section at `i`. */
  function MirrorError(bs: seq<Battery>, i: nat): Option<Error>
    requires i < |bs|
  {
    var b := bs[i];
    var k := FindName(bs, b.mirror, 0);
    if b.Monitored() then None
    else if k == |bs| then Some(UnknownMirror(b.name, b.mirror))
    else if !bs[k].Monitored() then Some(MirrorNotMonitored(b.name, b.mirror))
    else None
  }

  function FirstSectionError(bs: seq<Battery>, i: nat): Option<Error>
    requires i <= |bs|
    decreases |bs| - i
  {
    if i == |bs| then None
    else if SectionError(bs, i).Some? then SectionError(bs, i)
    else FirstSectionError(bs, i + 1)
  }

  function FirstMirrorError(bs: seq<Battery>, i: nat): Option<Error>
    requires i <= |bs|
    decreases |bs| - i
  {
    if i == |bs| then None
    else if MirrorError(bs, i).Some? then MirrorError(bs, i)
    else FirstMirrorError(bs, i + 1)
  }

  function FirstError(bs: seq<Battery>): Option<Error> {
    if bs == [] then Some(NoBatteries)
    else if FirstSectionError(bs, 0).Some? then FirstSectionError(bs, 0)
    else FirstMirrorError(bs, 0)
  }

  method LoadBatteries(sections: seq<Battery>) returns (batteries: seq<Battery>, error: Option<Error>)
    ensures error == FirstError(sections)
    ensures error == None ==> batteries == sections
  {
    batteries := [];
    if |sections| == 0 {
      return batteries, Some(NoBatteries);
    }
    var seen: set<string> := {};
    for i := 0 to |sections|
      invariant seen == set j | 0 <= j < i :: sections[j].name
      invariant batteries == sections[..i]
      invariant FirstSectionError(sections, 0) == FirstSectionError(sections, i)
    {
      var b := sections[i];
      if b.name == "" {
        return batteries, Some(MissingName);
      }
      if b.name in seen {
        return batteries, Some(DuplicateName(b.name));
      }
      seen := seen + {b.name};
      if b.address == "" {
        return batteries, Some(MissingAddress(b.name));
      }
      if b.Monitored() && b.protocol == "" {
        return batteries, Some(MissingProtocol(b.name));
      }
      if !b.Monitored() && b.capacity <= 0 {
        return batteries, Some(CapacityNotPositive(b.name));
      }
      batteries := batteries + [b];
    }
    assert batteries == sections;
    for i := 0 to |batteries|
      invariant FirstMirrorError(sections, 0) == FirstMirrorError(sections, i)
    {
      var b := batteries[i];
      if !b.Monitored() {
        var k := FindName(batteries, b.mirror, 0);
        if k == |batteries| {
          return batteries, Some(UnknownMirror(b.name, b.mirror));
        }
        if !batteries[k].Monitored() {
          return batteries, Some(MirrorNotMonitored(b.name, b.mirror));
        }
      }
    }
    error := None;
  }

  // ---- Nothing reported, and only then, is accepted ----------------------------

  lemma {:induction false} NoSectionError(bs: seq<Battery>, i: nat)
    requires i <= |bs|
    ensures FirstSectionError(bs, i) == None <==> forall j :: i <= j < |bs| ==> SectionError(bs, j) == None
    decreases |bs| - i
  {
    hide SectionError;
    if i < |bs| { NoSectionError(bs, i + 1); }
  }

  lemma {:induction false} NoMirrorError(bs: seq<Battery>, i: nat)
    requires i <= |bs|
    ensures FirstMirrorError(bs, i) == None <==> forall j :: i <= j < |bs| ==> MirrorError(bs, j) == None
    decreases |bs| - i
  {
    hide MirrorError;
    if i < |bs| { NoMirrorError(bs, i + 1); }
  }

  lemma SectionsFit(bs: seq<Battery>)
    ensures (forall j :: 0 <= j < |bs| ==> SectionError(bs, j) == None)
       <==> NamesDiffer(bs) && forall j :: 0 <= j < |bs| ==> Complete(bs[j])
  {
    if forall j :: 0 <= j < |bs| ==> SectionError(bs, j) == None {
      forall i, j | 0 <= i < j < |bs| ensures bs[i].name != bs[j].name {
        assert SectionError(bs, j) == None;
      }
      forall j | 0 <= j < |bs| ensures Complete(bs[j]) {
        assert SectionError(bs, j) == None;
      }
    }
  }

  /** With distinct names, the battery found under a name is the only one. */
  lemma FoundMirror(bs: seq<Battery>, i: nat)
    requires i < |bs| && NamesDiffer(bs)
    ensures MirrorError(bs, i) == None <==> bs[i].Monitored() || HasMirror(bs, bs[i])
  {
    var k := FindName(bs, bs[i].mirror, 0);
    if !bs[i].Monitored() && HasMirror(bs, bs[i]) {
      var j :| 0 <= j < |bs| && bs[j].name == bs[i].mirror && bs[j].Monitored();
      assert k <= j;
    }
  }

  /** No error is reported exactly for the configurations that are accepted. */
  lemma ErrorsAreExact(bs: seq<Battery>)
    ensures FirstError(bs) == None <==> Accepted(bs)
  {
    hide SectionError, MirrorError, HasMirror;
    NoSectionError(bs, 0);
    NoMirrorError(bs, 0);
    SectionsFit(bs);
    if NamesDiffer(bs) {
      forall i | 0 <= i < |bs| ensures MirrorError(bs, i) == None <==> bs[i].Monitored() || HasMirror(bs, bs[i]) {
        FoundMirror(bs, i);
      }
    }
  }

  // ---- What is reported is true ----------------------------------------------------

  /** The section at `i` has the fault that `e` names. */
  ghost predicate HasFault(bs: seq<Battery>, i: nat, e: Error)
    requires i < |bs|
  {
    var b := bs[i];
    match e
    case NoBatteries => false
    case MissingName => b.name == ""
    case DuplicateName(n) => b.name == n && exists j :: 0 <= j < i && bs[j].name == n
    case MissingAddress(n) => b.name == n && b.address == ""
    case MissingProtocol(n) => b.name == n && b.Monitored() && b.protocol == ""
    case CapacityNotPositive(n) => b.name == n && !b.Monitored() && b.capacity <= 0
    case UnknownMirror(n, m) => b.name == n && b.mirror == m && !b.Monitored() && forall j :: 0 <= j < |bs| ==> bs[j].name != m
    case MirrorNotMonitored(n, m) =>
      b.name == n && b.mirror == m && !b.Monitored() && exists j :: 0 <= j < |bs| && bs[j].name == m && !bs[j].Monitored()
  }

  lemma SectionErrorIsTrue(bs: seq<Battery>, i: nat)
    requires i < |bs| && SectionError(bs, i).Some?
    ensures HasFault(bs, i, SectionError(bs, i).value)
  {
  }

  lemma MirrorErrorIsTrue(bs: seq<Battery>, i: nat)
    requires i < |bs| && MirrorError(bs, i).Some?
    ensures HasFault(bs, i, MirrorError(bs, i).value)
  {
  }

  lemma {:induction false} SectionErrorIsFirst(bs: seq<Battery>, i: nat)
    requires i <= |bs| && FirstSectionError(bs, i).Some?
    ensures exists k :: i <= k < |bs| && SectionError(bs, k) == FirstSectionError(bs, i) && forall j :: i <= j < k ==> SectionError(bs, j) == None
    decreases |bs| - i
  {
    hide SectionError;
    if SectionError(bs, i) == None {
      SectionErrorIsFirst(bs, i + 1);
      var k :| i < k < |bs| && SectionError(bs, k) == FirstSectionError(bs, i + 1) && forall j :: i < j < k ==> SectionError(bs, j) == None;
      assert forall j :: i <= j < k ==> SectionError(bs, j) == None;
    }
  }

  lemma {:induction false} MirrorErrorIsFirst(bs: seq<Battery>, i: nat)
    requires i <= |bs| && FirstMirrorError(bs, i).Some?
    ensures exists k :: i <= k < |bs| && MirrorError(bs, k) == FirstMirrorError(bs, i)
    decreases |bs| - i
  {
    hide MirrorError;
    if MirrorError(bs, i) == None { MirrorErrorIsFirst(bs, i + 1); }
  }

  /**
   A reported error is a fault some section has. The sections before it are complete and have
   different names; and a mirror is only looked at when all of them are.
   */
  lemma ErrorIsTrue(bs: seq<Battery>)
    requires FirstError(bs).Some? && bs != []
    ensures var e := FirstError(bs).value;
      exists i :: 0 <= i < |bs| && HasFault(bs, i, e) && NamesDiffer(bs[..i]) && forall j :: 0 <= j < i ==> Complete(bs[j])
    ensures var e := FirstError(bs).value;
      e.UnknownMirror? || e.MirrorNotMonitored? <==> NamesDiffer(bs) && forall j :: 0 <= j < |bs| ==> Complete(bs[j])
  {
    hide SectionError, MirrorError, HasFault, Complete;
    NoSectionError(bs, 0);
    SectionsFit(bs);
    if FirstSectionError(bs, 0).Some? {
      SectionErrorIsFirst(bs, 0);
      var i :| 0 <= i < |bs| && SectionError(bs, i) == FirstSectionError(bs, 0) && forall j :: 0 <= j < i ==> SectionError(bs, j) == None;
      SectionErrorIsTrue(bs, i);
      KindOfSectionError(bs, i);
      ErrorsOfPrefix(bs, i);
      SectionsFit(bs[..i]);
      assert forall j :: 0 <= j < i ==> bs[..i][j] == bs[j];
    } else {
      MirrorErrorIsFirst(bs, 0);
      var i :| 0 <= i < |bs| && MirrorError(bs, i) == FirstMirrorError(bs, 0);
      MirrorErrorIsTrue(bs, i);
      KindOfMirrorError(bs, i);
    }
  }

  lemma ErrorsOfPrefix(bs: seq<Battery>, i: nat)
    requires i <= |bs| && forall j :: 0 <= j < i ==> SectionError(bs, j) == None
    ensures forall j :: 0 <= j < i ==> SectionError(bs[..i], j) == None
  {
    forall j | 0 <= j < i ensures SectionError(bs[..i], j) == None {
      assert SectionError(bs, j) == None;
      assert bs[..i][j] == bs[j];
    }
  }

  lemma KindOfSectionError(bs: seq<Battery>, i: nat)
    requires i < |bs| && SectionError(bs, i).Some?
    ensures !SectionError(bs, i).value.UnknownMirror? && !SectionError(bs, i).value.MirrorNotMonitored?
  {
  }

  lemma KindOfMirrorError(bs: seq<Battery>, i: nat)
    requires i < |bs| && MirrorError(bs, i).Some?
    ensures MirrorError(bs, i).value.UnknownMirror? || MirrorError(bs, i).value.MirrorNotMonitored?
  {
  }
}
