/**
 The exclusive scan/connect slot shared by all BLE clients: one holder and a FIFO queue of
 waiters. A grant has two halves: the holder is chosen under the coordinator's lock, and the
 grant callback runs afterwards, outside it. `Ask` and `GiveUp` are the two critical
 sections; each says whose callback the caller still has to run.
 */
module ScanCoordinator {
  import opened Wrappers

  type ClientId = nat

  datatype Slot = Slot(holder: Option<ClientId>, waiters: seq<ClientId>)

  ghost predicate Distinct(ws: seq<ClientId>) {
    forall i, j :: 0 <= i < j < |ws| ==> ws[i] != ws[j]
  }

  /** The queue without the first entry of `c`, if any. */
  function Without(ws: seq<ClientId>, c: ClientId): seq<ClientId> {
    if ws == [] then []
    else if ws[0] == c then ws[1..]
    else [ws[0]] + Without(ws[1..], c)
  }

  /** request(): the new slot and whether the caller must now run its own grant callback. */
  function Ask(s: Slot, c: ClientId): (Slot, bool) {
    if s.holder == Some(c) then (s, true)
    else if s.holder == None then (s.(holder := Some(c)), true)
    else if c in s.waiters then (s, false)
    else (s.(waiters := s.waiters + [c]), false)
  }

  /** release(): the new slot and whose grant callback the caller must now run. */
  function GiveUp(s: Slot, c: ClientId): (Slot, Option<ClientId>) {
    if s.holder != Some(c) then (s.(waiters := Without(s.waiters, c)), None)
    else if s.waiters == [] then (Slot(None, []), None)
    else (Slot(Some(s.waiters[0]), s.waiters[1..]), Some(s.waiters[0]))
  }

  /**
   A request grants exactly to the holder and to whoever asks for the free slot; it changes
   nothing for the holder and for a client that is queued already.
   */
  lemma WhoIsGranted(s: Slot, c: ClientId)
    ensures Ask(s, c).1 <==> s.holder == None || s.holder == Some(c)
    ensures Ask(s, c).0 == s <==> s.holder == Some(c) || (s.holder != None && c in s.waiters)
  {
    assert |s.waiters + [c]| == |s.waiters| + 1;
  }

  /** An entry of another client never moves back. */
  lemma {:induction false} PlaceAfterErasing(ws: seq<ClientId>, c: ClientId, i: nat) returns (j: nat)
    requires i < |ws| && ws[i] != c
    ensures j <= i && j < |Without(ws, c)| && Without(ws, c)[j] == ws[i]
    decreases |ws|
  {
    if ws[0] == c {
      j := i - 1;
    } else if i == 0 {
      j := 0;
    } else {
      j := PlaceAfterErasing(ws[1..], c, i - 1);
      j := j + 1;
    }
  }

  lemma {:induction false} WithoutErases(ws: seq<ClientId>, c: ClientId)
    requires Distinct(ws)
    ensures Distinct(Without(ws, c))
    ensures forall d :: d in Without(ws, c) <==> d in ws && d != c
    ensures c !in ws ==> Without(ws, c) == ws
    decreases |ws|
  {
    if ws == [] {
    } else if ws[0] == c {
      DequeueKeepsOrder(ws);
      assert c in ws;
    } else {
      DequeueKeepsOrder(ws);
      var rest := Without(ws[1..], c);
      WithoutErases(ws[1..], c);
      assert ws[0] !in rest;
      assert forall d :: d in [ws[0]] + rest <==> d == ws[0] || d in rest;
      assert ws == [ws[0]] + ws[1..];
    }
  }

  /** Erasing keeps the queue duplicate-free and removes exactly `c`; an entry of another
      client never moves back. */
  lemma WithoutKeepsOrder(ws: seq<ClientId>, c: ClientId)
    requires Distinct(ws)
    ensures Distinct(Without(ws, c))
    ensures forall d :: d in Without(ws, c) <==> d in ws && d != c
    ensures c !in ws ==> Without(ws, c) == ws
    ensures forall i :: 0 <= i < |ws| && ws[i] != c ==>
              exists j :: 0 <= j <= i && j < |Without(ws, c)| && Without(ws, c)[j] == ws[i]
  {
    hide Without;
    WithoutErases(ws, c);
    forall i | 0 <= i < |ws| && ws[i] != c
      ensures exists j :: 0 <= j <= i && j < |Without(ws, c)| && Without(ws, c)[j] == ws[i]
    {
      var j := PlaceAfterErasing(ws, c, i);
    }
  }

  lemma DequeueKeepsOrder(ws: seq<ClientId>)
    requires Distinct(ws) && ws != []
    ensures Distinct(ws[1..])
    ensures forall d :: d in ws[1..] <==> d in ws && d != ws[0]
  {
    assert ws == [ws[0]] + ws[1..];
  }

  /** The coordinator object itself; every method body is one critical section. */
  class BleScanCoordinator {
    var holder: Option<ClientId>
    var waiters: seq<ClientId>

    constructor ()
      ensures Contents() == Slot(None, [])
    {
      holder, waiters := None, [];
    }

    function Contents(): Slot
      reads this
    {
      Slot(holder, waiters)
    }

    method Request(owner: ClientId) returns (grant: bool)
      modifies this
      ensures (Contents(), grant) == Ask(old(Contents()), owner)
    {
      if holder == Some(owner) {
        return true;
      }
      if holder == None {
        holder := Some(owner);
        return true;
      }
      for i := 0 to |waiters|
        invariant owner !in waiters[..i] && Contents() == old(Contents())
      {
        if waiters[i] == owner {
          return false;
        }
      }
      waiters := waiters + [owner];
      grant := false;
    }

    method Release(owner: ClientId) returns (grant: Option<ClientId>)
      modifies this
      ensures (Contents(), grant) == GiveUp(old(Contents()), owner)
    {
      if holder != Some(owner) {
        for i := 0 to |waiters|
          invariant Contents() == old(Contents())
          invariant Without(waiters, owner) == waiters[..i] + Without(waiters[i..], owner)
        {
          assert waiters[i..][1..] == waiters[i + 1..];
          if waiters[i] == owner {
            waiters := waiters[..i] + waiters[i + 1..];
            return None;
          }
        }
        assert Without([], owner) == [] && waiters[|waiters|..] == [];
        assert Without(waiters, owner) == waiters;
        return None;
      }
      holder := None;
      grant := None;
      if waiters != [] {
        holder, grant := Some(waiters[0]), Some(waiters[0]);
        waiters := waiters[1..];
      }
    }
  }
}
