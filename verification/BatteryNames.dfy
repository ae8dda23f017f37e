/** Row ids of batteries: a table of names, and a cache of it that is filled at startup and kept by look-ups. */
module BatteryNames {

  type Ids = map<string, int>

  /** Ids are given out in order, and never twice. */
  ghost predicate WellNumbered(ids: Ids, last: nat) {
    && (forall n :: n in ids ==> 0 < ids[n] <= last)
    && forall m, n :: m in ids && n in ids && ids[m] == ids[n] ==> m == n
  }

  class BatteryTable {
    /** The rows of `batteries`, the largest id ever given out, and the cache. */
    var rows: Ids
    var last: nat
    var cache: Ids

    ghost predicate Valid()
      reads this
    {
      && WellNumbered(rows, last)
      && forall n :: n in cache ==> n in rows && cache[n] == rows[n]
    }

    constructor (rows: Ids, last: nat)
      requires WellNumbered(rows, last)
      ensures Valid() && this.rows == rows && this.last == last && cache == rows
    {
      this.rows, this.last, cache := rows, last, map[];
      new;
      LoadBatteryCache();
    }

    method LoadBatteryCache()
      requires Valid() && cache == map[]
      modifies this`cache
      ensures Valid() && cache == rows
    {
      var left := rows.Keys;
      while left != {}
        invariant left <= rows.Keys && cache.Keys == rows.Keys - left
        invariant forall n :: n in cache ==> cache[n] == rows[n]
        decreases left
      {
        var n :| n in left;
        cache := cache[n := rows[n]];
        left := left - {n};
      }
    }

    /** The id of a name; a missing name is inserted if asked for, and yields -1 otherwise. */
    method BatteryRowId(name: string, create: bool) returns (id: int)
      requires Valid()
      modifies this
      ensures Valid()
      ensures forall n :: n in old(rows) ==> n in rows && rows[n] == old(rows)[n]
      ensures rows.Keys == old(rows).Keys + if create then {name} else {}
      ensures if name in rows then id == rows[name] > 0 && name in cache else id == -1
      ensures forall n :: n in old(cache) ==> n in cache
    {
      if name in cache {
        return cache[name];
      }
      id := -1;
      if name in rows {
        id := rows[name];
      }
      if id < 0 && create {
        last := last + 1;
        rows := rows[name := last];
        id := last;
      }
      if id >= 0 {
        cache := cache[name := id];
      }
    }

    /** The name of an id, empty for an id that is not in the cache. */
    method BatteryName(id: int) returns (name: string)
      requires Valid()
      ensures id in cache.Values ==> name in cache && cache[name] == id
      ensures id !in cache.Values ==> name == ""
    {
      var left := cache.Keys;
      while left != {}
        invariant left <= cache.Keys && forall n :: n in cache && cache[n] == id ==> n in left
        decreases left
      {
        var n :| n in left;
        if cache[n] == id {
          return n;
        }
        left := left - {n};
      }
      name := "";
    }
  }

  /** Asking for a name's id and then for that id's name returns the name. */
  method NameReadsBack(t: BatteryTable, name: string) returns (id: int, back: string)
    requires t.Valid()
    modifies t
    ensures t.Valid() && id > 0 && back == name
  {
    id := t.BatteryRowId(name, true);
    assert t.cache[name] == id;
    back := t.BatteryName(id);
  }
}
