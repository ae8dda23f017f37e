/**
 The `samples` table and the queries over it. Timestamps are integer milliseconds; a battery
 has at most one sample per timestamp, so a row is known by its battery and its timestamp.
 */
module Samples {
  type BatteryId = int
  type Time = int

  const DAY_MS := 86_400_000

  datatype Reading = Reading(voltageMv: int, currentMa: int)

  type Table = map<(BatteryId, Time), Reading>

  /** The times of a battery's samples in a window that excludes its end. */
  function Between(t: Table, battery: BatteryId, from: Time, to: Time): set<Time> {
    set k | k in t && k.0 == battery && from <= k.1 < to :: k.1
  }

  ghost predicate IsMax(s: set<Time>, m: Time) {
    m in s && forall x :: x in s ==> x <= m
  }

  lemma Pick<T>(s: set<T>) returns (x: T)
    requires s != {}
    ensures x in s
  {
    x :| x in s;
  }

  lemma {:induction false} MaxExists(s: set<Time>)
    requires s != {}
    ensures exists m :: IsMax(s, m)
  {
    var x := Pick(s);
    if s == {x} {
      assert IsMax(s, x);
    } else {
      MaxExists(s - {x});
      var m :| IsMax(s - {x}, m);
      assert forall z :: z in s ==> z == x || z in s - {x};
      assert IsMax(s, if x > m then x else m);
    }
  }

  function Max(s: set<Time>): (m: Time)
    requires s != {}
    ensures IsMax(s, m)
  {
    MaxExists(s);
    var m :| m in s && forall x :: x in s ==> x <= m;
    m
  }

  ghost predicate Descending(s: seq<Time>) {
    forall i, j :: 0 <= i < j < |s| ==> s[i] > s[j]
  }

  /** The times in descending order. */
  function NewestFirst(s: set<Time>): (r: seq<Time>)
    ensures Descending(r)
    ensures forall x :: x in r <==> x in s
    ensures |r| == |s|
  {
    if s == {} then []
    else
      var m := Max(s);
      var rest := NewestFirst(s - {m});
      assert forall i :: 0 <= i < |rest| ==> rest[i] in rest;
      [m] + rest
  }

  ghost predicate Ascending(s: seq<Time>) {
    forall i, j :: 0 <= i < j < |s| ==> s[i] < s[j]
  }

  /** The times in ascending order. */
  function OldestFirst(s: set<Time>): (r: seq<Time>)
    ensures Ascending(r)
    ensures forall x :: x in r <==> x in s
  {
    if s == {} then []
    else
      var m := Max(s);
      var rest := OldestFirst(s - {m});
      assert forall i :: 0 <= i < |rest| ==> rest[i] in rest;
      rest + [m]
  }

  /** The newest sample of each bucket of width `step`, counted from `from`. */
  function NewestPerBucket(s: set<Time>, from: Time, step: Time): set<Time>
    requires step > 0
  {
    set x | x in s && forall y :: y in s && (y - from) / step == (x - from) / step ==> y <= x
  }

  /** The first rows, if the limit is positive. */
  function Limit(rows: seq<Time>, limit: int): seq<Time> {
    if 0 < limit < |rows| then rows[..limit] else rows
  }

  /** The samples a query chooses from: all, or with a step the newest of every bucket. */
  function Chosen(rows: set<Time>, from: Time, step: Time): set<Time> {
    if step > 0 then NewestPerBucket(rows, from, step) else rows
  }

  function Select(rows: set<Time>, from: Time, limit: int, step: Time): seq<Time> {
    Limit(NewestFirst(Chosen(rows, from, step)), limit)
  }

  /** The rows a query by battery id can see; ids start at 1. */
  function Rows(t: Table, battery: BatteryId, from: Time, to: Time): set<Time> {
    if battery <= 0 then {} else Between(t, battery, from, to)
  }

  /** range_by_id: newest first, decimated to one row per bucket if a step is given. */
  function RangeById(t: Table, battery: BatteryId, from: Time, to: Time, limit: int, step: Time): seq<Time> {
    Select(Rows(t, battery, from, to), from, limit, step)
  }

  /** Every sample shares its bucket with the newest sample there, less than a step away. */
  lemma BucketHasNewest(s: set<Time>, from: Time, step: Time, x: Time) returns (y: Time)
    requires step > 0 && x in s
    ensures y in NewestPerBucket(s, from, step) && 0 <= y - x < step && (y - from) / step == (x - from) / step
  {
    var bucket := set z | z in s && (z - from) / step == (x - from) / step;
    assert x in bucket;
    y := Max(bucket);
    SameBucket(x - from, y - from, step);
    forall z | z in s && (z - from) / step == (y - from) / step ensures z <= y {
      assert z in bucket;
    }
  }

  lemma SameBucket(a: int, b: int, step: int)
    requires step > 0 && a / step == b / step
    ensures b - a < step
  {
    assert a == a / step * step + a % step && b == b / step * step + b % step;
  }

  // ---- What a query answers ----------------------------------------------------

  /** The bucket of a time; without a step every time is its own. */
  function Bucket(x: Time, from: Time, step: Time): int {
    if step > 0 then (x - from) / step else x
  }

  ghost predicate InBucketOf(page: seq<Time>, x: Time, from: Time, step: Time) {
    exists i :: 0 <= i < |page| && Bucket(page[i], from, step) == Bucket(x, from, step)
  }

  /** No two of the page's samples share a bucket, and each is the newest sample of its own. */
  ghost predicate Decimated(page: seq<Time>, rows: set<Time>, from: Time, step: Time) {
    && (forall i, j :: 0 <= i < j < |page| ==> Bucket(page[i], from, step) != Bucket(page[j], from, step))
    && (forall i, x :: 0 <= i < |page| && x in rows && Bucket(x, from, step) == Bucket(page[i], from, step) ==> x <= page[i])
  }

  /** No bucket is left out, unless the page is full; then only older ones are. */
  ghost predicate Complete(page: seq<Time>, rows: set<Time>, from: Time, limit: int, step: Time) {
    forall x :: x in rows ==>
      || InBucketOf(page, x, from, step)
      || (0 < limit == |page| && x < page[|page| - 1])
  }

  /** The answer to a query for `rows`: newest first, one sample per bucket, none left out, at most `limit`. */
  ghost predicate IsPage(page: seq<Time>, rows: set<Time>, from: Time, limit: int, step: Time) {
    && Descending(page)
    && (forall i :: 0 <= i < |page| ==> page[i] in rows)
    && (limit > 0 ==> |page| <= limit)
    && Decimated(page, rows, from, step)
    && Complete(page, rows, from, limit, step)
  }

  /** The newest sample of every bucket, oldest buckets cut off at the limit. */
  lemma SelectIsPage(rows: set<Time>, from: Time, limit: int, step: Time)
    ensures IsPage(Select(rows, from, limit, step), rows, from, limit, step)
  {
    hide Complete, Decimated, Select, Descending;
    SelectedAreChosen(rows, from, limit, step);
    ChosenAreNewest(Select(rows, from, limit, step), rows, from, step);
    SelectIsComplete(rows, from, limit, step);
  }

  lemma SelectedAreChosen(rows: set<Time>, from: Time, limit: int, step: Time)
    ensures var page := Select(rows, from, limit, step);
      && Descending(page) && (limit > 0 ==> |page| <= limit)
      && forall i :: 0 <= i < |page| ==> page[i] in Chosen(rows, from, step)
  {
    hide Chosen;
  }

  lemma ChosenAreNewest(page: seq<Time>, rows: set<Time>, from: Time, step: Time)
    requires Descending(page) && forall i :: 0 <= i < |page| ==> page[i] in Chosen(rows, from, step)
    ensures forall i :: 0 <= i < |page| ==> page[i] in rows
    ensures Decimated(page, rows, from, step)
  {
    forall i, j | 0 <= i < j < |page| ensures Bucket(page[i], from, step) != Bucket(page[j], from, step) {
      assert page[i] > page[j];
    }
  }

  lemma BucketHasChosen(rows: set<Time>, from: Time, step: Time, x: Time) returns (y: Time)
    requires x in rows
    ensures y in Chosen(rows, from, step) && x <= y && Bucket(y, from, step) == Bucket(x, from, step)
  {
    y := x;
    if step > 0 { y := BucketHasNewest(rows, from, step, x); }
  }

  lemma SelectIsComplete(rows: set<Time>, from: Time, limit: int, step: Time)
    ensures Complete(Select(rows, from, limit, step), rows, from, limit, step)
  {
    hide Bucket, Chosen, Descending;
    var all, page := NewestFirst(Chosen(rows, from, step)), Select(rows, from, limit, step);
    forall x | x in rows ensures InBucketOf(page, x, from, step) || (0 < limit == |page| && x < page[|page| - 1]) {
      var y := BucketHasChosen(rows, from, step, x);
      assert y in all;
      var j :| 0 <= j < |all| && all[j] == y;
      if j < |page| {
        assert page[j] == y;
      } else {
        OlderBehind(all, |page| - 1, j);
      }
    }
  }

  lemma OlderBehind(s: seq<Time>, i: int, j: int)
    requires Descending(s) && 0 <= i < j < |s|
    ensures s[i] > s[j]
  {
  }

  /** A sample of one answer is on the other too, unless that is full and the sample older than all on it. */
  lemma OnBothPages(a: seq<Time>, b: seq<Time>, rows: set<Time>, from: Time, limit: int, step: Time, k: nat)
    requires IsPage(a, rows, from, limit, step) && IsPage(b, rows, from, limit, step) && k < |a|
    ensures a[k] in b || (0 < limit == |b| && a[k] < b[|b| - 1])
  {
    hide Bucket;
    if InBucketOf(b, a[k], from, step) {
      var i :| 0 <= i < |b| && Bucket(b[i], from, step) == Bucket(a[k], from, step);
      assert b[i] == a[k];
    }
  }

  lemma NotNewer(a: seq<Time>, b: seq<Time>, rows: set<Time>, from: Time, limit: int, step: Time, k: nat)
    requires IsPage(a, rows, from, limit, step) && IsPage(b, rows, from, limit, step)
    requires k < |a| && k < |b| && a[..k] == b[..k]
    ensures a[k] <= b[k]
  {
    hide Decimated, Complete;
    forall i | 0 <= i < k ensures a[i] == b[i] {
      assert a[i] == a[..k][i] == b[..k][i];
    }
    OnBothPages(a, b, rows, from, limit, step, k);
  }

  lemma {:induction false} SameUpTo(a: seq<Time>, b: seq<Time>, rows: set<Time>, from: Time, limit: int, step: Time, k: nat)
    requires IsPage(a, rows, from, limit, step) && IsPage(b, rows, from, limit, step) && k <= |a| && k <= |b|
    ensures a[..k] == b[..k]
  {
    hide IsPage;
    if k > 0 {
      SameUpTo(a, b, rows, from, limit, step, k - 1);
      NotNewer(a, b, rows, from, limit, step, k - 1);
      NotNewer(b, a, rows, from, limit, step, k - 1);
      assert a[..k] == a[..k - 1] + [a[k - 1]] && b[..k] == b[..k - 1] + [b[k - 1]];
    }
  }

  lemma NotBefore(s: seq<Time>, k: nat)
    requires Descending(s) && k < |s|
    ensures s[k] !in s[..k]
  {
  }

  lemma NotLonger(a: seq<Time>, b: seq<Time>, rows: set<Time>, from: Time, limit: int, step: Time)
    requires IsPage(a, rows, from, limit, step) && IsPage(b, rows, from, limit, step)
    ensures |a| <= |b|
  {
    hide Decimated, Complete;
    if |a| > |b| {
      var k := |b|;
      SameUpTo(a, b, rows, from, limit, step, k);
      assert b[..k] == b;
      NotBefore(a, k);
      OnBothPages(a, b, rows, from, limit, step, k);
    }
  }

  /** Such an answer is unique: nothing else about a query is left open. */
  lemma PageIsUnique(a: seq<Time>, b: seq<Time>, rows: set<Time>, from: Time, limit: int, step: Time)
    requires IsPage(a, rows, from, limit, step) && IsPage(b, rows, from, limit, step)
    ensures a == b
  {
    hide IsPage;
    NotLonger(a, b, rows, from, limit, step);
    NotLonger(b, a, rows, from, limit, step);
    SameUpTo(a, b, rows, from, limit, step, |a|);
    assert a[..|a|] == a && b[..|b|] == b;
  }
}
