/**
 Paging through a battery's history over HTTP. The first request answers one page and leaves
 a context behind; each `next` request answers the page below the oldest sample delivered so
 far, with the bucket width computed afresh for what is left, until nothing older is left.
 */
module Paging {
  import opened Arith
  import opened Wrappers
  import opened Samples

  const CTX_TTL_MS := 300_000

  datatype PageCtx = PageCtx(battery: BatteryId, start: Time, end: Time, count: int, expiresAt: Time)

  type Contexts = map<string, PageCtx>

  /** Query parameters as numbers; times in seconds. */
  datatype Params = Params(battery: BatteryId, startS: Option<int>, endS: Option<int>, count: Option<int>)

  function StartOf(p: Params, now: Time): Time {
    if p.startS.Some? then p.startS.value * 1000 else now - DAY_MS
  }

  function EndOf(p: Params, now: Time): Time {
    if p.endS.Some? then p.endS.value * 1000 else now
  }

  function CountOf(p: Params): int {
    if p.count.Some? && p.count.value > 0 then p.count.value else 100
  }

  function StepMs(start: Time, end: Time, count: int): Time {
    if end - start > 0 && count > 0 then (end - start) / count else 0
  }

  /** The page of a window, and whether anything older is left in it. */
  function PageOf(t: Table, battery: BatteryId, start: Time, end: Time, count: int): (seq<Time>, bool) {
    var data := RangeById(t, battery, start, end, count, StepMs(start, end, count));
    (data, data != [] && RangeById(t, battery, start, data[|data| - 1], 1, 0) != [])
  }

  function AnswerInitial(ctxs: Contexts, t: Table, id: string, p: Params, now: Time, steady: Time): (Contexts, seq<Time>) {
    var (data, more) := PageOf(t, p.battery, StartOf(p, now), EndOf(p, now), CountOf(p));
    var ctxs' := if more
      then ctxs[id := PageCtx(p.battery, StartOf(p, now), data[|data| - 1], CountOf(p), steady + CTX_TTL_MS)]
      else ctxs;
    (ctxs', data)
  }

  /** No page: the request id is unknown. */
  function AnswerNext(ctxs: Contexts, t: Table, id: string, steady: Time): (Contexts, Option<seq<Time>>) {
    if id !in ctxs then (ctxs, None)
    else
      var c := ctxs[id];
      var (data, more) := PageOf(t, c.battery, c.start, c.end, c.count);
      if more then (ctxs[id := c.(end := data[|data| - 1], expiresAt := steady + CTX_TTL_MS)], Some(data))
      else (ctxs - {id}, Some(data))
  }

  function Unexpired(ctxs: Contexts, steady: Time): Contexts {
    map id | id in ctxs && steady < ctxs[id].expiresAt :: ctxs[id]
  }

  class HttpServer {
    var ctxs: Contexts

    constructor ()
      ensures ctxs == map[]
    {
      ctxs := map[];
    }

    method HandleHistoryInitial(t: Table, id: string, p: Params, now: Time, steady: Time) returns (data: seq<Time>)
      modifies this
      ensures (ctxs, data) == AnswerInitial(old(ctxs), t, id, p, now, steady)
    {
      hide RangeById;
      var timeStart, timeEnd, count := now - 24 * 3_600_000, now, 100;
      if p.startS.Some? {
        timeStart := p.startS.value * 1000;
      }
      if p.endS.Some? {
        timeEnd := p.endS.value * 1000;
      }
      if p.count.Some? && p.count.value > 0 {
        count := p.count.value;
      }
      var window := timeEnd - timeStart;
      var step := if window > 0 && count > 0 then window / count else 0;
      data := RangeById(t, p.battery, timeStart, timeEnd, count, step);
      if data != [] {
        var probe := RangeById(t, p.battery, timeStart, data[|data| - 1], 1, 0);
        if probe != [] {
          ctxs := ctxs[id := PageCtx(p.battery, timeStart, data[|data| - 1], count, steady + CTX_TTL_MS)];
        }
      }
    }

    method HandleHistoryNext(t: Table, id: string, steady: Time) returns (data: Option<seq<Time>>)
      modifies this
      ensures (ctxs, data) == AnswerNext(old(ctxs), t, id, steady)
    {
      hide RangeById;
      if id !in ctxs {
        return None;
      }
      var c := ctxs[id];
      var window := c.end - c.start;
      var step := if window > 0 && c.count > 0 then window / c.count else 0;
      var rows := RangeById(t, c.battery, c.start, c.end, c.count, step);
      if rows != [] {
        var probe := RangeById(t, c.battery, c.start, rows[|rows| - 1], 1, 0);
        if probe != [] {
          ctxs := ctxs[id := c.(end := rows[|rows| - 1], expiresAt := steady + CTX_TTL_MS)];
        } else {
          ctxs := ctxs - {id};
        }
      } else {
        ctxs := ctxs - {id};
      }
      data := Some(rows);
    }

    method OnSweep(steady: Time)
      modifies this
      ensures ctxs == Unexpired(old(ctxs), steady)
    {
      var left := ctxs.Keys;
      while left != {}
        invariant left <= ctxs.Keys <= old(ctxs).Keys
        invariant forall id :: id in ctxs ==> ctxs[id] == old(ctxs)[id]
        invariant forall id :: id in old(ctxs) && id !in left ==> (id in ctxs <==> steady < old(ctxs)[id].expiresAt)
        invariant forall id :: id in left ==> id in ctxs
        decreases left
      {
        var id :| id in left;
        if steady >= ctxs[id].expiresAt {
          ctxs := ctxs - {id};
        }
        left := left - {id};
      }
    }
  }

  // ---- One window, followed to its end -----------------------------------------

  function Below(rows: set<Time>, end: Time): set<Time> {
    set x | x in rows && x < end
  }

  lemma SmallerBelow(rows: set<Time>, end: Time, end': Time)
    requires end' in Below(rows, end)
    ensures Below(rows, end') < Below(rows, end)
    ensures Below(Below(rows, end), end') == Below(rows, end')
  {
    assert end' !in Below(rows, end');
  }

  /** What the pages of a window hold, one after the other; `rows` are the samples in it. */
  function Pages(rows: set<Time>, start: Time, end: Time, count: int): seq<seq<Time>>
    requires forall x :: x in rows ==> start <= x < end
    decreases rows
  {
    var data := Select(rows, start, count, StepMs(start, end, count));
    if data == [] then [data]
    else
      var oldest := data[|data| - 1];
      PageLiesInWindow(rows, start, count, StepMs(start, end, count));
      if Below(rows, oldest) == {} then [data]
      else
        assert oldest in rows && oldest !in Below(rows, oldest);
        [data] + Pages(Below(rows, oldest), start, oldest, count)
  }

  function Width(step: Time): Time {
    if step > 1 then step else 1
  }

  ghost predicate Covers(page: seq<Time>, x: Time, width: Time) {
    exists i :: 0 <= i < |page| && 0 <= page[i] - x < width
  }

  /** A page lies in its window, strictly descending. */
  lemma PageLiesInWindow(rows: set<Time>, start: Time, count: int, step: Time)
    ensures Descending(Select(rows, start, count, step))
    ensures forall i :: 0 <= i < |Select(rows, start, count, step)| ==> Select(rows, start, count, step)[i] in rows
  {
    var chosen := if step > 0 then NewestPerBucket(rows, start, step) else rows;
    var all := NewestFirst(chosen);
    assert forall i :: 0 <= i < |all| ==> all[i] in all;
  }

  /** A query answers the newest sample of every bucket of the window, oldest buckets cut off at the limit, and nothing else does. */
  lemma RangeIsPage(t: Table, battery: BatteryId, from: Time, to: Time, limit: int, step: Time, page: seq<Time>)
    ensures page == RangeById(t, battery, from, to, limit, step) <==> IsPage(page, Rows(t, battery, from, to), from, limit, step)
  {
    hide IsPage, Select, Rows;
    var rows := Rows(t, battery, from, to);
    SelectIsPage(rows, from, limit, step);
    if IsPage(page, rows, from, limit, step) {
      PageIsUnique(page, Select(rows, from, limit, step), rows, from, limit, step);
    }
  }

  /** A page starts with the newest sample of its window. */
  lemma PageStartsWithNewest(rows: set<Time>, start: Time, count: int, step: Time)
    requires rows != {}
    ensures Select(rows, start, count, step) != [] && Select(rows, start, count, step)[0] == Max(rows)
  {
    var chosen := if step > 0 then NewestPerBucket(rows, start, step) else rows;
    var all := NewestFirst(chosen);
    assert Max(rows) in chosen;
    assert Max(rows) in all;
    assert all[0] in all;
  }

  /** Every sample down to the page's oldest has a sample on the page less than a step later. */
  lemma PageCovers(rows: set<Time>, start: Time, count: int, step: Time, x: Time)
    requires x in rows
    ensures var data := Select(rows, start, count, step);
      data != [] && x >= data[|data| - 1] ==> Covers(data, x, Width(step))
  {
    var chosen := if step > 0 then NewestPerBucket(rows, start, step) else rows;
    var all := NewestFirst(chosen);
    var data := Limit(all, count);
    var y := x;
    if step > 0 { y := BucketHasNewest(rows, start, step, x); }
    assert y in chosen && y in all;
    var j :| 0 <= j < |all| && all[j] == y;
    if data != [] && x >= data[|data| - 1] {
      assert j < |data| && data[j] == y;
    }
  }

  /** Where the window of the k-th page ends: at the oldest sample delivered before. */
  function EndOfWindow(pages: seq<seq<Time>>, end: Time, k: nat): Time
    requires k <= |pages|
  {
    if k > 0 && pages[k - 1] != [] then pages[k - 1][|pages[k - 1]| - 1] else end
  }

  /** The k-th page of a window that ends at `end` is decimated and complete for what is left of the window. */
  ghost predicate PageFits(pages: seq<seq<Time>>, rows: set<Time>, start: Time, end: Time, count: int, k: nat)
    requires k < |pages|
  {
    var to := EndOfWindow(pages, end, k);
    IsPage(pages[k], Below(rows, to), start, count, StepMs(start, to, count))
  }

  /** Every page has at most one sample per bucket of its window, none left out, and at most `count` if that is positive. */
  lemma {:induction false} PagesAreDecimated(rows: set<Time>, start: Time, end: Time, count: int, k: nat)
    requires InWindow(rows, start, end) && k < |Pages(rows, start, end, count)|
    ensures PageFits(Pages(rows, start, end, count), rows, start, end, count, k)
    decreases k
  {
    hide Select, IsPage;
    assert Below(rows, end) == rows;
    SelectIsPage(rows, start, count, StepMs(start, end, count));
    if rows != {} && k > 0 {
      var data := PagesUnfold(rows, start, end, count);
      var oldest := data[|data| - 1];
      var rest := Below(rows, oldest);
      var below := Pages(rest, start, oldest, count);
      PagesAreDecimated(rest, start, oldest, count, k - 1);
      PagesSpan(rest, start, oldest, count);
      var to := EndOfWindow(below, oldest, k - 1);
      assert to == EndOfWindow([data] + below, end, k);
      assert to <= oldest by { WindowShrinks(rest, start, oldest, count, k - 1); }
      assert Below(rest, to) == Below(rows, to);
    }
  }

  lemma WindowShrinks(rows: set<Time>, start: Time, end: Time, count: int, k: nat)
    requires InWindow(rows, start, end) && k <= |Pages(rows, start, end, count)|
    ensures EndOfWindow(Pages(rows, start, end, count), end, k) <= end
  {
    var pages := Pages(rows, start, end, count);
    if k > 0 && pages[k - 1] != [] {
      PagesDescend(rows, start, end, count);
      OnFlattened(pages, k - 1, |pages[k - 1]| - 1);
    }
  }

  lemma {:induction false} OnFlattened(pages: seq<seq<Time>>, k: nat, i: nat)
    requires k < |pages| && i < |pages[k]|
    ensures pages[k][i] in Flatten(pages)
  {
    if k > 0 { OnFlattened(pages[1..], k - 1, i); }
  }

  function Flatten(pages: seq<seq<Time>>): seq<Time> {
    if pages == [] then [] else pages[0] + Flatten(pages[1..])
  }

  /** The window `rows` of a request, and the step it is answered with. */
  ghost predicate InWindow(rows: set<Time>, start: Time, end: Time) {
    forall x :: x in rows ==> start <= x < end
  }

  /** How a window continues below its first page, if it does. */
  lemma PagesUnfold(rows: set<Time>, start: Time, end: Time, count: int) returns (data: seq<Time>)
    requires InWindow(rows, start, end) && rows != {}
    ensures data == Select(rows, start, count, StepMs(start, end, count)) && data != []
    ensures Descending(data) && (forall i :: 0 <= i < |data| ==> data[i] in rows) && data[0] == Max(rows)
    ensures var oldest := data[|data| - 1]; var rest := Below(rows, oldest);
      && rest < rows && InWindow(rest, start, oldest)
      && Pages(rows, start, end, count) == if rest == {} then [data] else [data] + Pages(rest, start, oldest, count)
  {
    var step := StepMs(start, end, count);
    data := Select(rows, start, count, step);
    PageStartsWithNewest(rows, start, count, step);
    PageLiesInWindow(rows, start, count, step);
    var oldest := data[|data| - 1];
    assert oldest in rows && oldest !in Below(rows, oldest);
  }

  /** All pages together: strictly descending, so nothing is delivered twice; only samples of the window. */
  lemma {:induction false} PagesDescend(rows: set<Time>, start: Time, end: Time, count: int)
    requires InWindow(rows, start, end)
    ensures Descending(Flatten(Pages(rows, start, end, count)))
    ensures forall y :: y in Flatten(Pages(rows, start, end, count)) ==> y in rows
    decreases rows
  {
    hide Select;
    if rows != {} {
      var data := PagesUnfold(rows, start, end, count);
      var oldest := data[|data| - 1];
      var rest := Below(rows, oldest);
      assert Flatten([data]) == data;
      if rest != {} {
        var below := Pages(rest, start, oldest, count);
        PagesDescend(rest, start, oldest, count);
        assert ([data] + below)[1..] == below;
        assert Flatten([data] + below) == data + Flatten(below);
        Joined(data, Flatten(below));
      }
    } else {
      assert Select(rows, start, count, StepMs(start, end, count)) == [] by { NothingToSelect(start, count, StepMs(start, end, count)); }
    }
  }

  lemma NothingToSelect(start: Time, count: int, step: Time)
    ensures Select({}, start, count, step) == []
  {
    var chosen := if step > 0 then NewestPerBucket({}, start, step) else {};
    assert chosen == {};
  }

  lemma Joined(a: seq<Time>, b: seq<Time>)
    requires Descending(a) && Descending(b) && a != [] && forall y :: y in b ==> y < a[|a| - 1]
    ensures Descending(a + b)
  {
    forall i, j | 0 <= i < j < |a + b| ensures (a + b)[i] > (a + b)[j] {
      if j >= |a| { assert (a + b)[j] == b[j - |a|] && b[j - |a|] in b; }
    }
  }

  /** A shorter window is never answered with a wider step. */
  lemma StepNeverGrows(start: Time, end: Time, end': Time, count: int)
    requires end' <= end
    ensures StepMs(start, end', count) <= StepMs(start, end, count)
  {
    if 0 < end' - start && 0 < count {
      DivMonotone(end' - start, end - start, count);
    }
  }

  /** Every sample of the window has a delivered one less than the first page's step after it. */
  lemma {:induction false} PagesCover(rows: set<Time>, start: Time, end: Time, count: int, x: Time)
    requires InWindow(rows, start, end) && x in rows
    ensures Covers(Flatten(Pages(rows, start, end, count)), x, Width(StepMs(start, end, count)))
    decreases rows
  {
    hide Select;
    var data := PagesUnfold(rows, start, end, count);
    var oldest := data[|data| - 1];
    var rest := Below(rows, oldest);
    var below := if rest == {} then [] else Pages(rest, start, oldest, count);
    assert ([data] + below)[1..] == below;
    assert Flatten([data] + below) == data + Flatten(below);
    assert Pages(rows, start, end, count) == [data] + below;
    if x >= oldest {
      PageCovers(rows, start, count, StepMs(start, end, count), x);
      var i :| 0 <= i < |data| && 0 <= data[i] - x < Width(StepMs(start, end, count));
      assert (data + Flatten(below))[i] == data[i];
    } else {
      assert x in rest;
      PagesCover(rest, start, oldest, count, x);
      assert oldest in rows;
      StepNeverGrows(start, end, oldest, count);
      var i :| 0 <= i < |Flatten(below)| && 0 <= Flatten(below)[i] - x < Width(StepMs(start, oldest, count));
      assert (data + Flatten(below))[|data| + i] == Flatten(below)[i];
    }
  }

  /** The first sample delivered is the window's newest, the last its oldest; the pages are few. */
  lemma {:induction false} PagesSpan(rows: set<Time>, start: Time, end: Time, count: int)
    requires InWindow(rows, start, end) && rows != {}
    ensures var all := Flatten(Pages(rows, start, end, count));
      all != [] && all[0] == Max(rows) && all[|all| - 1] in rows && forall x :: x in rows ==> all[|all| - 1] <= x
    ensures |Pages(rows, start, end, count)| <= |rows|
    ensures forall i :: 0 <= i < |Pages(rows, start, end, count)| ==> Pages(rows, start, end, count)[i] != []
    decreases rows
  {
    hide Select;
    var data := PagesUnfold(rows, start, end, count);
    var oldest := data[|data| - 1];
    var rest := Below(rows, oldest);
    assert Flatten([data]) == data;
    CardinalityDrops(rest, rows);
    if rest != {} {
      var below := Pages(rest, start, oldest, count);
      PagesSpan(rest, start, oldest, count);
      assert ([data] + below)[1..] == below;
      assert Flatten([data] + below) == data + Flatten(below);
      forall x | x in rows ensures Flatten(below)[|Flatten(below)| - 1] <= x {
        if x < oldest { assert x in rest; } else { assert Flatten(below)[|Flatten(below)| - 1] in rest; }
      }
    } else {
      assert forall x :: x in rows && x < oldest ==> x in rest;
      assert |rows| >= 1;
    }
  }

  lemma CardinalityDrops(a: set<Time>, b: set<Time>)
    requires a < b
    ensures |a| < |b|
  {
    assert b == a + (b - a);
    assert b - a != {};
  }

  // ---- The server, over any interleaving ---------------------------------------

  datatype World = World(ctxs: Contexts, table: Table)

  /** What can happen between two requests of one client. */
  datatype Event =
    | Append(battery: BatteryId, ts: Time, reading: Reading)
    | Initial(id: string, p: Params, now: Time, steady: Time)
    | Next(id: string, steady: Time)
    | Sweep(steady: Time)

  function Do(w: World, e: Event): World {
    match e
    case Append(b, ts, r) => w.(table := w.table[(b, ts) := r])
    case Initial(id, p, now, steady) => w.(ctxs := AnswerInitial(w.ctxs, w.table, id, p, now, steady).0)
    case Next(id, steady) => w.(ctxs := AnswerNext(w.ctxs, w.table, id, steady).0)
    case Sweep(steady) => w.(ctxs := Unexpired(w.ctxs, steady))
  }

  /** The answers to the `next` requests for `id`; None once the context is gone. */
  function Answers(w: World, events: seq<Event>, id: string): seq<Option<seq<Time>>>
    decreases |events|
  {
    if events == [] then []
    else
      var e := events[0];
      (if e.Next? && e.id == id then [AnswerNext(w.ctxs, w.table, id, e.steady).1] else [])
      + Answers(Do(w, e), events[1..], id)
  }

  /** Nothing is appended below `hi`, the id is not given away again and its context does not expire. */
  ghost predicate Harmless(w: World, e: Event, id: string, battery: BatteryId, hi: Time) {
    match e
    case Append(b, ts, _) => b == battery ==> ts >= hi
    case Initial(other, _, _, _) => other != id
    case Next(_, _) => true
    case Sweep(steady) => id in w.ctxs ==> steady < w.ctxs[id].expiresAt
  }

  ghost predicate AllHarmless(w: World, events: seq<Event>, id: string, battery: BatteryId, hi: Time)
    decreases |events|
  {
    events != [] ==> Harmless(w, events[0], id, battery, hi) && AllHarmless(Do(w, events[0]), events[1..], id, battery, hi)
  }

  /** The pages a context still promises. */
  function Promised(w: World, id: string): seq<seq<Time>> {
    if id !in w.ctxs then []
    else
      var c := w.ctxs[id];
      Pages(Rows(w.table, c.battery, c.start, c.end), c.start, c.end, c.count)
  }

  lemma RowsBelow(t: Table, battery: BatteryId, start: Time, end: Time, oldest: Time)
    requires oldest <= end
    ensures Rows(t, battery, start, oldest) == Below(Rows(t, battery, start, end), oldest)
  {
  }

  /** A page and its probe are the first page of the window and whether it continues. */
  lemma PageOfIsFirstPage(t: Table, battery: BatteryId, start: Time, end: Time, count: int)
    ensures var rows := Rows(t, battery, start, end); var (data, more) := PageOf(t, battery, start, end, count);
      && InWindow(rows, start, end)
      && (more ==> data != [] && data[|data| - 1] <= end)
      && Pages(rows, start, end, count) == [data] +
           if more then Pages(Rows(t, battery, start, data[|data| - 1]), start, data[|data| - 1], count) else []
  {
    var rows := Rows(t, battery, start, end);
    var (data, more) := PageOf(t, battery, start, end, count);
    if rows == {} {
      NothingToSelect(start, count, StepMs(start, end, count));
    } else {
      var first := PagesUnfold(rows, start, end, count);
      var oldest := data[|data| - 1];
      assert data[|data| - 1] in rows;
      RowsBelow(t, battery, start, end, oldest);
      if Below(rows, oldest) == {} {
        NothingToSelect(start, 1, 0);
      } else {
        PageStartsWithNewest(Below(rows, oldest), start, 1, 0);
      }
    }
  }

  /** The context of `id`, if there is one, is for a part of the window that ended at `hi`. */
  ghost predicate Serves(w: World, id: string, battery: BatteryId, hi: Time) {
    id in w.ctxs ==> w.ctxs[id].battery == battery && w.ctxs[id].end <= hi
  }

  /** Everything but a `next` for `id` leaves its promised pages alone. */
  lemma OthersKeepPromise(w: World, e: Event, id: string, battery: BatteryId, hi: Time)
    requires Serves(w, id, battery, hi) && Harmless(w, e, id, battery, hi) && !(e.Next? && e.id == id)
    ensures Serves(Do(w, e), id, battery, hi) && Promised(Do(w, e), id) == Promised(w, id)
  {
    hide Pages, PageOf;
    var w' := Do(w, e);
    assert id in w'.ctxs <==> id in w.ctxs;
    if id in w.ctxs {
      var c := w.ctxs[id];
      assert w'.ctxs[id] == c;
      assert Rows(w'.table, c.battery, c.start, c.end) == Rows(w.table, c.battery, c.start, c.end);
    }
  }

  /** A `next` answers the first promised page and keeps promising the others. */
  lemma NextKeepsPromise(w: World, id: string, steady: Time, battery: BatteryId, hi: Time)
    requires Serves(w, id, battery, hi)
    ensures var w' := Do(w, Next(id, steady)); var answer := AnswerNext(w.ctxs, w.table, id, steady).1;
      && Serves(w', id, battery, hi)
      && if id in w.ctxs then answer.Some? && [answer.value] + Promised(w', id) == Promised(w, id)
         else answer == None && Promised(w', id) == [] == Promised(w, id)
  {
    hide Pages, PageOf;
    if id in w.ctxs {
      var c := w.ctxs[id];
      PageOfIsFirstPage(w.table, c.battery, c.start, c.end, c.count);
    }
  }

  /** The answers are the promised pages in order, and after them that the id is unknown. */
  ghost predicate Delivers(answers: seq<Option<seq<Time>>>, promised: seq<seq<Time>>) {
    forall k :: 0 <= k < |answers| ==> answers[k] == if k < |promised| then Some(promised[k]) else None
  }

  lemma DeliversOneMore(answers: seq<Option<seq<Time>>>, promised: seq<seq<Time>>, first: seq<Time>)
    requires Delivers(answers, promised)
    ensures Delivers([Some(first)] + answers, [first] + promised)
    ensures promised == [] ==> Delivers([None] + answers, [])
  {
  }

  /**
   Whatever else happens meanwhile, as long as only newer samples are appended for the battery
   and the context does not expire, the k-th `next` answers the k-th promised page, and
   every later one that the id is unknown.
   */
  lemma {:induction false} SessionDelivers(w: World, events: seq<Event>, id: string, battery: BatteryId, hi: Time)
    requires Serves(w, id, battery, hi) && AllHarmless(w, events, id, battery, hi)
    ensures Delivers(Answers(w, events, id), Promised(w, id))
    decreases |events|
  {
    hide AnswerNext, Promised, AnswerInitial, Harmless, Delivers;
    if events == [] {
      assert Delivers([], Promised(w, id)) by { DeliversNone(Promised(w, id)); }
    } else {
      var e := events[0];
      if e.Next? && e.id == id {
        NextKeepsPromise(w, id, e.steady, battery, hi);
        SessionDelivers(Do(w, e), events[1..], id, battery, hi);
        assert e == Next(id, e.steady);
        var answer := AnswerNext(w.ctxs, w.table, id, e.steady).1;
        DeliversOneMore(Answers(Do(w, e), events[1..], id), Promised(Do(w, e), id), if answer.Some? then answer.value else []);
      } else {
        OthersKeepPromise(w, e, id, battery, hi);
        SessionDelivers(Do(w, e), events[1..], id, battery, hi);
        assert Answers(w, events, id) == Answers(Do(w, e), events[1..], id);
      }
    }
  }

  lemma DeliversNone(promised: seq<seq<Time>>)
    ensures Delivers([], promised)
  {
  }

  /** The initial page and the pages it promises are the pages of the requested window. */
  lemma InitialPromises(w: World, id: string, p: Params, now: Time, steady: Time)
    requires id !in w.ctxs
    ensures var w' := Do(w, Initial(id, p, now, steady));
      && Serves(w', id, p.battery, EndOf(p, now))
      && [AnswerInitial(w.ctxs, w.table, id, p, now, steady).1] + Promised(w', id)
         == Pages(Rows(w.table, p.battery, StartOf(p, now), EndOf(p, now)), StartOf(p, now), EndOf(p, now), CountOf(p))
  {
    hide Pages, PageOf;
    PageOfIsFirstPage(w.table, p.battery, StartOf(p, now), EndOf(p, now), CountOf(p));
  }

  /** A request and the `next` requests after it answer the pages of the requested window, in order. */
  lemma FollowingNextDeliversWindow(w: World, id: string, p: Params, now: Time, steady: Time, events: seq<Event>)
    requires id !in w.ctxs
    requires AllHarmless(Do(w, Initial(id, p, now, steady)), events, id, p.battery, EndOf(p, now))
    ensures var first := AnswerInitial(w.ctxs, w.table, id, p, now, steady).1;
      Delivers([Some(first)] + Answers(Do(w, Initial(id, p, now, steady)), events, id),
               Pages(Rows(w.table, p.battery, StartOf(p, now), EndOf(p, now)), StartOf(p, now), EndOf(p, now), CountOf(p)))
  {
    hide Pages, PageOf, Delivers, AllHarmless, Promised;
    InitialPromises(w, id, p, now, steady);
    var w' := Do(w, Initial(id, p, now, steady));
    SessionDelivers(w', events, id, p.battery, EndOf(p, now));
    DeliversOneMore(Answers(w', events, id), Promised(w', id), AnswerInitial(w.ctxs, w.table, id, p, now, steady).1);
  }

  /** Everything delivered lies in the window asked for in seconds; by default in the last 24 hours. */
  lemma DeliveredAsRequested(t: Table, p: Params, now: Time, y: Time)
    requires y in Flatten(Pages(Rows(t, p.battery, StartOf(p, now), EndOf(p, now)), StartOf(p, now), EndOf(p, now), CountOf(p)))
    ensures (p.battery, y) in t && p.battery > 0
    ensures if p.startS.Some? then y / 1000 >= p.startS.value else now - y <= 24 * 60 * 60 * 1000
    ensures if p.endS.Some? then y / 1000 < p.endS.value else y < now
  {
    hide Pages;
    PagesDescend(Rows(t, p.battery, StartOf(p, now), EndOf(p, now)), StartOf(p, now), EndOf(p, now), CountOf(p));
  }

  /** As many buckets as samples asked for, 100 by default, span the window up to less than a millisecond each. */
  lemma StepFillsWindow(p: Params, start: Time, end: Time)
    ensures var count := CountOf(p);
      && (p.count == None ==> count == 100) && (p.count.Some? && p.count.value > 0 ==> count == p.count.value) && count > 0
      && (start < end ==> 0 <= (end - start) - count * StepMs(start, end, count) < count)
  {
  }

  // ---- Contexts expire ------------------------------------------------------------

  /** No newer context takes the id, and appends are newer than the window. */
  predicate Undisturbed(e: Event, id: string, battery: BatteryId, hi: Time) {
    match e
    case Append(b, ts, _) => b == battery ==> ts >= hi
    case Initial(other, _, _, _) => other != id
    case _ => true
  }

  /** Every sweep comes less than 300 seconds after the last answer to `id`, the first one at `last`. */
  predicate Timely(events: seq<Event>, id: string, last: Time)
    decreases |events|
  {
    events != [] ==>
      match events[0]
      case Sweep(steady) => steady < last + 300_000 && Timely(events[1..], id, last)
      case Next(i, steady) => Timely(events[1..], id, if i == id then steady else last)
      case _ => Timely(events[1..], id, last)
  }

  /** Every answer keeps a context alive for another 300 seconds. */
  ghost predicate AliveSince(w: World, id: string, last: Time) {
    id in w.ctxs ==> w.ctxs[id].expiresAt == last + 300_000
  }

  lemma {:induction false} TimelyIsHarmless(w: World, events: seq<Event>, id: string, battery: BatteryId, hi: Time, last: Time)
    requires AliveSince(w, id, last) && Timely(events, id, last)
    requires forall i :: 0 <= i < |events| ==> Undisturbed(events[i], id, battery, hi)
    ensures AllHarmless(w, events, id, battery, hi)
    decreases |events|
  {
    hide PageOf;
    if events != [] {
      var e := events[0];
      assert Undisturbed(e, id, battery, hi);
      TimelyIsHarmless(Do(w, e), events[1..], id, battery, hi, if e.Next? && e.id == id then e.steady else last);
    }
  }

  /** A request whose `next` requests come in time answers the pages of the requested window, in order. */
  lemma TimelyNextDeliversWindow(w: World, id: string, p: Params, now: Time, steady: Time, events: seq<Event>)
    requires id !in w.ctxs && Timely(events, id, steady)
    requires forall i :: 0 <= i < |events| ==> Undisturbed(events[i], id, p.battery, EndOf(p, now))
    ensures var first := AnswerInitial(w.ctxs, w.table, id, p, now, steady).1;
      Delivers([Some(first)] + Answers(Do(w, Initial(id, p, now, steady)), events, id),
               Pages(Rows(w.table, p.battery, StartOf(p, now), EndOf(p, now)), StartOf(p, now), EndOf(p, now), CountOf(p)))
  {
    hide Pages, PageOf, Delivers, Answers, Rows;
    TimelyIsHarmless(Do(w, Initial(id, p, now, steady)), events, id, p.battery, EndOf(p, now), steady);
    FollowingNextDeliversWindow(w, id, p, now, steady, events);
  }

  /** A sweep 300 seconds or more after the last answer ends the session: no later `next` is answered. */
  lemma LateSweepEndsSession(w: World, id: string, last: Time, steady: Time, events: seq<Event>, battery: BatteryId, hi: Time)
    requires AliveSince(w, id, last) && steady >= last + 300_000
    requires AllHarmless(Do(w, Sweep(steady)), events, id, battery, hi)
    ensures forall k :: 0 <= k < |Answers(Do(w, Sweep(steady)), events, id)| ==> Answers(Do(w, Sweep(steady)), events, id)[k] == None
  {
    hide AllHarmless, Answers;
    SessionDelivers(Do(w, Sweep(steady)), events, id, battery, hi);
  }
}
