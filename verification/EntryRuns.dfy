/** One entry under any sequence of operations. */
module EntryRuns {
  import opened Records
  import opened Entries
  import opened Tables
  import opened ExactlyOnce

  datatype Op = OpRecord(ev: Event) | OpClear | OpCollect | OpAck(snapshotLen: nat)

  function Do(e: Entry, op: Op, max: int): Entry {
    match op
    case OpRecord(ev) => RecordEntry(e, ev, max)
    case OpClear => ClearEntry(e)
    case OpCollect => MarkCollected(e)
    case OpAck(n) => AckEntry(e, n)
  }

  function DoAll(e: Entry, ops: seq<Op>, max: int): Entry {
    if ops == [] then e else Do(DoAll(e, ops[..|ops| - 1], max), ops[|ops| - 1], max)
  }

  /** The events handed over for recording since the latest clear; before any clear, these
      follow `start`. */
  function Offered(start: seq<Event>, ops: seq<Op>): seq<Event> {
    if ops == [] then start else
    var before := Offered(start, ops[..|ops| - 1]);
    match ops[|ops| - 1]
    case OpRecord(ev) => before + [ev]
    case OpClear => []
    case _ => before
  }

  function LastN<T>(s: seq<T>, n: int): seq<T> {
    if n <= 0 then [] else if |s| <= n then s else s[|s| - n..]
  }

  predicate NoClear(ops: seq<Op>) {
    forall op :: op in ops ==> !op.OpClear?
  }

  /** The ring buffer: from creation on, whatever else happens, the window is the last `max`
      of the events offered since the latest clear.  With a non-positive `max` every record
      call panics and the window stays empty; otherwise none does. */
  lemma {:induction false} WindowIsNewest(slug: Slug, gen: nat, ops: seq<Op>, max: int)
    ensures DoAll(NewEntry(slug, gen), ops, max).events == LastN(Offered([], ops), max)
    ensures RecordPanics(DoAll(NewEntry(slug, gen), ops, max), max) <==> max <= 0
  {
    if ops != [] {
      WindowIsNewest(slug, gen, ops[..|ops| - 1], max);
    }
  }

  /** How many events a window of `n` holds after some operations. */
  function Filled(n: nat, ops: seq<Op>, max: int): nat {
    if ops == [] then n else
    var before := Filled(n, ops[..|ops| - 1], max);
    match ops[|ops| - 1]
    case OpRecord(_) => if before < max then before + 1 else before
    case OpClear => 0
    case _ => before
  }

  /** How many record calls since the latest collection met a full window. */
  function TurnsOver(n: nat, ops: seq<Op>, max: int): nat {
    if ops == [] then 0 else
    var init := ops[..|ops| - 1];
    match ops[|ops| - 1]
    case OpRecord(_) => TurnsOver(n, init, max) + if Filled(n, init, max) < max then 0 else 1
    case OpCollect => 0
    case _ => TurnsOver(n, init, max)
  }

  /** What the entry's eviction count stands for, whatever happens to the entry: the record calls
      since the latest collection that met a full window.  A clear does not reset it. */
  lemma {:induction false} EvictionsAreTurns(e: Entry, ops: seq<Op>, max: int)
    requires e.evictedDuringFlush == 0
    ensures |DoAll(e, ops, max).events| == Filled(|e.events|, ops, max)
    ensures DoAll(e, ops, max).evictedDuringFlush == TurnsOver(|e.events|, ops, max)
  {
    if ops != [] {
      EvictionsAreTurns(e, ops[..|ops| - 1], max);
    }
  }

  lemma {:induction false} OfferedKeepsStart(start: seq<Event>, ops: seq<Op>)
    requires NoClear(ops)
    ensures |Offered(start, ops)| >= |start|
  {
    if ops != [] {
      assert ops[|ops| - 1] in ops && forall op :: op in ops[..|ops| - 1] ==> op in ops;
      OfferedKeepsStart(start, ops[..|ops| - 1]);
    }
  }

  lemma LastNAppend<T>(s: seq<T>, x: T, n: int)
    requires n >= 1
    ensures LastN(s + [x], n) == if |s| < n then LastN(s, n) + [x] else LastN(s, n)[1..] + [x]
  {
  }

  /** After a restart with `rows`.  Until a clear, recording into at most `max + 1` rows keeps as
      many events as were loaded, or `max` when that is more; into more rows every record call
      panics and the window never changes.  The first clear makes the entry as good as new: the
      window is from then on the last `max` events offered, and no record call panics.  (With a
      cap below one, calls also panic once the window is empty.) */
  lemma {:induction false} LoadedWindow(slug: Slug, gen: nat, rows: seq<Event>, ops: seq<Op>, max: int)
    ensures
      var e := DoAll(LoadedEntry(slug, gen, rows), ops, max);
      && (NoClear(ops) && |rows| <= max + 1 ==> e.events == LastN(Offered(rows, ops), Max(max, |rows|)))
      && (NoClear(ops) && |rows| > max + 1 ==> e.events == rows)
      && (!NoClear(ops) ==> e.events == LastN(Offered(rows, ops), max))
      && (RecordPanics(e, max) <==>
            (NoClear(ops) && |rows| > max + 1) || (max <= 0 && (!NoClear(ops) || rows == [])))
  {
    if ops != [] {
      var init, op := ops[..|ops| - 1], ops[|ops| - 1];
      LoadedWindow(slug, gen, rows, init, max);
      NoClearSplits(ops);
      if op.OpRecord? && NoClear(ops) && |rows| <= max + 1 && Max(max, |rows|) >= 1 {
        OfferedKeepsStart(rows, init);
        LastNAppend(Offered(rows, init), op.ev, Max(max, |rows|));
      }
      if op.OpRecord? && !NoClear(ops) && max >= 1 {
        LastNAppend(Offered(rows, init), op.ev, max);
      }
    }
  }

  lemma NoClearSplits(ops: seq<Op>)
    requires ops != []
    ensures NoClear(ops) <==> NoClear(ops[..|ops| - 1]) && !ops[|ops| - 1].OpClear?
  {
    assert ops[|ops| - 1] in ops && forall op :: op in ops[..|ops| - 1] ==> op in ops;
    assert forall op :: op in ops ==> op in ops[..|ops| - 1] || op == ops[|ops| - 1];
  }

  /** Only record and clear calls, of events from `mark` on, in record order. */
  ghost predicate MidFlush(ops: seq<Op>, mark: nat) {
    && (forall i :: 0 <= i < |ops| ==> ops[i].OpRecord? || ops[i].OpClear?)
    && (forall i :: 0 <= i < |ops| && ops[i].OpRecord? ==> mark <= ops[i].ev.no)
    && (forall i, j :: 0 <= i < j < |ops| && ops[i].OpRecord? && ops[j].OpRecord? ==> ops[i].ev.no < ops[j].ev.no)
  }

  /** An entry just collected, all of whose events are older than `mark`. */
  ghost predicate JustCollected(e: Entry, mark: nat, max: int) {
    && e.evictedDuringFlush == 0
    && !Oversized(e, max)
    && 0 <= e.flushedCount <= |e.events|
    && Increasing(e.events)
    && (forall i :: 0 <= i < |e.events| ==> e.events[i].no < mark)
  }

  /** The collected window `base` and what became of it: the newest `k` events of `base`, then
      events from `mark` on, all of them before `bound`. */
  ghost predicate Leftover(base: seq<Event>, window: seq<Event>, k: int, mark: nat, bound: nat) {
    && 0 <= k <= |base| && k <= |window|
    && window[..k] == base[|base| - k..]
    && Increasing(window)
    && (forall i :: 0 <= i < |window| ==> window[i].no < bound)
    && (forall i :: k <= i < |window| ==> mark <= window[i].no)
  }

  lemma LeftoverGrows(base: seq<Event>, window: seq<Event>, k: int, mark: nat, ev: Event)
    requires Leftover(base, window, k, mark, ev.no) && mark <= ev.no
    ensures Leftover(base, window + [ev], k, mark, ev.no + 1)
  {
    assert (window + [ev])[..k] == window[..k];
  }

  lemma LeftoverSlides(base: seq<Event>, window: seq<Event>, k: int, mark: nat, bound: nat)
    requires Leftover(base, window, k, mark, bound) && window != []
    ensures Leftover(base, window[1..], Max(k - 1, 0), mark, bound)
  {
    if k > 0 {
      assert window[1..][..k - 1] == window[..k][1..] == base[|base| - k..][1..];
    }
  }

  /** Entry `d` is what recording has made of the collected entry `e`: the newest events of the
      collected window are left, shorter by the number of evictions, and newer ones follow. */
  ghost predicate LeftOf(e: Entry, d: Entry, mark: nat, bound: nat, max: int) {
    && Leftover(e.events, d.events, AckCount(d, |e.events|), mark, bound)
    && d.evictedDuringFlush >= 0
    && d.flushedCount == Max(e.flushedCount - d.evictedDuringFlush, 0)
    && !Oversized(d, max)
  }

  lemma LeftOfAppend(e: Entry, d: Entry, mark: nat, ev: Event, max: int)
    requires LeftOf(e, d, mark, ev.no, max) && mark <= ev.no && |d.events| < max
    ensures LeftOf(e, RecordEntry(d, ev, max), mark, ev.no + 1, max)
  {
    LeftoverGrows(e.events, d.events, AckCount(d, |e.events|), mark, ev);
  }

  lemma LeftoverTurns(base: seq<Event>, window: seq<Event>, k: int, mark: nat, ev: Event)
    requires Leftover(base, window, k, mark, ev.no) && mark <= ev.no && window != []
    ensures Leftover(base, window[1..] + [ev], Max(k - 1, 0), mark, ev.no + 1)
  {
    LeftoverSlides(base, window, k, mark, ev.no);
    LeftoverGrows(base, window[1..], Max(k - 1, 0), mark, ev);
  }

  lemma LeftOfRecord(e: Entry, d: Entry, mark: nat, ev: Event, max: int)
    requires LeftOf(e, d, mark, ev.no, max) && mark <= ev.no
    ensures LeftOf(e, RecordEntry(d, ev, max), mark, ev.no + 1, max)
  {
    if RecordPanics(d, max) {
      assert d.events == [];
    } else if |d.events| >= max {
      LeftoverTurns(e.events, d.events, AckCount(d, |e.events|), mark, ev);
    } else {
      LeftOfAppend(e, d, mark, ev, max);
    }
  }

  lemma {:induction false} WindowMidFlush(e: Entry, ops: seq<Op>, mark: nat, bound: nat, max: int)
    requires JustCollected(e, mark, max) && MidFlush(ops, mark) && NoClear(ops) && mark <= bound
    requires forall i :: 0 <= i < |ops| && ops[i].OpRecord? ==> ops[i].ev.no < bound
    ensures LeftOf(e, DoAll(e, ops, max), mark, bound, max)
  {
    if ops == [] {
      assert e.events[..|e.events|] == e.events;
    } else {
      var init, op := ops[..|ops| - 1], ops[|ops| - 1];
      assert op in ops && forall x :: x in init ==> x in ops;
      WindowMidFlush(e, init, mark, op.ev.no, max);
      LeftOfRecord(e, DoAll(e, init, max), mark, op.ev, max);
    }
  }

  /** After a clear, nothing of the collected window is left. */
  lemma {:induction false} WindowAfterClear(e: Entry, ops: seq<Op>, mark: nat, bound: nat, max: int)
    requires MidFlush(ops, mark) && !NoClear(ops) && e.evictedDuringFlush >= 0
    requires forall i :: 0 <= i < |ops| && ops[i].OpRecord? ==> ops[i].ev.no < bound
    ensures
      var e' := DoAll(e, ops, max);
      && Increasing(e'.events)
      && (forall i :: 0 <= i < |e'.events| ==> mark <= e'.events[i].no < bound)
      && e'.evictedDuringFlush >= 0
  {
    var init, op := ops[..|ops| - 1], ops[|ops| - 1];
    EvictionsCount(e, init, max);
    if op.OpRecord? {
      assert !NoClear(init) by {
        var x :| x in ops && x.OpClear?;
        assert x in init;
      }
      WindowAfterClear(e, init, mark, op.ev.no, max);
    }
  }

  lemma {:induction false} EvictionsCount(e: Entry, ops: seq<Op>, max: int)
    requires e.evictedDuringFlush >= 0
    ensures DoAll(e, ops, max).evictedDuringFlush >= 0
  {
    if ops != [] {
      EvictionsCount(e, ops[..|ops| - 1], max);
    }
  }

  lemma AckPreciseWithoutClear(e: Entry, ops: seq<Op>, mark: nat, bound: nat, max: int)
    requires JustCollected(e, mark, max) && MidFlush(ops, mark) && mark <= bound && NoClear(ops)
    requires forall i :: 0 <= i < |ops| && ops[i].OpRecord? ==> ops[i].ev.no < bound
    ensures
      var e' := DoAll(e, ops, max);
      AckCount(e', |e.events|) == CountOlder(e'.events, mark)
  {
    var e' := DoAll(e, ops, max);
    WindowMidFlush(e, ops, mark, bound, max);
    var k := AckCount(e', |e.events|);
    forall i | 0 <= i < k
      ensures e'.events[i].no < mark
    {
      assert e'.events[i] == e'.events[..k][i] == e.events[|e.events| - k + i];
    }
    CountOlderIs(e'.events, mark, k);
  }

  lemma NoneOlderAfterClear(e: Entry, ops: seq<Op>, mark: nat, bound: nat, max: int)
    requires JustCollected(e, mark, max) && MidFlush(ops, mark) && !NoClear(ops)
    requires forall i :: 0 <= i < |ops| && ops[i].OpRecord? ==> ops[i].ev.no < bound
    ensures
      var e' := DoAll(e, ops, max);
      CountOlder(e'.events, mark) == 0 && forall i :: 0 <= i < |e'.events| ==> mark <= e'.events[i].no
  {
    WindowAfterClear(e, ops, mark, bound, max);
    CountOlderIs(DoAll(e, ops, max).events, mark, 0);
  }

  /** When acknowledging is precise.  Whatever was recorded and cleared since the collection,
      it sets `flushedCount` to the number of collected events still in the window if and only
      if nothing was cleared or at least as many record calls met a full window as events were collected.
      Otherwise it counts events as flushed that no flush has seen. */
  lemma AckPreciseUnlessCleared(e: Entry, ops: seq<Op>, mark: nat, bound: nat, max: int)
    requires JustCollected(e, mark, max) && MidFlush(ops, mark) && mark <= bound
    requires forall i :: 0 <= i < |ops| && ops[i].OpRecord? ==> ops[i].ev.no < bound
    ensures
      var e' := DoAll(e, ops, max);
      var after := AckEntry(e', |e.events|);
      && (after.flushedCount == CountOlder(e'.events, mark) <==>
            NoClear(ops) || TurnsOver(|e.events|, ops, max) >= |e.events|)
      && (!NoClear(ops) && TurnsOver(|e.events|, ops, max) < |e.events| ==>
            after.flushedCount > 0 && forall i :: 0 <= i < |e'.events| ==> mark <= e'.events[i].no)
  {
    EvictionsAreTurns(e, ops, max);
    if NoClear(ops) {
      AckPreciseWithoutClear(e, ops, mark, bound, max);
    } else {
      NoneOlderAfterClear(e, ops, mark, bound, max);
    }
  }

  /** The rows that two flushes write when the second collects the entry, by then `d`, before
      the first has acknowledged it. */
  function OverlapRows(e: Entry, d: Entry, mark: nat, later: nat): seq<EventRow> {
    RowsFor(e.slug.id, TakeSnapshot(e, mark).events) + RowsFor(e.slug.id, TakeSnapshot(MarkCollected(d), later).events)
  }

  lemma OverlapShares(e: Entry, d: Entry, mark: nat, bound: nat, max: int)
    requires JustCollected(e, mark, max) && LeftOf(e, d, mark, bound, max)
    requires Pending(e) != [] && d.evictedDuringFlush < |e.events|
    ensures !NoRepeats(OverlapRows(e, d, mark, bound))
  {
    var n, k := |e.events|, AckCount(d, |e.events|);
    var p, q := Pending(e), Pending(MarkCollected(d));
    assert d.events[k - 1] == d.events[..k][k - 1] == e.events[n - 1];
    var j := k - 1 - d.flushedCount;
    assert q[j] == e.events[n - 1] == p[|p| - 1];
    RowsShare(e.slug.id, p, q, |p| - 1, j);
  }

  lemma RowsShare(id: Id, p: seq<Event>, q: seq<Event>, i: nat, j: nat)
    requires i < |p| && j < |q| && p[i] == q[j]
    ensures !NoRepeats(RowsFor(id, p) + RowsFor(id, q))
  {
    var rows := RowsFor(id, p) + RowsFor(id, q);
    assert rows[i] == rows[|p| + j];
  }

  /** Two batches of rows of which the second is newer. */
  lemma RowsApart(id: Id, p: seq<Event>, q: seq<Event>, mark: nat)
    requires Increasing(p) && Increasing(q)
    requires p != [] ==> (forall i :: 0 <= i < |p| ==> p[i].no < mark) && forall i :: 0 <= i < |q| ==> mark <= q[i].no
    ensures NoRepeats(RowsFor(id, p) + RowsFor(id, q))
  {
  }

  lemma OverlapShareless(e: Entry, d: Entry, mark: nat, bound: nat, max: int)
    requires JustCollected(e, mark, max) && LeftOf(e, d, mark, bound, max)
    requires Pending(e) == [] || d.evictedDuringFlush >= |e.events|
    ensures NoRepeats(OverlapRows(e, d, mark, bound))
  {
    RowsApart(e.slug.id, Pending(e), Pending(MarkCollected(d)), mark);
  }

  /** Why two flushes must not overlap.  A second collection of an entry that a running flush
      has collected and not acknowledged makes the store hold an event twice if and only if the
      first snapshot had events to write, nothing was cleared since, and the ring has not turned
      over since. */
  lemma OverlapRepeats(e: Entry, ops: seq<Op>, mark: nat, bound: nat, max: int)
    requires JustCollected(e, mark, max) && MidFlush(ops, mark) && mark <= bound
    requires forall i :: 0 <= i < |ops| && ops[i].OpRecord? ==> ops[i].ev.no < bound
    ensures
      var d := DoAll(e, ops, max);
      NoRepeats(OverlapRows(e, d, mark, bound)) <==>
        !NoClear(ops) || Pending(e) == [] || TurnsOver(|e.events|, ops, max) >= |e.events|
  {
    EvictionsAreTurns(e, ops, max);
    var d := DoAll(e, ops, max);
    if !NoClear(ops) {
      WindowAfterClear(e, ops, mark, bound, max);
      RowsApart(e.slug.id, Pending(e), Pending(MarkCollected(d)), mark);
    } else {
      WindowMidFlush(e, ops, mark, bound, max);
      if Pending(e) != [] && d.evictedDuringFlush < |e.events| {
        OverlapShares(e, d, mark, bound, max);
      } else {
        OverlapShareless(e, d, mark, bound, max);
      }
    }
  }
}
