/** One slug's in-memory entry: a ring buffer of events with the three counters that the
    flush protocol keeps (internal/registry/registry.go and persistence.go). */
module Entries {
  import opened Records

  /** `gen` tells apart two entries created under the same ID; it stands for the address
      of the Go `slugEntry`. */
  datatype Entry = Entry(
    slug: Slug,
    gen: nat,
    events: seq<Event>,
    dirty: bool,
    flushedCount: int,
    evictedDuringFlush: int)

  /** What a flush keeps of an entry.  `mark` is the length of the record log when the
      snapshot was taken; the program does not keep it and nothing reads it. */
  datatype Snapshot = Snapshot(slug: Slug, gen: nat, events: seq<Event>, snapshotLen: nat, mark: nat)

  function Max(a: int, b: int): int {
    if a < b then b else a
  }

  function NewEntry(slug: Slug, gen: nat): Entry {
    Entry(slug, gen, [], true, 0, 0)
  }

  /** The entry that a restart builds from stored rows. */
  function LoadedEntry(slug: Slug, gen: nat, events: seq<Event>): Entry {
    Entry(slug, gen, events, false, |events|, 0)
  }

  /** More events than the buffer allocated on eviction can hold. */
  predicate Oversized(e: Entry, max: int) {
    |e.events| >= 1 && |e.events| - 1 > max
  }

  /** Go's `make` is called with a negative length, or with a length above its capacity. */
  predicate RecordPanics(e: Entry, max: int) {
    |e.events| >= max && (|e.events| == 0 || |e.events| - 1 > max)
  }

  function Evicted(e: Entry): Entry {
    e.(flushedCount := if e.flushedCount > 0 then e.flushedCount - 1 else e.flushedCount,
       evictedDuringFlush := e.evictedDuringFlush + 1)
  }

  /** `recordEvent` on an entry.  When the allocation panics, the two counters have already
      moved but the events have not. */
  function RecordEntry(e: Entry, ev: Event, max: int): Entry {
    if RecordPanics(e, max) then
      Evicted(e)
    else if |e.events| >= max then
      Evicted(e).(events := e.events[1..] + [ev], dirty := true)
    else
      e.(events := e.events + [ev], dirty := true)
  }

  function ClearEntry(e: Entry): Entry {
    e.(events := [], flushedCount := 0, dirty := true)
  }

  function MarkCollected(e: Entry): Entry {
    e.(evictedDuringFlush := 0)
  }

  function Pending(e: Entry): seq<Event> {
    if 0 <= e.flushedCount < |e.events| then e.events[e.flushedCount..] else []
  }

  function TakeSnapshot(e: Entry, mark: nat): Snapshot {
    Snapshot(e.slug, e.gen, Pending(e), |e.events|, mark)
  }

  /** The value that acknowledging a snapshot gives to `flushedCount`. */
  function AckCount(e: Entry, snapshotLen: nat): int {
    Max(snapshotLen - e.evictedDuringFlush, 0)
  }

  function AckEntry(e: Entry, snapshotLen: nat): Entry {
    var k := AckCount(e, snapshotLen);
    e.(flushedCount := k, dirty := k < |e.events|)
  }

  // The registry's map as a whole.

  /** `Cleanup`: expired entries are removed. */
  function CleanedUp(mem: map<Id, Entry>, now: int): map<Id, Entry> {
    map id | id in mem && !(mem[id].slug.expiresAt < now) :: mem[id]
  }

  function Collected(mem: map<Id, Entry>): map<Id, Entry> {
    map id | id in mem :: if mem[id].dirty then MarkCollected(mem[id]) else mem[id]
  }

  function Snapshots(mem: map<Id, Entry>, mark: nat): map<Id, Snapshot> {
    map id | id in mem && mem[id].dirty :: TakeSnapshot(mem[id], mark)
  }

  /** Exactly the first `k` events of the window were ever written. */
  ghost predicate WrittenUpTo(journal: seq<Event>, window: seq<Event>, k: int) {
    forall i :: 0 <= i < |window| ==> (window[i] in journal <==> i < k)
  }

  /** Exactly the first `k` events of the window were recorded before the mark. */
  ghost predicate OlderUpTo(mark: nat, window: seq<Event>, k: int) {
    forall i :: 0 <= i < |window| ==> (window[i].no < mark <==> i < k)
  }

  lemma WindowGrows(journal: seq<Event>, mark: nat, window: seq<Event>, k: int, ev: Event)
    requires k <= |window| && ev !in journal && mark <= ev.no
    ensures WrittenUpTo(journal, window, k) ==> WrittenUpTo(journal, window + [ev], k)
    ensures OlderUpTo(mark, window, k) ==> OlderUpTo(mark, window + [ev], k)
  {
  }

  lemma WindowSlides(journal: seq<Event>, mark: nat, window: seq<Event>, k: int, ev: Event)
    requires 0 <= k <= |window| && window != [] && ev !in journal && mark <= ev.no
    ensures WrittenUpTo(journal, window, k) ==> WrittenUpTo(journal, window[1..] + [ev], Max(k - 1, 0))
    ensures OlderUpTo(mark, window, k) ==> OlderUpTo(mark, window[1..] + [ev], Max(k - 1, 0))
  {
  }

  function CountOlder(window: seq<Event>, mark: nat): nat {
    if window == [] then 0
    else (if window[0].no < mark then 1 else 0) + CountOlder(window[1..], mark)
  }

  lemma {:induction false} CountOlderIs(window: seq<Event>, mark: nat, k: int)
    requires 0 <= k <= |window| && OlderUpTo(mark, window, k)
    ensures CountOlder(window, mark) == k
  {
    if window != [] {
      assert window[0].no < mark <==> 0 < k;
      forall i | 0 <= i < |window[1..]|
        ensures window[1..][i].no < mark <==> i < Max(k - 1, 0)
      {
        assert window[1..][i] == window[i + 1];
      }
      CountOlderIs(window[1..], mark, Max(k - 1, 0));
    }
  }
}
