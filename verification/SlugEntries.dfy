/** The registry's entry as the object it is: a slice over a backing array that is appended to,
    cut short and replaced in place. */
module SlugEntries {
  import opened Records
  import opened Entries
  import opened EntryRuns
  import Tables

  class SlugEntry {
    const slug: Slug
    ghost const gen: nat
    var buf: array<Event>  // backing array of the events slice
    var len: nat           // length of the slice
    var dirty: bool
    var flushedCount: int
    var evictedDuringFlush: int

    ghost predicate Valid()
      reads this
    {
      len <= buf.Length && flushedCount >= 0
    }

    ghost function Value(): Entry
      reads this, buf
      requires Valid()
    {
      Entry(slug, gen, buf[..len], dirty, flushedCount, evictedDuringFlush)
    }

    constructor (slug: Slug, ghost gen: nat)
      ensures Valid() && fresh(buf) && Value() == NewEntry(slug, gen)
    {
      this.slug, this.gen := slug, gen;
      buf, len := new Event[0], 0;
      dirty, flushedCount, evictedDuringFlush := true, 0, 0;
    }

    constructor Loaded(slug: Slug, ghost gen: nat, events: seq<Event>)
      ensures Valid() && fresh(buf) && Value() == LoadedEntry(slug, gen, events)
    {
      this.slug, this.gen := slug, gen;
      buf, len := new Event[|events|](i requires 0 <= i < |events| => events[i]), |events|;
      dirty, flushedCount, evictedDuringFlush := false, |events|, 0;
      new;
      assert buf[..len] == events;
    }

    /** Go's `append`: in place while there is capacity, into a new array otherwise. */
    method Append(ev: Event)
      requires Valid()
      modifies this`buf, this`len, buf
      ensures Valid() && (buf == old(buf) || fresh(buf))
      ensures buf[..len] == old(buf[..len]) + [ev]
    {
      if len == buf.Length {
        var bigger := new Event[2 * len + 1];
        for i := 0 to len
          modifies bigger
          invariant bigger[..i] == buf[..i]
        {
          bigger[i] := buf[i];
        }
        buf := bigger;
      }
      buf[len] := ev;
      len := len + 1;
    }

    /** The window without its oldest event, in a new array with room for one more. */
    method Evict(max: nat)
      requires Valid() && 1 <= len <= max + 1
      modifies this`buf, this`len
      ensures Valid() && fresh(buf) && buf[..len] == old(buf[1..len])
    {
      var newEvents := new Event[max];
      for i := 0 to len - 1
        modifies newEvents
        invariant newEvents[..i] == buf[1..i + 1]
      {
        newEvents[i] := buf[i + 1];
      }
      buf, len := newEvents, len - 1;
    }

    /** `ok` is false when the allocation panics. */
    method RecordEvent(ev: Event, max: int) returns (ok: bool)
      requires Valid()
      modifies this, buf
      ensures Valid() && (buf == old(buf) || fresh(buf))
      ensures ok <==> !RecordPanics(old(Value()), max)
      ensures Value() == RecordEntry(old(Value()), ev, max)
    {
      if len >= max {
        if flushedCount > 0 {
          flushedCount := flushedCount - 1;
        }
        evictedDuringFlush := evictedDuringFlush + 1;
        if len == 0 || len - 1 > max {
          return false;
        }
        Evict(max);
      }
      Append(ev);
      dirty := true;
      return true;
    }

    /** The slice is cut to length zero; its backing array stays. */
    method Clear()
      requires Valid()
      modifies this
      ensures Valid() && buf == old(buf) && Value() == ClearEntry(old(Value()))
    {
      len := 0;
      flushedCount := 0;
      dirty := true;
    }

    /** A copy: no operation on the entry can reach it. */
    method GetEvents() returns (result: array<Event>)
      requires Valid()
      ensures fresh(result) && result[..] == Value().events
    {
      result := new Event[len];
      for i := 0 to len
        modifies result
        invariant result[..i] == buf[..i]
      {
        result[i] := buf[i];
      }
    }

    /** Also a copy, with the flush counters of the entry reset. */
    method TakePending() returns (rows: array<EventRow>)
      requires Valid()
      modifies this`evictedDuringFlush
      ensures Valid() && Value() == MarkCollected(old(Value()))
      ensures fresh(rows) && rows[..] == Tables.RowsFor(slug.id, Pending(old(Value())))
    {
      evictedDuringFlush := 0;
      ghost var pending := Pending(Value());
      if flushedCount < len {
        rows := new EventRow[len - flushedCount];
        for i := 0 to len - flushedCount
          modifies rows
          invariant rows[..i] == Tables.RowsFor(slug.id, pending)[..i]
        {
          assert pending[i] == buf[flushedCount + i];
          rows[i] := EventRow(slug.id, buf[flushedCount + i]);
        }
      } else {
        rows := new EventRow[0];
      }
    }

    method Acknowledge(snapshotLen: nat)
      requires Valid()
      modifies this
      ensures Valid() && buf == old(buf) && Value() == AckEntry(old(Value()), snapshotLen)
    {
      flushedCount := Max(snapshotLen - evictedDuringFlush, 0);
      dirty := flushedCount < len;
    }

    /** Any sequence of operations.  It writes to this object, to the backing array it has at
        the start and to arrays allocated since: so an array that `GetEvents` or `TakePending`
        returned before stays as it was. */
    method Perform(ops: seq<Op>, max: int)
      requires Valid()
      modifies this, buf
      ensures Valid() && (buf == old(buf) || fresh(buf))
      ensures Value() == DoAll(old(Value()), ops, max)
    {
      for i := 0 to |ops|
        invariant Valid() && (buf == old(buf) || fresh(buf))
        invariant Value() == DoAll(old(Value()), ops[..i], max)
      {
        assert ops[..i + 1][..i] == ops[..i];
        match ops[i] {
          case OpRecord(ev) => var _ := RecordEvent(ev, max);
          case OpClear => Clear();
          case OpCollect => evictedDuringFlush := 0;
          case OpAck(n) => Acknowledge(n);
        }
      }
      assert ops[..|ops|] == ops;
    }
  }

  /** A slice that was handed out reads the same after any sequence of operations on its entry. */
  method HandedOutSliceIsStable(e: SlugEntry, ops: seq<Op>, max: int) returns (before: seq<Event>, result: array<Event>)
    requires e.Valid()
    modifies e, e.buf
    ensures before == old(e.Value().events) && result[..] == before
    ensures e.Valid() && e.Value() == DoAll(old(e.Value()), ops, max)
  {
    result := e.GetEvents();
    before := result[..];
    e.Perform(ops, max);
  }

  /** So do the rows that a collection copied for its flush. */
  method CollectedRowsAreStable(e: SlugEntry, ops: seq<Op>, max: int) returns (before: seq<EventRow>, rows: array<EventRow>)
    requires e.Valid()
    modifies e, e.buf
    ensures before == Tables.RowsFor(e.slug.id, Pending(old(e.Value()))) && rows[..] == before
    ensures e.Valid() && e.Value() == DoAll(MarkCollected(old(e.Value())), ops, max)
  {
    rows := e.TakePending();
    before := rows[..];
    e.Perform(ops, max);
  }
}
