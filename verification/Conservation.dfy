/** What the three counters mean, and where every recorded event is.  Holds in every run that
    clears no slug in the middle of its flush. */
module Conservation {
  import opened Records
  import opened Entries
  import opened Tables
  import opened Protocol
  import opened Views
  import opened ExactlyOnce

  ghost predicate NothingSince(log: seq<EventRow>, mark: nat, id: Id) {
    forall n :: mark <= n < |log| ==> log[n].slug != id
  }

  ghost predicate InFlight(v: View, e: Entry, s: Snapshot, k: int) {
    && e.flushedCount <= k <= |e.events|
    && s.mark <= |v.log|
    && OlderUpTo(s.mark, e.events, k)
    && (forall i :: 0 <= i < |s.events| ==> s.events[i].no < s.mark)
    && (k == |e.events| ==> NothingSince(v.log, s.mark, e.slug.id))
    && (v.stage.EventsPut? ==> WrittenUpTo(v.journal, e.events, k))
    && (!v.stage.EventsPut? ==>
          && WrittenUpTo(v.journal, e.events, e.flushedCount)
          && forall i :: 0 <= i < |e.events| && e.flushedCount <= i < k ==> e.events[i] in s.events)
  }

  ghost predicate Settled(v: View, e: Entry) {
    && e.flushedCount <= |e.events|
    && WrittenUpTo(v.journal, e.events, e.flushedCount)
    && (!e.dirty ==> e.flushedCount == |e.events|)
  }

  ghost predicate Counted(v: View, max: int) {
    v.entry.Some? && v.entry.value.flushedCount >= 0 ==>
      if Oversized(v.entry.value, max) then WrittenUpTo(v.journal, v.entry.value.events, |v.entry.value.events|)
      else if Same(v) then InFlight(v, v.entry.value, v.snap.value, Covered(v))
      else Settled(v, v.entry.value)
  }

  predicate Unhurried(v: View, act: Act) {
    act.Wipe? ==> v.snap.None?
  }

  lemma CountedRecordAppends(id: Id, v: View, act: Act, max: int, w: View)
    requires Once(id, v, max) && Counted(v, max) && Moves(id, v, act, max, w) && act.Rec?
    requires |v.entry.value.events| < max
    ensures Counted(w, max)
  {
    var e, ev := v.entry.value, act.ev;
    assert w.entry.value == e.(events := e.events + [ev], dirty := true);
    if Same(v) {
      assert Covered(w) == Covered(v);
      WindowGrows(v.journal, v.snap.value.mark, e.events, Covered(v), ev);
      WindowGrows(v.journal, v.snap.value.mark, e.events, e.flushedCount, ev);
    } else {
      WindowGrows(v.journal, 0, e.events, e.flushedCount, ev);
    }
  }

  lemma CountedRecordEvicts(id: Id, v: View, act: Act, max: int, w: View)
    requires Once(id, v, max) && Counted(v, max) && Moves(id, v, act, max, w) && act.Rec?
    requires |v.entry.value.events| >= max && !RecordPanics(v.entry.value, max)
    ensures Counted(w, max)
  {
    var e, ev := v.entry.value, act.ev;
    assert w.entry.value == Evicted(e).(events := e.events[1..] + [ev], dirty := true);
    if Same(v) {
      assert Covered(w) == Max(Covered(v) - 1, 0);
      WindowSlides(v.journal, v.snap.value.mark, e.events, Covered(v), ev);
      WindowSlides(v.journal, v.snap.value.mark, e.events, e.flushedCount, ev);
    } else {
      WindowSlides(v.journal, 0, e.events, e.flushedCount, ev);
    }
  }

  lemma CountedRecord(id: Id, v: View, act: Act, max: int, w: View)
    requires Once(id, v, max) && Counted(v, max) && Moves(id, v, act, max, w) && act.Rec?
    ensures Counted(w, max)
  {
    if RecordPanics(v.entry.value, max) {
      if |v.entry.value.events| == 0 {
        assert w.entry.value.events == [];
      }
    } else if |v.entry.value.events| >= max {
      CountedRecordEvicts(id, v, act, max, w);
    } else {
      CountedRecordAppends(id, v, act, max, w);
    }
  }

  lemma CountedAddEvents(id: Id, v: View, act: Act, max: int, w: View)
    requires Once(id, v, max) && Counted(v, max) && Moves(id, v, act, max, w) && act.AddEvents?
    ensures Counted(w, max)
  {
    var evs := v.snap.value.events;
    if v.entry.Some? && !Oversized(v.entry.value, max) {
      var e := v.entry.value;
      var k := if Same(v) then Covered(v) else e.flushedCount;
      forall i | 0 <= i < |e.events|
        ensures e.events[i] in w.journal <==> i < k
      {
        assert e.events[i] in w.journal <==> e.events[i] in v.journal || e.events[i] in evs;
      }
    }
  }

  lemma CountedSnap(id: Id, v: View, act: Act, max: int, w: View)
    requires Once(id, v, max) && Counted(v, max) && Moves(id, v, act, max, w) && act.Snap?
    ensures Counted(w, max)
  {
    assert Covered(w) == |v.entry.value.events|;
    SnapInFlight(id, v, w);
  }

  lemma SnapInFlight(id: Id, v: View, w: View)
    requires v.entry.Some? && Settled(v, v.entry.value) && v.entry.value.flushedCount >= 0 && v.entry.value.slug.id == id
    requires Logged(id, v.log, v.entry.value.events)
    requires w.snap == Some(TakeSnapshot(v.entry.value, |v.log|)) && w.stage.Waiting? && w.journal == v.journal
    requires |v.log| <= |w.log| && forall n :: |v.log| <= n < |w.log| ==> w.log[n].slug != id
    ensures InFlight(w, MarkCollected(v.entry.value), w.snap.value, |v.entry.value.events|)
  {
    PendingIs(v.entry.value);
  }

  lemma PendingIs(e: Entry)
    requires 0 <= e.flushedCount <= |e.events|
    ensures forall i :: e.flushedCount <= i < |e.events| ==> e.events[i] in Pending(e)
    ensures forall x :: x in Pending(e) ==> exists i :: e.flushedCount <= i < |e.events| && e.events[i] == x
  {
    forall i | e.flushedCount <= i < |e.events|
      ensures e.events[i] in Pending(e)
    {
      assert Pending(e)[i - e.flushedCount] == e.events[i];
    }
    forall x | x in Pending(e)
      ensures exists i :: e.flushedCount <= i < |e.events| && e.events[i] == x
    {
      var j :| 0 <= j < |Pending(e)| && Pending(e)[j] == x;
      assert e.events[e.flushedCount + j] == x;
    }
  }

  lemma CountedOther(id: Id, v: View, act: Act, max: int, w: View)
    requires Once(id, v, max) && Counted(v, max) && Moves(id, v, act, max, w) && Unhurried(v, act)
    requires act.Skip? || act.Born? || act.Wipe? || act.Forget? || act.Purge? || act.Erase? || act.Load?
    ensures Counted(w, max)
  {
    if act.Load? && w.entry.Some? {
      forall i | 0 <= i < |act.events|
        ensures act.events[i] in w.journal
      {
        assert act.events[i] in v.rows;
      }
    }
  }

  lemma CountedFlush(id: Id, v: View, act: Act, max: int, w: View)
    requires Once(id, v, max) && Counted(v, max) && Moves(id, v, act, max, w)
    requires act.AddRow? || act.Acked? || act.Abort?
    ensures Counted(w, max)
  {
  }

  lemma CountedKept(id: Id, v: View, act: Act, max: int, w: View)
    requires Once(id, v, max) && Counted(v, max) && Moves(id, v, act, max, w) && Unhurried(v, act)
    ensures Counted(w, max)
  {
    match act
    case Rec(_) => CountedRecord(id, v, act, max, w);
    case AddEvents => CountedAddEvents(id, v, act, max, w);
    case Snap => CountedSnap(id, v, act, max, w);
    case AddRow => CountedFlush(id, v, act, max, w);
    case Acked => CountedFlush(id, v, act, max, w);
    case Abort => CountedFlush(id, v, act, max, w);
    case _ => CountedOther(id, v, act, max, w);
  }

  ghost predicate AllCounted(c: Config, st: State) {
    AllOnce(c, st) && forall id :: Counted(ViewOf(st, id), c.max)
  }

  lemma AllCountedStep(c: Config, st: State, step: Step)
    requires AllCounted(c, st) && Allowed(NoClearMidFlush, st, step)
    ensures AllCounted(c, Next(c, st, step))
  {
    AllOnceStep(c, st, step);
    forall id
      ensures Counted(ViewOf(Next(c, st, step), id), c.max)
    {
      StepsMove(c, st, step, id);
      CountedKept(id, ViewOf(st, id), ActOf(c, st, step, id), c.max, ViewOf(Next(c, st, step), id));
    }
  }

  lemma {:induction false} AllCountedRun(c: Config, st: State, steps: seq<Step>)
    requires AllCounted(c, st) && Keeps(NoClearMidFlush, c, st, steps)
    ensures AllCounted(c, Run(c, st, steps))
    decreases |steps|
  {
    if steps != [] {
      AllCountedStep(c, st, steps[0]);
      AllCountedRun(c, Next(c, st, steps[0]), steps[1..]);
    }
  }

  /** The state that a run reaches when it clears no slug in the middle of its flush. */
  ghost predicate Reached(c: Config, steps: seq<Step>, st: State) {
    Keeps(NoClearMidFlush, c, Init, steps) && st == Run(c, Init, steps)
  }

  lemma ReachedCounted(c: Config, steps: seq<Step>, st: State, id: Id)
    requires Reached(c, steps, st)
    ensures Once(id, ViewOf(st, id), c.max) && Counted(ViewOf(st, id), c.max)
  {
    AllCountedRun(c, Init, steps);
  }

  /** Acknowledging sets `flushedCount` to the number of window events that were recorded
      before the snapshot, however many the ring has dropped since; every one of them has been
      written and no other has; and the entry stays dirty exactly when something was recorded for
      the slug after the snapshot, and is then still in the window. */
  lemma AckIsPrecise(c: Config, steps: seq<Step>, st: State, id: Id)
    requires Reached(c, steps, st)
    requires st.cursor == Inserted(id) && id in st.todo && id in st.mem && st.mem[id].gen == st.todo[id].gen
    ensures
      var before, after := st.mem[id], Next(c, st, Ack).mem[id];
      var mark := st.todo[id].mark;
      && after.events == before.events
      && after.flushedCount == CountOlder(before.events, mark)
      && (forall i :: 0 <= i < |after.events| ==>
            (EventRow(id, after.events[i]) in st.journal <==> i < after.flushedCount))
      && (after.dirty <==> exists i :: 0 <= i < |after.events| && after.events[i].no >= mark)
      && (after.dirty <==> exists n :: mark <= n < |st.log| && st.log[n].slug == id)
  {
    ReachedCounted(c, steps, st, id);
    var v := ViewOf(st, id);
    var e := st.mem[id];
    var k := Covered(v);
    CountOlderIs(e.events, st.todo[id].mark, k);
    forall i | 0 <= i < |e.events|
      ensures EventRow(id, e.events[i]) in st.journal <==> i < k
    {
      RowsOfMember(st.journal, id, e.events[i]);
    }
    if k < |e.events| {
      assert e.events[k].no >= st.todo[id].mark;
      assert st.log[e.events[k].no].slug == id;
    } else {
      assert NothingSince(st.log, st.todo[id].mark, id);
    }
  }

  /** Whether a logged event is still in its slug's window. */
  predicate InWindow(st: State, r: EventRow) {
    r.slug in st.mem && r.event in st.mem[r.slug].events
  }

  /** Whether the entry still has to write a logged event, by its own counters. */
  predicate IsPending(c: Config, st: State, r: EventRow) {
    r.slug in st.mem && !Oversized(st.mem[r.slug], c.max) && r.event in Pending(st.mem[r.slug])
  }

  predicate IsPersisted(st: State, r: EventRow) {
    r in st.journal
  }

  predicate IsDropped(st: State, r: EventRow) {
    r !in st.journal && !InWindow(st, r)
  }

  /** Outside a flush, every event ever recorded is persisted, pending or dropped, and only one
      of these; every window holds events of its own slug only. */
  lemma EventsAreConserved(c: Config, steps: seq<Step>, st: State, n: nat)
    requires Reached(c, steps, st) && st.todo == map[] && n < |st.log|
    ensures
      var r := st.log[n];
      && (IsPersisted(st, r) || IsPending(c, st, r) || IsDropped(st, r))
      && !(IsPersisted(st, r) && IsPending(c, st, r))
      && !(IsPersisted(st, r) && IsDropped(st, r))
      && !(IsPending(c, st, r) && IsDropped(st, r))
    ensures forall id, e :: id in st.mem && e in st.mem[id].events ==> e.no < |st.log| && st.log[e.no] == EventRow(id, e)
  {
    var r := st.log[n];
    ReachedCounted(c, steps, st, r.slug);
    RowsOfMember(st.journal, r.slug, r.event);
    if r.slug in st.mem {
      WrittenOrPending(r.slug, ViewOf(st, r.slug), c.max, r.event);
    }
    forall id, e | id in st.mem && e in st.mem[id].events
      ensures e.no < |st.log| && st.log[e.no] == EventRow(id, e)
    {
      ReachedCounted(c, steps, st, id);
    }
  }

  lemma WrittenOrPending(id: Id, v: View, max: int, x: Event)
    requires Once(id, v, max) && Counted(v, max) && v.entry.Some? && v.snap.None?
    ensures
      var e := v.entry.value;
      && (x in e.events && Oversized(e, max) ==> x in v.journal)
      && (x in e.events && !Oversized(e, max) ==> (x in v.journal <==> x !in Pending(e)))
      && (!Oversized(e, max) && x in Pending(e) ==> x in e.events)
  {
    if !Oversized(v.entry.value, max) {
      PendingIs(v.entry.value);
    }
  }

  /** A crash between flushes loses the pending events and nothing else. */
  lemma CrashLosesOnlyPending(c: Config, steps: seq<Step>, st: State, step: Step, n: nat)
    requires Reached(c, steps, st) && st.todo == map[] && n < |st.log|
    requires step.Restart? && st.now <= step.t && LoadsFrom(st.db, step)
    ensures
      var st', r := Next(c, st, step), st.log[n];
      && st'.log == st.log
      && (IsPersisted(st', r) <==> IsPersisted(st, r))
      && (IsDropped(st', r) <==> IsDropped(st, r) || IsPending(c, st, r))
  {
    EventsAreConserved(c, steps, st, n);
    var st', r := Next(c, st, step), st.log[n];
    if InWindow(st', r) {
      LoadedRowsAreStored(st, step, r.slug);
      ReachedCounted(c, steps, st, r.slug);
      assert r.event in RowsOf(st.db.rows, r.slug);
      RowsOfMember(st.journal, r.slug, r.event);
    }
  }

  /** Outside a flush, a clean entry has nothing left to write. */
  lemma CleanMeansWritten(c: Config, steps: seq<Step>, st: State, id: Id)
    requires Reached(c, steps, st) && id !in st.todo && id in st.mem && !st.mem[id].dirty
    ensures forall e :: e in st.mem[id].events ==> EventRow(id, e) in st.journal
  {
    ReachedCounted(c, steps, st, id);
    forall e | e in st.mem[id].events
      ensures EventRow(id, e) in st.journal
    {
      RowsOfMember(st.journal, id, e);
    }
  }

  /** Neither written, nor in the window, nor in a snapshot in flight. */
  predicate Gone(v: View, e: Event) {
    && e.no < |v.log|
    && e !in v.journal
    && (v.entry.Some? ==> e !in v.entry.value.events)
    && (v.snap.Some? ==> e !in v.snap.value.events)
  }

  lemma GoneKept(id: Id, v: View, act: Act, max: int, w: View, e: Event)
    requires Gone(v, e) && Suffix(v.rows, v.journal) && Moves(id, v, act, max, w)
    ensures Gone(w, e)
  {
    if act.Load? && v.row.Some? {
      assert forall x :: x in act.events ==> x in v.rows;
    }
  }

  /** Dropped for good: no later step of any run writes a dropped event or puts it back. */
  lemma {:induction false} DroppedStaysDropped(c: Config, st: State, steps: seq<Step>, r: EventRow)
    requires AllOnce(c, st) && r.event.no < |st.log| && IsDropped(st, r)
    requires r.slug in st.todo ==> r.event !in st.todo[r.slug].events
    ensures IsDropped(Run(c, st, steps), r)
    decreases |steps|
  {
    if steps != [] {
      var st' := Next(c, st, steps[0]);
      RowsOfMember(st.journal, r.slug, r.event);
      RowsOfMember(st'.journal, r.slug, r.event);
      StepsMove(c, st, steps[0], r.slug);
      GoneKept(r.slug, ViewOf(st, r.slug), ActOf(c, st, steps[0], r.slug), c.max, ViewOf(st', r.slug), r.event);
      AllOnceStep(c, st, steps[0]);
      assert Gone(ViewOf(st', r.slug), r.event);
      DroppedStaysDropped(c, st', steps[1..], r);
    }
  }
}
