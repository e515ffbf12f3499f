/** No event is ever written to the store twice or out of order: in every run, whatever is
    cleared, deleted, evicted, retried, lost in a crash or reloaded in whatever order, and
    for every configuration.  The one hypothesis is built into the state machine: a flush
    does not begin while another one runs. */
module ExactlyOnce {
  import opened Records
  import opened Entries
  import opened Tables
  import opened Protocol
  import opened Views

  ghost predicate Logged(id: Id, log: seq<EventRow>, s: seq<Event>) {
    forall i :: 0 <= i < |s| ==> s[i].no < |log| && log[s[i].no] == EventRow(id, s[i])
  }

  ghost predicate LogNumbered(log: seq<EventRow>) {
    forall i :: 0 <= i < |log| ==> log[i].event.no == i
  }

  /** The entry's unflushed events are newer than everything ever written, unless a write of
      them is waiting to be acknowledged. */
  ghost predicate EntryOk(id: Id, v: View, e: Entry, max: int) {
    && e.slug.id == id
    && e.gen < v.gens
    && Logged(id, v.log, e.events)
    && e.flushedCount >= 0
    && e.evictedDuringFlush >= 0
    && (e.dirty ==> !Oversized(e, max))
    && (!Oversized(e, max) && !(Same(v) && v.stage.EventsPut?) ==>
          IncreasingFrom(e.events, e.flushedCount) && Above(v.journal, e.events, e.flushedCount))
  }

  /** A snapshot in flight is newer than everything written before it, and older than every
      event that acknowledging it would leave unflushed. */
  ghost predicate SnapOk(id: Id, v: View, s: Snapshot, max: int) {
    && s.slug.id == id
    && s.gen < v.gens
    && Logged(id, v.log, s.events)
    && Increasing(s.events)
    && (!v.stage.EventsPut? ==> Above(v.journal, s.events, 0))
    && (Same(v) ==>
          && v.entry.value.dirty
          && IncreasingFrom(v.entry.value.events, Covered(v))
          && Above(s.events, v.entry.value.events, Covered(v))
          && Above(v.journal, v.entry.value.events, Covered(v)))
    && (v.entry.Some? && !Same(v) && !Oversized(v.entry.value, max) ==>
          Above(s.events, v.entry.value.events, v.entry.value.flushedCount))
  }

  ghost predicate Once(id: Id, v: View, max: int) {
    && LogNumbered(v.log)
    && Logged(id, v.log, v.journal)
    && Increasing(v.journal)
    && Suffix(v.rows, v.journal)
    && (v.row.Some? ==> v.row.value.id == id)
    && (v.entry.Some? ==> EntryOk(id, v, v.entry.value, max))
    && (v.snap.Some? ==> SnapOk(id, v, v.snap.value, max))
  }

  lemma LoggedGrows(id: Id, log: seq<EventRow>, log': seq<EventRow>, s: seq<Event>)
    requires Logged(id, log, s) && log <= log'
    ensures Logged(id, log', s)
  {
  }

  lemma OnceRecordPanics(id: Id, v: View, act: Act, max: int, w: View)
    requires Once(id, v, max) && Moves(id, v, act, max, w) && act.Rec?
    requires RecordPanics(v.entry.value, max)
    ensures Once(id, w, max)
  {
    if |v.entry.value.events| == 0 {
      assert w.entry.value.events == [];
    } else {
      assert Oversized(v.entry.value, max) && !Same(v);
    }
  }

  lemma OnceRecordAppends(id: Id, v: View, act: Act, max: int, w: View)
    requires Once(id, v, max) && Moves(id, v, act, max, w) && act.Rec?
    requires |v.entry.value.events| < max
    ensures Once(id, w, max)
  {
    var e, ev := v.entry.value, act.ev;
    assert w.entry.value == e.(events := e.events + [ev], dirty := true);
    LoggedGrows(id, v.log, w.log, e.events);
    LoggedGrows(id, v.log, w.log, v.journal);
    if !(Same(v) && v.stage.EventsPut?) {
      Grow(v.journal, e.events, e.flushedCount, ev);
    }
    if v.snap.Some? {
      var s := v.snap.value;
      LoggedGrows(id, v.log, w.log, s.events);
      if Same(v) {
        Grow(v.journal, e.events, Covered(v), ev);
        Grow(s.events, e.events, Covered(v), ev);
        assert Covered(w) == Covered(v);
      } else {
        Grow(s.events, e.events, e.flushedCount, ev);
      }
      assert SnapOk(id, w, s, max);
    }
    assert EntryOk(id, w, w.entry.value, max);
  }

  lemma OnceRecordEvicts(id: Id, v: View, act: Act, max: int, w: View)
    requires Once(id, v, max) && Moves(id, v, act, max, w) && act.Rec?
    requires |v.entry.value.events| >= max && !RecordPanics(v.entry.value, max)
    ensures Once(id, w, max)
  {
    LoggedGrows(id, v.log, w.log, v.entry.value.events);
    LoggedGrows(id, v.log, w.log, v.journal);
    EvictedEntryOk(id, v, act.ev, max, w);
    if v.snap.Some? {
      LoggedGrows(id, v.log, w.log, v.snap.value.events);
      EvictedSnapOk(id, v, act.ev, max, w);
    }
  }

  /** The view after `ev` was recorded into a full window. */
  ghost predicate Turned(id: Id, v: View, ev: Event, max: int, w: View) {
    && v.entry.Some? && |v.entry.value.events| >= max && !RecordPanics(v.entry.value, max)
    && ev.no == |v.log| && v.log <= w.log && w.log == v.log + [EventRow(id, ev)]
    && w.entry == Some(RecordEntry(v.entry.value, ev, max))
    && w.snap == v.snap && w.stage == v.stage && w.journal == v.journal && w.gens >= v.gens
  }

  lemma EvictedEntryOk(id: Id, v: View, ev: Event, max: int, w: View)
    requires Turned(id, v, ev, max, w) && EntryOk(id, v, v.entry.value, max) && Logged(id, v.log, v.journal)
    requires Logged(id, w.log, v.entry.value.events)
    ensures EntryOk(id, w, w.entry.value, max)
  {
    if !(Same(v) && v.stage.EventsPut?) {
      ShiftGrow(v.journal, v.entry.value.events, v.entry.value.flushedCount, ev);
    }
  }

  lemma EvictedSnapOk(id: Id, v: View, ev: Event, max: int, w: View)
    requires Turned(id, v, ev, max, w) && EntryOk(id, v, v.entry.value, max) && Logged(id, v.log, v.journal)
    requires v.snap.Some? && SnapOk(id, v, v.snap.value, max) && Logged(id, w.log, v.snap.value.events)
    ensures SnapOk(id, w, w.snap.value, max)
  {
    var e, s := v.entry.value, v.snap.value;
    if Same(v) {
      ShiftGrow(v.journal, e.events, Covered(v), ev);
      ShiftGrow(s.events, e.events, Covered(v), ev);
    } else {
      ShiftGrow(s.events, e.events, e.flushedCount, ev);
    }
  }

  lemma OnceLoad(id: Id, v: View, act: Act, max: int, w: View)
    requires Once(id, v, max) && Moves(id, v, act, max, w) && act.Load?
    ensures Once(id, w, max)
  {
  }

  lemma OnceSnap(id: Id, v: View, act: Act, max: int, w: View)
    requires Once(id, v, max) && Moves(id, v, act, max, w) && act.Snap?
    ensures Once(id, w, max)
  {
    var e := v.entry.value;
    assert w.snap.value.events == Pending(e);
    assert Covered(w) == |e.events|;
  }

  lemma OnceAcked(id: Id, v: View, act: Act, max: int, w: View)
    requires Once(id, v, max) && Moves(id, v, act, max, w) && act.Acked?
    ensures Once(id, w, max)
  {
    assert w.snap.None?;
  }

  lemma OnceFlush(id: Id, v: View, act: Act, max: int, w: View)
    requires Once(id, v, max) && Moves(id, v, act, max, w)
    requires act.AddRow? || act.Abort?
    ensures Once(id, w, max)
  {
    assert w.entry == v.entry;
  }

  lemma OnceAddEvents(id: Id, v: View, act: Act, max: int, w: View)
    requires Once(id, v, max) && Moves(id, v, act, max, w) && act.AddEvents?
    ensures Once(id, w, max)
  {
    var s := v.snap.value;
    SuffixAppend(v.rows, v.journal, s.events);
    IncreasingConcat(v.journal, s.events);
    if v.entry.Some? {
      var e := v.entry.value;
      if Same(v) {
        AboveConcat(v.journal, s.events, e.events, Covered(v));
      } else if !Oversized(e, max) {
        AboveConcat(v.journal, s.events, e.events, e.flushedCount);
      }
    }
  }

  lemma OnceOther(id: Id, v: View, act: Act, max: int, w: View)
    requires Once(id, v, max) && Moves(id, v, act, max, w)
    requires act.Skip? || act.Born? || act.Wipe? || act.Forget? || act.Purge? || act.Erase?
    ensures Once(id, w, max)
  {
  }

  lemma OnceKept(id: Id, v: View, act: Act, max: int, w: View)
    requires Once(id, v, max) && Moves(id, v, act, max, w)
    ensures Once(id, w, max)
  {
    match act
    case Rec(_) =>
      if RecordPanics(v.entry.value, max) {
        OnceRecordPanics(id, v, act, max, w);
      } else if |v.entry.value.events| >= max {
        OnceRecordEvicts(id, v, act, max, w);
      } else {
        OnceRecordAppends(id, v, act, max, w);
      }
    case Load(_) => OnceLoad(id, v, act, max, w);
    case AddEvents => OnceAddEvents(id, v, act, max, w);
    case Snap => OnceSnap(id, v, act, max, w);
    case AddRow => OnceFlush(id, v, act, max, w);
    case Acked => OnceAcked(id, v, act, max, w);
    case Abort => OnceFlush(id, v, act, max, w);
    case _ => OnceOther(id, v, act, max, w);
  }

  ghost predicate AllOnce(c: Config, st: State) {
    Filed(st) && forall id :: Once(id, ViewOf(st, id), c.max)
  }

  lemma AllOnceStep(c: Config, st: State, step: Step)
    requires AllOnce(c, st)
    ensures AllOnce(c, Next(c, st, step))
  {
    FiledKept(c, st, step);
    forall id
      ensures Once(id, ViewOf(Next(c, st, step), id), c.max)
    {
      StepsMove(c, st, step, id);
      OnceKept(id, ViewOf(st, id), ActOf(c, st, step, id), c.max, ViewOf(Next(c, st, step), id));
    }
  }

  lemma {:induction false} AllOnceRun(c: Config, st: State, steps: seq<Step>)
    requires AllOnce(c, st)
    ensures AllOnce(c, Run(c, st, steps))
    decreases |steps|
  {
    if steps != [] {
      AllOnceStep(c, st, steps[0]);
      AllOnceRun(c, Next(c, st, steps[0]), steps[1..]);
    }
  }

  /** Rows of one slug come in record order, and each was recorded for that slug. */
  ghost predicate InRecordOrder(log: seq<EventRow>, rows: seq<EventRow>) {
    && (forall i :: 0 <= i < |rows| ==> rows[i].event.no < |log| && log[rows[i].event.no] == rows[i])
    && (forall i, j :: 0 <= i < j < |rows| && rows[i].slug == rows[j].slug ==> rows[i].event.no < rows[j].event.no)
  }

  ghost predicate NoRepeats<T>(s: seq<T>) {
    forall i, j :: 0 <= i < j < |s| ==> s[i] != s[j]
  }

  lemma OrderFromViews(log: seq<EventRow>, rows: seq<EventRow>)
    requires forall id :: Increasing(RowsOf(rows, id)) && Logged(id, log, RowsOf(rows, id))
    ensures InRecordOrder(log, rows) && NoRepeats(rows)
  {
    forall i | 0 <= i < |rows|
      ensures rows[i].event.no < |log| && log[rows[i].event.no] == rows[i]
    {
      RowsOfMember(rows, rows[i].slug, rows[i].event);
      assert EventRow(rows[i].slug, rows[i].event) == rows[i];
      assert Logged(rows[i].slug, log, RowsOf(rows, rows[i].slug));
    }
    forall i, j | 0 <= i < j < |rows| && rows[i].slug == rows[j].slug
      ensures rows[i].event.no < rows[j].event.no
    {
      RowsInOrder(rows, i, j);
    }
  }

  /** Exactly-once persistence, over every run from an empty system: everything ever committed
      to the store was committed once, and for each slug in the order of recording; so what the
      store holds at any moment is in that order and free of repeats as well. */
  lemma ExactlyOncePersistence(c: Config, steps: seq<Step>)
    ensures
      var st := Run(c, Init, steps);
      && InRecordOrder(st.log, st.journal) && NoRepeats(st.journal)
      && InRecordOrder(st.log, st.db.rows) && NoRepeats(st.db.rows)
      && forall id :: Suffix(RowsOf(st.db.rows, id), RowsOf(st.journal, id))
  {
    AllOnceRun(c, Init, steps);
    var st := Run(c, Init, steps);
    forall id
      ensures Increasing(RowsOf(st.journal, id)) && Logged(id, st.log, RowsOf(st.journal, id))
      ensures Increasing(RowsOf(st.db.rows, id)) && Logged(id, st.log, RowsOf(st.db.rows, id))
      ensures Suffix(RowsOf(st.db.rows, id), RowsOf(st.journal, id))
    {
      assert Once(id, ViewOf(st, id), c.max);
    }
    OrderFromViews(st.log, st.journal);
    OrderFromViews(st.log, st.db.rows);
  }
}
