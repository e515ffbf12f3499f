/** What the store and the memory agree on, in orderly runs: HTTP deletes run to completion, no
    slug is deleted or purged while its snapshot is in flight, rows are read back in order. */
module Agreement {
  import opened Records
  import opened Entries
  import opened Tables
  import opened Protocol
  import opened Views
  import opened ExactlyOnce
  import opened Conservation

  predicate Unexpired(v: View) {
    v.entry.Some? && v.entry.value.slug.expiresAt >= v.now
  }

  /** The log is in time order. */
  ghost predicate Timed(log: seq<EventRow>, now: int) {
    && (forall i :: 0 <= i < |log| ==> log[i].event.at <= now)
    && (forall i, j :: 0 <= i < j < |log| ==> log[i].event.at <= log[j].event.at)
  }

  /** A stored slug is in memory or expired, and every event row belongs to a stored slug. */
  ghost predicate RowsAgree(v: View) {
    && (v.row.Some? ==> (v.entry.Some? && v.entry.value.slug == v.row.value) || v.row.value.expiresAt <= v.now)
    && (v.rows != [] ==> v.row.Some?)
    && (v.snap.Some? ==>
          && (Same(v) ==> v.snap.value.slug == v.entry.value.slug)
          && (!Same(v) ==> v.snap.value.slug.expiresAt < v.now)
          && (!Same(v) && v.entry.Some? ==> v.entry.value.flushedCount == 0 && v.entry.value.dirty)
          && (!v.stage.Waiting? ==> v.row == Some(v.snap.value.slug)))
    && (Unexpired(v) && (v.entry.value.flushedCount > 0 || !v.entry.value.dirty) ==> v.row == Some(v.entry.value.slug))
  }

  /** The part of the window that counts as flushed is the newest part of the slug's rows. */
  ghost predicate PrefixStored(v: View, e: Entry)
    requires 0 <= e.flushedCount <= |e.events|
    requires Same(v) ==> 0 <= Covered(v) <= |e.events|
  {
    if Same(v) then
      && (v.stage.EventsPut? ==> Suffix(e.events[..Covered(v)], v.rows))
      && (!v.stage.EventsPut? ==>
            && Suffix(e.events[..Covered(v)], v.rows + v.snap.value.events)
            && Suffix(e.events[..e.flushedCount], v.rows))
    else
      Suffix(e.events[..e.flushedCount], v.rows)
  }

  ghost predicate Agrees(v: View, max: int)
    requires Counted(v, max)
    requires v.entry.Some? ==> v.entry.value.flushedCount >= 0
  {
    && Timed(v.log, v.now)
    && RowsAgree(v)
    && (Unexpired(v) && !Oversized(v.entry.value, max) ==> PrefixStored(v, v.entry.value))
    && (Unexpired(v) && Oversized(v.entry.value, max) ==> Suffix(v.entry.value.events, v.rows))
  }

  /** How much of the window the store has: all of one that is too full to record; otherwise the
      flushed part, and while a flush waits to be acknowledged what it has written as well. */
  function StoredPart(v: View, max: int): int
    requires v.entry.Some?
  {
    var e := v.entry.value;
    if Oversized(e, max) then |e.events| else if Same(v) && v.stage.EventsPut? then Covered(v) else e.flushedCount
  }

  /** When an orderly run lets an act happen. */
  ghost predicate Ordered(v: View, act: Act) {
    && Unhurried(v, act)
    && (act.Forget? ==> v.entry.Some? && v.entry.value.slug.expiresAt < v.now)
    && (act.Purge? ==> v.snap.None? && v.row.Some? && v.row.value.expiresAt < v.now)
    && (act.Erase? ==> v.snap.None?)
    && (act.Load? ==> exists since :: act.events == EventsSince(v.rows, since))
  }

  ghost predicate WindowInOrder(v: View) {
    v.entry.Some? ==> Increasing(v.entry.value.events)
  }

  /** Everything known of a view in an orderly run. */
  ghost predicate Known(id: Id, v: View, max: int) {
    Once(id, v, max) && Counted(v, max) && Agrees(v, max) && WindowInOrder(v)
  }

  lemma TimedKept(id: Id, v: View, act: Act, max: int, w: View)
    requires Timed(v.log, v.now) && Moves(id, v, act, max, w)
    ensures Timed(w.log, w.now)
  {
    if act.Rec? && w.log != v.log {
      assert w.log == v.log + [EventRow(id, act.ev)];
    }
  }

  lemma RowsAgreeKept(id: Id, v: View, act: Act, max: int, w: View)
    requires Once(id, v, max) && RowsAgree(v) && Moves(id, v, act, max, w) && Ordered(v, act)
    ensures RowsAgree(w)
  {
  }

  lemma PrefixSlides(window: seq<Event>, k: int, ev: Event, rows: seq<Event>)
    requires 0 <= k <= |window| && window != [] && Suffix(window[..k], rows)
    ensures Suffix((window[1..] + [ev])[..Max(k - 1, 0)], rows)
  {
    if k > 0 {
      assert (window[1..] + [ev])[..k - 1] == window[..k][1..];
      DropIsSuffix(window[..k], 1);
      SuffixOfSuffix(window[..k][1..], window[..k], rows);
    } else {
      assert (window[1..] + [ev])[..0] == [];
      DropIsSuffix(rows, |rows|);
    }
  }

  /** The counters are in range, so that `PrefixStored` can be asked. */
  ghost predicate InRange(v: View) {
    && v.entry.Some?
    && 0 <= v.entry.value.flushedCount <= |v.entry.value.events|
    && (Same(v) ==> 0 <= Covered(v) <= |v.entry.value.events|)
  }

  lemma PrefixAppends(v: View, ev: Event, w: View)
    requires InRange(v) && InRange(w) && PrefixStored(v, v.entry.value)
    requires w.entry == Some(v.entry.value.(events := v.entry.value.events + [ev], dirty := true))
    requires w.snap == v.snap && w.stage == v.stage && w.rows == v.rows
    ensures PrefixStored(w, w.entry.value)
  {
    var e := v.entry.value;
    assert (e.events + [ev])[..e.flushedCount] == e.events[..e.flushedCount];
    if Same(v) {
      assert (e.events + [ev])[..Covered(v)] == e.events[..Covered(v)];
    }
  }

  lemma PrefixEvicts(v: View, ev: Event, w: View)
    requires InRange(v) && InRange(w) && PrefixStored(v, v.entry.value) && v.entry.value.events != []
    requires w.entry == Some(Evicted(v.entry.value).(events := v.entry.value.events[1..] + [ev], dirty := true))
    requires w.snap == v.snap && w.stage == v.stage && w.rows == v.rows
    ensures PrefixStored(w, w.entry.value)
  {
    var e := v.entry.value;
    if !Same(v) {
      PrefixSlides(e.events, e.flushedCount, ev, v.rows);
    } else if v.stage.EventsPut? {
      PrefixSlides(e.events, Covered(v), ev, v.rows);
    } else {
      PrefixSlides(e.events, Covered(v), ev, v.rows + v.snap.value.events);
      PrefixSlides(e.events, e.flushedCount, ev, v.rows);
    }
  }

  lemma PrefixEmpty(w: View)
    requires InRange(w) && w.entry.value.events == []
    ensures PrefixStored(w, w.entry.value)
  {
    DropIsSuffix(w.rows, |w.rows|);
    if Same(w) {
      DropIsSuffix(w.rows + w.snap.value.events, |w.rows + w.snap.value.events|);
    }
  }

  lemma PrefixSnap(v: View, w: View)
    requires InRange(v) && InRange(w) && PrefixStored(v, v.entry.value) && v.snap.None?
    requires w.entry == Some(MarkCollected(v.entry.value)) && w.rows == v.rows && w.stage.Waiting?
    requires w.snap.Some? && w.snap.value == TakeSnapshot(v.entry.value, |v.log|)
    ensures PrefixStored(w, w.entry.value)
  {
    var e := v.entry.value;
    assert Covered(w) == |e.events| && e.events[..|e.events|] == e.events;
    SuffixAppend(e.events[..e.flushedCount], v.rows, Pending(e));
    assert e.events[..e.flushedCount] + Pending(e) == e.events;
  }

  /** Writing the slug row or the events of the snapshot in flight. */
  lemma PrefixPuts(v: View, w: View)
    requires InRange(v) && InRange(w) && PrefixStored(v, v.entry.value) && v.snap.Some? && !v.stage.EventsPut?
    requires w.entry == v.entry && w.snap == v.snap
    requires w.rows == if w.stage.EventsPut? then v.rows + v.snap.value.events else v.rows
    requires !Same(v) ==> v.entry.value.flushedCount == 0
    ensures PrefixStored(w, w.entry.value)
  {
    if !Same(v) {
      DropIsSuffix(w.rows, |w.rows|);
    }
  }

  lemma PrefixEnds(v: View, w: View)
    requires InRange(v) && InRange(w) && PrefixStored(v, v.entry.value) && v.snap.Some? && w.snap.None?
    requires w.rows == v.rows
    requires if Same(v) && v.stage.EventsPut?
             then w.entry == Some(AckEntry(v.entry.value, v.snap.value.snapshotLen)) else w.entry == v.entry
    ensures PrefixStored(w, w.entry.value)
  {
  }

  lemma KnownInRange(id: Id, v: View, max: int)
    requires Once(id, v, max) && Counted(v, max) && v.entry.Some? && !Oversized(v.entry.value, max)
    ensures InRange(v)
  {
  }

  lemma PrefixKept(id: Id, v: View, act: Act, max: int, w: View)
    requires InRange(v) && PrefixStored(v, v.entry.value) && RowsAgree(v) && !Oversized(v.entry.value, max)
    requires Moves(id, v, act, max, w) && Ordered(v, act) && InRange(w) && Unexpired(w)
    requires !act.Born? && !act.Wipe? && !act.Load?
    ensures PrefixStored(w, w.entry.value)
  {
    match act
    case Rec(ev) =>
      if RecordPanics(v.entry.value, max) {
        PrefixEmpty(w);
      } else if |v.entry.value.events| >= max {
        PrefixEvicts(v, ev, w);
      } else {
        PrefixAppends(v, ev, w);
      }
    case Snap => PrefixSnap(v, w);
    case AddRow =>
      assert v.snap.value.events == [] ==> v.rows + v.snap.value.events == v.rows;
      PrefixPuts(v, w);
    case AddEvents => PrefixPuts(v, w);
    case Acked => PrefixEnds(v, w);
    case Abort => if v.snap.Some? { PrefixEnds(v, w); }
    case _ =>
  }

  lemma RowsInTime(id: Id, v: View, max: int)
    requires Once(id, v, max) && Timed(v.log, v.now)
    ensures forall i, j :: 0 <= i < j < |v.rows| ==> v.rows[i].at <= v.rows[j].at
  {
    var d := |v.journal| - |v.rows|;
    forall i, j | 0 <= i < j < |v.rows|
      ensures v.rows[i].at <= v.rows[j].at
    {
      assert v.rows[i] == v.journal[d + i] && v.rows[j] == v.journal[d + j];
      assert v.log[v.rows[i].no].event == v.rows[i] && v.log[v.rows[j].no].event == v.rows[j];
    }
  }

  /** A window that has just begun: empty, or read back from the store. */
  lemma PrefixBegins(id: Id, v: View, act: Act, max: int, w: View)
    requires Once(id, v, max) && Timed(v.log, v.now) && Moves(id, v, act, max, w) && Ordered(v, act) && InRange(w)
    requires act.Born? || act.Wipe? || act.Load?
    ensures PrefixStored(w, w.entry.value)
  {
    if act.Load? {
      RowsInTime(id, v, max);
      var since :| act.events == EventsSince(v.rows, since);
      EventsSinceIsSuffix(v.rows, since);
      assert act.events[..|act.events|] == act.events;
    } else {
      PrefixEmpty(w);
    }
  }

  /** A window too full to record stays as it was loaded, and so do the slug's rows. */
  lemma OverfullKept(id: Id, v: View, act: Act, max: int, w: View)
    requires Once(id, v, max) && Counted(v, max) && Agrees(v, max) && Moves(id, v, act, max, w) && Ordered(v, act)
    requires Unexpired(w) && Oversized(w.entry.value, max)
    ensures Suffix(w.entry.value.events, w.rows)
  {
    if act.Load? {
      RowsInTime(id, v, max);
      var since :| act.events == EventsSince(v.rows, since);
      EventsSinceIsSuffix(v.rows, since);
    }
  }

  lemma WindowInOrderKept(id: Id, v: View, act: Act, max: int, w: View)
    requires Once(id, v, max) && Timed(v.log, v.now) && WindowInOrder(v) && Moves(id, v, act, max, w) && Ordered(v, act)
    ensures WindowInOrder(w)
  {
    if act.Load? && w.entry.Some? {
      RowsInTime(id, v, max);
      var since :| act.events == EventsSince(v.rows, since);
      EventsSinceIsSuffix(v.rows, since);
    }
  }

  lemma KnownKept(id: Id, v: View, act: Act, max: int, w: View)
    requires Known(id, v, max) && Moves(id, v, act, max, w) && Ordered(v, act)
    ensures Known(id, w, max)
  {
    OnceKept(id, v, act, max, w);
    CountedKept(id, v, act, max, w);
    TimedKept(id, v, act, max, w);
    RowsAgreeKept(id, v, act, max, w);
    WindowInOrderKept(id, v, act, max, w);
    if Unexpired(w) && Oversized(w.entry.value, max) {
      OverfullKept(id, v, act, max, w);
    }
    if Unexpired(w) && !Oversized(w.entry.value, max) {
      KnownInRange(id, w, max);
      if act.Born? || act.Wipe? || act.Load? {
        PrefixBegins(id, v, act, max, w);
      } else {
        KnownInRange(id, v, max);
        PrefixKept(id, v, act, max, w);
      }
    }
  }

  lemma OrderlySteps(c: Config, st: State, step: Step, id: Id)
    requires Filed(st) && Allowed(Orderly, st, step)
    ensures Ordered(ViewOf(st, id), ActOf(c, st, step, id))
  {
    if step.Restart? {
      RowsOfSince(st.db.rows, step.earliest - SECOND, id);
    }
  }

  ghost predicate AllKnown(c: Config, st: State) {
    Filed(st) && forall id :: Known(id, ViewOf(st, id), c.max)
  }

  lemma AllKnownStep(c: Config, st: State, step: Step)
    requires AllKnown(c, st) && Allowed(Orderly, st, step)
    ensures AllKnown(c, Next(c, st, step))
  {
    FiledKept(c, st, step);
    forall id
      ensures Known(id, ViewOf(Next(c, st, step), id), c.max)
    {
      StepsMove(c, st, step, id);
      OrderlySteps(c, st, step, id);
      KnownKept(id, ViewOf(st, id), ActOf(c, st, step, id), c.max, ViewOf(Next(c, st, step), id));
    }
  }

  lemma {:induction false} AllKnownRun(c: Config, st: State, steps: seq<Step>)
    requires AllKnown(c, st) && Keeps(Orderly, c, st, steps)
    ensures AllKnown(c, Run(c, st, steps))
    decreases |steps|
  {
    if steps != [] {
      AllKnownStep(c, st, steps[0]);
      AllKnownRun(c, Next(c, st, steps[0]), steps[1..]);
    }
  }

  lemma InitKnown(c: Config)
    ensures AllKnown(c, Init)
  {
    forall id
      ensures Known(id, ViewOf(Init, id), c.max)
    {
      assert RowsOf([], id) == [];
    }
  }

  ghost predicate ReachedOrderly(c: Config, steps: seq<Step>, st: State) {
    Keeps(Orderly, c, Init, steps) && st == Run(c, Init, steps)
  }

  lemma ReachedKnown(c: Config, steps: seq<Step>, st: State, id: Id)
    requires ReachedOrderly(c, steps, st)
    ensures Filed(st) && Known(id, ViewOf(st, id), c.max)
  {
    InitKnown(c);
    AllKnownRun(c, Init, steps);
  }

  /** While a slug is not expired, the part of its window that the store has is the newest part of
      its stored rows, in the middle of a flush or not. */
  lemma FlushedPrefixIsStored(c: Config, steps: seq<Step>, st: State, id: Id)
    requires ReachedOrderly(c, steps, st) && id in st.mem && st.mem[id].slug.expiresAt >= st.now
    ensures
      var k := StoredPart(ViewOf(st, id), c.max);
      0 <= k <= |st.mem[id].events| && Suffix(st.mem[id].events[..k], RowsOf(st.db.rows, id))
  {
    ReachedKnown(c, steps, st, id);
    StoredIsSuffix(id, ViewOf(st, id), c.max);
  }

  lemma StoredIsSuffix(id: Id, v: View, max: int)
    requires Known(id, v, max) && Unexpired(v)
    ensures
      var e, k := v.entry.value, StoredPart(v, max);
      0 <= k <= |e.events| && Suffix(e.events[..k], v.rows) && (!e.dirty ==> k == |e.events|)
  {
    var e := v.entry.value;
    if Oversized(e, max) {
      assert e.events[..|e.events|] == e.events;
    } else {
      KnownInRange(id, v, max);
    }
  }

  /** Every stored slug is the one in memory or has expired; every event row belongs to a
      stored slug; every clean slug in memory that has not expired is stored. */
  lemma StoreAndMemoryAgree(c: Config, steps: seq<Step>, st: State)
    requires ReachedOrderly(c, steps, st)
    ensures forall id :: id in st.db.slugs ==>
              (id in st.mem && st.mem[id].slug == st.db.slugs[id]) || st.db.slugs[id].expiresAt <= st.now
    ensures forall r :: r in st.db.rows ==> r.slug in st.db.slugs
    ensures forall id :: id in st.mem && !st.mem[id].dirty && st.mem[id].slug.expiresAt >= st.now ==>
              id in st.db.slugs && st.db.slugs[id] == st.mem[id].slug
  {
    forall id
      ensures RowsAgree(ViewOf(st, id))
    {
      ReachedKnown(c, steps, st, id);
    }
    forall r | r in st.db.rows
      ensures r.slug in st.db.slugs
    {
      RowsOfMember(st.db.rows, r.slug, r.event);
      assert EventRow(r.slug, r.event) == r;
      assert RowsAgree(ViewOf(st, r.slug));
    }
    forall id | id in st.db.slugs
      ensures (id in st.mem && st.mem[id].slug == st.db.slugs[id]) || st.db.slugs[id].expiresAt <= st.now
    {
      assert RowsAgree(ViewOf(st, id));
    }
    forall id | id in st.mem && !st.mem[id].dirty && st.mem[id].slug.expiresAt >= st.now
      ensures id in st.db.slugs && st.db.slugs[id] == st.mem[id].slug
    {
      assert RowsAgree(ViewOf(st, id));
    }
  }

  /** A restart brings back no slug that was not in memory, and none that has expired. */
  lemma RestartRevivesNothing(c: Config, steps: seq<Step>, st: State, step: Step, id: Id)
    requires ReachedOrderly(c, steps, st)
    requires step.Restart? && st.now <= step.t && LoadsFrom(st.db, step)
    requires id in Next(c, st, step).mem
    ensures id in st.mem && Next(c, st, step).mem[id].slug == st.mem[id].slug
    ensures Next(c, st, step).mem[id].slug.expiresAt > step.t
  {
    StoreAndMemoryAgree(c, steps, st);
    assert id in LoadSlugs(st.db, step.t);
  }
}
