/** What one slug ID sees of the system, and the proof that every step of the system acts on
    each ID by one local act.  Invariants are then stated and preserved ID by ID. */
module Views {
  import opened Records
  import opened Entries
  import opened Tables
  import opened Protocol

  datatype Stage = Waiting | RowPut | EventsPut

  datatype View = View(
    now: int,
    entry: Option<Entry>,
    row: Option<Slug>,
    rows: seq<Event>,
    snap: Option<Snapshot>,
    stage: Stage,
    gens: nat,
    log: seq<EventRow>,
    journal: seq<Event>,
    pruned: bool)

  predicate PrunedIn(st: State, id: Id) {
    id in st.mem && (id, st.mem[id].gen) in st.pruned
  }

  function ViewOf(st: State, id: Id): View {
    View(
      st.now,
      if id in st.mem then Some(st.mem[id]) else None,
      if id in st.db.slugs then Some(st.db.slugs[id]) else None,
      RowsOf(st.db.rows, id),
      if id in st.todo then Some(st.todo[id]) else None,
      if st.cursor == SlugPut(id) then RowPut else if st.cursor == Inserted(id) then EventsPut else Waiting,
      st.gens,
      st.log,
      RowsOf(st.journal, id),
      PrunedIn(st, id))
  }

  datatype Act =
    | Skip
    | Born(slug: Slug)
    | Rec(ev: Event)
    | Wipe
    | Forget
    | Purge
    | Erase
    | Snap
    | AddRow
    | AddEvents
    | Acked
    | Abort
    | Load(events: seq<Event>)

  /** The entry is the one that the snapshot in flight was taken from. */
  predicate Same(v: View) {
    v.snap.Some? && v.entry.Some? && v.entry.value.gen == v.snap.value.gen
  }

  /** Events of the window that the snapshot in flight covers. */
  function Covered(v: View): int
    requires Same(v)
  {
    AckCount(v.entry.value, v.snap.value.snapshotLen)
  }

  /** When an act can happen to an ID. */
  predicate Possible(id: Id, v: View, act: Act, max: int) {
    match act
    case Skip => true
    case Born(slug) => v.entry.None? && slug.id == id && slug.createdAt == v.now
    case Rec(ev) => v.entry.Some? && ev.no == |v.log| && ev.at == v.now
    case Wipe => v.entry.Some?
    case Forget => v.entry.Some?
    case Purge => true
    case Erase => true
    case Snap => v.snap.None? && v.entry.Some? && v.entry.value.dirty
    case AddRow => v.snap.Some? && v.stage.Waiting?
    case AddEvents => v.snap.Some? && v.stage.RowPut?
    case Acked => v.snap.Some? && v.stage.EventsPut?
    case Abort => !v.stage.EventsPut?
    case Load(events) => v.row.Some? ==> forall i :: 0 <= i < |events| ==> events[i] in v.rows
  }

  /** The effect of an act, the shared clock, log and allocation counter apart. */
  function Apply(v: View, act: Act, max: int, now: int): View {
    match act
    case Skip => v
    case Born(slug) => v.(entry := Some(NewEntry(slug, v.gens)), pruned := false)
    case Rec(ev) =>
      if v.entry.None? then v else
      var e := v.entry.value;
      v.(entry := Some(RecordEntry(e, ev, max)),
         pruned := v.pruned || (!RecordPanics(e, max) && |e.events| >= max))
    case Wipe => if v.entry.None? then v else v.(entry := Some(ClearEntry(v.entry.value)), pruned := true)
    case Forget => v.(entry := None, pruned := false)
    case Purge => v.(row := None, rows := [])
    case Erase => v.(entry := None, row := None, rows := [], pruned := false)
    case Snap =>
      if v.entry.None? then v else
      v.(entry := Some(MarkCollected(v.entry.value)), snap := Some(TakeSnapshot(v.entry.value, |v.log|)), stage := Waiting)
    case AddRow =>
      if v.snap.None? then v else
      v.(row := Some(v.snap.value.slug), stage := if v.snap.value.events == [] then EventsPut else RowPut)
    case AddEvents =>
      if v.snap.None? then v else
      v.(rows := v.rows + v.snap.value.events, journal := v.journal + v.snap.value.events, stage := EventsPut)
    case Acked =>
      if v.snap.None? then v else
      v.(entry := if Same(v) then Some(AckEntry(v.entry.value, v.snap.value.snapshotLen)) else v.entry,
         snap := None, stage := Waiting)
    case Abort => v.(snap := None, stage := Waiting)
    case Load(events) =>
      v.(entry := if v.row.Some? && v.row.value.expiresAt > now
                  then Some(LoadedEntry(v.row.value, v.gens, events)) else None,
         snap := None, stage := Waiting, pruned := false)
  }

  /** How the shared part may move while an act happens to `id`. */
  predicate SharedMoves(id: Id, v: View, act: Act, max: int, w: View) {
    && v.now <= w.now
    && v.gens <= w.gens
    && (act.Born? || act.Load? ==> v.gens < w.gens)
    && v.log <= w.log
    && (act.Rec? ==> w.log == if v.entry.Some? && !RecordPanics(v.entry.value, max)
                              then v.log + [EventRow(id, act.ev)] else v.log)
    && (!act.Rec? ==> w.log == v.log || (|w.log| == |v.log| + 1 && w.log[|v.log|].slug != id
                                         && w.log[|v.log|].event.no == |v.log|
                                         && w.log[|v.log|].event.at == v.now))
  }

  predicate Moves(id: Id, v: View, act: Act, max: int, w: View) {
    && Possible(id, v, act, max)
    && SharedMoves(id, v, act, max, w)
    && w == Apply(v, act, max, w.now).(now := w.now, gens := w.gens, log := w.log)
  }

  /** The act that a step is for one ID. */
  ghost function ActOf(c: Config, st: State, step: Step, id: Id): Act {
    if Next(c, st, step) == st then Skip else
    match step
    case Tick(_) => Skip
    case Create(i, owner) => if i == id then Born(Slug(id, owner, st.now, st.now + c.ttl)) else Skip
    case Record(i, _, _, _) => if i == id then Rec(NewEvent(st, step)) else Skip
    case Clear(i) => if i == id then Wipe else Skip
    case MemDelete(i) => if i == id && id in st.mem then Forget else Skip
    case DbDelete(i, ok) => if i == id && ok then Purge else Skip
    case Delete(i) => if i == id then Erase else Skip
    case Cleanup => if id in st.mem && st.mem[id].slug.expiresAt < st.now then Forget else Skip
    case Collect => if IsDirty(st, id) then Snap else Skip
    case PutSlug(i, ok) => if !ok then Abort else if i == id then AddRow else Skip
    case PutEvents(ok) => if !ok then Abort else if st.cursor == SlugPut(id) then AddEvents else Skip
    case Ack => if st.cursor == Inserted(id) then Acked else Skip
    case DeleteExpired(before, ok) =>
      if id in st.db.slugs && st.db.slugs[id].expiresAt < before then Purge else Skip
    case Restart(_, _, loaded) => Load(RowsOf(loaded, id))
  }

  /** Snapshots are filed under the ID of their slug, and the cursor names one of them. */
  ghost predicate Filed(st: State) {
    && (st.cursor.Between? || st.cursor.id in st.todo)
    && (st.cursor.SlugPut? ==> st.todo[st.cursor.id].events != [])
    && (forall id :: id in st.mem ==> st.mem[id].slug.id == id)
    && (forall id :: id in st.todo ==> st.todo[id].slug.id == id)
    && (forall id :: id in st.db.slugs ==> st.db.slugs[id].id == id)
    && (forall id :: id in st.mem ==> st.mem[id].gen < st.gens)
    && (forall p :: p in st.pruned ==> p.1 < st.gens)
  }

  lemma FiledKept(c: Config, st: State, step: Step)
    requires Filed(st)
    ensures Filed(Next(c, st, step))
  {
    if step.Collect? || step.PutSlug? || step.PutEvents? || step.Ack? {
      FiledFlush(c, st, step);
    } else if step.Restart? {
      FiledRestart(c, st, step);
    } else {
      FiledOther(c, st, step);
    }
  }

  lemma FiledFlush(c: Config, st: State, step: Step)
    requires Filed(st) && (step.Collect? || step.PutSlug? || step.PutEvents? || step.Ack?)
    ensures Filed(Next(c, st, step))
  {
  }

  lemma FiledRestart(c: Config, st: State, step: Step)
    requires Filed(st) && step.Restart?
    ensures Filed(Next(c, st, step))
  {
  }

  lemma FiledOther(c: Config, st: State, step: Step)
    requires Filed(st) && !(step.Collect? || step.PutSlug? || step.PutEvents? || step.Ack? || step.Restart?)
    ensures Filed(Next(c, st, step))
  {
  }

  lemma LoadedRowsAreStored(st: State, step: Step, id: Id)
    requires step.Restart? && LoadsFrom(st.db, step)
    ensures forall e :: e in RowsOf(step.loaded, id) ==> e in RowsOf(st.db.rows, id)
  {
    forall e | e in RowsOf(step.loaded, id)
      ensures e in RowsOf(st.db.rows, id)
    {
      RowsOfMember(step.loaded, id, e);
      var cut := step.earliest - SECOND;
      assert EventRow(id, e) in multiset(step.loaded);
      assert EventRow(id, e) in Since(st.db.rows, cut);
      SinceMember(st.db.rows, cut, EventRow(id, e));
      RowsOfMember(st.db.rows, id, e);
    }
  }

  lemma StepsMoveMemory(c: Config, st: State, step: Step, id: Id)
    requires Filed(st)
    requires step.Tick? || step.Create? || step.Clear? || step.MemDelete? || step.Cleanup?
    ensures Moves(id, ViewOf(st, id), ActOf(c, st, step, id), c.max, ViewOf(Next(c, st, step), id))
  {
  }

  lemma StepsMoveRecord(c: Config, st: State, step: Step, id: Id)
    requires Filed(st)
    requires step.Record?
    ensures Moves(id, ViewOf(st, id), ActOf(c, st, step, id), c.max, ViewOf(Next(c, st, step), id))
  {
    var st' := Next(c, st, step);
    if step.id in st.mem {
      assert st'.mem[step.id].evictedDuringFlush > st.mem[step.id].evictedDuringFlush || |st'.log| > |st.log|;
      assert st'.log == st.log || st'.log[..|st.log|] == st.log;
    }
  }

  lemma StepsMoveCollect(c: Config, st: State, step: Step, id: Id)
    requires Filed(st)
    requires step.Collect?
    ensures Moves(id, ViewOf(st, id), ActOf(c, st, step, id), c.max, ViewOf(Next(c, st, step), id))
  {
  }

  lemma StepsMoveDbDelete(c: Config, st: State, step: Step, id: Id)
    requires Filed(st)
    requires step.DbDelete?
    ensures Moves(id, ViewOf(st, id), ActOf(c, st, step, id), c.max, ViewOf(Next(c, st, step), id))
  {
    RowsOfWithout(st.db.rows, {step.id}, id);
  }

  lemma StepsMoveDelete(c: Config, st: State, step: Step, id: Id)
    requires Filed(st)
    requires step.Delete?
    ensures Moves(id, ViewOf(st, id), ActOf(c, st, step, id), c.max, ViewOf(Next(c, st, step), id))
  {
    RowsOfWithout(st.db.rows, {step.id}, id);
  }

  lemma StepsMoveExpire(c: Config, st: State, step: Step, id: Id)
    requires Filed(st)
    requires step.DeleteExpired?
    ensures Moves(id, ViewOf(st, id), ActOf(c, st, step, id), c.max, ViewOf(Next(c, st, step), id))
  {
    RowsOfWithout(st.db.rows, ExpiredIds(st.db, step.before), id);
  }

  lemma StepsMovePutSlug(c: Config, st: State, step: Step, id: Id)
    requires Filed(st)
    requires step.PutSlug?
    ensures Moves(id, ViewOf(st, id), ActOf(c, st, step, id), c.max, ViewOf(Next(c, st, step), id))
  {
  }

  lemma StepsMovePutEvents(c: Config, st: State, step: Step, id: Id)
    requires Filed(st)
    requires step.PutEvents?
    ensures Moves(id, ViewOf(st, id), ActOf(c, st, step, id), c.max, ViewOf(Next(c, st, step), id))
  {
    if st.cursor.SlugPut? && st.cursor.id in st.todo {
      RowsOfPut(st.db.rows, st.cursor.id, st.todo[st.cursor.id].events, id);
      RowsOfPut(st.journal, st.cursor.id, st.todo[st.cursor.id].events, id);
    }
  }

  lemma StepsMoveAck(c: Config, st: State, step: Step, id: Id)
    requires Filed(st)
    requires step.Ack?
    ensures Moves(id, ViewOf(st, id), ActOf(c, st, step, id), c.max, ViewOf(Next(c, st, step), id))
  {
  }

  lemma StepsMoveRestart(c: Config, st: State, step: Step, id: Id)
    requires Filed(st)
    requires step.Restart?
    ensures Moves(id, ViewOf(st, id), ActOf(c, st, step, id), c.max, ViewOf(Next(c, st, step), id))
  {
    if LoadsFrom(st.db, step) {
      LoadedRowsAreStored(st, step, id);
    }
  }

  /** Every step of the system is one local act for every ID. */
  lemma StepsMove(c: Config, st: State, step: Step, id: Id)
    requires Filed(st)
    ensures Moves(id, ViewOf(st, id), ActOf(c, st, step, id), c.max, ViewOf(Next(c, st, step), id))
  {
    match step
    case DbDelete(_, _) => StepsMoveDbDelete(c, st, step, id);
    case Delete(_) => StepsMoveDelete(c, st, step, id);
    case DeleteExpired(_, _) => StepsMoveExpire(c, st, step, id);
    case PutSlug(_, _) => StepsMovePutSlug(c, st, step, id);
    case PutEvents(_) => StepsMovePutEvents(c, st, step, id);
    case Ack => StepsMoveAck(c, st, step, id);
    case Restart(_, _, _) => StepsMoveRestart(c, st, step, id);
    case Record(_, _, _, _) => StepsMoveRecord(c, st, step, id);
    case Collect => StepsMoveCollect(c, st, step, id);
    case _ => StepsMoveMemory(c, st, step, id);
  }
}
