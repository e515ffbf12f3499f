/** The registry, the store and the flusher as one state machine.  Each step is one critical
    section of the registry's lock or one store transaction, so a run is an arbitrary
    interleaving of them, with store failures and process restarts anywhere. */
module Protocol {
  import opened Records
  import opened Entries
  import opened Tables

  /** `max_events_per_slug` and `slug_ttl`; neither is validated, so neither is restricted. */
  datatype Config = Config(max: int, ttl: int)

  /** Where the flush loop stands: between two snapshots, after the slug row of one was
      written, or after its events were (or it had none). */
  datatype Cursor = Between | SlugPut(id: Id) | Inserted(id: Id)

  /** `mem` is the registry's map; `todo` holds the snapshots of a running flush that are not
      yet acknowledged (none: no flush runs).  `log` and `journal` are histories: every event
      recorded, and every event row ever committed to the store.  `pruned` names the entries
      from which an event was evicted or cleared. */
  datatype State = State(
    now: int,
    mem: map<Id, Entry>,
    db: Db,
    todo: map<Id, Snapshot>,
    cursor: Cursor,
    gens: nat,
    log: seq<EventRow>,
    journal: seq<EventRow>,
    pruned: set<(Id, nat)>)

  /** The slug of runs that serve as examples. */
  const NAME: Id := "a"

  const Init: State := State(0, map[], Db(map[], []), map[], Between, 0, [], [], {})

  datatype Step =
    | Tick(t: int)
    | Create(id: Id, owner: string)
    | Record(id: Id, kind: string, sourceIP: string, data: string)
    | Clear(id: Id)
    | MemDelete(id: Id)                 // first half of an HTTP delete
    | DbDelete(id: Id, ok: bool)        // second half of an HTTP delete
    | Delete(id: Id)                    // both halves, undisturbed
    | Cleanup
    | Collect                           // a flush begins
    | PutSlug(id: Id, ok: bool)
    | PutEvents(ok: bool)
    | Ack
    | DeleteExpired(before: int, ok: bool)
    | Restart(t: int, earliest: int, loaded: seq<EventRow>)

  /** A flush stops at its first store error. */
  function AbortFlush(st: State): State {
    st.(todo := map[], cursor := Between)
  }

  function NewEvent(st: State, step: Step): Event
    requires step.Record?
  {
    Event(|st.log|, step.kind, step.sourceIP, st.now, step.data)
  }

  function RecordStep(c: Config, st: State, id: Id, ev: Event): State
    requires id in st.mem
  {
    var e := st.mem[id];
    var e' := RecordEntry(e, ev, c.max);
    if RecordPanics(e, c.max) then
      st.(mem := st.mem[id := e'])
    else
      st.(mem := st.mem[id := e'],
          log := st.log + [EventRow(id, ev)],
          pruned := if |e.events| >= c.max then st.pruned + {(id, e.gen)} else st.pruned)
  }

  predicate IsDirty(st: State, id: Id) {
    id in st.mem && st.mem[id].dirty
  }

  /** Snapshots of all dirty entries, taken in one critical section; a flush runs only when
      no other does. */
  function CollectStep(st: State): State {
    if st.todo != map[] then st else
    st.(mem := Collected(st.mem), todo := Snapshots(st.mem, |st.log|), cursor := Between)
  }

  /** The entry that a snapshot was taken from is still the registered one. */
  predicate Registered(st: State, s: Snapshot) {
    s.slug.id in st.mem && st.mem[s.slug.id].gen == s.gen
  }

  function PutSlugStep(st: State, id: Id, ok: bool): State {
    if st.cursor != Between || id !in st.todo then st
    else if !ok then AbortFlush(st)
    else
      st.(db := InsertSlug(st.db, st.todo[id].slug),
          cursor := if st.todo[id].events == [] then Inserted(id) else SlugPut(id))
  }

  function PutEventsStep(st: State, ok: bool): State {
    if !st.cursor.SlugPut? || st.cursor.id !in st.todo then st
    else if !ok then AbortFlush(st)
    else
      var rows := RowsFor(st.cursor.id, st.todo[st.cursor.id].events);
      st.(db := InsertEvents(st.db, rows), journal := st.journal + rows, cursor := Inserted(st.cursor.id))
  }

  /** Acknowledging writes to the entry the snapshot was taken from: when the entry is no longer
      registered, nothing that anyone can reach changes. */
  function AckStep(st: State): State {
    if !st.cursor.Inserted? || st.cursor.id !in st.todo then st else
    var id := st.cursor.id;
    var s := st.todo[id];
    st.(mem := if Registered(st, s)
               then st.mem[s.slug.id := AckEntry(st.mem[s.slug.id], s.snapshotLen)] else st.mem,
        todo := st.todo - {id},
        cursor := Between)
  }

  ghost predicate LoadsFrom(db: Db, step: Step)
    requires step.Restart?
  {
    && IsEarliest(LoadSlugs(db, step.t), step.t, step.earliest)
    && multiset(step.loaded) == multiset(Since(db.rows, step.earliest - SECOND))
  }

  function LoadedMem(db: Db, t: int, loaded: seq<EventRow>, gen: nat): map<Id, Entry> {
    map id | id in LoadSlugs(db, t) :: LoadedEntry(db.slugs[id], gen, RowsOf(loaded, id))
  }

  function RestartStep(st: State, t: int, loaded: seq<EventRow>): State {
    st.(now := t, mem := LoadedMem(st.db, t, loaded, st.gens), todo := map[], cursor := Between, gens := st.gens + 1)
  }

  /** One step; a step that is not possible in `st` leaves it as it is. */
  ghost function Next(c: Config, st: State, step: Step): State {
    match step
    case Tick(t) => if t < st.now then st else st.(now := t)
    case Create(id, owner) =>
      if id in st.mem then st else
      st.(mem := st.mem[id := NewEntry(Slug(id, owner, st.now, st.now + c.ttl), st.gens)], gens := st.gens + 1)
    case Record(id, _, _, _) => if id !in st.mem then st else RecordStep(c, st, id, NewEvent(st, step))
    case Clear(id) =>
      if id !in st.mem then st else
      st.(mem := st.mem[id := ClearEntry(st.mem[id])], pruned := st.pruned + {(id, st.mem[id].gen)})
    case MemDelete(id) => st.(mem := st.mem - {id})
    case DbDelete(id, ok) => if ok then st.(db := DeleteIds(st.db, {id})) else st
    case Delete(id) => st.(mem := st.mem - {id}, db := DeleteIds(st.db, {id}))
    case Cleanup => st.(mem := CleanedUp(st.mem, st.now))
    case Collect => CollectStep(st)
    case PutSlug(id, ok) => PutSlugStep(st, id, ok)
    case PutEvents(ok) => PutEventsStep(st, ok)
    case Ack => AckStep(st)
    case DeleteExpired(before, ok) =>
      if !ok || before > st.now then st else st.(db := DeleteIds(st.db, ExpiredIds(st.db, before)))
    case Restart(t, _, loaded) =>
      if t < st.now || !LoadsFrom(st.db, step) then st else RestartStep(st, t, loaded)
  }

  /** What a run keeps to.  `AnyRun` keeps to nothing.  `NoClearMidFlush` never clears a slug
      whose snapshot is being flushed.  `Orderly` also runs HTTP deletes to completion, deletes
      and purges no slug whose snapshot is being flushed, and reads event rows back in insertion
      order.  `FreshNames` also never reuses an ID that the store still knows. */
  datatype Discipline = AnyRun | NoClearMidFlush | Orderly | FreshNames

  predicate AtLeast(d: Discipline, e: Discipline) {
    match e
    case AnyRun => true
    case NoClearMidFlush => !d.AnyRun?
    case Orderly => d.Orderly? || d.FreshNames?
    case FreshNames => d.FreshNames?
  }

  ghost predicate Allowed(d: Discipline, st: State, step: Step) {
    && (AtLeast(d, NoClearMidFlush) && step.Clear? ==> step.id !in st.todo)
    && (AtLeast(d, Orderly) ==>
          && !step.MemDelete? && !step.DbDelete?
          && (step.Delete? ==> step.id !in st.todo)
          && (step.DeleteExpired? && step.ok ==> forall id :: id in ExpiredIds(st.db, step.before) ==> id !in st.todo)
          && (step.Restart? ==> step.loaded == Since(st.db.rows, step.earliest - SECOND)))
    && (AtLeast(d, FreshNames) && step.Create? ==> step.id !in st.db.slugs && step.id !in st.todo)
  }

  ghost predicate Keeps(d: Discipline, c: Config, st: State, steps: seq<Step>)
    decreases |steps|
  {
    steps == [] || (Allowed(d, st, steps[0]) && Keeps(d, c, Next(c, st, steps[0]), steps[1..]))
  }

  ghost function Run(c: Config, st: State, steps: seq<Step>): State
    decreases |steps|
  {
    if steps == [] then st else Run(c, Next(c, st, steps[0]), steps[1..])
  }

  lemma {:induction false} RunOn(c: Config, st: State, a: seq<Step>, b: seq<Step>)
    ensures Run(c, st, a + b) == Run(c, Run(c, st, a), b)
    decreases |a|
  {
    if a == [] {
      assert a + b == b;
    } else {
      RunOn(c, Next(c, st, a[0]), a[1..], b);
      assert (a + b)[0] == a[0] && (a + b)[1..] == a[1..] + b;
    }
  }

  lemma RunOne(c: Config, st: State, step: Step)
    ensures Run(c, st, [step]) == Next(c, st, step)
  {
    assert [step][1..] == [];
  }
}
