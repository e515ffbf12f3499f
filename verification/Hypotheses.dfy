/** Runs from an empty system that show what the hypotheses of the other modules are for: a clear
    in mid-flush, a delete in mid-flush, and a second flush before the first is done. */
module Hypotheses {
  import opened Records
  import opened Entries
  import opened Tables
  import opened Protocol
  import opened Views
  import opened ExactlyOnce
  import opened Conservation
  import opened Agreement
  import opened EntryRuns
  import opened Losses
  import opened DeleteRaces

  const RECORD: Step := Record(NAME, "dns", "", "")

  function Captured(n: nat): Event {
    Event(n, "dns", "", 0, "")
  }

  function Rows(ns: seq<nat>): seq<EventRow> {
    seq(|ns|, i requires 0 <= i < |ns| => EventRow(NAME, Captured(ns[i])))
  }

  // A run of one slug, a step at a time: its entry if it has one, its snapshot if it is in
  // flight, and where the flush stands.

  ghost predicate At(st: State, entry: Option<Entry>, snap: Option<Snapshot>, cursor: Cursor) {
    && st.cursor == cursor
    && st.mem == (if entry.Some? then map[NAME := entry.value] else map[])
    && st.todo == (if snap.Some? then map[NAME := snap.value] else map[])
    && (entry.Some? ==> entry.value.slug.id == NAME && entry.value.gen < st.gens)
    && (snap.Some? ==> snap.value.slug.id == NAME)
  }

  ghost predicate Follows(c: Config, steps: seq<Step>, st: State, step: Step, steps': seq<Step>, st': State) {
    steps' == steps + [step] && st' == Next(c, st, step) && st' == Run(c, Init, steps')
  }

  lemma Extend(c: Config, steps: seq<Step>, st: State, step: Step) returns (steps': seq<Step>, st': State)
    requires st == Run(c, Init, steps)
    ensures Follows(c, steps, st, step, steps', st')
  {
    steps', st' := steps + [step], Next(c, st, step);
    RunOn(c, Init, steps, [step]);
    RunOne(c, st, step);
  }

  function Fresh(c: Config): Entry {
    NewEntry(Slug(NAME, "", 0, c.ttl), 0)
  }

  function With(e: Entry, ev: Event): Entry {
    e.(events := e.events + [ev], dirty := true)
  }

  lemma Begin(c: Config) returns (steps: seq<Step>, st: State)
    ensures steps == [Create(NAME, "")] && st == Run(c, Init, steps)
    ensures At(st, Some(Fresh(c)), None, Between) && st.now == 0 && st.log == [] && st.journal == [] && st.db == Db(map[], [])
  {
    steps, st := Extend(c, [], Init, Create(NAME, ""));
  }

  lemma Recorded(c: Config, steps: seq<Step>, st: State, e: Entry, snap: Option<Snapshot>, cursor: Cursor)
    returns (steps': seq<Step>, st': State)
    requires st == Run(c, Init, steps) && At(st, Some(e), snap, cursor) && |e.events| < c.max
    ensures steps' == steps + [RECORD] && st' == Run(c, Init, steps')
    ensures At(st', Some(With(e, NewEvent(st, RECORD))), snap, cursor)
    ensures st'.log == st.log + [EventRow(NAME, NewEvent(st, RECORD))] && st'.journal == st.journal && st'.db == st.db && st'.now == st.now
  {
    steps', st' := Extend(c, steps, st, RECORD);
  }

  lemma Wiped(c: Config, steps: seq<Step>, st: State, e: Entry, snap: Option<Snapshot>, cursor: Cursor)
    returns (steps': seq<Step>, st': State)
    requires st == Run(c, Init, steps) && At(st, Some(e), snap, cursor)
    ensures steps' == steps + [Step.Clear(NAME)] && st' == Run(c, Init, steps')
    ensures At(st', Some(ClearEntry(e)), snap, cursor)
    ensures st'.now == st.now && st'.log == st.log && st'.journal == st.journal && st'.db == st.db
  {
    steps', st' := Extend(c, steps, st, Step.Clear(NAME));
  }

  lemma Gathered(c: Config, steps: seq<Step>, st: State, e: Entry) returns (steps': seq<Step>, st': State)
    requires st == Run(c, Init, steps) && At(st, Some(e), None, Between) && e.dirty
    ensures steps' == steps + [Collect] && st' == Run(c, Init, steps')
    ensures At(st', Some(MarkCollected(e)), Some(TakeSnapshot(e, |st.log|)), Between)
    ensures st'.now == st.now && st'.log == st.log && st'.journal == st.journal && st'.db == st.db
  {
    steps', st' := Extend(c, steps, st, Collect);
    assert st'.mem == map[NAME := MarkCollected(e)] && st'.todo == map[NAME := TakeSnapshot(e, |st.log|)];
  }

  lemma Listed(c: Config, steps: seq<Step>, st: State, entry: Option<Entry>, s: Snapshot)
    returns (steps': seq<Step>, st': State)
    requires st == Run(c, Init, steps) && At(st, entry, Some(s), Between)
    ensures steps' == steps + [PutSlug(NAME, true)] && st' == Run(c, Init, steps')
    ensures At(st', entry, Some(s), if s.events == [] then Inserted(NAME) else SlugPut(NAME))
    ensures st'.now == st.now && st'.log == st.log && st'.journal == st.journal && st'.db == InsertSlug(st.db, s.slug)
  {
    steps', st' := Extend(c, steps, st, PutSlug(NAME, true));
  }

  lemma Written(c: Config, steps: seq<Step>, st: State, entry: Option<Entry>, s: Snapshot)
    returns (steps': seq<Step>, st': State)
    requires st == Run(c, Init, steps) && At(st, entry, Some(s), SlugPut(NAME))
    ensures steps' == steps + [PutEvents(true)] && st' == Run(c, Init, steps')
    ensures At(st', entry, Some(s), Inserted(NAME))
    ensures st'.now == st.now && st'.log == st.log && st'.journal == st.journal + RowsFor(NAME, s.events)
    ensures st'.db == InsertEvents(st.db, RowsFor(NAME, s.events))
  {
    steps', st' := Extend(c, steps, st, PutEvents(true));
  }

  lemma Noted(c: Config, steps: seq<Step>, st: State, entry: Option<Entry>, s: Snapshot)
    returns (steps': seq<Step>, st': State)
    requires st == Run(c, Init, steps) && At(st, entry, Some(s), Inserted(NAME))
    requires entry.Some? ==> entry.value.gen == s.gen
    ensures steps' == steps + [Ack] && st' == Run(c, Init, steps')
    ensures At(st', if entry.Some? then Some(AckEntry(entry.value, s.snapshotLen)) else None, None, Between)
    ensures st'.now == st.now && st'.log == st.log && st'.journal == st.journal && st'.db == st.db
  {
    steps', st' := Extend(c, steps, st, Ack);
    assert st'.todo == map[];
  }

  lemma Deleted(c: Config, steps: seq<Step>, st: State, e: Entry, s: Snapshot, cursor: Cursor)
    returns (steps': seq<Step>, st': State)
    requires st == Run(c, Init, steps) && At(st, Some(e), Some(s), cursor) && st.db.rows == [] && st.db.slugs.Keys <= {NAME}
    ensures steps' == steps + [Delete(NAME)] && st' == Run(c, Init, steps')
    ensures At(st', None, Some(s), cursor)
    ensures st'.now == st.now && st'.log == st.log && st'.journal == st.journal && st'.db == Db(map[], [])
  {
    steps', st' := Extend(c, steps, st, Delete(NAME));
    assert st'.mem == map[] && st'.db.slugs == map[];
  }

  lemma Forgotten(c: Config, steps: seq<Step>, st: State, e: Entry, snap: Option<Snapshot>, cursor: Cursor, step: Step)
    returns (steps': seq<Step>, st': State)
    requires st == Run(c, Init, steps) && At(st, Some(e), snap, cursor) && step == MemDelete(NAME)
    ensures steps' == steps + [step] && st' == Run(c, Init, steps')
    ensures At(st', None, snap, cursor)
    ensures st'.now == st.now && st'.log == st.log && st'.journal == st.journal && st'.db == st.db
  {
    steps', st' := Extend(c, steps, st, step);
    assert st'.mem == map[];
  }

  lemma Erased(c: Config, steps: seq<Step>, st: State, s: Snapshot, cursor: Cursor)
    returns (steps': seq<Step>, st': State)
    requires st == Run(c, Init, steps) && At(st, None, Some(s), cursor) && st.db.rows == [] && st.db.slugs.Keys <= {NAME}
    ensures steps' == steps + [DbDelete(NAME, true)] && st' == Run(c, Init, steps')
    ensures At(st', None, Some(s), cursor)
    ensures st'.now == st.now && st'.log == st.log && st'.journal == st.journal && st'.db == Db(map[], [])
  {
    steps', st' := Extend(c, steps, st, DbDelete(NAME, true));
    assert st'.db.slugs == map[];
  }

  lemma Created(c: Config, steps: seq<Step>, st: State, owner: string) returns (steps': seq<Step>, st': State)
    requires st == Run(c, Init, steps) && At(st, None, None, Between)
    ensures steps' == steps + [Create(NAME, owner)] && st' == Run(c, Init, steps')
    ensures At(st', Some(NewEntry(Slug(NAME, owner, st.now, st.now + c.ttl), st.gens)), None, Between)
    ensures st'.now == st.now && st'.log == st.log && st'.journal == st.journal && st'.db == st.db
  {
    steps', st' := Extend(c, steps, st, Create(NAME, owner));
  }

  lemma Ticked(c: Config, steps: seq<Step>, st: State, entry: Option<Entry>, t: int) returns (steps': seq<Step>, st': State)
    requires st == Run(c, Init, steps) && At(st, entry, None, Between) && st.now <= t
    ensures steps' == steps + [Tick(t)] && st' == Run(c, Init, steps')
    ensures At(st', entry, None, Between)
    ensures st'.now == t && st'.log == st.log && st'.journal == st.journal && st'.db == st.db
  {
    steps', st' := Extend(c, steps, st, Tick(t));
  }

  lemma Swept(c: Config, steps: seq<Step>, st: State, e: Entry) returns (steps': seq<Step>, st': State)
    requires st == Run(c, Init, steps) && At(st, Some(e), None, Between) && e.slug.expiresAt < st.now
    ensures steps' == steps + [Step.Cleanup] && st' == Run(c, Init, steps')
    ensures At(st', None, None, Between)
    ensures st'.now == st.now && st'.log == st.log && st'.journal == st.journal && st'.db == st.db
  {
    steps', st' := Extend(c, steps, st, Step.Cleanup);
    assert st'.mem == map[];
  }

  // ---- A clear in mid-flush ----

  /** A flush is acknowledged after a clear; of the two events recorded since, the first is passed
      over by the next collection and the second comes after it. */
  const CLEARED: seq<Step> := [
    Create(NAME, ""), RECORD, RECORD, Collect, PutSlug(NAME, true), PutEvents(true), Step.Clear(NAME), Ack,
    RECORD, Collect, RECORD, PutSlug(NAME, true), Ack,
    Collect, PutSlug(NAME, true), PutEvents(true), Ack]

  lemma ClearedGathers(c: Config) returns (st: State, e: Entry, s: Snapshot)
    requires c.max >= 2
    ensures st.now == 0 && st == Run(c, Init, CLEARED[..4]) && At(st, Some(e), Some(s), Between)
    ensures s.events == [Captured(0), Captured(1)] && s.snapshotLen == 2 && s.gen == e.gen && e.evictedDuringFlush == 0
    ensures st.log == Rows([0, 1]) && st.journal == []
  {
    var steps;
    steps, st := Begin(c);
    e := Fresh(c);
    steps, st := Recorded(c, steps, st, e, None, Between);
    e := With(e, Captured(0));
    steps, st := Recorded(c, steps, st, e, None, Between);
    e := With(e, Captured(1));
    assert e.events == [Captured(0), Captured(1)];
    s := TakeSnapshot(e, |st.log|);
    assert s.events == e.events;
    steps, st := Gathered(c, steps, st, e);
    e := MarkCollected(e);
    assert steps == CLEARED[..4];
  }

  lemma ClearedFirst(c: Config) returns (st: State, e: Entry)
    requires c.max >= 2
    ensures st.now == 0 && st == Run(c, Init, CLEARED[..8]) && At(st, Some(e), None, Between)
    ensures e.events == [] && e.flushedCount == 2 && !e.dirty
    ensures st.log == st.journal == Rows([0, 1])
  {
    var s;
    st, e, s := ClearedGathers(c);
    var steps := CLEARED[..4];
    steps, st := Listed(c, steps, st, Some(e), s);
    steps, st := Written(c, steps, st, Some(e), s);
    steps, st := Wiped(c, steps, st, e, Some(s), Inserted(NAME));
    e := ClearEntry(e);
    steps, st := Noted(c, steps, st, Some(e), s);
    e := AckEntry(e, s.snapshotLen);
    assert steps == CLEARED[..8];
  }

  lemma ClearedNext(c: Config) returns (st: State, e: Entry)
    requires c.max >= 2
    ensures st.now == 0 && st == Run(c, Init, CLEARED[..13]) && At(st, Some(e), None, Between)
    ensures e.events == [Captured(2), Captured(3)] && e.flushedCount == 1 && e.dirty
    ensures st.log == Rows([0, 1, 2, 3]) && st.journal == Rows([0, 1])
  {
    st, e := ClearedFirst(c);
    var steps := CLEARED[..8];
    steps, st := Recorded(c, steps, st, e, None, Between);
    e := With(e, Captured(2));
    var s := TakeSnapshot(e, |st.log|);
    steps, st := Gathered(c, steps, st, e);
    e := MarkCollected(e);
    steps, st := Recorded(c, steps, st, e, Some(s), Between);
    e := With(e, Captured(3));
    assert e.events == [Captured(2), Captured(3)];
    steps, st := Listed(c, steps, st, Some(e), s);
    steps, st := Noted(c, steps, st, Some(e), s);
    e := AckEntry(e, s.snapshotLen);
    assert steps == CLEARED[..13];
  }

  lemma ClearedLast(c: Config) returns (st: State, e: Entry)
    requires c.max >= 2
    ensures st == Run(c, Init, CLEARED) && At(st, Some(e), None, Between)
    ensures e.events == [Captured(2), Captured(3)] && e.flushedCount == 2 && !e.dirty
    ensures st.journal == Rows([0, 1, 3])
  {
    st, e := ClearedNext(c);
    var steps := CLEARED[..13];
    var s := TakeSnapshot(e, |st.log|);
    assert s.events == [Captured(3)];
    steps, st := Gathered(c, steps, st, e);
    e := MarkCollected(e);
    steps, st := Listed(c, steps, st, Some(e), s);
    steps, st := Written(c, steps, st, Some(e), s);
    steps, st := Noted(c, steps, st, Some(e), s);
    e := AckEntry(e, s.snapshotLen);
    assert steps == CLEARED;
  }

  /** Why a clear must not fall into a flush.  At the end of this run, in which nothing fails, the
      entry is live, clean and between flushes; the second of the two events recorded since the
      clear is stored, the first is not, and no continuation ever writes it. */
  lemma ClearLosesAnEvent(c: Config, more: seq<Step>)
    requires c.max >= 2
    ensures
      var st := Run(c, Init, CLEARED);
      && st.todo == map[] && NAME in st.mem && !st.mem[NAME].dirty
      && st.mem[NAME].events == [Captured(2), Captured(3)]
      && EventRow(NAME, Captured(3)) in st.journal
      && EventRow(NAME, Captured(2)) !in Run(c, st, more).journal
  {
    var st, e := ClearedLast(c);
    assert st.journal[2] == EventRow(NAME, Captured(3));
    assert EventRow(NAME, Captured(2)) !in st.journal;
    assert Reach(ViewOf(st, NAME)) == 2;
    LostExactly(c, CLEARED, st, NAME, Captured(2));
  }

  // ---- A delete in mid-flush ----

  /** A slug is deleted after it was collected and before its row is written. */
  const REVIVED: seq<Step> := [Create(NAME, ""), Collect, Delete(NAME), PutSlug(NAME, true), Ack]

  /** Why a delete must not fall into a flush: a run in which nothing fails, after which a restart
      brings the deleted slug back. */
  lemma DeletedSlugRevives(c: Config)
    requires c.ttl > 0
    ensures
      var st, step := Run(c, Init, REVIVED), Restart(0, 0, []);
      && NAME !in st.mem && st.todo == map[]
      && LoadsFrom(st.db, step) && NAME in Next(c, st, step).mem
  {
    var steps, st := Begin(c);
    var e := Fresh(c);
    var s := TakeSnapshot(e, 0);
    assert s.events == [];
    steps, st := Gathered(c, steps, st, e);
    steps, st := Deleted(c, steps, st, MarkCollected(e), s, Between);
    steps, st := Listed(c, steps, st, None, s);
    steps, st := Noted(c, steps, st, None, s);
    assert steps == REVIVED;
    assert LoadSlugs(st.db, 0) == map[NAME := e.slug];
  }

  /** A slug is deleted between the writing of its row and of its events. */
  const ORPHANED: seq<Step> := [
    Create(NAME, ""), RECORD, Collect, PutSlug(NAME, true), Delete(NAME), PutEvents(true), Ack]

  /** The other way for the store to end up wrong: event rows that belong to no slug. */
  lemma DeleteCanOrphanRows(c: Config)
    requires c.max >= 1
    ensures
      var st := Run(c, Init, ORPHANED);
      NAME !in st.mem && st.todo == map[] && NAME !in st.db.slugs && st.db.rows == Rows([0])
  {
    var steps, st := Begin(c);
    var e := Fresh(c);
    steps, st := Recorded(c, steps, st, e, None, Between);
    e := With(e, Captured(0));
    var s := TakeSnapshot(e, |st.log|);
    assert s.events == [Captured(0)];
    steps, st := Gathered(c, steps, st, e);
    steps, st := Listed(c, steps, st, Some(MarkCollected(e)), s);
    steps, st := Deleted(c, steps, st, MarkCollected(e), s, SlugPut(NAME));
    steps, st := Written(c, steps, st, None, s);
    steps, st := Noted(c, steps, st, None, s);
    assert steps == ORPHANED;
  }

  /** The halves of a delete, with the writing of the slug's row between them. */
  const HALVED: seq<Step> := [
    Create(NAME, ""), RECORD, Collect, MemDelete(NAME), PutSlug(NAME, true), DbDelete(NAME, true), PutEvents(true), Ack]

  lemma HalvedFirst(c: Config) returns (st: State, s: Snapshot)
    requires c.max >= 1
    ensures st == Run(c, Init, HALVED[..4]) && At(st, None, Some(s), Between)
    ensures s.events == [Captured(0)] && st.db == Db(map[], [])
  {
    var steps;
    steps, st := Begin(c);
    var e := Fresh(c);
    steps, st := Recorded(c, steps, st, e, None, Between);
    e := With(e, Captured(0));
    s := TakeSnapshot(e, |st.log|);
    assert s.events == [Captured(0)];
    steps, st := Gathered(c, steps, st, e);
    steps, st := Forgotten(c, steps, st, MarkCollected(e), Some(s), Between, MemDelete(NAME));
    assert steps == HALVED[..4];
  }

  /** It is the store's half that must not fall into a flush, wherever the registry's half came. */
  lemma HalvesCanOrphanRows(c: Config)
    requires c.max >= 1
    ensures
      var st := Run(c, Init, HALVED);
      && NAME !in st.mem && st.todo == map[] && NAME !in st.db.slugs && st.db.rows == Rows([0])
      && !SlugAgrees(st, NAME)
  {
    var st, s := HalvedFirst(c);
    var steps := HALVED[..4];
    steps, st := Listed(c, steps, st, None, s);
    steps, st := Erased(c, steps, st, s, SlugPut(NAME));
    steps, st := Written(c, steps, st, None, s);
    steps, st := Noted(c, steps, st, None, s);
    assert steps == HALVED;
    OrphansDisagree(st);
  }

  lemma OrphansDisagree(st: State)
    requires NAME !in st.db.slugs && st.db.rows == Rows([0])
    ensures !SlugAgrees(st, NAME)
  {
    assert RowsOf(st.db.rows, NAME)[0] == Captured(0);
  }

  // ---- An ID that the store still knows ----

  /** A slug records an event at its very end and expires; before the store is purged, its ID is
      drawn again. */
  function Reused(c: Config): seq<Step> {
    [Create(NAME, "old"), Tick(c.ttl), RECORD, Collect, PutSlug(NAME, true), PutEvents(true), Ack,
     Tick(c.ttl + 1), Step.Cleanup, Create(NAME, "new"), Collect, PutSlug(NAME, true), Ack]
  }

  lemma ReusedFirst(c: Config) returns (steps: seq<Step>, st: State, e: Entry)
    requires c.ttl > 0 && c.max >= 1
    ensures steps == Reused(c)[..7] && st == Run(c, Init, steps) && At(st, Some(e), None, Between)
    ensures e.slug == Slug(NAME, "old", 0, c.ttl) && st.now == c.ttl
    ensures st.db == Db(map[NAME := e.slug], [EventRow(NAME, Event(0, "dns", "", c.ttl, ""))])
  {
    assert At(Init, None, None, Between);
    steps, st := Created(c, [], Init, "old");
    e := NewEntry(Slug(NAME, "old", 0, c.ttl), Init.gens);
    steps, st := Ticked(c, steps, st, Some(e), c.ttl);
    var ev := NewEvent(st, RECORD);
    steps, st := Recorded(c, steps, st, e, None, Between);
    e := With(e, ev);
    var s := TakeSnapshot(e, |st.log|);
    assert s.events == [ev];
    steps, st := Gathered(c, steps, st, e);
    e := MarkCollected(e);
    steps, st := Listed(c, steps, st, Some(e), s);
    steps, st := Written(c, steps, st, Some(e), s);
    steps, st := Noted(c, steps, st, Some(e), s);
    e := AckEntry(e, s.snapshotLen);
    assert st.db.rows == [EventRow(NAME, ev)];
    assert steps == Reused(c)[..7];
  }

  lemma ReusedAll(c: Config) returns (st: State, e: Entry)
    requires c.ttl > 0 && c.max >= 1
    ensures st == Run(c, Init, Reused(c)) && At(st, Some(e), None, Between)
    ensures e.slug == Slug(NAME, "new", c.ttl + 1, c.ttl + 1 + c.ttl) && e.events == [] && !e.dirty && st.now == c.ttl + 1
    ensures st.db == Db(map[NAME := e.slug], [EventRow(NAME, Event(0, "dns", "", c.ttl, ""))])
  {
    var steps;
    steps, st, e := ReusedFirst(c);
    steps, st := Ticked(c, steps, st, Some(e), c.ttl + 1);
    steps, st := Swept(c, steps, st, e);
    var gen := st.gens;
    steps, st := Created(c, steps, st, "new");
    e := NewEntry(Slug(NAME, "new", c.ttl + 1, c.ttl + 1 + c.ttl), gen);
    var s := TakeSnapshot(e, |st.log|);
    assert s.events == [];
    steps, st := Gathered(c, steps, st, e);
    e := MarkCollected(e);
    steps, st := Listed(c, steps, st, Some(e), s);
    steps, st := Noted(c, steps, st, Some(e), s);
    e := AckEntry(e, s.snapshotLen);
    assert steps == Reused(c);
  }

  /** Steps that every discipline allows, but for the drawing of IDs. */
  predicate Harmless(step: Step) {
    step.Tick? || step.Create? || step.Record? || step.Cleanup? || step.Collect? || step.PutSlug? || step.PutEvents? || step.Ack?
  }

  lemma {:induction false} HarmlessKeeps(c: Config, st: State, steps: seq<Step>)
    requires forall i :: 0 <= i < |steps| ==> Harmless(steps[i])
    ensures Keeps(Orderly, c, st, steps)
    decreases |steps|
  {
    if steps != [] {
      assert Harmless(steps[0]);
      HarmlessKeeps(c, Next(c, st, steps[0]), steps[1..]);
    }
  }

  /** Why an ID must not be drawn that the store still knows: an orderly run in which nothing fails
      and a restart between flushes, after which a slug that has recorded nothing holds an event of
      the earlier slug of its ID. */
  lemma ReusedNameInherits(c: Config)
    requires c.ttl > 0 && c.max >= 1
    ensures Keeps(Orderly, c, Init, Reused(c))
    ensures
      var st := Run(c, Init, Reused(c));
      var step := Restart(c.ttl + 1, c.ttl + 1, st.db.rows);
      && st.todo == map[] && NAME in st.mem && st.mem[NAME].events == [] && st.mem[NAME].slug.owner == "new"
      && st.now <= step.t && LoadsFrom(st.db, step) && Allowed(Orderly, st, step)
      && NAME in Next(c, st, step).mem
      && Next(c, st, step).mem[NAME].slug == st.mem[NAME].slug
      && Next(c, st, step).mem[NAME].events == [Event(0, "dns", "", c.ttl, "")]
  {
    HarmlessKeeps(c, Init, Reused(c));
    var st, e := ReusedAll(c);
    var step := Restart(c.ttl + 1, c.ttl + 1, st.db.rows);
    assert LoadSlugs(st.db, step.t) == map[NAME := e.slug];
    assert Since(st.db.rows, c.ttl + 1 - SECOND) == st.db.rows;
    assert RowsOf(st.db.rows, NAME) == [Event(0, "dns", "", c.ttl, "")];
  }

  // ---- A second flush before the first is done ----

  /** In orderly runs, what a collection leaves of a dirty entry is what `OverlapRepeats` and
      `AckPreciseUnlessCleared` speak of. */
  lemma CollectedIsJustCollected(c: Config, steps: seq<Step>, st: State, id: Id)
    requires ReachedOrderly(c, steps, st) && st.todo == map[] && id in st.mem && st.mem[id].dirty
    ensures JustCollected(Next(c, st, Collect).mem[id], |st.log|, c.max)
  {
    ReachedKnown(c, steps, st, id);
    KnownJustCollected(id, ViewOf(st, id), c.max);
  }

  lemma KnownJustCollected(id: Id, v: View, max: int)
    requires Known(id, v, max) && v.snap.None? && v.entry.Some? && v.entry.value.dirty
    ensures JustCollected(MarkCollected(v.entry.value), |v.log|, max)
  {
    KnownInRange(id, v, max);
  }

  /** So the exact condition holds of every dirty entry of every orderly run. */
  lemma OverlapOfReached(c: Config, steps: seq<Step>, st: State, id: Id, e: Entry, ops: seq<Op>, bound: nat)
    requires ReachedOrderly(c, steps, st) && st.todo == map[] && id in st.mem && st.mem[id].dirty
    requires e == Next(c, st, Collect).mem[id] && MidFlush(ops, |st.log|) && |st.log| <= bound
    requires forall i :: 0 <= i < |ops| && ops[i].OpRecord? ==> ops[i].ev.no < bound
    ensures NoRepeats(OverlapRows(e, DoAll(e, ops, c.max), |st.log|, bound)) <==>
              !NoClear(ops) || Pending(e) == [] || TurnsOver(|e.events|, ops, c.max) >= |e.events|
  {
    CollectedIsJustCollected(c, steps, st, id);
    OverlapRepeats(e, ops, |st.log|, bound, c.max);
  }

  /** One recorded event, collected. */
  const GATHERED: seq<Step> := [Create(NAME, ""), RECORD, Collect]

  /** Why flushes must not overlap: one recorded event, collected twice, is written twice. */
  lemma OverlapWritesTwice(c: Config)
    requires c.max >= 1
    ensures NAME in Run(c, Init, GATHERED).mem
    ensures
      var e := Run(c, Init, GATHERED).mem[NAME];
      JustCollected(e, 1, c.max) && OverlapRows(e, e, 1, 1) == Rows([0, 0])
  {
    var steps, st := Begin(c);
    var e := Fresh(c);
    steps, st := Recorded(c, steps, st, e, None, Between);
    e := With(e, Captured(0));
    steps, st := Gathered(c, steps, st, e);
    assert steps == GATHERED;
    assert Pending(e) == [Captured(0)];
  }
}
