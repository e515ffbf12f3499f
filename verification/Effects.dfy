/** What the removing steps of the registry and store machine remove, and that a flush which
    nothing else interrupts is one of its runs. */
module Effects {
  import opened Records
  import opened Entries
  import opened Tables
  import opened Protocol
  import opened Views
  import opened Losses
  import opened Registry

  // ---- Removals ----

  ghost predicate StoreLacks(db: Db, id: Id) {
    id !in db.slugs && RowsOf(db.rows, id) == []
  }

  ghost predicate StoreKeeps(db: Db, db': Db, id: Id) {
    && (id in db.slugs <==> id in db'.slugs)
    && (id in db.slugs ==> db'.slugs[id] == db.slugs[id])
    && RowsOf(db'.rows, id) == RowsOf(db.rows, id)
  }

  /** The store's delete takes the slug and its rows and nothing else. */
  lemma DeletedFromStore(db: Db, ids: set<Id>, id: Id)
    ensures if id in ids then StoreLacks(DeleteIds(db, ids), id) else StoreKeeps(db, DeleteIds(db, ids), id)
  {
    RowsOfWithout(db.rows, ids, id);
  }

  /** A delete removes its slug: one half from memory, the other from the store, and every other
      slug stays in both as it is; the store's half does nothing when the store fails. */
  lemma DeletesRemove(c: Config, st: State, id: Id, other: Id)
    ensures
      var half, whole := Next(c, st, MemDelete(id)), Next(c, st, Delete(id));
      && half.mem == whole.mem && half.db == st.db && Next(c, st, DbDelete(id, false)) == st
      && Next(c, st, DbDelete(id, true)).db == whole.db && Next(c, st, DbDelete(id, true)).mem == st.mem
      && id !in whole.mem && StoreLacks(whole.db, id)
      && (other != id ==>
            && (other in st.mem <==> other in whole.mem)
            && (other in st.mem ==> whole.mem[other] == st.mem[other])
            && StoreKeeps(st.db, whole.db, other))
  {
    DeletedFromStore(st.db, {id}, id);
    DeletedFromStore(st.db, {id}, other);
  }

  /** A cleanup leaves in memory exactly the slugs that have not expired, as they are. */
  lemma CleanupRemovesExpired(c: Config, st: State, id: Id)
    ensures
      var st' := Next(c, st, Cleanup);
      && (id in st'.mem <==> id in st.mem && st.now <= st.mem[id].slug.expiresAt)
      && (id in st'.mem ==> st'.mem[id] == st.mem[id])
      && st'.db == st.db && st'.todo == st.todo
  {
  }

  /** A purge leaves in the store exactly the slugs that had not expired by then, with all of their
      rows, and no row of the others. */
  lemma PurgeRemovesExpired(c: Config, st: State, before: int, id: Id)
    requires before <= st.now
    ensures
      var st' := Next(c, st, DeleteExpired(before, true));
      && st'.mem == st.mem && Next(c, st, DeleteExpired(before, false)) == st
      && if id in st.db.slugs && st.db.slugs[id].expiresAt < before then StoreLacks(st'.db, id)
         else StoreKeeps(st.db, st'.db, id)
  {
    DeletedFromStore(st.db, ExpiredIds(st.db, before), id);
  }

  // ---- A flush that nothing else interrupts ----

  /** A flush of `mem` onto `db`, between two snapshots: what is not in `todo` any more has been
      written and acknowledged. */
  ghost predicate PartFlushed(st: State, mem: map<Id, Entry>, db: Db, journal: seq<EventRow>, mark: nat) {
    && st.cursor == Between
    && (forall id :: id in mem ==> mem[id].slug.id == id)
    && (forall id :: id in st.todo ==> id in DirtyIds(mem) && st.todo[id] == TakeSnapshot(mem[id], mark))
    && Flushed(st.mem, st.db, mem, db, DirtyIds(mem) - st.todo.Keys)
    && RowsFlushed(st.journal, mem, journal, DirtyIds(mem) - st.todo.Keys)
  }

  /** The steps that write and acknowledge one snapshot. */
  function Putting(s: Snapshot): seq<Step> {
    if s.events == [] then [PutSlug(s.slug.id, true), Ack] else [PutSlug(s.slug.id, true), PutEvents(true), Ack]
  }

  lemma PuttingPuts(c: Config, st: State, id: Id)
    requires st.cursor == Between && id in st.todo && st.todo[id].slug.id == id && Registered(st, st.todo[id])
    ensures
      var s := st.todo[id];
      var rows := RowsFor(id, s.events);
      Run(c, st, Putting(s)) ==
        st.(mem := st.mem[id := AckEntry(st.mem[id], s.snapshotLen)],
            db := InsertEvents(InsertSlug(st.db, s.slug), rows),
            journal := st.journal + rows,
            todo := st.todo - {id})
  {
    var s := st.todo[id];
    var rows := RowsFor(id, s.events);
    var st1 := Next(c, st, PutSlug(id, true));
    if s.events == [] {
      RunTwo(c, st, PutSlug(id, true), Ack);
      assert st.db.rows + rows == st.db.rows && st.journal + rows == st.journal;
    } else {
      assert Putting(s) == [PutSlug(id, true)] + [PutEvents(true), Ack];
      RunOn(c, st, [PutSlug(id, true)], [PutEvents(true), Ack]);
      RunOne(c, st, PutSlug(id, true));
      RunTwo(c, st1, PutEvents(true), Ack);
    }
  }

  lemma FlushedPut(now: map<Id, Entry>, db': Db, mem: map<Id, Entry>, db: Db, done: set<Id>, id: Id)
    requires Flushed(now, db', mem, db, done) && id in DirtyIds(mem) && id !in done && mem[id].slug.id == id
    ensures Flushed(now[id := AckEntry(now[id], |mem[id].events|)],
                    InsertEvents(InsertSlug(db', mem[id].slug), RowsFor(id, Pending(mem[id]))), mem, db, done + {id})
  {
    WindowsFlushedOne(now, mem, done, id);
    RowsFlushedOne(db'.rows, mem, db.rows, done, id);
    SlugsFlushedOne(db'.slugs, mem, db.slugs, done, id, true);
  }

  lemma PartFlushedNext(c: Config, st: State, mem: map<Id, Entry>, db: Db, journal: seq<EventRow>, mark: nat, id: Id)
    requires PartFlushed(st, mem, db, journal, mark) && id in st.todo
    ensures
      var st' := Run(c, st, Putting(st.todo[id]));
      PartFlushed(st', mem, db, journal, mark) && st'.todo == st.todo - {id} && st'.log == st.log && st'.now == st.now
  {
    var done := DirtyIds(mem) - st.todo.Keys;
    assert st.mem[id].gen == mem[id].gen;
    PuttingPuts(c, st, id);
    FlushedPut(st.mem, st.db, mem, db, done, id);
    RowsFlushedOne(st.journal, mem, journal, done, id);
    assert done + {id} == DirtyIds(mem) - (st.todo - {id}).Keys;
  }

  lemma {:induction false} FlushOn(c: Config, st: State, mem: map<Id, Entry>, db: Db, journal: seq<EventRow>, mark: nat)
    returns (more: seq<Step>)
    requires PartFlushed(st, mem, db, journal, mark)
    ensures
      var st' := Run(c, st, more);
      PartFlushed(st', mem, db, journal, mark) && st'.todo == map[] && st'.log == st.log && st'.now == st.now
    decreases |st.todo|
  {
    if st.todo == map[] {
      more := [];
    } else {
      var id :| id in st.todo;
      var first := Putting(st.todo[id]);
      PartFlushedNext(c, st, mem, db, journal, mark, id);
      RemoveOne(st.todo, id);
      var rest := FlushOn(c, Run(c, st, first), mem, db, journal, mark);
      more := first + rest;
      RunOn(c, st, first, rest);
    }
  }

  /** From every state without a flush under way the machine has a run that is a whole flush: it
      stores every dirty slug, appends to its rows and to the journal exactly its unflushed events,
      leaves it clean, and changes no other slug's row, rows or window.  This is what the flush of
      the registry object does. */
  lemma FlushIsARun(c: Config, st: State) returns (steps: seq<Step>)
    requires Filed(st) && st.todo == map[]
    ensures
      var st' := Run(c, st, steps);
      && Flushed(st'.mem, st'.db, st.mem, st.db, DirtyIds(st.mem))
      && RowsFlushed(st'.journal, st.mem, st.journal, DirtyIds(st.mem))
      && DirtyIds(st'.mem) == {} && st'.todo == map[] && st'.log == st.log && st'.now == st.now
  {
    var st1 := Next(c, st, Collect);
    assert DirtyIds(st.mem) - st1.todo.Keys == {};
    assert PartFlushed(st1, st.mem, st.db, st.journal, |st.log|);
    var rest := FlushOn(c, st1, st.mem, st.db, st.journal, |st.log|);
    steps := [Collect] + rest;
    RunOn(c, st, [Collect], rest);
    RunOne(c, st, Collect);
    var st' := Run(c, st, steps);
    assert DirtyIds(st.mem) - st'.todo.Keys == DirtyIds(st.mem);
    AllFlushed(st'.mem, st'.db, st.mem, st.db, DirtyIds(st.mem));
  }

  /** A slug that is drawn or cleared is stored by the next flush even if nothing was recorded for
      it: with its row, no new event rows, and an empty clean window. */
  lemma EmptySlugIsStored(c: Config, st: State, step: Step, id: Id) returns (steps: seq<Step>)
    requires Filed(st) && st.todo == map[]
    requires (step.Create? && step.id == id && id !in st.mem) || (step.Clear? && step.id == id && id in st.mem)
    ensures
      var st' := Run(c, Next(c, st, step), steps);
      && id in st'.mem && st'.mem[id].events == [] && !st'.mem[id].dirty
      && id in st'.db.slugs && st'.db.slugs[id] == st'.mem[id].slug
      && (id in st.mem ==> st'.mem[id].slug == st.mem[id].slug)
      && RowsOf(st'.db.rows, id) == RowsOf(st.db.rows, id) && st'.todo == map[]
  {
    FiledKept(c, st, step);
    var begun := Next(c, st, step);
    steps := FlushIsARun(c, begun);
    assert id in DirtyIds(begun.mem) && Pending(begun.mem[id]) == [];
    assert RowsOf(st.db.rows, id) + [] == RowsOf(st.db.rows, id);
  }
}
