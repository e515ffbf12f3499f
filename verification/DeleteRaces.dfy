/** An HTTP delete of a slug whose snapshot is in flight: nothing in the program keeps the two
    apart, and the rest of the flush can put the deleted slug back into the store.  A delete has
    two halves, the registry's and then the store's, and other steps can come between them; what
    matters is where the flush stands at the store's half. */
module DeleteRaces {
  import opened Records
  import opened Entries
  import opened Tables
  import opened Protocol
  import opened Views
  import opened ExactlyOnce
  import opened Conservation
  import opened Agreement

  /** What `StoreAndMemoryAgree` says of one slug. */
  ghost predicate SlugAgrees(st: State, id: Id) {
    && (id in st.db.slugs ==> (id in st.mem && st.mem[id].slug == st.db.slugs[id]) || st.db.slugs[id].expiresAt <= st.now)
    && (RowsOf(st.db.rows, id) != [] ==> id in st.db.slugs)
    && (id in st.mem && !st.mem[id].dirty && st.mem[id].slug.expiresAt >= st.now ==>
          id in st.db.slugs && st.db.slugs[id] == st.mem[id].slug)
  }

  /** The rest of a flush of `id`: steps up to the one that ends it, each orderly as far as `id`
      is concerned, without a restart and without the ID being drawn again. */
  ghost predicate RestOfFlight(c: Config, st: State, rest: seq<Step>, id: Id)
    decreases |rest|
  {
    if rest == [] then id !in st.todo else
    && id in st.todo && Ordered(ViewOf(st, id), ActOf(c, st, rest[0], id))
    && !rest[0].Restart? && !(rest[0].Create? && rest[0].id == id)
    && RestOfFlight(c, Next(c, st, rest[0]), rest[1..], id)
  }

  /** Whether one of the steps is a given act for `id`. */
  ghost predicate Happens(c: Config, st: State, rest: seq<Step>, id: Id, act: Act)
    decreases |rest|
  {
    rest != [] && (ActOf(c, st, rest[0], id) == act || Happens(c, Next(c, st, rest[0]), rest[1..], id, act))
  }

  /** The slug is gone from memory and its snapshot `s` is in flight. */
  ghost predicate Adrift(st: State, id: Id, s: Snapshot) {
    && Filed(st) && id !in st.mem
    && (id in st.todo ==> st.todo[id] == s)
    && s.slug.id == id
  }

  lemma AdriftStep(c: Config, st: State, step: Step, id: Id, s: Snapshot)
    requires Adrift(st, id, s) && id in st.todo && Ordered(ViewOf(st, id), ActOf(c, st, step, id))
    requires !step.Restart? && !(step.Create? && step.id == id)
    ensures
      var st', act := Next(c, st, step), ActOf(c, st, step, id);
      var v, w := ViewOf(st, id), ViewOf(st', id);
      && Adrift(st', id, s)
      && (act.Skip? || act.AddRow? || act.AddEvents? || act.Acked? || act.Abort?)
      && w.row == (if act.AddRow? then Some(s.slug) else v.row)
      && w.rows == (if act.AddEvents? then v.rows + s.events else v.rows)
      && (act.AddRow? ==> v.stage.Waiting? && !w.stage.Waiting?)
      && (act.AddEvents? ==> v.stage.RowPut? && w.stage.EventsPut? && s.events != [])
      && (act.Skip? ==> w.stage == v.stage)
      && (id !in st'.todo <==> act.Acked? || act.Abort?)
      && st.now <= st'.now
  {
    FiledKept(c, st, step);
    StepsMove(c, st, step, id);
  }

  lemma {:induction false} RestOfFlightIs(c: Config, st: State, rest: seq<Step>, id: Id, s: Snapshot)
    requires Adrift(st, id, s) && RestOfFlight(c, st, rest, id)
    ensures
      var end, v := Run(c, st, rest), ViewOf(st, id);
      var putsRow, putsEvents := Happens(c, st, rest, id, AddRow), Happens(c, st, rest, id, AddEvents);
      && Adrift(end, id, s) && id !in end.todo
      && ViewOf(end, id).row == (if putsRow then Some(s.slug) else v.row)
      && ViewOf(end, id).rows == (if putsEvents then v.rows + s.events else v.rows)
      && (putsRow ==> v.stage.Waiting?)
      && (putsEvents ==> s.events != [] && !v.stage.EventsPut?)
      && (putsEvents && v.stage.Waiting? ==> putsRow)
    decreases |rest|
  {
    if rest != [] {
      AdriftStep(c, st, rest[0], id, s);
      RestOfFlightIs(c, Next(c, st, rest[0]), rest[1..], id, s);
    }
  }

  lemma ReachedFiled(c: Config, steps: seq<Step>, st: State)
    requires st == Run(c, Init, steps)
    ensures Filed(st)
  {
    AllOnceRun(c, Init, steps);
  }

  lemma AgreesWhenGone(st: State, id: Id)
    requires id !in st.mem
    ensures
      var v := ViewOf(st, id);
      SlugAgrees(st, id) <==> if v.row.Some? then v.row.value.expiresAt <= st.now else v.rows == []
  {
  }

  lemma StoreHalf(c: Config, st: State, id: Id)
    requires Filed(st) && id in st.todo && id !in st.mem
    ensures Adrift(Next(c, st, DbDelete(id, true)), id, st.todo[id])
    ensures
      var w := ViewOf(Next(c, st, DbDelete(id, true)), id);
      w.row.None? && w.rows == [] && w.stage == ViewOf(st, id).stage
  {
    FiledKept(c, st, DbDelete(id, true));
    StepsMoveDbDelete(c, st, DbDelete(id, true), id);
    RowsOfWithout(st.db.rows, {id}, id);
  }

  /** A delete that nothing interrupts is its two halves. */
  lemma DeleteIsItsHalves(c: Config, st: State, id: Id)
    ensures Next(c, st, Delete(id)) == Next(c, Next(c, st, MemDelete(id)), DbDelete(id, true))
  {
  }

  /** When the store's half of a delete in mid-flush leaves store and memory in disagreement at
      the end of the flush: if and only if the rest of the flush writes the slug's row back and it
      is not expired by then, or the half came between the row and the events and the events are
      still written, which then belong to no stored slug. */
  lemma DeleteInFlight(c: Config, steps: seq<Step>, st: State, id: Id, rest: seq<Step>)
    requires st == Run(c, Init, steps) && id in st.todo && id !in st.mem
    requires RestOfFlight(c, Next(c, st, DbDelete(id, true)), rest, id)
    ensures
      var deleted := Next(c, st, DbDelete(id, true));
      var end := Run(c, deleted, rest);
      !SlugAgrees(end, id) <==>
        || (Happens(c, deleted, rest, id, AddRow) && st.todo[id].slug.expiresAt > end.now)
        || (st.cursor == SlugPut(id) && Happens(c, deleted, rest, id, AddEvents))
  {
    var deleted := Next(c, st, DbDelete(id, true));
    ReachedFiled(c, steps, st);
    StoreHalf(c, st, id);
    RestOfFlightIs(c, deleted, rest, id, st.todo[id]);
    AgreesWhenGone(Run(c, deleted, rest), id);
    assert ViewOf(deleted, id).stage.RowPut? <==> st.cursor == SlugPut(id);
  }

  /** The same when the store's half fails, for whatever reason: then also what the store holds
      already stays, a row that is not expired or events without a row. */
  lemma EraseFailsInFlight(c: Config, steps: seq<Step>, st: State, id: Id, rest: seq<Step>)
    requires st == Run(c, Init, steps) && id in st.todo && id !in st.mem
    requires RestOfFlight(c, Next(c, st, DbDelete(id, false)), rest, id)
    ensures
      var end := Run(c, Next(c, st, DbDelete(id, false)), rest);
      !SlugAgrees(end, id) <==>
        if Happens(c, st, rest, id, AddRow) then st.todo[id].slug.expiresAt > end.now
        else if id in st.db.slugs then st.db.slugs[id].expiresAt > end.now
        else RowsOf(st.db.rows, id) != [] || Happens(c, st, rest, id, AddEvents)
  {
    assert Next(c, st, DbDelete(id, false)) == st;
    ReachedFiled(c, steps, st);
    RestOfFlightIs(c, st, rest, id, st.todo[id]);
    AgreesWhenGone(Run(c, st, rest), id);
  }

  /** And the disagreement shows: a restart at the end of the flush brings the deleted slug back
      if and only if its row was written back and has not expired, or the store's half had failed
      on a row that has not expired. */
  lemma DeletedSlugComesBack(c: Config, steps: seq<Step>, st: State, id: Id, ok: bool, rest: seq<Step>, step: Step)
    requires st == Run(c, Init, steps) && id in st.todo && id !in st.mem
    requires RestOfFlight(c, Next(c, st, DbDelete(id, ok)), rest, id)
    requires step.Restart? && Run(c, Next(c, st, DbDelete(id, ok)), rest).now <= step.t
    requires LoadsFrom(Run(c, Next(c, st, DbDelete(id, ok)), rest).db, step)
    ensures
      var deleted := Next(c, st, DbDelete(id, ok));
      id in Next(c, Run(c, deleted, rest), step).mem <==>
        if Happens(c, deleted, rest, id, AddRow) then st.todo[id].slug.expiresAt > step.t
        else !ok && id in st.db.slugs && st.db.slugs[id].expiresAt > step.t
  {
    ReachedFiled(c, steps, st);
    if ok {
      StoreHalf(c, st, id);
    }
    RestOfFlightIs(c, Next(c, st, DbDelete(id, ok)), rest, id, st.todo[id]);
    RestartLoads(c, Run(c, Next(c, st, DbDelete(id, ok)), rest), step, id);
  }

  lemma RestartLoads(c: Config, st: State, step: Step, id: Id)
    requires step.Restart? && st.now <= step.t && LoadsFrom(st.db, step)
    ensures id in Next(c, st, step).mem <==> id in st.db.slugs && st.db.slugs[id].expiresAt > step.t
  {
  }

  // ---- One slug at a time ----

  /** Every step does to `id` what an orderly run would let it, whatever it does to others. */
  ghost predicate OrderlyFor(c: Config, st: State, steps: seq<Step>, id: Id)
    decreases |steps|
  {
    steps == [] ||
    (Ordered(ViewOf(st, id), ActOf(c, st, steps[0], id)) && OrderlyFor(c, Next(c, st, steps[0]), steps[1..], id))
  }

  lemma {:induction false} KnownFor(c: Config, st: State, steps: seq<Step>, id: Id)
    requires Filed(st) && Known(id, ViewOf(st, id), c.max) && OrderlyFor(c, st, steps, id)
    ensures Known(id, ViewOf(Run(c, st, steps), id), c.max)
    decreases |steps|
  {
    if steps != [] {
      var st' := Next(c, st, steps[0]);
      FiledKept(c, st, steps[0]);
      StepsMove(c, st, steps[0], id);
      KnownKept(id, ViewOf(st, id), ActOf(c, st, steps[0], id), c.max, ViewOf(st', id));
      KnownFor(c, st', steps[1..], id);
    }
  }

  /** What a run does to other slugs is no matter: store and memory agree on every slug that the
      run treats in an orderly way. */
  lemma OthersStillAgree(c: Config, steps: seq<Step>, id: Id)
    requires OrderlyFor(c, Init, steps, id)
    ensures SlugAgrees(Run(c, Init, steps), id)
  {
    InitKnown(c);
    KnownFor(c, Init, steps, id);
  }

  lemma {:induction false} TimedRun(c: Config, st: State, steps: seq<Step>)
    requires Filed(st) && Timed(st.log, st.now)
    ensures Timed(Run(c, st, steps).log, Run(c, st, steps).now)
    decreases |steps|
  {
    if steps != [] {
      var st', id := Next(c, st, steps[0]), NAME;
      FiledKept(c, st, steps[0]);
      StepsMove(c, st, steps[0], id);
      TimedKept(id, ViewOf(st, id), ActOf(c, st, steps[0], id), c.max, ViewOf(st', id));
      TimedRun(c, st', steps[1..]);
    }
  }

  lemma NothingLeftIsKnown(id: Id, v: View, max: int)
    requires Once(id, v, max) && Timed(v.log, v.now)
    requires v.entry.None? && v.row.None? && v.rows == [] && v.snap.None?
    ensures Known(id, v, max)
  {
  }

  lemma ErasedIsKnown(c: Config, steps: seq<Step>, st: State, id: Id)
    requires st == Run(c, Init, steps) && id !in st.todo && id !in st.mem
    ensures Filed(Next(c, st, DbDelete(id, true))) && Known(id, ViewOf(Next(c, st, DbDelete(id, true)), id), c.max)
  {
    var deleted := Next(c, st, DbDelete(id, true));
    AllOnceRun(c, Init, steps);
    AllOnceStep(c, st, DbDelete(id, true));
    TimedRun(c, Init, steps);
    RowsOfWithout(st.db.rows, {id}, id);
    NothingLeftIsKnown(id, ViewOf(deleted, id), c.max);
  }

  lemma KnownAgrees(c: Config, st: State, id: Id)
    requires Known(id, ViewOf(st, id), c.max)
    ensures SlugAgrees(st, id)
  {
  }

  /** A delete whose store's half comes when no snapshot of the slug is in flight settles the
      slug, whatever came before it and between its halves: store and memory agree on the slug then,
      and for as long as it is treated in an orderly way. */
  lemma AgreesAgainAfterDelete(c: Config, steps: seq<Step>, st: State, id: Id, more: seq<Step>)
    requires st == Run(c, Init, steps) && id !in st.todo && id !in st.mem
    requires OrderlyFor(c, Next(c, st, DbDelete(id, true)), more, id)
    ensures SlugAgrees(Run(c, Next(c, st, DbDelete(id, true)), more), id)
  {
    ErasedIsKnown(c, steps, st, id);
    KnownFor(c, Next(c, st, DbDelete(id, true)), more, id);
    KnownAgrees(c, Run(c, Next(c, st, DbDelete(id, true)), more), id);
  }
}
