/** Writing to the store and reading back, in orderly runs.  An ID can be drawn again while the
    store still has rows of it, so some of these can be of an earlier slug. */
module RoundTrip {
  import opened Records
  import opened Entries
  import opened Tables
  import opened Protocol
  import opened Views
  import opened ExactlyOnce
  import opened Conservation
  import opened Agreement

  ghost predicate NotBefore(t: int, s: seq<Event>) {
    forall i :: 0 <= i < |s| ==> t <= s[i].at
  }

  // ---- Which events are the slug's own ----

  function NextBirth(v: View, act: Act, b: nat): nat {
    if act.Born? then |v.log| else b
  }

  /** The length of the record log when the ID was last drawn: the events recorded for the ID from
      there on are the slug's own, those before are of earlier slugs. */
  ghost function Birth(c: Config, st: State, steps: seq<Step>, id: Id, b: nat): nat
    decreases |steps|
  {
    if steps == [] then b else
    Birth(c, Next(c, st, steps[0]), steps[1..], id, NextBirth(ViewOf(st, id), ActOf(c, st, steps[0], id), b))
  }

  ghost predicate AllFrom(b: nat, s: seq<Event>) {
    forall i :: 0 <= i < |s| ==> b <= s[i].no
  }

  /** A slug's own events are not older than the slug, and those of earlier slugs are not newer. */
  ghost predicate Dated(id: Id, v: View, b: nat) {
    && b <= |v.log|
    && (v.entry.Some? ==>
          && v.entry.value.slug.createdAt <= v.now
          && (forall n :: b <= n < |v.log| && v.log[n].slug == id ==> v.entry.value.slug.createdAt <= v.log[n].event.at)
          && (forall n :: 0 <= n < b ==> v.log[n].event.at <= v.entry.value.slug.createdAt))
    && (v.snap.Some? && v.entry.Some? && !Same(v) ==>
          forall i :: 0 <= i < |v.snap.value.events| ==> v.snap.value.events[i].no < b)
  }

  ghost predicate OwnIn(b: nat, rows: seq<Event>, part: seq<Event>) {
    forall e :: e in rows && b <= e.no ==> e in part
  }

  /** An entry that lost nothing has in its window all of its own events that the store has. */
  ghost predicate OwnKept(v: View, b: nat, max: int)
    requires Unexpired(v) && !Oversized(v.entry.value, max) ==> InRange(v)
  {
    Unexpired(v) && !v.pruned ==>
      var e := v.entry.value;
      if Oversized(e, max) then OwnIn(b, v.rows, e.events)
      else if !Same(v) then OwnIn(b, v.rows, e.events[..e.flushedCount])
      else if v.stage.EventsPut? then OwnIn(b, v.rows, e.events[..Covered(v)])
      else OwnIn(b, v.rows, e.events[..e.flushedCount]) && OwnIn(b, v.snap.value.events, e.events[..Covered(v)])
  }

  /** Everything known of a view, and of which of its events are the slug's own. */
  ghost predicate Owned(id: Id, v: View, b: nat, max: int) {
    && Known(id, v, max)
    && Dated(id, v, b)
    && (Unexpired(v) && !Oversized(v.entry.value, max) ==> InRange(v))
    && OwnKept(v, b, max)
  }

  /** A restart reads every row that is not older than a live slug. */
  ghost predicate Recent(v: View, act: Act, now: int) {
    && Ordered(v, act)
    && (act.Load? && v.row.Some? && v.row.value.expiresAt > now ==>
          exists since :: since < v.row.value.createdAt && act.events == EventsSince(v.rows, since))
  }

  lemma DatedBorn(id: Id, v: View, act: Act, b: nat, max: int, w: View)
    requires Known(id, v, max) && Moves(id, v, act, max, w) && act.Born?
    ensures Dated(id, w, |v.log|)
  {
    assert v.snap.Some? ==> Logged(id, v.log, v.snap.value.events);
  }

  lemma DatedLoad(id: Id, v: View, act: Act, b: nat, max: int, w: View)
    requires Known(id, v, max) && Dated(id, v, b) && Moves(id, v, act, max, w) && act.Load?
    ensures Dated(id, w, b)
  {
    assert w.entry.Some? ==> v.entry.Some? && w.entry.value.slug == v.entry.value.slug;
  }

  lemma DatedKept(id: Id, v: View, act: Act, b: nat, max: int, w: View)
    requires Known(id, v, max) && Dated(id, v, b) && Moves(id, v, act, max, w) && Recent(v, act, w.now)
    ensures Dated(id, w, NextBirth(v, act, b))
  {
    if act.Born? {
      DatedBorn(id, v, act, b, max, w);
    } else if act.Load? {
      DatedLoad(id, v, act, b, max, w);
    } else {
      DatedOther(id, v, act, b, max, w);
    }
  }

  lemma DatedOther(id: Id, v: View, act: Act, b: nat, max: int, w: View)
    requires LogNumbered(v.log) && Dated(id, v, b) && Moves(id, v, act, max, w) && !act.Born? && !act.Load?
    requires v.entry.Some? && v.snap.Some? ==> v.entry.value.gen < v.gens && v.snap.value.gen < v.gens
    ensures Dated(id, w, b)
  {
  }

  /** A stored own event, seen in the log. */
  lemma OwnIsDated(id: Id, v: View, b: nat, max: int, e: Event)
    requires Once(id, v, max) && Dated(id, v, b) && v.entry.Some? && e in v.rows
    ensures b <= e.no ==> v.entry.value.slug.createdAt <= e.at
    ensures e.no < b ==> e.at <= v.entry.value.slug.createdAt
  {
    var i :| 0 <= i < |v.rows| && v.rows[i] == e;
    assert v.journal[|v.journal| - |v.rows| + i] == e;
    assert v.log[e.no] == EventRow(id, e);
  }

  lemma OwnRecord(id: Id, v: View, act: Act, b: nat, max: int, w: View)
    requires Owned(id, v, b, max) && Known(id, w, max) && Moves(id, v, act, max, w) && act.Rec?
    requires Unexpired(w) && !Oversized(w.entry.value, max) ==> InRange(w)
    ensures OwnKept(w, b, max)
  {
    if Unexpired(w) && !w.pruned {
      var e, ev := v.entry.value, act.ev;
      if !RecordPanics(e, max) {
        assert |e.events| < max && w.entry.value.events == e.events + [ev];
        assert (e.events + [ev])[..e.flushedCount] == e.events[..e.flushedCount];
        if Same(v) {
          assert Covered(w) == Covered(v) && (e.events + [ev])[..Covered(v)] == e.events[..Covered(v)];
        }
      } else if |e.events| == 0 {
        assert w.entry.value.events == e.events == [];
      }
    }
  }

  lemma OwnLoad(id: Id, v: View, act: Act, b: nat, max: int, w: View)
    requires Owned(id, v, b, max) && Moves(id, v, act, max, w) && Recent(v, act, w.now) && act.Load?
    requires Unexpired(w) && !Oversized(w.entry.value, max) ==> InRange(w)
    ensures OwnKept(w, b, max)
  {
    if Unexpired(w) {
      LoadedOwn(id, v, act, b, max, w.now);
      assert act.events[..|act.events|] == act.events;
    }
  }

  lemma LoadedOwn(id: Id, v: View, act: Act, b: nat, max: int, now: int)
    requires Once(id, v, max) && Dated(id, v, b) && RowsAgree(v) && Recent(v, act, now) && act.Load?
    requires v.row.Some? && v.row.value.expiresAt > now >= v.now
    ensures OwnIn(b, v.rows, act.events)
  {
    var since :| since < v.row.value.createdAt && act.events == EventsSince(v.rows, since);
    forall e | e in v.rows && b <= e.no
      ensures e in act.events
    {
      OwnIsDated(id, v, b, max, e);
      EventsSinceMember(v.rows, since, e);
    }
  }

  lemma OwnBorn(id: Id, v: View, act: Act, b: nat, max: int, w: View)
    requires Once(id, v, max) && Moves(id, v, act, max, w) && act.Born?
    requires Unexpired(w) && !Oversized(w.entry.value, max) ==> InRange(w)
    ensures OwnKept(w, |v.log|, max)
  {
    forall e | e in v.rows
      ensures e.no < |v.log|
    {
      assert e in v.journal;
    }
  }

  lemma OwnInMore(b: nat, rows: seq<Event>, window: seq<Event>, f: int, k: int)
    requires 0 <= f <= k <= |window| && OwnIn(b, rows, window[..f])
    ensures OwnIn(b, rows, window[..k])
  {
    assert forall e :: e in window[..f] ==> e in window[..k];
  }

  lemma OwnSnap(id: Id, v: View, act: Act, b: nat, max: int, w: View)
    requires Owned(id, v, b, max) && Moves(id, v, act, max, w) && act.Snap?
    requires Unexpired(w) && !Oversized(w.entry.value, max) ==> InRange(w)
    ensures OwnKept(w, b, max)
  {
    var e := v.entry.value;
    assert w.entry.value.events == e.events && Covered(w) == |e.events| && e.events[..|e.events|] == e.events;
    if 0 <= e.flushedCount <= |e.events| {
      PendingIs(e);
    }
  }

  /** The rows with the snapshot in flight added to them. */
  lemma OwnInBoth(b: nat, rows: seq<Event>, more: seq<Event>, part: seq<Event>)
    requires OwnIn(b, rows, part) && OwnIn(b, more, part)
    ensures OwnIn(b, rows + more, part)
  {
  }

  lemma OwnAdds(id: Id, v: View, act: Act, b: nat, max: int, w: View)
    requires Owned(id, v, b, max) && Moves(id, v, act, max, w)
    requires act.AddRow? || act.AddEvents?
    requires Unexpired(w) && !Oversized(w.entry.value, max) ==> InRange(w)
    ensures OwnKept(w, b, max)
  {
    if Unexpired(w) && !w.pruned {
      var e, s := v.entry.value, v.snap.value;
      if Same(v) {
        OwnInMore(b, v.rows, e.events, e.flushedCount, Covered(v));
        OwnInBoth(b, v.rows, s.events, e.events[..Covered(v)]);
      } else {
        var part := e.events[..if Oversized(e, max) then |e.events| else e.flushedCount];
        assert e.events[..|e.events|] == e.events;
        OwnInBoth(b, v.rows, s.events, part);
      }
    }
  }

  lemma OwnEnds(id: Id, v: View, act: Act, b: nat, max: int, w: View)
    requires Owned(id, v, b, max) && Moves(id, v, act, max, w)
    requires act.Acked? || act.Abort?
    requires Unexpired(w) && !Oversized(w.entry.value, max) ==> InRange(w)
    ensures OwnKept(w, b, max)
  {
  }

  lemma OwnOther(id: Id, v: View, act: Act, b: nat, max: int, w: View)
    requires Owned(id, v, b, max) && Moves(id, v, act, max, w)
    requires act.Skip? || act.Wipe? || act.Forget? || act.Purge? || act.Erase?
    requires Unexpired(w) && !Oversized(w.entry.value, max) ==> InRange(w)
    ensures OwnKept(w, b, max)
  {
  }

  lemma OwnedKept(id: Id, v: View, act: Act, b: nat, max: int, w: View)
    requires Owned(id, v, b, max) && Moves(id, v, act, max, w) && Recent(v, act, w.now)
    ensures Owned(id, w, NextBirth(v, act, b), max)
  {
    KnownKept(id, v, act, max, w);
    DatedKept(id, v, act, b, max, w);
    if Unexpired(w) && !Oversized(w.entry.value, max) {
      KnownInRange(id, w, max);
    }
    if act.Rec? {
      OwnRecord(id, v, act, b, max, w);
    } else if act.Born? {
      OwnBorn(id, v, act, b, max, w);
    } else if act.Load? {
      OwnLoad(id, v, act, b, max, w);
    } else if act.Skip? || act.Wipe? || act.Forget? || act.Purge? || act.Erase? {
      OwnOther(id, v, act, b, max, w);
    } else if act.Snap? {
      OwnSnap(id, v, act, b, max, w);
    } else if act.AddRow? || act.AddEvents? {
      OwnAdds(id, v, act, b, max, w);
    } else {
      OwnEnds(id, v, act, b, max, w);
    }
  }

  /** The cutoff that all slugs share misses none of a live slug's rows. */
  lemma CutoffMissesNothing(st: State, step: Step, id: Id)
    requires step.Restart? && LoadsFrom(st.db, step) && step.loaded == Since(st.db.rows, step.earliest - SECOND)
    requires id in LoadSlugs(st.db, step.t) && NotBefore(st.db.slugs[id].createdAt, RowsOf(st.db.rows, id))
    ensures RowsOf(step.loaded, id) == RowsOf(st.db.rows, id)
  {
    var cut := step.earliest - SECOND;
    RowsOfSince(st.db.rows, cut, id);
    EventsSinceKeepsAll(RowsOf(st.db.rows, id), cut);
  }

  lemma RecentSteps(c: Config, st: State, step: Step, id: Id)
    requires Filed(st) && Allowed(Orderly, st, step)
    ensures Recent(ViewOf(st, id), ActOf(c, st, step, id), Next(c, st, step).now)
  {
    OrderlySteps(c, st, step, id);
    if step.Restart? && LoadsFrom(st.db, step) {
      RowsOfSince(st.db.rows, step.earliest - SECOND, id);
      assert id in st.db.slugs && st.db.slugs[id].expiresAt > step.t ==> id in LoadSlugs(st.db, step.t);
    }
  }

  lemma {:induction false} OwnedRun(c: Config, st: State, steps: seq<Step>, id: Id, b: nat)
    requires Filed(st) && Owned(id, ViewOf(st, id), b, c.max) && Keeps(Orderly, c, st, steps)
    ensures Owned(id, ViewOf(Run(c, st, steps), id), Birth(c, st, steps, id, b), c.max)
    decreases |steps|
  {
    if steps != [] {
      FiledKept(c, st, steps[0]);
      OwnedStep(c, st, steps[0], id, b);
      OwnedRun(c, Next(c, st, steps[0]), steps[1..], id, NextBirth(ViewOf(st, id), ActOf(c, st, steps[0], id), b));
    }
  }

  lemma OwnedStep(c: Config, st: State, step: Step, id: Id, b: nat)
    requires Filed(st) && Owned(id, ViewOf(st, id), b, c.max) && Allowed(Orderly, st, step)
    ensures Owned(id, ViewOf(Next(c, st, step), id), NextBirth(ViewOf(st, id), ActOf(c, st, step, id), b), c.max)
  {
    StepsMove(c, st, step, id);
    RecentSteps(c, st, step, id);
    OwnedKept(id, ViewOf(st, id), ActOf(c, st, step, id), b, c.max, ViewOf(Next(c, st, step), id));
  }

  lemma ReachedOwned(c: Config, steps: seq<Step>, st: State, id: Id)
    requires ReachedOrderly(c, steps, st)
    ensures Owned(id, ViewOf(st, id), Birth(c, Init, steps, id, 0), c.max)
  {
    InitKnown(c);
    OwnedRun(c, Init, steps, id, 0);
  }

  // ---- Restarting ----

  /** The rows of a slug, of which the last `|part|` are in its window, read back after a cutoff.
      Events before `b` are of earlier slugs. */
  ghost predicate ReadBack(after: seq<Event>, rows: seq<Event>, part: seq<Event>, cut: int, b: nat) {
    && after == EventsSince(rows, cut)
    && Suffix(after, rows)
    && Suffix(part, rows) && Suffix(EventsSince(part, cut), after)
    && (forall e :: e in rows && b <= e.no ==> e in after)
    && ((forall e :: e in after ==> b <= e.no) <==> (forall e :: e in rows && e.no < b ==> e.at <= cut))
  }

  /** Entry `e`, of whose window the first `k` events are stored, and the entry that a restart makes
      of its rows. */
  ghost predicate ComesBack(e: Entry, after: Entry, k: int, pruned: bool, rows: seq<Event>, cut: int, b: nat) {
    && after.slug == e.slug && after.flushedCount == |after.events| && !after.dirty
    && 0 <= k <= |e.events| && (!e.dirty ==> k == |e.events|)
    && ReadBack(after.events, rows, e.events[..k], cut, b)
    && (!pruned ==> OwnIn(b, rows, e.events[..k]))
    && (forall x :: x in rows && x.no < b ==> x.at <= e.slug.createdAt)
  }

  lemma ReadsBack(rows: seq<Event>, part: seq<Event>, cut: int, b: nat)
    requires Suffix(part, rows) && forall i, j :: 0 <= i < j < |rows| ==> rows[i].at <= rows[j].at
    requires forall e :: e in rows && b <= e.no ==> e.at > cut
    ensures ReadBack(EventsSince(rows, cut), rows, part, cut, b)
  {
    EventsSinceIsSuffix(rows, cut);
    var head := rows[..|rows| - |part|];
    assert rows == head + part;
    EventsSinceConcat(head, part, cut);
    DropIsSuffix(EventsSince(rows, cut), |EventsSince(head, cut)|);
    forall e
      ensures e in EventsSince(rows, cut) <==> e in rows && e.at > cut
    {
      EventsSinceMember(rows, cut, e);
    }
  }

  /** Restarting at any moment of an orderly run, in the middle of a flush or not: every slug that
      is stored and not expired comes back, all of it flushed, with the newest part of the ID's
      stored rows, those after the cutoff.  None of the slug's own stored events is missing, and
      what of the window was stored is at the end as far as it is newer than the cutoff; unless
      something was evicted or cleared, that is all of its own events.  Nothing but the slug's own events comes back if and only if no row of an earlier slug of the same ID
      is newer than the cutoff; and such a row is never newer than the slug. */
  lemma RestartRoundTrip(c: Config, steps: seq<Step>, st: State, step: Step, id: Id) returns (after: Entry)
    requires ReachedOrderly(c, steps, st)
    requires step.Restart? && st.now <= step.t && LoadsFrom(st.db, step) && Allowed(Orderly, st, step)
    requires id in st.db.slugs && st.db.slugs[id].expiresAt > step.t
    ensures id in st.mem && id in Next(c, st, step).mem && after == Next(c, st, step).mem[id]
    ensures ComesBack(st.mem[id], after, StoredPart(ViewOf(st, id), c.max), PrunedIn(st, id),
                      RowsOf(st.db.rows, id), step.earliest - SECOND, Birth(c, Init, steps, id, 0))
  {
    var cut := step.earliest - SECOND;
    after := LoadedEntry(st.db.slugs[id], st.gens, EventsSince(RowsOf(st.db.rows, id), cut));
    assert cut < st.db.slugs[id].createdAt by {
      RestartReads(c, st, step, id);
    }
    assert id in Next(c, st, step).mem && after == Next(c, st, step).mem[id] by {
      RestartReads(c, st, step, id);
    }
    ReachedComesBack(c, steps, st, id, cut);
  }

  lemma RestartReads(c: Config, st: State, step: Step, id: Id)
    requires step.Restart? && st.now <= step.t && LoadsFrom(st.db, step)
    requires step.loaded == Since(st.db.rows, step.earliest - SECOND)
    requires id in st.db.slugs && st.db.slugs[id].expiresAt > step.t
    ensures id in Next(c, st, step).mem
    ensures Next(c, st, step).mem[id] ==
              LoadedEntry(st.db.slugs[id], st.gens, EventsSince(RowsOf(st.db.rows, id), step.earliest - SECOND))
    ensures step.earliest - SECOND < st.db.slugs[id].createdAt
  {
    RowsOfSince(st.db.rows, step.earliest - SECOND, id);
    assert id in LoadSlugs(st.db, step.t);
  }

  lemma ReachedComesBack(c: Config, steps: seq<Step>, st: State, id: Id, cut: int)
    requires ReachedOrderly(c, steps, st)
    requires id in st.db.slugs && st.db.slugs[id].expiresAt > st.now && cut < st.db.slugs[id].createdAt
    ensures id in st.mem
    ensures ComesBack(st.mem[id], LoadedEntry(st.db.slugs[id], st.gens, EventsSince(RowsOf(st.db.rows, id), cut)),
                      StoredPart(ViewOf(st, id), c.max), PrunedIn(st, id), RowsOf(st.db.rows, id), cut, Birth(c, Init, steps, id, 0))
  {
    ReachedOwned(c, steps, st, id);
    OwnedReadsBack(id, ViewOf(st, id), Birth(c, Init, steps, id, 0), c.max, cut);
  }

  lemma OwnedReadsBack(id: Id, v: View, b: nat, max: int, cut: int)
    requires Owned(id, v, b, max) && v.row.Some? && v.row.value.expiresAt > v.now && cut < v.row.value.createdAt
    ensures v.entry.Some? && v.entry.value.slug == v.row.value
    ensures
      var e, k := v.entry.value, StoredPart(v, max);
      && 0 <= k <= |e.events| && (!e.dirty ==> k == |e.events|)
      && ReadBack(EventsSince(v.rows, cut), v.rows, e.events[..k], cut, b)
      && (!v.pruned ==> OwnIn(b, v.rows, e.events[..k]))
    ensures forall e :: e in v.rows && e.no < b ==> e.at <= v.row.value.createdAt
  {
    StoredIsSuffix(id, v, max);
    assert v.entry.value.events[..|v.entry.value.events|] == v.entry.value.events;
    RowsInTime(id, v, max);
    forall e | e in v.rows
      ensures b <= e.no ==> e.at > cut
      ensures e.no < b ==> e.at <= v.row.value.createdAt
    {
      OwnIsDated(id, v, b, max, e);
    }
    ReadsBack(v.rows, v.entry.value.events[..StoredPart(v, max)], cut, b);
  }

  // ---- When no ID is drawn that the store still knows ----

  /** The slug's window, its stored rows and what is in flight are its own. */
  ghost predicate AllOwn(v: View, b: nat) {
    v.entry.Some? ==>
      && AllFrom(b, v.entry.value.events)
      && AllFrom(b, v.rows)
      && (v.snap.Some? ==> AllFrom(b, v.snap.value.events))
  }

  lemma AllOwnKept(id: Id, v: View, act: Act, b: nat, max: int, w: View)
    requires Owned(id, v, b, max) && AllOwn(v, b) && Moves(id, v, act, max, w) && Recent(v, act, w.now)
    requires act.Born? ==> v.row.None? && v.snap.None?
    ensures AllOwn(w, NextBirth(v, act, b))
  {
    if act.Load? {
      AllOwnLoad(id, v, act, b, max, w);
    } else if act.Born? {
      assert v.rows == [];
    } else {
      AllOwnOther(id, v, act, b, max, w);
    }
  }

  lemma AllOwnLoad(id: Id, v: View, act: Act, b: nat, max: int, w: View)
    requires RowsAgree(v) && AllOwn(v, b) && Moves(id, v, act, max, w) && act.Load?
    ensures AllOwn(w, b)
  {
    if w.entry.Some? {
      ReadAreOwn(v.rows, act.events, b);
    }
  }

  lemma AllOwnOther(id: Id, v: View, act: Act, b: nat, max: int, w: View)
    requires AllOwn(v, b) && b <= |v.log| && Moves(id, v, act, max, w) && !act.Load? && !act.Born?
    ensures AllOwn(w, b)
  {
  }

  lemma ReadAreOwn(rows: seq<Event>, loaded: seq<Event>, b: nat)
    requires AllFrom(b, rows) && forall i :: 0 <= i < |loaded| ==> loaded[i] in rows
    ensures AllFrom(b, loaded)
  {
  }

  lemma {:induction false} AllOwnRun(c: Config, st: State, steps: seq<Step>, id: Id, b: nat)
    requires Filed(st) && Owned(id, ViewOf(st, id), b, c.max) && AllOwn(ViewOf(st, id), b) && Keeps(FreshNames, c, st, steps)
    ensures AllOwn(ViewOf(Run(c, st, steps), id), Birth(c, st, steps, id, b)) && Keeps(Orderly, c, st, steps)
    decreases |steps|
  {
    if steps != [] {
      FiledKept(c, st, steps[0]);
      OwnedStep(c, st, steps[0], id, b);
      AllOwnStep(c, st, steps[0], id, b);
      AllOwnRun(c, Next(c, st, steps[0]), steps[1..], id, NextBirth(ViewOf(st, id), ActOf(c, st, steps[0], id), b));
    }
  }

  lemma AllOwnStep(c: Config, st: State, step: Step, id: Id, b: nat)
    requires Filed(st) && Owned(id, ViewOf(st, id), b, c.max) && AllOwn(ViewOf(st, id), b) && Allowed(FreshNames, st, step)
    ensures AllOwn(ViewOf(Next(c, st, step), id), NextBirth(ViewOf(st, id), ActOf(c, st, step, id), b))
  {
    StepsMove(c, st, step, id);
    RecentSteps(c, st, step, id);
    AllOwnKept(id, ViewOf(st, id), ActOf(c, st, step, id), b, c.max, ViewOf(Next(c, st, step), id));
  }

  /** The rows against the window of which the first `k` events are stored. */
  ghost predicate Kept(e: Entry, k: int, pruned: bool, rows: seq<Event>) {
    && 0 <= k <= |e.events|
    && Suffix(e.events[..k], rows)
    && (!e.dirty ==> Suffix(e.events, rows))
    && (!pruned ==> rows == e.events[..k])
    && (!pruned && !e.dirty ==> rows == e.events)
  }

  /** Of an entry that lost nothing, the stored part is all of the rows. */
  lemma OwnAreAll(rows: seq<Event>, part: seq<Event>, b: nat)
    requires Suffix(part, rows) && Increasing(rows) && AllFrom(b, rows) && OwnIn(b, rows, part)
    ensures rows == part
  {
    assert rows != [] ==> rows[0] in rows;
  }

  lemma AllOwnIsKept(id: Id, v: View, b: nat, max: int)
    requires Owned(id, v, b, max) && AllOwn(v, b) && v.row.Some? && v.row.value.expiresAt > v.now
    ensures v.entry.Some? && Kept(v.entry.value, StoredPart(v, max), v.pruned, v.rows)
  {
    var e, k := v.entry.value, StoredPart(v, max);
    StoredIsSuffix(id, v, max);
    assert e.events[..|e.events|] == e.events;
    if !v.pruned {
      OwnAreAll(v.rows, e.events[..k], b);
    }
  }

  lemma FreshIsKept(c: Config, steps: seq<Step>, st: State, id: Id)
    requires Keeps(FreshNames, c, Init, steps) && st == Run(c, Init, steps)
    requires id in st.db.slugs && st.db.slugs[id].expiresAt > st.now
    ensures Keeps(Orderly, c, Init, steps)
    ensures id in st.mem && Kept(st.mem[id], StoredPart(ViewOf(st, id), c.max), PrunedIn(st, id), RowsOf(st.db.rows, id))
    ensures AllFrom(Birth(c, Init, steps, id, 0), RowsOf(st.db.rows, id))
  {
    InitKnown(c);
    AllOwnRun(c, Init, steps, id, 0);
    ReachedOwned(c, steps, st, id);
    AllOwnIsKept(id, ViewOf(st, id), Birth(c, Init, steps, id, 0), c.max);
  }

  /** If besides no ID is ever drawn that the store still knows, a restart brings every live slug
      back with exactly its stored rows; these end with the stored part of the window, and are that
      part unless something was evicted or cleared; so a clean slug has its whole window back. */
  lemma FreshRestartRoundTrip(c: Config, steps: seq<Step>, st: State, step: Step, id: Id)
    requires Keeps(FreshNames, c, Init, steps) && st == Run(c, Init, steps)
    requires step.Restart? && st.now <= step.t && LoadsFrom(st.db, step) && Allowed(FreshNames, st, step)
    requires id in st.db.slugs && st.db.slugs[id].expiresAt > step.t
    ensures id in st.mem && id in Next(c, st, step).mem
    ensures Next(c, st, step).mem[id] == LoadedEntry(st.mem[id].slug, st.gens, RowsOf(st.db.rows, id))
    ensures Kept(st.mem[id], StoredPart(ViewOf(st, id), c.max), PrunedIn(st, id), RowsOf(st.db.rows, id))
  {
    FreshIsKept(c, steps, st, id);
    RestartReads(c, st, step, id);
    FreshLosesNone(c, steps, st, id, step.earliest - SECOND);
  }

  lemma FreshLosesNone(c: Config, steps: seq<Step>, st: State, id: Id, cut: int)
    requires Keeps(FreshNames, c, Init, steps) && st == Run(c, Init, steps)
    requires id in st.db.slugs && st.db.slugs[id].expiresAt > st.now && cut < st.db.slugs[id].createdAt
    ensures id in st.mem && st.mem[id].slug == st.db.slugs[id]
    ensures EventsSince(RowsOf(st.db.rows, id), cut) == RowsOf(st.db.rows, id)
  {
    FreshIsKept(c, steps, st, id);
    ReachedOwned(c, steps, st, id);
    NoneOlder(id, ViewOf(st, id), Birth(c, Init, steps, id, 0), c.max, cut);
  }

  lemma NoneOlder(id: Id, v: View, b: nat, max: int, cut: int)
    requires Owned(id, v, b, max) && AllFrom(b, v.rows)
    requires v.row.Some? && v.row.value.expiresAt > v.now && cut < v.row.value.createdAt
    ensures v.entry.Some? && v.entry.value.slug == v.row.value && EventsSince(v.rows, cut) == v.rows
  {
    forall i | 0 <= i < |v.rows|
      ensures v.rows[i].at > cut
    {
      OwnIsDated(id, v, b, max, v.rows[i]);
    }
    EventsSinceKeepsAll(v.rows, cut);
  }
}
