/** Which events are lost, exactly, in any run: an acknowledgement that follows a clear can count
    events as flushed that no flush has seen, and nothing ever writes those. */
module Losses {
  import opened Records
  import opened Entries
  import opened Tables
  import opened Protocol
  import opened Views
  import opened ExactlyOnce

  /** How much of the window no later snapshot can take, whatever becomes of the flush: the part
      that counts as flushed now, and, if a flush has yet to be acknowledged or given up, will
      still count as flushed then. */
  function Reach(v: View): int
    requires v.entry.Some?
  {
    var f := v.entry.value.flushedCount;
    if !Same(v) then f else if v.stage.EventsPut? || Covered(v) < f then Covered(v) else f
  }

  /** An entry too full to record holds only events that were read from the store, an entry with
      unflushed events is dirty, and what waits to be acknowledged has been written. */
  ghost predicate Sane(v: View, max: int) {
    && (v.entry.Some? ==>
          if Oversized(v.entry.value, max) then forall e :: e in v.entry.value.events ==> e in v.journal
          else v.entry.value.flushedCount < |v.entry.value.events| ==> v.entry.value.dirty)
    && (v.snap.Some? && v.stage.EventsPut? ==> forall e :: e in v.snap.value.events ==> e in v.journal)
  }

  lemma SaneKept(id: Id, v: View, act: Act, max: int, w: View)
    requires Once(id, v, max) && Sane(v, max) && Moves(id, v, act, max, w)
    ensures Sane(w, max)
  {
    if act.Load? && w.entry.Some? {
      forall e | e in act.events
        ensures e in w.journal
      {
        assert e in v.rows;
      }
    }
  }

  /** Not written, in no snapshot, and in the window only where no later snapshot will take it. */
  ghost predicate Doomed(v: View, e: Event) {
    && e.no < |v.log|
    && e !in v.journal
    && (v.snap.Some? ==> e !in v.snap.value.events)
    && (v.entry.Some? ==> forall i :: 0 <= i < |v.entry.value.events| && v.entry.value.events[i] == e ==> i < Reach(v))
  }

  lemma DoomedRecord(id: Id, v: View, act: Act, max: int, w: View, e: Event)
    requires Once(id, v, max) && Sane(v, max) && Doomed(v, e) && Moves(id, v, act, max, w) && act.Rec?
    ensures Doomed(w, e)
  {
    var d, d' := v.entry.value, w.entry.value;
    forall i | 0 <= i < |d'.events| && d'.events[i] == e
      ensures i < Reach(w)
    {
      if !RecordPanics(d, max) {
        if |d.events| >= max {
          assert i < |d.events| - 1 && d.events[i + 1] == e;
        } else {
          assert i < |d.events| && d.events[i] == e;
        }
      }
    }
  }

  lemma DoomedSnap(id: Id, v: View, act: Act, max: int, w: View, e: Event)
    requires Once(id, v, max) && Doomed(v, e) && Moves(id, v, act, max, w) && act.Snap?
    ensures Doomed(w, e)
  {
    var d := v.entry.value;
    assert Covered(w) == |d.events|;
    forall j | 0 <= j < |Pending(d)|
      ensures Pending(d)[j] != e
    {
      assert Pending(d)[j] == d.events[d.flushedCount + j];
    }
  }

  lemma DoomedOther(id: Id, v: View, act: Act, max: int, w: View, e: Event)
    requires Once(id, v, max) && Doomed(v, e) && Moves(id, v, act, max, w) && !act.Rec? && !act.Snap?
    ensures Doomed(w, e)
  {
    if act.Load? && w.entry.Some? {
      assert forall x :: x in act.events ==> x in v.rows;
    }
  }

  lemma DoomedKept(id: Id, v: View, act: Act, max: int, w: View, e: Event)
    requires Once(id, v, max) && Sane(v, max) && Doomed(v, e) && Moves(id, v, act, max, w)
    ensures Doomed(w, e)
  {
    if act.Rec? {
      DoomedRecord(id, v, act, max, w, e);
    } else if act.Snap? {
      DoomedSnap(id, v, act, max, w, e);
    } else {
      DoomedOther(id, v, act, max, w, e);
    }
  }

  ghost predicate AllSane(c: Config, st: State) {
    AllOnce(c, st) && forall id :: Sane(ViewOf(st, id), c.max)
  }

  lemma AllSaneStep(c: Config, st: State, step: Step)
    requires AllSane(c, st)
    ensures AllSane(c, Next(c, st, step))
  {
    AllOnceStep(c, st, step);
    forall id
      ensures Sane(ViewOf(Next(c, st, step), id), c.max)
    {
      StepsMove(c, st, step, id);
      SaneKept(id, ViewOf(st, id), ActOf(c, st, step, id), c.max, ViewOf(Next(c, st, step), id));
    }
  }

  lemma {:induction false} AllSaneRun(c: Config, st: State, steps: seq<Step>)
    requires AllSane(c, st)
    ensures AllSane(c, Run(c, st, steps))
    decreases |steps|
  {
    if steps != [] {
      AllSaneStep(c, st, steps[0]);
      AllSaneRun(c, Next(c, st, steps[0]), steps[1..]);
    }
  }

  lemma {:induction false} DoomedRun(c: Config, st: State, more: seq<Step>, id: Id, e: Event)
    requires AllSane(c, st) && Doomed(ViewOf(st, id), e)
    ensures EventRow(id, e) !in Run(c, st, more).journal
    decreases |more|
  {
    if more == [] {
      RowsOfMember(st.journal, id, e);
    } else {
      var st' := Next(c, st, more[0]);
      AllSaneStep(c, st, more[0]);
      StepsMove(c, st, more[0], id);
      DoomedKept(id, ViewOf(st, id), ActOf(c, st, more[0], id), c.max, ViewOf(st', id), e);
      DoomedRun(c, st', more[1..], id, e);
    }
  }

  // ---- Continuations that write what can still be written ----

  lemma RunTwo(c: Config, st: State, a: Step, b: Step)
    ensures Run(c, st, [a, b]) == Next(c, Next(c, st, a), b)
  {
    assert [a, b] == [a] + [b];
    RunOn(c, st, [a], [b]);
    RunOne(c, st, a);
    RunOne(c, Next(c, st, a), b);
  }

  /** An abandoned flush leaves the entry of `id` as it is. */
  lemma GiveUp(c: Config, st: State, id: Id) returns (more: seq<Step>)
    requires Filed(st) && id in st.mem
    requires !(st.cursor == Inserted(id) && Registered(st, st.todo[id]))
    ensures
      var st' := Run(c, st, more);
      st'.todo == map[] && st'.cursor == Between && id in st'.mem && st'.mem[id] == st.mem[id] && st'.journal == st.journal
  {
    match st.cursor
    case Between => more := GiveUpBetween(c, st);
    case SlugPut(y) =>
      more := [PutEvents(false)];
      RunOne(c, st, PutEvents(false));
    case Inserted(y) =>
      var st1 := Next(c, st, Ack);
      FiledKept(c, st, Ack);
      var rest := GiveUpBetween(c, st1);
      more := [Ack] + rest;
      RunOne(c, st, Ack);
      RunOn(c, st, [Ack], rest);
  }

  lemma GiveUpBetween(c: Config, st: State) returns (more: seq<Step>)
    requires Filed(st) && st.cursor == Between
    ensures Run(c, st, more) == AbortFlush(st)
  {
    if st.todo == map[] {
      more := [];
    } else {
      var y :| y in st.todo;
      more := [PutSlug(y, false)];
      RunOne(c, st, PutSlug(y, false));
    }
  }

  /** Completing what is under way for one slug at the cursor. */
  lemma FinishAtCursor(c: Config, st: State) returns (more: seq<Step>)
    requires Filed(st) && !st.cursor.Between?
    ensures
      var st', y := Run(c, st, more), st.cursor.id;
      && Filed(st') && st'.cursor == Between && st'.todo == st.todo - {y}
      && st'.mem == (if Registered(st, st.todo[y]) then st.mem[y := AckEntry(st.mem[y], st.todo[y].snapshotLen)] else st.mem)
  {
    if st.cursor.SlugPut? {
      more := [PutEvents(true), Ack];
      RunTwo(c, st, PutEvents(true), Ack);
      FiledKept(c, st, PutEvents(true));
      FiledKept(c, Next(c, st, PutEvents(true)), Ack);
    } else {
      more := [Ack];
      RunOne(c, st, Ack);
      FiledKept(c, st, Ack);
    }
  }

  /** Completing the flush of one slug that is in flight. */
  lemma Finish(c: Config, st: State, id: Id) returns (more: seq<Step>)
    requires Filed(st) && id in st.todo && Registered(st, st.todo[id])
    ensures
      var st' := Run(c, st, more);
      && Filed(st') && id !in st'.todo && id in st'.mem
      && st'.mem[id] == AckEntry(st.mem[id], st.todo[id].snapshotLen)
  {
    if st.cursor.Between? {
      var st1 := Next(c, st, PutSlug(id, true));
      FiledKept(c, st, PutSlug(id, true));
      var rest := FinishAtCursor(c, st1);
      more := [PutSlug(id, true)] + rest;
      RunOne(c, st, PutSlug(id, true));
      RunOn(c, st, [PutSlug(id, true)], rest);
    } else {
      var first := FinishAtCursor(c, st);
      if st.cursor.id == id {
        more := first;
      } else {
        var st1 := Run(c, st, first);
        var st2 := Next(c, st1, PutSlug(id, true));
        FiledKept(c, st1, PutSlug(id, true));
        var rest := FinishAtCursor(c, st2);
        more := first + ([PutSlug(id, true)] + rest);
        RunOn(c, st, first, [PutSlug(id, true)] + rest);
        RunOn(c, st1, [PutSlug(id, true)], rest);
        RunOne(c, st1, PutSlug(id, true));
      }
    }
  }

  /** A flush of a dirty entry writes every event of its window from `flushedCount` on. */
  lemma FlushWrites(c: Config, st: State, id: Id, i: nat) returns (more: seq<Step>)
    requires Filed(st) && st.todo == map[] && id in st.mem && st.mem[id].dirty
    requires 0 <= st.mem[id].flushedCount <= i < |st.mem[id].events|
    ensures EventRow(id, st.mem[id].events[i]) in Run(c, st, more).journal
  {
    var e := st.mem[id];
    var st1 := Next(c, st, Collect);
    var st2 := Next(c, st1, PutSlug(id, true));
    var j := i - e.flushedCount;
    assert id in st1.todo && st1.cursor == Between && st1.todo[id].events == Pending(e) && Pending(e)[j] == e.events[i];
    assert st2.cursor == SlugPut(id);
    var rows := RowsFor(id, Pending(e));
    assert Next(c, st2, PutEvents(true)).journal == st2.journal + rows && rows[j] == EventRow(id, e.events[i]);
    more := [Collect] + [PutSlug(id, true), PutEvents(true)];
    RunOn(c, st, [Collect], [PutSlug(id, true), PutEvents(true)]);
    RunOne(c, st, Collect);
    RunTwo(c, st1, PutSlug(id, true), PutEvents(true));
  }

  /** From any state in which an unwritten event is past `flushedCount`, with its own slug not
      about to be acknowledged. */
  lemma GiveUpAndFlush(c: Config, st: State, id: Id, i: nat) returns (more: seq<Step>)
    requires AllSane(c, st) && id in st.mem && 0 <= st.mem[id].flushedCount <= i < |st.mem[id].events|
    requires !(st.cursor == Inserted(id) && Registered(st, st.todo[id]))
    requires EventRow(id, st.mem[id].events[i]) !in st.journal
    ensures EventRow(id, st.mem[id].events[i]) in Run(c, st, more).journal
  {
    var first := GiveUp(c, st, id);
    var st1 := Run(c, st, first);
    AllSaneRun(c, st, first);
    RowsOfMember(st1.journal, id, st.mem[id].events[i]);
    assert Sane(ViewOf(st1, id), c.max) && st1.mem[id].dirty;
    var rest := FlushWrites(c, st1, id, i);
    more := first + rest;
    RunOn(c, st, first, rest);
  }

  lemma CanBeWritten(c: Config, st: State, id: Id, i: nat) returns (more: seq<Step>)
    requires AllSane(c, st) && id in st.mem && i < |st.mem[id].events| && i >= Reach(ViewOf(st, id))
    requires EventRow(id, st.mem[id].events[i]) !in st.journal
    ensures EventRow(id, st.mem[id].events[i]) in Run(c, st, more).journal
  {
    var v := ViewOf(st, id);
    assert Once(id, v, c.max);
    if Same(v) && (v.stage.EventsPut? || i < st.mem[id].flushedCount) {
      var first := Finish(c, st, id);
      var st1 := Run(c, st, first);
      AllSaneRun(c, st, first);
      if EventRow(id, st.mem[id].events[i]) in st1.journal {
        more := first;
      } else {
        var rest := GiveUpAndFlush(c, st1, id, i);
        more := first + rest;
        RunOn(c, st, first, rest);
      }
    } else {
      more := GiveUpAndFlush(c, st, id, i);
    }
  }

  /** What is in a snapshot in flight is written by letting the flush go on. */
  lemma SnapshotCanBeWritten(c: Config, st: State, id: Id, e: Event) returns (more: seq<Step>)
    requires Filed(st) && id in st.todo && st.cursor != Inserted(id) && e in st.todo[id].events
    ensures EventRow(id, e) in Run(c, st, more).journal
  {
    if st.cursor == SlugPut(id) {
      more := [PutEvents(true)];
      RunOne(c, st, PutEvents(true));
      RowsHold(st.journal, id, st.todo[id].events, e);
    } else if st.cursor.Between? {
      more := [PutSlug(id, true), PutEvents(true)];
      RunTwo(c, st, PutSlug(id, true), PutEvents(true));
      RowsHold(st.journal, id, st.todo[id].events, e);
    } else {
      var first := FinishAtCursor(c, st);
      var st1 := Run(c, st, first);
      var rest := [PutSlug(id, true), PutEvents(true)];
      more := first + rest;
      RunOn(c, st, first, rest);
      RunTwo(c, st1, PutSlug(id, true), PutEvents(true));
      RowsHold(st1.journal, id, st1.todo[id].events, e);
    }
  }

  lemma RowsHold(journal: seq<EventRow>, id: Id, events: seq<Event>, e: Event)
    requires e in events
    ensures EventRow(id, e) in journal + RowsFor(id, events)
  {
    var j :| 0 <= j < |events| && events[j] == e;
    assert RowsFor(id, events)[j] == EventRow(id, e);
  }

  lemma InitSane(c: Config)
    ensures AllSane(c, Init)
  {
    forall id
      ensures Once(id, ViewOf(Init, id), c.max)
    {
      assert RowsOf([], id) == [];
    }
  }

  /** Which events of a live entry are lost, in every run.  An unwritten event of the window is
      written by some continuation if and only if it is in the snapshot in flight or stands past
      the reach of the counters; every other one is written by no continuation, though its entry
      is live and may even be clean. */
  lemma LostExactly(c: Config, steps: seq<Step>, st: State, id: Id, e: Event)
    requires st == Run(c, Init, steps) && id in st.mem && e in st.mem[id].events && EventRow(id, e) !in st.journal
    ensures
      || (id in st.todo && e in st.todo[id].events)
      || (exists i :: 0 <= i < |st.mem[id].events| && st.mem[id].events[i] == e && i >= Reach(ViewOf(st, id)))
      <==>
      exists more :: EventRow(id, e) in Run(c, st, more).journal
  {
    InitSane(c);
    AllSaneRun(c, Init, steps);
    var v := ViewOf(st, id);
    assert Once(id, v, c.max) && Sane(v, c.max);
    RowsOfMember(st.journal, id, e);
    if id in st.todo && e in st.todo[id].events {
      var more := SnapshotCanBeWritten(c, st, id, e);
    } else if i: int :| 0 <= i < |st.mem[id].events| && st.mem[id].events[i] == e && i >= Reach(v) {
      var more := CanBeWritten(c, st, id, i);
    } else {
      assert Doomed(v, e);
      forall more
        ensures EventRow(id, e) !in Run(c, st, more).journal
      {
        DoomedRun(c, st, more, id, e);
      }
    }
  }

  /** An acknowledgement leaves pending exactly what the snapshot does not cover, wherever
      `flushedCount` stood before: so what a collection passed over stays passed over, and what
      was recorded after it is written by the next. */
  lemma AckResumes(c: Config, steps: seq<Step>, st: State, id: Id)
    requires st == Run(c, Init, steps) && st.cursor == Inserted(id) && id in st.todo && Registered(st, st.todo[id])
    ensures id in st.mem
    ensures
      var events, k, after := st.mem[id].events, Reach(ViewOf(st, id)), Next(c, st, Ack).mem[id];
      && after.events == events
      && Pending(after) == (if 0 <= k < |events| then events[k..] else [])
      && (after.dirty <==> Pending(after) != [])
  {
    InitSane(c);
    AllSaneRun(c, Init, steps);
    assert Once(id, ViewOf(st, id), c.max);
  }
}
