/** What subscribers and streams must get, read off the steps of a run alone. */
module Histories {
  import opened Records
  import opened Entries
  import opened EntryRuns
  import opened Recordings
  import opened Channels
  import opened PubSub
  import opened PubSubSafety
  import opened Streams
  import Tables

  // ---- Windows and the log ----

  /** How one step changes the calls recorded for a slug since it was created or last cleared. */
  function CallsNow(before: Option<seq<Call>>, step: Step, id: Id): Option<seq<Call>> {
    match step
    case Create(slug) => if slug.id == id && before.None? then Some([]) else before
    case Record(i, kind, ip, at, data) =>
      if i == id && before.Some? then Some(before.value + [Call(kind, ip, data, at)]) else before
    case Clear(i) => if i == id && before.Some? then Some([]) else before
    case Remove(i) => if i == id then None else before
    case _ => before
  }

  /** The calls recorded for a slug since it was created or last cleared; none if it is gone. */
  function LiveCalls(steps: seq<Step>, id: Id): Option<seq<Call>> {
    if steps == [] then None else
    CallsNow(LiveCalls(steps[..|steps| - 1], id), steps[|steps| - 1], id)
  }

  /** Every call ever recorded for a slug that was registered at the time; with a cap below one
      record calls panic. */
  function AllCalls(steps: seq<Step>, id: Id, max: int): seq<Call> {
    if steps == [] then [] else
    var n := |steps| - 1;
    var before := AllCalls(steps[..n], id, max);
    match steps[n]
    case Record(i, kind, ip, at, data) =>
      if i == id && max >= 1 && LiveCalls(steps[..n], id).Some? then before + [Call(kind, ip, data, at)] else before
    case _ => before
  }

  lemma {:induction false} RunSnoc(max: int, lookup: string -> Info, st: State, steps: seq<Step>, step: Step)
    ensures Run(max, lookup, st, steps + [step]) ==
              match Run(max, lookup, st, steps) case None => None case Some(end) => Next(max, lookup, end, step)
    decreases |steps|
  {
    if steps == [] {
      assert [] + [step] == [step] && [step][1..] == [];
    } else {
      assert (steps + [step])[0] == steps[0] && (steps + [step])[1..] == steps[1..] + [step];
      match Next(max, lookup, st, steps[0])
      case None =>
      case Some(st') => RunSnoc(max, lookup, st', steps[1..], step);
    }
  }

  /** The state before the last step of a run. */
  lemma RunInit(max: int, lookup: string -> Info, steps: seq<Step>, st: State) returns (before: State)
    requires Run(max, lookup, Init, steps) == Some(st) && steps != []
    ensures Run(max, lookup, Init, steps[..|steps| - 1]) == Some(before)
    ensures Next(max, lookup, before, steps[|steps| - 1]) == Some(st)
  {
    var n := |steps| - 1;
    assert steps == steps[..n] + [steps[n]];
    RunSnoc(max, lookup, Init, steps[..n], steps[n]);
    before := Run(max, lookup, Init, steps[..n]).value;
  }

  ghost predicate WindowIs(st: State, id: Id, calls: Option<seq<Call>>, max: int) {
    && (id in st.mem <==> calls.Some?)
    && (id in st.mem ==> CallsOf(st.mem[id].entry.events) == LastN(calls.value, max))
  }

  lemma WindowNext(max: int, lookup: string -> Info, st: State, step: Step, st': State, id: Id, calls: seq<Call>)
    requires Next(max, lookup, st, step) == Some(st') && WindowIs(st, id, Some(calls), max) && step.Record? && step.id == id
    ensures WindowIs(st', id, Some(calls + [Call(step.kind, step.sourceIP, step.data, step.at)]), max)
    ensures !RecordPanics(st.mem[id].entry, max) <==> max >= 1
  {
    var e, ev := st.mem[id].entry, Event(|st.log|, step.kind, step.sourceIP, step.at, step.data);
    assert |CallsOf(e.events)| == |e.events|;
    if max >= 1 {
      LastNAppend(calls, CallOf(ev), max);
      CallsOfAppend(e.events, ev);
      if |e.events| >= max {
        CallsOfAppend(e.events[1..], ev);
        assert CallsOf(e.events[1..]) == CallsOf(e.events)[1..];
      }
    }
  }

  /** Windows in runs: a slug is registered exactly if it was created and not removed since, and its
      window is then the newest `max` of the calls recorded since, or since the latest clear. */
  lemma {:induction false} WindowsOfRun(max: int, lookup: string -> Info, steps: seq<Step>, st: State, id: Id)
    requires Run(max, lookup, Init, steps) == Some(st)
    ensures WindowIs(st, id, LiveCalls(steps, id), max)
  {
    if steps != [] {
      var n := |steps| - 1;
      var before := RunInit(max, lookup, steps, st);
      WindowsOfRun(max, lookup, steps[..n], before, id);
      WindowStep(max, lookup, before, steps[n], st, id, LiveCalls(steps[..n], id), LiveCalls(steps, id));
    }
  }

  lemma WindowStep(max: int, lookup: string -> Info, st: State, step: Step, st': State, id: Id,
                   calls: Option<seq<Call>>, calls': Option<seq<Call>>)
    requires Next(max, lookup, st, step) == Some(st') && WindowIs(st, id, calls, max) && calls' == CallsNow(calls, step, id)
    ensures WindowIs(st', id, calls', max)
  {
    if step.Record? && step.id == id && id in st.mem {
      WindowNext(max, lookup, st, step, st', id, calls.value);
    } else if id in st.mem && id in st'.mem {
      assert st'.mem[id].entry.events == st.mem[id].entry.events || step == Step.Clear(id);
    }
  }

  /** The log of a run holds, for each slug, every call recorded for it while it was registered. */
  lemma {:induction false} LogOfRun(max: int, lookup: string -> Info, steps: seq<Step>, st: State, id: Id)
    requires Run(max, lookup, Init, steps) == Some(st)
    ensures CallsOf(Tables.RowsOf(st.log, id)) == AllCalls(steps, id, max)
  {
    if steps != [] {
      var n := |steps| - 1;
      var before := RunInit(max, lookup, steps, st);
      LogOfRun(max, lookup, steps[..n], before, id);
      WindowsOfRun(max, lookup, steps[..n], before, id);
      LogStep(max, lookup, before, steps[n], st, id, LiveCalls(steps[..n], id));
    }
  }

  /** The log after a step. */
  lemma LogStep(max: int, lookup: string -> Info, st: State, step: Step, st': State, id: Id, calls: Option<seq<Call>>)
    requires Next(max, lookup, st, step) == Some(st') && WindowIs(st, id, calls, max)
    ensures CallsOf(Tables.RowsOf(st'.log, id)) == CallsOf(Tables.RowsOf(st.log, id)) +
              if step.Record? && step.id == id && max >= 1 && calls.Some?
              then [Call(step.kind, step.sourceIP, step.data, step.at)] else []
  {
    var logged := CallsOf(Tables.RowsOf(st.log, id));
    assert logged + [] == logged;
    if step.Record? && step.id in st.mem {
      var ev := Event(|st.log|, step.kind, step.sourceIP, step.at, step.data);
      Tables.RowsOfConcat(st.log, [EventRow(step.id, ev)], id);
      if step.id == id {
        WindowNext(max, lookup, st, step, st', id, calls.value);
        CallsOfAppend(Tables.RowsOf(st.log, id), ev);
        assert Tables.RowsOf([EventRow(id, ev)], id) == [ev];
      } else {
        assert Tables.RowsOf([EventRow(step.id, ev)], id) == [];
        assert Tables.RowsOf(st.log, id) + [] == Tables.RowsOf(st.log, id);
      }
    }
  }

  // ---- Histories ----

  /** The position of the step at which a stream took its history. */
  function TakenAt(steps: seq<Step>, s: nat): Option<nat> {
    if steps == [] then None else
    var n := |steps| - 1;
    var before := TakenAt(steps[..n], s);
    if before.None? && steps[n].TakeHistory? && steps[n].s == s then Some(n) else before
  }

  /** What a stream must have taken at step `k`: the window's calls at that moment. */
  function WindowCalls(steps: seq<Step>, id: Id, max: int): seq<Call> {
    match LiveCalls(steps, id)
    case None => []
    case Some(calls) => LastN(calls, max)
  }

  ghost predicate HistoryIs(st: State, steps: seq<Step>, s: nat, k: nat, max: int) {
    && k < |steps| && steps[k].TakeHistory? && s in st.streams
    && var t := st.streams[s];
    && t.slug == steps[k].id
    && CallsOf(t.history) == WindowCalls(steps[..k], t.slug, max)
    && t.mark <= |st.log|
    && CallsOf(Tables.RowsOf(st.log[..t.mark], t.slug)) == AllCalls(steps[..k], t.slug, max)
  }

  lemma HistoryStep(max: int, lookup: string -> Info, st: State, step: Step, st': State, s: nat)
    requires Next(max, lookup, st, step) == Some(st')
    ensures st.log <= st'.log
    ensures s in st.streams ==>
              s in st'.streams && st'.streams[s].slug == st.streams[s].slug
              && st'.streams[s].history == st.streams[s].history && st'.streams[s].mark == st.streams[s].mark
    ensures s !in st.streams && s in st'.streams ==> step.TakeHistory? && step.s == s
    ensures s !in st.streams && step.TakeHistory? && step.s == s ==>
              && s in st'.streams && st'.streams[s].slug == step.id && st'.streams[s].mark == |st.log| && st'.log == st.log
              && st'.streams[s].history == if step.id in st.mem then st.mem[step.id].entry.events else []
  {
  }

  /** The history of a stream, in every run, is the newest `max` of the calls recorded for its slug
      since it was created or last cleared, before the step at which it was taken; its mark divides
      the log at that step. */
  lemma {:induction false} HistoryOfRun(max: int, lookup: string -> Info, steps: seq<Step>, st: State, s: nat)
    requires Run(max, lookup, Init, steps) == Some(st)
    ensures s in st.streams <==> TakenAt(steps, s).Some?
    ensures s in st.streams ==> HistoryIs(st, steps, s, TakenAt(steps, s).value, max)
  {
    if steps != [] {
      var n := |steps| - 1;
      var before := RunInit(max, lookup, steps, st);
      HistoryOfRun(max, lookup, steps[..n], before, s);
      HistoryStep(max, lookup, before, steps[n], st, s);
      if s in before.streams {
        var k := TakenAt(steps[..n], s).value;
        assert steps[..n][..k] == steps[..k];
        assert st.log[..st.streams[s].mark] == before.log[..st.streams[s].mark];
      } else if s in st.streams {
        WindowsOfRun(max, lookup, steps[..n], before, steps[n].id);
        LogOfRun(max, lookup, steps[..n], before, steps[n].id);
        assert st.log[..|st.log|] == st.log;
      }
    }
  }

  /** The calls recorded for a slug from step `k` on. */
  function CallsSince(steps: seq<Step>, k: nat, id: Id, max: int): seq<Call>
    requires k <= |steps|
  {
    var all, before := AllCalls(steps, id, max), AllCalls(steps[..k], id, max);
    if |before| <= |all| then all[|before|..] else []
  }

  lemma CallsOfConcat(a: seq<Event>, b: seq<Event>)
    ensures CallsOf(a + b) == CallsOf(a) + CallsOf(b)
  {
  }

  lemma SinceAre(max: int, lookup: string -> Info, steps: seq<Step>, st: State, s: nat)
    requires Run(max, lookup, Init, steps) == Some(st) && s in st.streams
    requires TakenAt(steps, s).Some? && HistoryIs(st, steps, s, TakenAt(steps, s).value, max)
    ensures CallsOf(Since(st.streams[s], st.log)) == CallsSince(steps, TakenAt(steps, s).value, st.streams[s].slug, max)
  {
    var t := st.streams[s];
    LogOfRun(max, lookup, steps, st, t.slug);
    assert st.log == st.log[..t.mark] + st.log[t.mark..];
    Tables.RowsOfConcat(st.log[..t.mark], st.log[t.mark..], t.slug);
    CallsOfConcat(Tables.RowsOf(st.log[..t.mark], t.slug), Since(t, st.log));
  }

  /** What a client that has missed nothing has, in every run and read off its steps: the newest
      `max` calls of its slug when its history was taken, and every call recorded for the slug
      since.  It has missed nothing exactly when no call was recorded between history and
      subscription, and every one since was offered, found room and was taken. */
  lemma ClientHasAll(max: int, lookup: string -> Info, steps: seq<Step>, st: State, s: nat)
    requires Run(max, lookup, Init, steps) == Some(st) && s in st.streams && st.streams[s].chan.Some?
    ensures st.streams[s].chan.value in st.chans && TakenAt(steps, s).Some? && TakenAt(steps, s).value < |steps|
    ensures
      var t, c, k := st.streams[s], st.chans[st.streams[s].chan.value], TakenAt(steps, s).value;
      && steps[k] == TakeHistory(s, t.slug) && t.mark <= c.start <= |st.log|
      && CallsOf(t.history) == WindowCalls(steps[..k], t.slug, max)
      && (Tables.RowsOf(st.log[t.mark..c.start], t.slug) == [] && (forall i :: 0 <= i < |c.rooms| ==> c.rooms[i])
            && c.buf == [] && c.offered == Tables.RowsOf(st.log[c.start..], t.slug)
          <==> DataOf(t.out) == t.history + Since(t, st.log))
      && (DataOf(t.out) == t.history + Since(t, st.log) ==>
            CallsOf(DataOf(t.out)) == WindowCalls(steps[..k], t.slug, max) + CallsSince(steps, k, t.slug, max))
  {
    HistoryOfRun(max, lookup, steps, st, s);
    TakenBy(steps, s);
    StreamMissesNothing(max, lookup, steps, st, s);
    SinceAre(max, lookup, steps, st, s);
    CallsOfConcat(st.streams[s].history, Since(st.streams[s], st.log));
  }

  lemma {:induction false} TakenBy(steps: seq<Step>, s: nat)
    ensures
      var k := TakenAt(steps, s);
      k.Some? ==> k.value < |steps| && steps[k.value].TakeHistory? && steps[k.value].s == s
  {
    if steps != [] {
      TakenBy(steps[..|steps| - 1], s);
    }
  }
}
