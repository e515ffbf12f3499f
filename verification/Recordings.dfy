/** What runs of the registry and store machine record, read off the steps: no record call is
    refused, and a slug's window is the newest of its calls. */
module Recordings {
  import opened Records
  import opened Entries
  import opened EntryRuns
  import opened Tables
  import opened Protocol
  import opened Views
  import opened ExactlyOnce

  /** What a record call is given, and when. */
  datatype Call = Call(kind: string, sourceIP: string, data: string, at: int)

  function CallOf(ev: Event): Call {
    Call(ev.kind, ev.sourceIP, ev.data, ev.at)
  }

  function CallsOf(events: seq<Event>): seq<Call> {
    seq(|events|, i requires 0 <= i < |events| => CallOf(events[i]))
  }

  lemma CallsOfAppend(events: seq<Event>, ev: Event)
    ensures CallsOf(events + [ev]) == CallsOf(events) + [CallOf(ev)]
  {
  }

  /** A record call for a registered slug is never refused, whatever the window holds and wherever a
      flush stands: exactly one event is logged, that of the call, and it is the newest of the
      window; no other slug and nothing in the store changes. */
  lemma RecordIsNeverRefused(c: Config, st: State, step: Step)
    requires step.Record? && step.id in st.mem && !RecordPanics(st.mem[step.id], c.max)
    ensures step.id in Next(c, st, step).mem
    ensures
      var st' := Next(c, st, step);
      var window := st'.mem[step.id].events;
      && |st'.log| == |st.log| + 1 && st'.log[..|st.log|] == st.log
      && st'.log[|st.log|].slug == step.id
      && st'.log[|st.log|].event.no == |st.log|
      && CallOf(st'.log[|st.log|].event) == Call(step.kind, step.sourceIP, step.data, st.now)
      && window != [] && window[|window| - 1] == st'.log[|st.log|].event
      && st'.mem - {step.id} == st.mem - {step.id} && st'.db == st.db && st'.now == st.now
  {
  }

  /** The calls of a slug's window after some steps: those of `calls`, then one for each record
      step, as long as there was no clear. */
  function CallsAfter(calls: seq<Call>, now: int, steps: seq<Step>, id: Id): seq<Call>
    decreases |steps|
  {
    if steps == [] then calls else
    match steps[0]
    case Tick(t) => CallsAfter(calls, if t < now then now else t, steps[1..], id)
    case Record(i, kind, ip, data) =>
      CallsAfter(if i == id then calls + [Call(kind, ip, data, now)] else calls, now, steps[1..], id)
    case Clear(i) => CallsAfter(if i == id then [] else calls, now, steps[1..], id)
    case _ => CallsAfter(calls, now, steps[1..], id)
  }

  ghost predicate Lives(st: State, id: Id, gen: nat) {
    id in st.mem && st.mem[id].gen == gen
  }

  ghost predicate Holds(c: Config, st: State, id: Id, calls: seq<Call>) {
    id in st.mem && CallsOf(st.mem[id].events) == LastN(calls, c.max)
  }

  lemma HoldsRecord(c: Config, st: State, step: Step, calls: seq<Call>)
    requires step.Record? && Holds(c, st, step.id, calls)
    ensures Holds(c, Next(c, st, step), step.id, calls + [Call(step.kind, step.sourceIP, step.data, st.now)])
  {
    var e, call := st.mem[step.id], Call(step.kind, step.sourceIP, step.data, st.now);
    assert |CallsOf(e.events)| == |e.events|;
    if c.max >= 1 {
      var ev := NewEvent(st, step);
      LastNAppend(calls, call, c.max);
      CallsOfAppend(e.events, ev);
      if |e.events| >= c.max {
        CallsOfAppend(e.events[1..], ev);
        assert CallsOf(e.events[1..]) == CallsOf(e.events)[1..];
      }
    }
  }

  lemma HoldsOther(c: Config, st: State, step: Step, id: Id, gen: nat, calls: seq<Call>)
    requires Filed(st) && Holds(c, st, id, calls) && Lives(st, id, gen) && Lives(Next(c, st, step), id, gen)
    requires !(step.Record? && step.id == id) && !(step.Clear? && step.id == id)
    ensures Holds(c, Next(c, st, step), id, calls)
  {
    assert Next(c, st, step).mem[id].events == st.mem[id].events;
  }

  /** The clock is the latest one told, while an entry lives. */
  lemma ClockTicks(c: Config, st: State, step: Step, id: Id, gen: nat)
    requires gen < st.gens && Lives(Next(c, st, step), id, gen)
    ensures Next(c, st, step).now == if step.Tick? && step.t >= st.now then step.t else st.now
  {
  }

  lemma GoneStep(c: Config, st: State, step: Step, id: Id, gen: nat)
    requires Filed(st) && gen < st.gens && !Lives(st, id, gen)
    ensures gen < Next(c, st, step).gens && !Lives(Next(c, st, step), id, gen)
  {
  }

  lemma GensGrow(c: Config, st: State, step: Step)
    ensures st.gens <= Next(c, st, step).gens
  {
  }

  /** Once gone, an entry does not come back; another one may be filed under its ID. */
  lemma {:induction false} GoneForGood(c: Config, st: State, steps: seq<Step>, id: Id, gen: nat)
    requires Filed(st) && gen < st.gens && !Lives(st, id, gen)
    ensures !Lives(Run(c, st, steps), id, gen)
    decreases |steps|
  {
    if steps != [] {
      FiledKept(c, st, steps[0]);
      GoneStep(c, st, steps[0], id, gen);
      GoneForGood(c, Next(c, st, steps[0]), steps[1..], id, gen);
    }
  }

  /** The calls after one step. */
  function CallsNext(calls: seq<Call>, now: int, step: Step, id: Id): seq<Call> {
    if step.Record? && step.id == id then calls + [Call(step.kind, step.sourceIP, step.data, now)]
    else if step.Clear? && step.id == id then []
    else calls
  }

  lemma HoldsStep(c: Config, st: State, step: Step, id: Id, gen: nat, calls: seq<Call>)
    requires Filed(st) && Holds(c, st, id, calls) && Lives(st, id, gen) && Lives(Next(c, st, step), id, gen)
    ensures Holds(c, Next(c, st, step), id, CallsNext(calls, st.now, step, id))
  {
    if step.Record? && step.id == id {
      HoldsRecord(c, st, step, calls);
    } else if step.Clear? && step.id == id {
      assert Next(c, st, step).mem[id].events == [];
    } else {
      HoldsOther(c, st, step, id, gen, calls);
    }
  }

  lemma CallsAfterCons(calls: seq<Call>, now: int, steps: seq<Step>, id: Id)
    requires steps != []
    ensures
      var step := steps[0];
      CallsAfter(calls, now, steps, id) ==
        CallsAfter(CallsNext(calls, now, step, id), if step.Tick? && step.t >= now then step.t else now, steps[1..], id)
  {
  }

  lemma {:induction false} WindowFollows(c: Config, st: State, steps: seq<Step>, id: Id, gen: nat, calls: seq<Call>)
    requires Filed(st) && gen < st.gens && Lives(st, id, gen) && Holds(c, st, id, calls)
    requires Lives(Run(c, st, steps), id, gen)
    ensures Holds(c, Run(c, st, steps), id, CallsAfter(calls, st.now, steps, id))
    decreases |steps|
  {
    if steps != [] {
      FiledKept(c, st, steps[0]);
      GensGrow(c, st, steps[0]);
      if !Lives(Next(c, st, steps[0]), id, gen) {
        GoneForGood(c, Next(c, st, steps[0]), steps[1..], id, gen);
      } else {
        ClockTicks(c, st, steps[0], id, gen);
        HoldsStep(c, st, steps[0], id, gen, calls);
        WindowFollows(c, Next(c, st, steps[0]), steps[1..], id, gen, CallsNext(calls, st.now, steps[0], id));
        CallsAfterCons(calls, st.now, steps, id);
      }
    }
  }

  /** A registered slug stays, under the same entry, through every step but a delete of it, a
      cleanup that finds it expired, and a restart. */
  lemma EntryStays(c: Config, st: State, step: Step, id: Id)
    requires Filed(st) && id in st.mem
    requires !((step.MemDelete? || step.Delete?) && step.id == id) && !step.Restart?
    requires step.Cleanup? ==> st.now <= st.mem[id].slug.expiresAt
    ensures Lives(Next(c, st, step), id, st.mem[id].gen) && Next(c, st, step).mem[id].slug == st.mem[id].slug
  {
  }

  /** The window on runs.  A slug that is drawn gets an empty window; and for as long as its entry
      lives, whatever the steps, the window is the newest `max` of the record calls made for it
      since, or since the latest clear, each with what the call was given and the clock. */
  lemma WindowOfRun(c: Config, steps: seq<Step>, st: State, id: Id, owner: string, more: seq<Step>)
    requires st == Run(c, Init, steps) && id !in st.mem
    ensures
      var born := Next(c, st, Create(id, owner));
      && id in born.mem && born.mem[id].events == [] && born.mem[id].slug == Slug(id, owner, st.now, st.now + c.ttl)
      && (Lives(Run(c, born, more), id, born.mem[id].gen) ==>
            CallsOf(Run(c, born, more).mem[id].events) == LastN(CallsAfter([], st.now, more, id), c.max))
  {
    AllOnceRun(c, Init, steps);
    var born := Next(c, st, Create(id, owner));
    FiledKept(c, st, Create(id, owner));
    assert CallsOf([]) == [];
    if Lives(Run(c, born, more), id, born.mem[id].gen) {
      WindowFollows(c, born, more, id, born.mem[id].gen, []);
    }
  }
}
