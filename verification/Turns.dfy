/** The turns of a stream's select loop: what each must write, and what a run of the machine writes. */
module Turns {
  import opened Records
  import opened Entries
  import opened Channels
  import opened PubSub
  import opened PubSubSafety
  import opened Streams

  /** What one turn of the select yields: an event, the end of the channel, the heartbeat
      ticker, or the end of the request. */
  datatype Turn = Got(ev: Event) | Ended | Beaten | Gone

  function HistoryFrames(history: seq<Event>, lookup: string -> Info): seq<Frame> {
    seq(|history|, i requires 0 <= i < |history| => Data(history[i], lookup(history[i].sourceIP)))
  }

  /** What the turns write, up to the one that ends the loop. */
  function Frames(turns: seq<Turn>, lookup: string -> Info): seq<Frame> {
    if turns == [] then [] else
    match turns[0]
    case Got(ev) => [Data(ev, lookup(ev.sourceIP))] + Frames(turns[1..], lookup)
    case Beaten => [Heartbeat] + Frames(turns[1..], lookup)
    case Ended => [Close]
    case Gone => []
  }

  predicate Stops(turn: Turn) {
    turn.Ended? || turn.Gone?
  }

  /** Before the first turn that ends the loop, the turn at each position writes the frame at that
      position: a received event, enriched as by a lookup, or a heartbeat.  The turn that ends it
      writes a close if the channel ended, and nothing if the request did.  Nothing else is
      written. */
  lemma {:induction false} FramesAt(turns: seq<Turn>, lookup: string -> Info, n: nat)
    requires n <= |turns| && forall i :: 0 <= i < n ==> !Stops(turns[i])
    requires n < |turns| ==> Stops(turns[n])
    ensures
      var out := Frames(turns, lookup);
      && |out| == n + (if n < |turns| && turns[n].Ended? then 1 else 0)
      && (n < |turns| && turns[n].Ended? ==> out[n] == Close)
      && forall i :: 0 <= i < n ==>
           out[i] == match turns[i] case Got(ev) => Data(ev, lookup(ev.sourceIP)) case _ => Heartbeat
  {
    if n > 0 {
      assert turns[0] == turns[0..n][0];
      FramesAt(turns[1..], lookup, n - 1);
      var out, rest := Frames(turns, lookup), Frames(turns[1..], lookup);
      assert !Stops(turns[0]) && out[1..] == rest;
      forall i | 0 <= i < n
        ensures out[i] == match turns[i] case Got(ev) => Data(ev, lookup(ev.sourceIP)) case _ => Heartbeat
      {
        if i > 0 {
          assert out[i] == rest[i - 1] && turns[i] == turns[1..][i - 1];
        }
      }
    }
  }

  lemma FramesCons(turn: Turn, rest: seq<Turn>, lookup: string -> Info)
    requires Stops(turn) ==> rest == []
    ensures Frames([turn] + rest, lookup) == Frames([turn], lookup) + Frames(rest, lookup)
  {
    assert ([turn] + rest)[1..] == rest && [turn][1..] == [];
  }

  // ---- The turns of a run ----

  /** The turn that a step gives a stream whose loop is running, if any. */
  function TurnOf(st: State, step: Step, s: nat): seq<Turn> {
    if s !in st.streams || st.streams[s].chan.None? || st.streams[s].ended || st.streams[s].chan.value !in st.chans then [] else
    var c := st.chans[st.streams[s].chan.value];
    match step
    case Pull(o) => if o != s then [] else if c.buf != [] then [Got(c.buf[0])] else if c.closed then [Ended] else []
    case Beat(o) => if o == s then [Beaten] else []
    case Hangup(o) => if o == s then [Gone] else []
    case _ => []
  }

  function TurnsOf(max: int, lookup: string -> Info, st: State, steps: seq<Step>, s: nat): seq<Turn>
    decreases |steps|
  {
    if steps == [] then [] else
    match Next(max, lookup, st, steps[0])
    case None => []
    case Some(st') => TurnOf(st, steps[0], s) + TurnsOf(max, lookup, st', steps[1..], s)
  }

  predicate Loops(st: State, s: nat) {
    s in st.streams && st.streams[s].chan.Some?
  }

  /** A stream after some turns, of which only the last may end its loop. */
  ghost predicate Wrote(t: Stream, t': Stream, turns: seq<Turn>, lookup: string -> Info) {
    && t'.chan.Some? && t'.history == t.history
    && t'.out == t.out + Frames(turns, lookup)
    && (t'.ended <==> t.ended || (turns != [] && Stops(turns[|turns| - 1])))
    && (t.ended ==> turns == [])
  }

  lemma FramesOfOne(turn: Turn, lookup: string -> Info)
    ensures Frames([turn], lookup) == match turn
              case Got(ev) => [Data(ev, lookup(ev.sourceIP))]
              case Beaten => [Heartbeat]
              case Ended => [Close]
              case Gone => []
  {
    assert [turn][1..] == [];
  }

  lemma WroteNothing(t: Stream, lookup: string -> Info)
    requires t.chan.Some?
    ensures Wrote(t, t, [], lookup)
  {
    assert t.out + [] == t.out;
  }

  lemma PullWrites(st: State, s: nat, lookup: string -> Info)
    requires Loops(st, s) && StreamOk(st.streams[s], st.chans, st.log, lookup)
    ensures s in PullStep(st, s, lookup).streams
    ensures Wrote(st.streams[s], PullStep(st, s, lookup).streams[s], TurnOf(st, Pull(s), s), lookup)
  {
    var c := st.chans[st.streams[s].chan.value];
    WroteNothing(st.streams[s], lookup);
    if c.buf != [] {
      FramesOfOne(Got(c.buf[0]), lookup);
    } else {
      FramesOfOne(Ended, lookup);
    }
  }

  lemma OtherKeeps(max: int, lookup: string -> Info, st: State, step: Step, st': State, s: nat)
    requires Loops(st, s) && Next(max, lookup, st, step) == Some(st')
    requires !((step.Pull? || step.Beat? || step.Hangup?) && step.s == s)
    ensures s in st'.streams && st'.streams[s] == st.streams[s] && TurnOf(st, step, s) == []
  {
  }

  lemma OutStep(max: int, lookup: string -> Info, st: State, step: Step, st': State, s: nat)
    requires Streaming(st, lookup) && Loops(st, s) && Next(max, lookup, st, step) == Some(st')
    ensures s in st'.streams && Wrote(st.streams[s], st'.streams[s], TurnOf(st, step, s), lookup)
  {
    assert StreamOk(st.streams[s], st.chans, st.log, lookup);
    WroteNothing(st.streams[s], lookup);
    if step.Pull? && step.s == s {
      PullWrites(st, s, lookup);
    } else if step.Beat? && step.s == s {
      FramesOfOne(Beaten, lookup);
    } else if step.Hangup? && step.s == s {
      FramesOfOne(Gone, lookup);
    } else {
      OtherKeeps(max, lookup, st, step, st', s);
    }
  }

  lemma TurnOfIsOne(st: State, step: Step, s: nat)
    ensures |TurnOf(st, step, s)| <= 1
  {
  }

  lemma WroteMore(t: Stream, t1: Stream, t2: Stream, turns: seq<Turn>, rest: seq<Turn>, lookup: string -> Info)
    requires Wrote(t, t1, turns, lookup) && Wrote(t1, t2, rest, lookup) && |turns| <= 1
    ensures Wrote(t, t2, turns + rest, lookup)
  {
    if turns == [] {
      assert turns + rest == rest && t.out + [] == t.out;
    } else {
      assert turns == [turns[0]];
      FramesCons(turns[0], rest, lookup);
      Regroup(t.out, Frames(turns, lookup), Frames(rest, lookup));
      assert rest == [] ==> turns + rest == turns;
    }
  }

  lemma {:induction false} OutFollows(max: int, lookup: string -> Info, st: State, steps: seq<Step>, s: nat)
    requires Streaming(st, lookup) && Loops(st, s)
    ensures Run(max, lookup, st, steps).Some? && s in Run(max, lookup, st, steps).value.streams
    ensures Wrote(st.streams[s], Run(max, lookup, st, steps).value.streams[s], TurnsOf(max, lookup, st, steps, s), lookup)
    decreases |steps|
  {
    if steps == [] {
      WroteNothing(st.streams[s], lookup);
    } else {
      StreamingStep(max, lookup, st, steps[0]);
      var st' := Next(max, lookup, st, steps[0]).value;
      OutStep(max, lookup, st, steps[0], st', s);
      OutFollows(max, lookup, st', steps[1..], s);
      TurnOfIsOne(st, steps[0], s);
      WroteMore(st.streams[s], st'.streams[s], Run(max, lookup, st', steps[1..]).value.streams[s],
                TurnOf(st, steps[0], s), TurnsOf(max, lookup, st', steps[1..], s), lookup);
    }
  }

  lemma {:induction false} ReplayFrames(events: seq<Event>, lookup: string -> Info)
    ensures Replay(events, map[], lookup).0 == HistoryFrames(events, lookup)
    ensures CacheOk(Replay(events, map[], lookup).1, lookup)
  {
    if events != [] {
      var init := events[..|events| - 1];
      ReplayFrames(init, lookup);
      assert HistoryFrames(events, lookup)[..|events| - 1] == HistoryFrames(init, lookup);
    }
  }

  /** A stream that opens in some run replays its history, and from then on has written for its
      turns what `Frames` says and nothing else: exactly what the loop writes that is given the
      same history and the same turns. */
  lemma MachineWritesFrames(max: int, lookup: string -> Info, steps: seq<Step>, st: State, s: nat, more: seq<Step>)
    requires Run(max, lookup, Init, steps) == Some(st) && s in st.streams && st.streams[s].chan.None?
    ensures Next(max, lookup, st, Open(s)).Some?
    ensures
      var begun := Next(max, lookup, st, Open(s)).value;
      && Run(max, lookup, begun, more).Some? && s in Run(max, lookup, begun, more).value.streams
      && Run(max, lookup, begun, more).value.streams[s].out ==
           HistoryFrames(st.streams[s].history, lookup) + Frames(TurnsOf(max, lookup, begun, more, s), lookup)
  {
    StreamingRun(max, lookup, Init, steps);
    StreamingStep(max, lookup, st, Open(s));
    ReplayFrames(st.streams[s].history, lookup);
    OutFollows(max, lookup, Next(max, lookup, st, Open(s)).value, more, s);
  }

  // ---- Draining ----

  function Pulls(s: nat, n: nat): seq<Step> {
    seq(n, i requires 0 <= i < n => Pull(s))
  }

  lemma {:induction false} PullsDrain(max: int, lookup: string -> Info, st: State, s: nat)
    requires Running(st, s)
    ensures
      var c := st.chans[st.streams[s].chan.value];
      var end := Run(max, lookup, st, Pulls(s, |c.buf|));
      && end.Some? && Running(end.value, s) && end.value.streams[s].chan == st.streams[s].chan
      && end.value.streams[s].history == st.streams[s].history
      && end.value.chans == st.chans[st.streams[s].chan.value := c.(buf := [], received := c.received + c.buf)]
      && end.value.log == st.log
    decreases |st.chans[st.streams[s].chan.value].buf|
  {
    var n := st.streams[s].chan.value;
    var c := st.chans[n];
    if c.buf == [] {
      assert c.received + [] == c.received && st.chans[n := c] == st.chans;
    } else {
      var st' := Next(max, lookup, st, Pull(s)).value;
      var c' := st'.chans[n];
      PullsDrain(max, lookup, st', s);
      assert Pulls(s, |c.buf|)[0] == Pull(s) && Pulls(s, |c.buf|)[1..] == Pulls(s, |c'.buf|);
      assert c'.received + c'.buf == c.received + c.buf;
      assert st.chans[n := c'][n := c'.(buf := [], received := c'.received + c'.buf)]
          == st.chans[n := c.(buf := [], received := c.received + c.buf)];
    }
  }

  lemma WrittenSoFar(st: State, s: nat, lookup: string -> Info)
    requires Streaming(st, lookup) && Running(st, s)
    ensures
      var t, c := st.streams[s], st.chans[st.streams[s].chan.value];
      DataOf(t.out) == t.history + c.received && |c.rooms| == |c.offered| && c.received + c.buf == Accepted(c.offered, c.rooms)
  {
    assert StreamOk(st.streams[s], st.chans, st.log, lookup);
    assert Faithful(st.chans[st.streams[s].chan.value], st.log);
  }

  lemma CloseShows(max: int, lookup: string -> Info, st: State, s: nat)
    requires Running(st, s) && st.chans[st.streams[s].chan.value].buf == [] && st.chans[st.streams[s].chan.value].closed
    ensures Next(max, lookup, st, Pull(s)).Some? && s in Next(max, lookup, st, Pull(s)).value.streams
    ensures Next(max, lookup, st, Pull(s)).value.streams[s].out == st.streams[s].out + [Close]
  {
  }

  lemma PullsKeepStreaming(max: int, lookup: string -> Info, steps: seq<Step>, st: State, s: nat)
    requires Run(max, lookup, Init, steps) == Some(st) && Running(st, s)
    ensures
      var end := Run(max, lookup, st, Pulls(s, |st.chans[st.streams[s].chan.value].buf|));
      Streaming(st, lookup) && end.Some? && Streaming(end.value, lookup)
  {
    StreamingRun(max, lookup, Init, steps);
    StreamingRun(max, lookup, st, Pulls(s, |st.chans[st.streams[s].chan.value].buf|));
  }

  /** Everything that was accepted gets delivered: in every run, a stream whose loop is running and
      takes as many turns at its channel as events wait there has written its history and every
      event that found room.  One more turn on a closed channel announces the close. */
  lemma DrainDelivers(max: int, lookup: string -> Info, steps: seq<Step>, st: State, s: nat)
    requires Run(max, lookup, Init, steps) == Some(st) && Running(st, s)
    ensures
      var c := st.chans[st.streams[s].chan.value];
      var end := Run(max, lookup, st, Pulls(s, |c.buf|));
      && end.Some? && s in end.value.streams && |c.rooms| == |c.offered|
      && DataOf(end.value.streams[s].out) == st.streams[s].history + Accepted(c.offered, c.rooms)
      && (c.closed ==>
            Next(max, lookup, end.value, Pull(s)).Some?
            && s in Next(max, lookup, end.value, Pull(s)).value.streams
            && Next(max, lookup, end.value, Pull(s)).value.streams[s].out == end.value.streams[s].out + [Close])
  {
    var c := st.chans[st.streams[s].chan.value];
    PullsKeepStreaming(max, lookup, steps, st, s);
    PullsDrain(max, lookup, st, s);
    var end := Run(max, lookup, st, Pulls(s, |c.buf|)).value;
    WrittenSoFar(st, s, lookup);
    WrittenSoFar(end, s, lookup);
    if c.closed {
      CloseShows(max, lookup, end, s);
    }
  }
}
