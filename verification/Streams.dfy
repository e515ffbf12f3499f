/** What a client of an event stream receives. */
module Streams {
  import opened Records
  import opened Entries
  import opened Channels
  import opened ExactlyOnce
  import opened PubSub
  import opened PubSubSafety
  import Tables

  function DataOf(out: seq<Frame>): seq<Event> {
    if out == [] then [] else
    DataOf(out[..|out| - 1]) + match out[|out| - 1] case Data(ev, _) => [ev] case _ => []
  }

  lemma DataOfAppend(out: seq<Frame>, f: Frame)
    ensures DataOf(out + [f]) == DataOf(out) + match f case Data(ev, _) => [ev] case _ => []
  {
    assert (out + [f])[..|out|] == out;
  }

  /** Every event went out with the information that a lookup would have given. */
  ghost predicate Informed(out: seq<Frame>, lookup: string -> Info) {
    forall i :: 0 <= i < |out| && out[i].Data? ==> out[i].info == lookup(out[i].ev.sourceIP)
  }

  ghost predicate CacheOk(cache: map<string, Info>, lookup: string -> Info) {
    forall ip :: ip in cache ==> cache[ip] == lookup(ip)
  }

  ghost predicate NoClose(out: seq<Frame>) {
    forall i :: 0 <= i < |out| ==> !out[i].Close?
  }

  lemma {:induction false} ReplayIs(events: seq<Event>, lookup: string -> Info)
    ensures
      var (frames, cache) := Replay(events, map[], lookup);
      DataOf(frames) == events && Informed(frames, lookup) && CacheOk(cache, lookup) && NoClose(frames)
  {
    if events != [] {
      var init, ev := events[..|events| - 1], events[|events| - 1];
      ReplayIs(init, lookup);
      var (frames, cache) := Replay(init, map[], lookup);
      DataOfAppend(frames, Data(ev, Enrich(ev, cache, lookup).0));
      assert init + [ev] == events;
    }
  }

  ghost predicate StreamOk(t: Stream, chans: map<nat, Chan>, log: seq<EventRow>, lookup: string -> Info) {
    && Increasing(t.history) && Logged(t.slug, log, t.history)
    && t.mark <= |log| && (forall i :: 0 <= i < |t.history| ==> t.history[i].no < t.mark)
    && (t.chan.None? ==> t.out == [] && !t.ended)
    && (t.chan.Some? ==>
          && t.chan.value in chans
          && var c := chans[t.chan.value];
          && c.home == t.slug && t.mark <= c.start
          && DataOf(t.out) == t.history + c.received
          && Informed(t.out, lookup) && CacheOk(t.cache, lookup)
          && (NoClose(t.out) || (t.ended && c.closed && c.buf == [] && NoClose(t.out[..|t.out| - 1]))))
  }

  ghost predicate StreamsOk(streams: map<nat, Stream>, chans: map<nat, Chan>, log: seq<EventRow>, lookup: string -> Info) {
    && (forall s :: s in streams ==> StreamOk(streams[s], chans, log, lookup))
    && (forall s, s' :: s in streams && s' in streams && s != s' && streams[s].chan.Some? ==> streams[s'].chan != streams[s].chan)
  }

  ghost predicate WindowsOk(mem: map<Id, PubEntry>, log: seq<EventRow>) {
    && LogNumbered(log)
    && forall id :: id in mem ==> Increasing(mem[id].entry.events) && Logged(id, log, mem[id].entry.events)
  }

  ghost predicate Streaming(st: State, lookup: string -> Info) {
    && Channelled(st)
    && WindowsOk(st.mem, st.log)
    && StreamsOk(st.streams, st.chans, st.log, lookup)
  }

  /** A channel that its stream has not taken from stays as the stream needs it. */
  ghost predicate Undisturbed(c: Chan, c': Chan) {
    && c'.home == c.home && c'.start == c.start && c'.received == c.received
    && (c.closed && c.buf == [] ==> c'.closed && c'.buf == [])
  }

  lemma StreamKept(t: Stream, chans: map<nat, Chan>, log: seq<EventRow>, chans': map<nat, Chan>, log': seq<EventRow>, lookup: string -> Info)
    requires StreamOk(t, chans, log, lookup) && log <= log'
    requires t.chan.Some? ==> t.chan.value in chans' && Undisturbed(chans[t.chan.value], chans'[t.chan.value])
    ensures StreamOk(t, chans', log', lookup)
  {
  }

  lemma WindowKept(max: int, log: seq<EventRow>, e: Entry, id: Id, ev: Event)
    requires LogNumbered(log) && Increasing(e.events) && Logged(id, log, e.events) && ev.no == |log|
    ensures
      var log' := if RecordPanics(e, max) then log else log + [EventRow(id, ev)];
      LogNumbered(log') && Increasing(RecordEntry(e, ev, max).events) && Logged(id, log', RecordEntry(e, ev, max).events)
  {
  }

  /** The channels that streams read from are undisturbed. */
  lemma StreamsKept(streams: map<nat, Stream>, chans: map<nat, Chan>, log: seq<EventRow>, chans': map<nat, Chan>, log': seq<EventRow>,
                    lookup: string -> Info)
    requires StreamsOk(streams, chans, log, lookup) && log <= log'
    requires forall c :: c in chans ==> c in chans' && Undisturbed(chans[c], chans'[c])
    ensures StreamsOk(streams, chans', log', lookup)
  {
    forall s | s in streams
      ensures StreamOk(streams[s], chans', log', lookup)
    {
      StreamKept(streams[s], chans, log, chans', log', lookup);
    }
  }

  /** One stream has changed, with the channel it owns. */
  lemma OneStreamChanged(streams: map<nat, Stream>, chans: map<nat, Chan>, log: seq<EventRow>, s: nat, t: Stream, chans': map<nat, Chan>,
                         lookup: string -> Info)
    requires StreamsOk(streams, chans, log, lookup)
    requires StreamOk(t, chans', log, lookup)
    requires forall o :: o in streams && o != s && t.chan.Some? ==> streams[o].chan != t.chan
    requires forall c :: c in chans && Some(c) != t.chan ==> c in chans' && chans'[c] == chans[c]
    ensures StreamsOk(streams[s := t], chans', log, lookup)
  {
    forall o | o in streams && o != s
      ensures StreamOk(streams[o], chans', log, lookup)
    {
      StreamKept(streams[o], chans, log, chans', log, lookup);
    }
  }

  lemma StreamingRecord(max: int, lookup: string -> Info, st: State, id: Id, ev: Event)
    requires Streaming(st, lookup) && id in st.mem && ev.no == |st.log|
    ensures RecordStep(max, st, id, ev).Some? && Streaming(RecordStep(max, st, id, ev).value, lookup)
  {
    RecordSafe(max, st, id, ev);
    SendsToEach(st.chans, st.mem[id].subs, ev);
    WindowKept(max, st.log, st.mem[id].entry, id, ev);
    var st' := RecordStep(max, st, id, ev).value;
    StreamsKept(st.streams, st.chans, st.log, st'.chans, st'.log, lookup);
  }

  lemma StreamingRemove(lookup: string -> Info, st: State, id: Id)
    requires Streaming(st, lookup)
    ensures RemoveStep(st, id).Some? && Streaming(RemoveStep(st, id).value, lookup)
  {
    RemoveSafe(st, id);
    if id in st.mem {
      ClosesEach(st.chans, st.mem[id].subs);
    }
    var st' := RemoveStep(st, id).value;
    StreamsKept(st.streams, st.chans, st.log, st'.chans, st'.log, lookup);
  }

  lemma StreamingUnsubscribe(lookup: string -> Info, st: State, c: nat)
    requires Streaming(st, lookup)
    ensures UnsubscribeStep(st, c).Some? && Streaming(UnsubscribeStep(st, c).value, lookup)
  {
    UnsubscribeSafe(st, c);
    var st' := UnsubscribeStep(st, c).value;
    StreamsKept(st.streams, st.chans, st.log, st'.chans, st'.log, lookup);
  }

  lemma StreamingSubscribe(lookup: string -> Info, st: State, id: Id)
    requires Streaming(st, lookup)
    ensures Streaming(SubscribeStep(st, id), lookup)
  {
    SubscribeSafe(st, id);
    var st' := SubscribeStep(st, id);
    StreamsKept(st.streams, st.chans, st.log, st'.chans, st'.log, lookup);
  }

  lemma OpenedStream(t: Stream, n: nat, chans: map<nat, Chan>, log: seq<EventRow>, chans': map<nat, Chan>, lookup: string -> Info)
    requires StreamOk(t, chans, log, lookup) && t.chan.None?
    requires n in chans' && chans'[n].home == t.slug && chans'[n].start == |log| && chans'[n].received == []
    ensures
      var (frames, cache) := Replay(t.history, map[], lookup);
      StreamOk(t.(chan := Some(n), cache := cache, out := frames), chans', log, lookup)
  {
    ReplayIs(t.history, lookup);
    assert t.history + [] == t.history;
  }

  lemma OpenedOk(st: State, s: nat, lookup: string -> Info)
    requires StreamsOk(st.streams, st.chans, st.log, lookup) && s in st.streams && st.streams[s].chan.None?
    requires forall c :: c in st.chans ==> c < st.next
    ensures var st' := OpenStep(st, s, lookup); StreamsOk(st'.streams, st'.chans, st.log, lookup)
  {
    var t, st' := st.streams[s], OpenStep(st, s, lookup);
    OpenedStream(t, st.next, st.chans, st.log, st'.chans, lookup);
    forall o | o in st.streams && o != s
      ensures st.streams[o].chan != Some(st.next)
    {
      assert StreamOk(st.streams[o], st.chans, st.log, lookup);
    }
    OneStreamChanged(st.streams, st.chans, st.log, s, st'.streams[s], st'.chans, lookup);
  }

  lemma StreamingOpen(lookup: string -> Info, st: State, s: nat)
    requires Streaming(st, lookup)
    ensures Streaming(OpenStep(st, s, lookup), lookup)
  {
    if s in st.streams && st.streams[s].chan.None? {
      SubscribeSafe(st, st.streams[s].slug);
      OpenedOk(st, s, lookup);
    }
  }

  lemma PulledEvent(t: Stream, c: Chan, chans: map<nat, Chan>, log: seq<EventRow>, lookup: string -> Info)
    requires StreamOk(t, chans, log, lookup) && t.chan.Some? && chans[t.chan.value] == c && c.buf != [] && !t.ended
    ensures
      var (info, cache) := Enrich(c.buf[0], t.cache, lookup);
      StreamOk(t.(cache := cache, out := t.out + [Data(c.buf[0], info)]),
               chans[t.chan.value := c.(buf := c.buf[1..], received := c.received + [c.buf[0]])], log, lookup)
  {
    DataOfAppend(t.out, Data(c.buf[0], Enrich(c.buf[0], t.cache, lookup).0));
    assert t.history + (c.received + [c.buf[0]]) == t.history + c.received + [c.buf[0]];
  }

  lemma WroteOther(t: Stream, f: Frame, chans: map<nat, Chan>, log: seq<EventRow>, lookup: string -> Info)
    requires StreamOk(t, chans, log, lookup) && t.chan.Some? && !t.ended && !f.Data?
    requires f.Close? ==> chans[t.chan.value].closed && chans[t.chan.value].buf == []
    ensures StreamOk(t.(out := t.out + [f], ended := f.Close?), chans, log, lookup)
  {
    DataOfAppend(t.out, f);
    assert (t.out + [f])[..|t.out|] == t.out;
  }

  lemma PulledOk(st: State, s: nat, lookup: string -> Info)
    requires StreamsOk(st.streams, st.chans, st.log, lookup)
    ensures var st' := PullStep(st, s, lookup); StreamsOk(st'.streams, st'.chans, st.log, lookup)
  {
    if Running(st, s) {
      var t := st.streams[s];
      var c := st.chans[t.chan.value];
      var st' := PullStep(st, s, lookup);
      if c.buf != [] {
        PulledEvent(t, c, st.chans, st.log, lookup);
        OneStreamChanged(st.streams, st.chans, st.log, s, st'.streams[s], st'.chans, lookup);
      } else if c.closed {
        WroteOther(t, Close, st.chans, st.log, lookup);
        OneStreamChanged(st.streams, st.chans, st.log, s, st'.streams[s], st.chans, lookup);
      }
    }
  }

  lemma StreamingPull(lookup: string -> Info, st: State, s: nat)
    requires Streaming(st, lookup)
    ensures Streaming(PullStep(st, s, lookup), lookup)
  {
    PullSafe(st, s, lookup);
    PulledOk(st, s, lookup);
  }

  lemma StreamingBeat(max: int, lookup: string -> Info, st: State, s: nat)
    requires Streaming(st, lookup)
    ensures Next(max, lookup, st, Beat(s)).Some? && Streaming(Next(max, lookup, st, Beat(s)).value, lookup)
  {
    if Running(st, s) {
      WroteOther(st.streams[s], Heartbeat, st.chans, st.log, lookup);
      var st' := Next(max, lookup, st, Beat(s)).value;
      OneStreamChanged(st.streams, st.chans, st.log, s, st'.streams[s], st.chans, lookup);
    }
  }

  lemma StreamingHangup(max: int, lookup: string -> Info, st: State, s: nat)
    requires Streaming(st, lookup)
    ensures Next(max, lookup, st, Hangup(s)).Some? && Streaming(Next(max, lookup, st, Hangup(s)).value, lookup)
  {
    if Running(st, s) {
      var st' := Next(max, lookup, st, Hangup(s)).value;
      OneStreamChanged(st.streams, st.chans, st.log, s, st'.streams[s], st.chans, lookup);
    }
  }

  lemma StreamingHistory(lookup: string -> Info, st: State, s: nat, id: Id)
    requires Streaming(st, lookup)
    ensures Streaming(TakeHistoryStep(st, s, id), lookup)
  {
    if s !in st.streams {
      var st' := TakeHistoryStep(st, s, id);
      assert StreamOk(st'.streams[s], st.chans, st.log, lookup);
      OneStreamChanged(st.streams, st.chans, st.log, s, st'.streams[s], st.chans, lookup);
    }
  }

  lemma StreamingStep(max: int, lookup: string -> Info, st: State, step: Step)
    requires Streaming(st, lookup)
    ensures Next(max, lookup, st, step).Some? && Streaming(Next(max, lookup, st, step).value, lookup)
  {
    match step
    case Record(id, kind, ip, at, data) =>
      if id in st.mem {
        StreamingRecord(max, lookup, st, id, Event(|st.log|, kind, ip, at, data));
      }
    case Remove(id) => StreamingRemove(lookup, st, id);
    case Subscribe(id) => StreamingSubscribe(lookup, st, id);
    case Unsubscribe(c) => StreamingUnsubscribe(lookup, st, c);
    case TakeHistory(s, id) => StreamingHistory(lookup, st, s, id);
    case Open(s) => StreamingOpen(lookup, st, s);
    case Pull(s) => StreamingPull(lookup, st, s);
    case Beat(s) => StreamingBeat(max, lookup, st, s);
    case Hangup(s) => StreamingHangup(max, lookup, st, s);
    case _ => StepSafe(max, lookup, st, step);
  }

  lemma {:induction false} StreamingRun(max: int, lookup: string -> Info, st: State, steps: seq<Step>)
    requires Streaming(st, lookup)
    ensures Run(max, lookup, st, steps).Some? && Streaming(Run(max, lookup, st, steps).value, lookup)
    decreases |steps|
  {
    if steps != [] {
      StreamingStep(max, lookup, st, steps[0]);
      StreamingRun(max, lookup, Next(max, lookup, st, steps[0]).value, steps[1..]);
    }
  }

  lemma {:induction false} LogRowsIncrease(log: seq<EventRow>, start: nat, id: Id)
    requires LogNumbered(log) && start <= |log|
    ensures
      var s := Tables.RowsOf(log[start..], id);
      Increasing(s) && Logged(id, log, s) && forall i :: 0 <= i < |s| ==> start <= s[i].no
    decreases |log| - start
  {
    if start < |log| {
      assert log[start..][0] == log[start] && log[start..][1..] == log[start + 1..];
      LogRowsIncrease(log, start + 1, id);
    }
  }

  lemma {:induction false} AcceptedOrder(offered: seq<Event>, rooms: seq<bool>)
    requires |rooms| == |offered| && Increasing(offered)
    ensures Increasing(Accepted(offered, rooms))
    ensures forall e :: e in Accepted(offered, rooms) ==> e in offered
  {
    if offered != [] {
      var init := offered[..|offered| - 1];
      AcceptedOrder(init, rooms[..|rooms| - 1]);
      var a := Accepted(init, rooms[..|rooms| - 1]);
      forall i | 0 <= i < |a|
        ensures a[i].no < offered[|offered| - 1].no
      {
        assert a[i] in init;
      }
    }
  }

  /** What an open stream's channel has passed on comes from the log, in order, from the moment
      of subscription. */
  lemma ReceivedOrder(c: Chan, log: seq<EventRow>)
    requires LogNumbered(log) && Faithful(c, log)
    ensures Increasing(c.received) && Logged(c.home, log, c.received)
    ensures forall i :: 0 <= i < |c.received| ==> c.start <= c.received[i].no
  {
    LogRowsIncrease(log, c.start, c.home);
    AcceptedOrder(c.offered, c.rooms);
    var a := Accepted(c.offered, c.rooms);
    forall i | 0 <= i < |c.received|
      ensures c.received[i].no < |log| && log[c.received[i].no] == EventRow(c.home, c.received[i]) && c.start <= c.received[i].no
    {
      assert a[i] == c.received[i] && a[i] in c.offered;
    }
    assert forall i :: 0 <= i < |c.received| ==> c.received[i] == a[i];
  }

  /** What a client has been sent, against the channel and the log it comes from. */
  ghost predicate Delivered(t: Stream, c: Chan, log: seq<EventRow>, lookup: string -> Info) {
    && DataOf(t.out) == t.history + c.received
    && |c.rooms| == |c.offered|
    && c.received <= Accepted(c.offered, c.rooms)
    && c.start <= |log|
    && c.offered <= Tables.RowsOf(log[c.start..], t.slug)
    && (!c.closed ==> c.offered == Tables.RowsOf(log[c.start..], t.slug))
    && (|c.offered| <= c.capacity ==> Accepted(c.offered, c.rooms) == c.offered)
    && Increasing(DataOf(t.out)) && Logged(t.slug, log, DataOf(t.out))
    && (forall i :: 0 <= i < |t.out| && t.out[i].Close? ==>
          i == |t.out| - 1 && c.closed && c.received == Accepted(c.offered, c.rooms))
    && (forall i :: 0 <= i < |t.out| && t.out[i].Data? ==> t.out[i].info == lookup(t.out[i].ev.sourceIP))
  }

  lemma DeliveredFrom(t: Stream, chans: map<nat, Chan>, log: seq<EventRow>, lookup: string -> Info)
    requires StreamOk(t, chans, log, lookup) && t.chan.Some? && LogNumbered(log) && Faithful(chans[t.chan.value], log)
    ensures Delivered(t, chans[t.chan.value], log, lookup)
  {
    var c := chans[t.chan.value];
    ReceivedOrder(c, log);
    if |c.offered| <= c.capacity {
      AllAcceptedAtFirst(c.offered, c.rooms, c.capacity);
    }
    assert c.received + [] == c.received;
    if t.out != [] {
      var init := t.out[..|t.out| - 1];
      assert forall i :: 0 <= i < |init| ==> init[i] == t.out[i];
    }
  }

  /** Stream faithfulness, in every run.  What a stream has written is its history followed by a
      prefix of the events that found room in its channel; those were offered to it in the order
      in which they were recorded for the slug since it subscribed, up to now or up to its
      close; so the client sees each event once, in record order.  A close is announced only
      when everything that was accepted has been written, and nothing follows it.  Whatever the
      cache, every event carries the information that a lookup gives. */
  lemma StreamIsFaithful(max: int, lookup: string -> Info, steps: seq<Step>, st: State, s: nat)
    requires Run(max, lookup, Init, steps) == Some(st) && s in st.streams && st.streams[s].chan.Some?
    ensures st.streams[s].chan.value in st.chans
    ensures Delivered(st.streams[s], st.chans[st.streams[s].chan.value], st.log, lookup)
  {
    StreamingRun(max, lookup, Init, steps);
    DeliveredFrom(st.streams[s], st.chans, st.log, lookup);
  }

  /** What was recorded for the slug since the history was taken. */
  function Since(t: Stream, log: seq<EventRow>): seq<Event>
    requires t.mark <= |log|
  {
    Tables.RowsOf(log[t.mark..], t.slug)
  }

  lemma MissesNothingFrom(t: Stream, c: Chan, log: seq<EventRow>, lookup: string -> Info)
    requires t.mark <= c.start <= |log| && c.home == t.slug && Faithful(c, log) && Delivered(t, c, log, lookup)
    ensures DataOf(t.out) == t.history + Since(t, log) <==>
              && Tables.RowsOf(log[t.mark..c.start], t.slug) == []
              && (forall i :: 0 <= i < |c.rooms| ==> c.rooms[i])
              && c.buf == []
              && c.offered == Tables.RowsOf(log[c.start..], t.slug)
  {
    var gap, after := Tables.RowsOf(log[t.mark..c.start], t.slug), Tables.RowsOf(log[c.start..], t.slug);
    assert log[t.mark..] == log[t.mark..c.start] + log[c.start..];
    Tables.RowsOfConcat(log[t.mark..c.start], log[c.start..], t.slug);
    AcceptedIsShort(c.offered, c.rooms);
    SameHead(t.history, c.received, gap + after);
    AllReceived(c.received, c.buf, Accepted(c.offered, c.rooms), c.offered, gap, after);
  }

  lemma SameHead(h: seq<Event>, a: seq<Event>, b: seq<Event>)
    ensures h + a == h + b <==> a == b
  {
    assert (h + a)[|h|..] == a && (h + b)[|h|..] == b;
  }

  lemma AllReceived(received: seq<Event>, buf: seq<Event>, accepted: seq<Event>, offered: seq<Event>, gap: seq<Event>, after: seq<Event>)
    requires received + buf == accepted && |accepted| <= |offered| && offered <= after
    requires |accepted| == |offered| ==> accepted == offered
    ensures received == gap + after <==> gap == [] && |accepted| == |offered| && buf == [] && offered == after
  {
    assert |accepted| == |received| + |buf|;
    if received == gap + after {
      assert |offered| == |after|;
    }
    assert [] + after == after && received + [] == received;
  }

  /** When a stream misses nothing, exactly, in every run.  A client has been sent its history and
      everything recorded for the slug since that history was taken if and only if nothing was
      recorded between history and subscription, every event offered since found room and has been
      taken, and all that was recorded since was offered; the last holds while the channel is
      open. */
  lemma StreamMissesNothing(max: int, lookup: string -> Info, steps: seq<Step>, st: State, s: nat)
    requires Run(max, lookup, Init, steps) == Some(st) && s in st.streams && st.streams[s].chan.Some?
    ensures st.streams[s].chan.value in st.chans
    ensures
      var t, c := st.streams[s], st.chans[st.streams[s].chan.value];
      && t.mark <= c.start <= |st.log|
      && (!c.closed ==> c.offered == Tables.RowsOf(st.log[c.start..], t.slug))
      && (DataOf(t.out) == t.history + Since(t, st.log) <==>
            && Tables.RowsOf(st.log[t.mark..c.start], t.slug) == []
            && (forall i :: 0 <= i < |c.rooms| ==> c.rooms[i])
            && c.buf == []
            && c.offered == Tables.RowsOf(st.log[c.start..], t.slug))
  {
    StreamingRun(max, lookup, Init, steps);
    StreamIsFaithful(max, lookup, steps, st, s);
    MissesNothingFrom(st.streams[s], st.chans[st.streams[s].chan.value], st.log, lookup);
  }

  /** The history is read before the stream subscribes, in another critical section: what is
      recorded for the slug in between is neither replayed nor delivered, ever. */
  lemma GapIsNeverDelivered(max: int, lookup: string -> Info, steps: seq<Step>, st: State, s: nat, n: nat)
    requires Run(max, lookup, Init, steps) == Some(st) && s in st.streams && st.streams[s].chan.Some?
    requires st.streams[s].chan.value in st.chans
    requires st.streams[s].mark <= n < st.chans[st.streams[s].chan.value].start
    ensures forall e :: e in DataOf(st.streams[s].out) ==> e.no != n
  {
    StreamingRun(max, lookup, Init, steps);
    var t := st.streams[s];
    assert StreamOk(t, st.chans, st.log, lookup);
    ReceivedOrder(st.chans[t.chan.value], st.log);
  }

  /** A slug is created, a stream takes its history, an event is recorded, the stream opens. */
  function GapRun(slug: Slug): seq<Step> {
    [Create(slug), TakeHistory(0, slug.id), Record(slug.id, "dns", "", 0, ""), Open(0)]
  }

  lemma RunCons(max: int, lookup: string -> Info, st: State, step: Step, rest: seq<Step>)
    requires Next(max, lookup, st, step).Some?
    ensures Run(max, lookup, st, [step] + rest) == Run(max, lookup, Next(max, lookup, st, step).value, rest)
  {
    assert ([step] + rest)[1..] == rest;
  }

  /** And it happens: a run whose gap holds an event of the slug, which the stream does not have. */
  lemma GapLosesAnEvent(max: int, lookup: string -> Info, slug: Slug)
    requires max >= 1
    ensures Run(max, lookup, Init, GapRun(slug)).Some?
    ensures
      var st := Run(max, lookup, Init, GapRun(slug)).value;
      && 0 in st.streams && st.streams[0].slug == slug.id && st.streams[0].chan.Some?
      && st.streams[0].chan.value in st.chans
      && |st.log| == 1 && st.log[0].slug == slug.id
      && st.streams[0].mark <= 0 < st.chans[st.streams[0].chan.value].start
      && slug.id in st.mem && st.mem[slug.id].entry.events == [st.log[0].event]
      && DataOf(st.streams[0].out) == []
  {
    var run := GapRun(slug);
    var s1 := Next(max, lookup, Init, run[0]).value;
    var s2 := Next(max, lookup, s1, run[1]).value;
    var s3 := Next(max, lookup, s2, run[2]).value;
    var s4 := Next(max, lookup, s3, run[3]).value;
    assert s3.mem[slug.id].entry.events == [Event(0, "dns", "", 0, "")];
    RunCons(max, lookup, s3, run[3], []);
    RunCons(max, lookup, s2, run[2], [run[3]] + []);
    RunCons(max, lookup, s1, run[1], [run[2]] + ([run[3]] + []));
    RunCons(max, lookup, Init, run[0], [run[1]] + ([run[2]] + ([run[3]] + [])));
    assert run == [run[0]] + ([run[1]] + ([run[2]] + ([run[3]] + [])));
  }
}
