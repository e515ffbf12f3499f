/** The lifecycle of channels, over every run. */
module PubSubSafety {
  import opened Records
  import opened Entries
  import opened Channels
  import opened PubSub
  import Tables

  /** What an entry lists is open and its own, and what is open is listed. */
  ghost predicate Listed(mem: map<Id, PubEntry>, chans: map<nat, Chan>) {
    && (forall id :: id in mem ==> Distinct(mem[id].subs) && AllOpen(chans, mem[id].subs))
    && (forall id, i :: id in mem && 0 <= i < |mem[id].subs| ==> chans[mem[id].subs[i]].home == id)
    && (forall c :: c in chans && !chans[c].closed ==> chans[c].home in mem && c in mem[chans[c].home].subs)
  }

  ghost predicate Channelled(st: State) {
    && Listed(st.mem, st.chans)
    && (forall c :: c in st.chans ==> c < st.next && Faithful(st.chans[c], st.log))
    && (forall c :: c in st.chans && !st.chans[c].closed ==> st.chans[c].capacity == 64)
  }

  lemma {:induction false} IndexOfFinds(subs: seq<nat>, c: nat)
    ensures IndexOf(subs, c).None? <==> c !in subs
    ensures IndexOf(subs, c).Some? ==> IndexOf(subs, c).value < |subs| && subs[IndexOf(subs, c).value] == c
  {
    if subs != [] {
      IndexOfFinds(subs[1..], c);
    }
  }

  lemma DropOne(subs: seq<nat>, i: nat)
    requires Distinct(subs) && i < |subs|
    ensures Distinct(DropAt(subs, i))
    ensures forall c :: c in DropAt(subs, i) <==> c in subs && c != subs[i]
  {
    var w := DropAt(subs, i);
    assert forall j :: 0 <= j < |w| ==> w[j] == if j < i then subs[j] else subs[j + 1];
    forall c | c in subs && c != subs[i]
      ensures c in w
    {
      var j :| 0 <= j < |subs| && subs[j] == c;
      assert w[if j < i then j else j - 1] == c;
    }
  }

  /** Updates of channels that neither open nor close any. */
  lemma ListedStill(mem: map<Id, PubEntry>, chans: map<nat, Chan>, mem': map<Id, PubEntry>, chans': map<nat, Chan>)
    requires Listed(mem, chans)
    requires mem'.Keys == mem.Keys && forall id :: id in mem ==> mem'[id].subs == mem[id].subs
    requires chans'.Keys == chans.Keys
    requires forall c :: c in chans ==> chans'[c].home == chans[c].home && chans'[c].closed == chans[c].closed
    ensures Listed(mem', chans')
  {
  }

  lemma FaithfulSends(chans: map<nat, Chan>, subs: seq<nat>, log: seq<EventRow>, id: Id, ev: Event, c: nat)
    requires c in chans && Faithful(chans[c], log)
    requires if c in subs then !chans[c].closed && chans[c].home == id else chans[c].closed || chans[c].home != id
    ensures Faithful(Offered(chans, subs, ev)[c], log + [EventRow(id, ev)])
  {
    if c in subs {
      FaithfulOffer(chans[c], log, ev);
    } else {
      FaithfulElsewhere(chans[c], log, EventRow(id, ev));
    }
  }

  lemma RecordSafe(max: int, st: State, id: Id, ev: Event)
    requires Channelled(st) && id in st.mem
    ensures RecordStep(max, st, id, ev).Some? && Channelled(RecordStep(max, st, id, ev).value)
  {
    var subs := st.mem[id].subs;
    SendsToEach(st.chans, subs, ev);
    var st' := RecordStep(max, st, id, ev).value;
    ListedStill(st.mem, st.chans, st'.mem, st'.chans);
    if !RecordPanics(st.mem[id].entry, max) {
      forall c | c in st.chans
        ensures Faithful(st'.chans[c], st'.log)
      {
        FaithfulSends(st.chans, subs, st.log, id, ev, c);
      }
    }
  }

  lemma UnlistAll(mem: map<Id, PubEntry>, chans: map<nat, Chan>, id: Id)
    requires Listed(mem, chans) && id in mem
    ensures Listed(mem - {id}, Closed(chans, mem[id].subs))
  {
    var subs, chans' := mem[id].subs, Closed(chans, mem[id].subs);
    forall o, i | o in mem && o != id && 0 <= i < |mem[o].subs|
      ensures mem[o].subs[i] !in subs
    {
      assert chans[mem[o].subs[i]].home == o;
    }
    forall c | c in chans' && !chans'[c].closed
      ensures chans'[c].home in mem - {id} && c in mem[chans'[c].home].subs
    {
      assert c !in subs && !chans[c].closed;
    }
  }

  lemma RemoveSafe(st: State, id: Id)
    requires Channelled(st)
    ensures RemoveStep(st, id).Some? && Channelled(RemoveStep(st, id).value)
  {
    if id in st.mem {
      ClosesEach(st.chans, st.mem[id].subs);
      UnlistAll(st.mem, st.chans, id);
    }
  }

  lemma ListOne(mem: map<Id, PubEntry>, chans: map<nat, Chan>, id: Id, c: nat, ch: Chan)
    requires Listed(mem, chans) && id in mem && c !in chans && ch.home == id && !ch.closed
    ensures Listed(mem[id := mem[id].(subs := mem[id].subs + [c])], chans[c := ch])
  {
    var subs := mem[id].subs;
    assert forall o :: o in subs + [c] <==> o in subs || o == c;
  }

  lemma SubscribeSafe(st: State, id: Id)
    requires Channelled(st)
    ensures Channelled(SubscribeStep(st, id))
  {
    var st' := SubscribeStep(st, id);
    assert st.log[|st.log|..] == [];
    assert Faithful(st'.chans[st.next], st'.log);
    assert st.next !in st.chans;
    if id in st.mem {
      ListOne(st.mem, st.chans, id, st.next, st'.chans[st.next]);
    }
  }

  lemma UnlistOne(mem: map<Id, PubEntry>, chans: map<nat, Chan>, id: Id, i: nat)
    requires Listed(mem, chans) && id in mem && i < |mem[id].subs|
    ensures
      var c := mem[id].subs[i];
      Listed(mem[id := mem[id].(subs := DropAt(mem[id].subs, i))], chans[c := chans[c].(closed := true)])
  {
    var c := mem[id].subs[i];
    var w := DropAt(mem[id].subs, i);
    DropOne(mem[id].subs, i);
    forall j | 0 <= j < |w|
      ensures w[j] in chans && !chans[w[j]].closed && w[j] != c && chans[w[j]].home == id
    {
      assert w[j] in mem[id].subs;
    }
    forall o, j | o in mem && o != id && 0 <= j < |mem[o].subs|
      ensures mem[o].subs[j] != c
    {
      assert chans[mem[o].subs[j]].home == o;
    }
  }

  lemma UnsubscribeSafe(st: State, c: nat)
    requires Channelled(st)
    ensures UnsubscribeStep(st, c).Some? && Channelled(UnsubscribeStep(st, c).value)
  {
    if c in st.chans && st.chans[c].home in st.mem {
      var id := st.chans[c].home;
      IndexOfFinds(st.mem[id].subs, c);
      if IndexOf(st.mem[id].subs, c).Some? {
        UnlistOne(st.mem, st.chans, id, IndexOf(st.mem[id].subs, c).value);
      }
    }
  }

  lemma FaithfulReceive(c: Chan, log: seq<EventRow>)
    requires Faithful(c, log) && c.buf != []
    ensures Faithful(c.(buf := c.buf[1..], received := c.received + [c.buf[0]]), log)
  {
    assert c.received + [c.buf[0]] + c.buf[1..] == c.received + c.buf;
  }

  lemma PullSafe(st: State, s: nat, lookup: string -> Info)
    requires Channelled(st)
    ensures Channelled(PullStep(st, s, lookup))
  {
    if Running(st, s) {
      var st' := PullStep(st, s, lookup);
      var c := st.chans[st.streams[s].chan.value];
      if c.buf != [] {
        FaithfulReceive(c, st.log);
        ListedStill(st.mem, st.chans, st'.mem, st'.chans);
      }
    }
  }

  lemma StepSafe(max: int, lookup: string -> Info, st: State, step: Step)
    requires Channelled(st)
    ensures Next(max, lookup, st, step).Some? && Channelled(Next(max, lookup, st, step).value)
  {
    match step
    case Record(id, kind, ip, at, data) =>
      if id in st.mem {
        RecordSafe(max, st, id, Event(|st.log|, kind, ip, at, data));
      }
    case Remove(id) => RemoveSafe(st, id);
    case Subscribe(id) => SubscribeSafe(st, id);
    case Unsubscribe(c) => UnsubscribeSafe(st, c);
    case Open(s) =>
      if s in st.streams {
        SubscribeSafe(st, st.streams[s].slug);
      }
    case Pull(s) => PullSafe(st, s, lookup);
    case _ =>
  }

  lemma {:induction false} RunSafe(max: int, lookup: string -> Info, st: State, steps: seq<Step>)
    requires Channelled(st)
    ensures Run(max, lookup, st, steps).Some? && Channelled(Run(max, lookup, st, steps).value)
    decreases |steps|
  {
    if steps != [] {
      StepSafe(max, lookup, st, steps[0]);
      RunSafe(max, lookup, Next(max, lookup, st, steps[0]).value, steps[1..]);
    }
  }

  /** Position `i` of the entry of `id` and position `j` of that of `id'` list the same channel. */
  predicate SameListing(mem: map<Id, PubEntry>, id: Id, id': Id, i: int, j: int) {
    && id in mem && 0 <= i < |mem[id].subs|
    && id' in mem && 0 <= j < |mem[id'].subs|
    && mem[id].subs[i] == mem[id'].subs[j]
  }

  /** In every run, no channel is closed twice or sent to after its close; a channel is open
      exactly when some entry lists it; and no channel is listed twice, in one entry or in two. */
  lemma ChannelsLiveAndDieOnce(max: int, lookup: string -> Info, steps: seq<Step>)
    ensures Run(max, lookup, Init, steps).Some?
    ensures
      var st := Run(max, lookup, Init, steps).value;
      && (forall c :: c in st.chans ==> (!st.chans[c].closed <==> exists id :: id in st.mem && c in st.mem[id].subs))
      && (forall id, i :: id in st.mem && 0 <= i < |st.mem[id].subs| ==> st.mem[id].subs[i] in st.chans)
      && (forall id, id', i, j :: SameListing(st.mem, id, id', i, j) ==> id == id' && i == j)
  {
    RunSafe(max, lookup, Init, steps);
    var st := Run(max, lookup, Init, steps).value;
    forall id, id', i, j | SameListing(st.mem, id, id', i, j)
      ensures id == id' && i == j
    {
      assert st.chans[st.mem[id].subs[i]].home == id && st.chans[st.mem[id'].subs[j]].home == id';
    }
    forall c | c in st.chans
      ensures !st.chans[c].closed <==> exists id :: id in st.mem && c in st.mem[id].subs
    {
      if id :| id in st.mem && c in st.mem[id].subs {
        var i :| 0 <= i < |st.mem[id].subs| && st.mem[id].subs[i] == c;
      }
    }
  }

  // ---- What the operations do, in every run ----

  lemma ReachedSafe(max: int, lookup: string -> Info, steps: seq<Step>, st: State)
    requires Run(max, lookup, Init, steps) == Some(st)
    ensures Channelled(st)
  {
    RunSafe(max, lookup, Init, steps);
  }

  /** A record reaches every open channel of its slug, and no other: the event is put at the end of
      the buffer if fewer than 64 events wait there, and is lost to that channel otherwise. */
  lemma RecordReachesSubscribers(max: int, lookup: string -> Info, steps: seq<Step>, st: State, step: Step, c: nat)
    requires Run(max, lookup, Init, steps) == Some(st) && c in st.chans
    requires step.Record? && step.id in st.mem && !RecordPanics(st.mem[step.id].entry, max)
    ensures Next(max, lookup, st, step).Some? && c in Next(max, lookup, st, step).value.chans
    ensures
      var before, after := st.chans[c], Next(max, lookup, st, step).value.chans[c];
      var ev := Event(|st.log|, step.kind, step.sourceIP, step.at, step.data);
      if before.closed || before.home != step.id then after == before
      else
        && !after.closed && after.received == before.received && after.offered == before.offered + [ev]
        && after.rooms == before.rooms + [|before.buf| < 64]
        && after.buf == if |before.buf| < 64 then before.buf + [ev] else before.buf
  {
    ReachedSafe(max, lookup, steps, st);
    SendsToEach(st.chans, st.mem[step.id].subs, Event(|st.log|, step.kind, step.sourceIP, step.at, step.data));
  }

  /** A subscription to a registered slug is open, empty, and has room for 64 events; to any other
      it is closed. */
  lemma SubscribeOpens(max: int, lookup: string -> Info, steps: seq<Step>, st: State, id: Id)
    requires Run(max, lookup, Init, steps) == Some(st)
    ensures st.next !in st.chans && Next(max, lookup, st, Subscribe(id)).Some?
    ensures
      var st' := Next(max, lookup, st, Subscribe(id)).value;
      && st'.chans - {st.next} == st.chans && st.next in st'.chans
      && var c := st'.chans[st.next];
      && c.home == id && c.buf == [] && (c.closed <==> id !in st.mem) && (!c.closed ==> c.capacity == 64)
  {
    ReachedSafe(max, lookup, steps, st);
    assert SubscribeStep(st, id).chans - {st.next} == st.chans;
  }

  /** However often it was called before, unsubscribing leaves the channel closed, with what waits
      in it, and every other channel as it was. */
  lemma UnsubscribeCloses(max: int, lookup: string -> Info, steps: seq<Step>, st: State, c: nat)
    requires Run(max, lookup, Init, steps) == Some(st) && c in st.chans
    ensures Next(max, lookup, st, Unsubscribe(c)).Some?
    ensures Next(max, lookup, st, Unsubscribe(c)).value.chans == st.chans[c := st.chans[c].(closed := true)]
  {
    ReachedSafe(max, lookup, steps, st);
    UnsubscribeSafe(st, c);
    if !st.chans[c].closed {
      IndexOfFinds(st.mem[st.chans[c].home].subs, c);
    } else {
      assert st.chans[c := st.chans[c].(closed := true)] == st.chans;
      if st.chans[c].home in st.mem {
        IndexOfFinds(st.mem[st.chans[c].home].subs, c);
      }
    }
  }

  /** Removing a slug closes every channel of it and leaves every other as it was. */
  lemma RemoveClosesAll(max: int, lookup: string -> Info, steps: seq<Step>, st: State, id: Id)
    requires Run(max, lookup, Init, steps) == Some(st)
    ensures Next(max, lookup, st, Remove(id)).Some?
    ensures
      var st' := Next(max, lookup, st, Remove(id)).value;
      && id !in st'.mem && st'.chans.Keys == st.chans.Keys
      && forall c :: c in st.chans ==>
           st'.chans[c] == if st.chans[c].home == id then st.chans[c].(closed := true) else st.chans[c]
  {
    ReachedSafe(max, lookup, steps, st);
    RemoveSafe(st, id);
    if id in st.mem {
      ClosesEach(st.chans, st.mem[id].subs);
    }
  }
}
