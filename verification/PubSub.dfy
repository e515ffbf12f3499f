/** Subscribers, channels and event streams as a state machine.  A step is one critical section
    of the registry or one turn of a stream's select loop; runs interleave them freely. */
module PubSub {
  import opened Records
  import opened Entries
  import opened Channels

  datatype Info = Info(countryCode: string, flag: string, asn: nat, org: string)

  datatype PubEntry = PubEntry(entry: Entry, subs: seq<nat>)

  datatype Frame = Data(ev: Event, info: Info) | Heartbeat | Close

  /** An event stream request: the history it was given (`mark` is the length of the record log
      at that moment), its channel once subscribed, and what it has written. */
  datatype Stream = Stream(
    slug: Id,
    history: seq<Event>,
    mark: nat,
    chan: Option<nat>,
    cache: map<string, Info>,
    out: seq<Frame>,
    ended: bool)

  datatype State = State(
    mem: map<Id, PubEntry>,
    chans: map<nat, Chan>,
    next: nat,
    gens: nat,
    log: seq<EventRow>,
    streams: map<nat, Stream>)

  const Init: State := State(map[], map[], 0, 0, [], map[])

  datatype Step =
    | Create(slug: Slug)
    | Record(id: Id, kind: string, sourceIP: string, at: int, data: string)
    | Clear(id: Id)
    | Remove(id: Id)                // DeleteSlug, or Cleanup finding it expired
    | Subscribe(id: Id)
    | Unsubscribe(chan: nat)        // the function that Subscribe returned, called any number of times
    | TakeHistory(s: nat, id: Id)
    | Open(s: nat)                  // the stream subscribes and replays its history
    | Pull(s: nat)                  // the stream's select takes from the channel
    | Beat(s: nat)
    | Hangup(s: nat)

  // ---- The registry's side ----

  function RecordStep(max: int, st: State, id: Id, ev: Event): Option<State>
    requires id in st.mem
  {
    var e := st.mem[id];
    var mem := st.mem[id := e.(entry := RecordEntry(e.entry, ev, max))];
    if RecordPanics(e.entry, max) then Some(st.(mem := mem)) else
    match SendAll(st.chans, e.subs, ev)
    case None => None
    case Some(chans) => Some(st.(mem := mem, chans := chans, log := st.log + [EventRow(id, ev)]))
  }

  function RemoveStep(st: State, id: Id): Option<State> {
    if id !in st.mem then Some(st) else
    match CloseAll(st.chans, st.mem[id].subs)
    case None => None
    case Some(chans) => Some(st.(mem := st.mem - {id}, chans := chans))
  }

  /** A slug that is not registered gets a closed channel without a buffer. */
  function SubscribeStep(st: State, id: Id): State {
    var live := id in st.mem;
    var c := Chan(id, |st.log|, if live then CAPACITY else 0, [], !live, [], [], []);
    st.(chans := st.chans[st.next := c], next := st.next + 1,
        mem := if live then st.mem[id := st.mem[id].(subs := st.mem[id].subs + [st.next])] else st.mem)
  }

  function IndexOf(subs: seq<nat>, c: nat): Option<nat> {
    if subs == [] then None
    else if subs[0] == c then Some(0)
    else match IndexOf(subs[1..], c)
         case None => None
         case Some(i) => Some(i + 1)
  }

  /** The entry is looked up by the slug's ID again, so it may be another one by now. */
  function UnsubscribeStep(st: State, c: nat): Option<State> {
    if c !in st.chans || st.chans[c].home !in st.mem then Some(st) else
    var id := st.chans[c].home;
    var subs := st.mem[id].subs;
    match IndexOf(subs, c)
    case None => Some(st)
    case Some(i) =>
      if i >= |subs| || st.chans[c].closed then None else
      Some(st.(mem := st.mem[id := st.mem[id].(subs := DropAt(subs, i))],
               chans := st.chans[c := st.chans[c].(closed := true)]))
  }

  // ---- The stream's side ----

  /** Enriching with a cache: the information, and the cache afterwards. */
  function Enrich(ev: Event, cache: map<string, Info>, lookup: string -> Info): (Info, map<string, Info>) {
    if ev.sourceIP in cache then (cache[ev.sourceIP], cache) else
    (lookup(ev.sourceIP), cache[ev.sourceIP := lookup(ev.sourceIP)])
  }

  function Replay(events: seq<Event>, cache: map<string, Info>, lookup: string -> Info): (seq<Frame>, map<string, Info>) {
    if events == [] then ([], cache) else
    var (frames, cache1) := Replay(events[..|events| - 1], cache, lookup);
    var ev := events[|events| - 1];
    var (info, cache2) := Enrich(ev, cache1, lookup);
    (frames + [Data(ev, info)], cache2)
  }

  function OpenStep(st: State, s: nat, lookup: string -> Info): State {
    if s !in st.streams || st.streams[s].chan.Some? then st else
    var t := st.streams[s];
    var (frames, cache) := Replay(t.history, map[], lookup);
    var st' := SubscribeStep(st, t.slug);
    st'.(streams := st.streams[s := t.(chan := Some(st.next), cache := cache, out := frames)])
  }

  predicate Running(st: State, s: nat) {
    s in st.streams && st.streams[s].chan.Some? && !st.streams[s].ended && st.streams[s].chan.value in st.chans
  }

  /** A channel delivers what is in its buffer, closed or not; closure shows when it is empty. */
  function PullStep(st: State, s: nat, lookup: string -> Info): State {
    if !Running(st, s) then st else
    var t := st.streams[s];
    var c := st.chans[t.chan.value];
    if c.buf != [] then
      var (info, cache) := Enrich(c.buf[0], t.cache, lookup);
      st.(chans := st.chans[t.chan.value := c.(buf := c.buf[1..], received := c.received + [c.buf[0]])],
          streams := st.streams[s := t.(cache := cache, out := t.out + [Data(c.buf[0], info)])])
    else if c.closed then
      st.(streams := st.streams[s := t.(out := t.out + [Close], ended := true)])
    else st
  }

  function TakeHistoryStep(st: State, s: nat, id: Id): State {
    if s in st.streams then st else
    st.(streams := st.streams[s :=
          Stream(id, if id in st.mem then st.mem[id].entry.events else [], |st.log|, None, map[], [], false)])
  }

  /** One step; `None` is a runtime panic that a channel operation raises. */
  function Next(max: int, lookup: string -> Info, st: State, step: Step): Option<State> {
    match step
    case Create(slug) =>
      if slug.id in st.mem then Some(st) else
      Some(st.(mem := st.mem[slug.id := PubEntry(NewEntry(slug, st.gens), [])], gens := st.gens + 1))
    case Record(id, kind, ip, at, data) =>
      if id !in st.mem then Some(st) else RecordStep(max, st, id, Event(|st.log|, kind, ip, at, data))
    case Clear(id) =>
      if id !in st.mem then Some(st) else
      Some(st.(mem := st.mem[id := st.mem[id].(entry := ClearEntry(st.mem[id].entry))]))
    case Remove(id) => RemoveStep(st, id)
    case Subscribe(id) => Some(SubscribeStep(st, id))
    case Unsubscribe(c) => UnsubscribeStep(st, c)
    case TakeHistory(s, id) => Some(TakeHistoryStep(st, s, id))
    case Open(s) => Some(OpenStep(st, s, lookup))
    case Pull(s) => Some(PullStep(st, s, lookup))
    case Beat(s) =>
      if !Running(st, s) then Some(st) else
      Some(st.(streams := st.streams[s := st.streams[s].(out := st.streams[s].out + [Heartbeat])]))
    case Hangup(s) =>
      if !Running(st, s) then Some(st) else Some(st.(streams := st.streams[s := st.streams[s].(ended := true)]))
  }

  function Run(max: int, lookup: string -> Info, st: State, steps: seq<Step>): Option<State>
    decreases |steps|
  {
    if steps == [] then Some(st) else
    match Next(max, lookup, st, steps[0])
    case None => None
    case Some(st') => Run(max, lookup, st', steps[1..])
  }
}
