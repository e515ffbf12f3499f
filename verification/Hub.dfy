/** Subscriptions as objects: channels, the lists that entries keep of them, and the stream loop. */
module Hub {
  import opened Records
  import opened Channels
  import opened PubSub
  import opened Streams
  import opened Turns

  /** A Go channel of events.  The ghost fields are its history. */
  class Channel {
    const home: Id
    const capacity: nat
    var buf: seq<Event>
    var closed: bool
    ghost const start: nat
    ghost var offered: seq<Event>
    ghost var rooms: seq<bool>
    ghost var received: seq<Event>

    ghost function Value(): Chan
      reads this
    {
      Chan(home, start, capacity, buf, closed, offered, rooms, received)
    }

    constructor (home: Id, capacity: nat, ghost start: nat)
      ensures Value() == Chan(home, start, capacity, [], false, [], [], [])
    {
      this.home, this.capacity, this.start := home, capacity, start;
      buf, closed := [], false;
      offered, rooms, received := [], [], [];
    }

    /** A send that gives up when the buffer is full; on a closed channel it would panic. */
    method TrySend(ev: Event)
      requires !closed
      modifies this
      ensures Value() == Offer(old(Value()), ev)
    {
      offered, rooms := offered + [ev], rooms + [|buf| < capacity];
      if |buf| < capacity {
        buf := buf + [ev];
      }
    }

    /** Closing a closed channel would panic. */
    method Close()
      requires !closed
      modifies this
      ensures Value() == old(Value()).(closed := true)
    {
      closed := true;
    }
  }

  ghost predicate AllDistinct(chans: seq<Channel>) {
    forall i, j :: 0 <= i < j < |chans| ==> chans[i] != chans[j]
  }

  /** The registered slugs with their subscribers. */
  class Hub {
    var subs: map<Id, seq<Channel>>

    ghost function Listed(): set<Channel>
      reads this
    {
      set id, c | id in subs && c in subs[id] :: c
    }

    /** Every listed channel is open, belongs to the slug that lists it, and is listed once. */
    ghost predicate Valid()
      reads this, Listed()
    {
      && (forall id :: id in subs ==> AllDistinct(subs[id]))
      && (forall id, c :: id in subs && c in subs[id] ==> c.home == id && c in Listed() && !c.closed)
    }

    predicate Lists(c: Channel)
      reads this
    {
      c.home in subs && c in subs[c.home]
    }

    constructor ()
      ensures Valid() && subs == map[]
    {
      subs := map[];
    }

    method Register(id: Id)
      requires Valid() && id !in subs
      modifies this
      ensures Valid() && subs == old(subs)[id := []]
    {
      subs := subs[id := []];
    }

    /** The sends of `recordEvent`: every subscriber of the slug is offered the event, once. */
    method Publish(id: Id, ev: Event)
      requires Valid() && id in subs
      modifies subs[id]
      ensures Valid() && subs == old(subs)
      ensures forall c :: c in subs[id] ==> c.Value() == Offer(old(c.Value()), ev)
    {
      var list := subs[id];
      for i := 0 to |list|
        invariant subs == old(subs) && list == subs[id] && list == old(subs[id])
        invariant forall j :: 0 <= j < i ==> list[j].Value() == Offer(old(list[j].Value()), ev)
        invariant forall j :: i <= j < |list| ==> list[j].Value() == old(list[j].Value())
      {
        assert list[i] in old(subs[id]);
        list[i].TrySend(ev);
      }
    }

    static method CloseEach(list: seq<Channel>)
      requires AllDistinct(list) && forall c :: c in list ==> !c.closed
      modifies list
      ensures forall c :: c in list ==> c.Value() == old(c.Value()).(closed := true)
    {
      for i := 0 to |list|
        invariant forall j :: 0 <= j < i ==> list[j].Value() == old(list[j].Value()).(closed := true)
        invariant forall j :: i <= j < |list| ==> list[j].Value() == old(list[j].Value())
      {
        assert !old(list[i].closed);
        list[i].Close();
      }
    }

    /** The closes of `DeleteSlug` and `Cleanup`: every subscriber is closed, once, and the slug
        is gone. */
    method CloseSlug(id: Id)
      requires Valid()
      modifies this, if id in subs then subs[id] else []
      ensures Valid() && subs == old(subs) - {id}
      ensures id in old(subs) ==> forall c :: c in old(subs)[id] ==> c.Value() == old(c.Value()).(closed := true)
    {
      if id in subs {
        ghost var list := subs[id];
        CloseEach(subs[id]);
        forall o, c | o in subs && o != id && c in subs[o]
          ensures c !in list
        {
          assert c.home == o;
        }
      }
      subs := subs - {id};
    }

    method Subscribe(id: Id, ghost start: nat) returns (c: Channel)
      requires Valid()
      modifies this
      ensures Valid() && fresh(c)
      ensures id in old(subs) ==>
                subs == old(subs)[id := old(subs)[id] + [c]] && c.Value() == Chan(id, start, CAPACITY, [], false, [], [], [])
      ensures id !in old(subs) ==>
                subs == old(subs) && c.Value() == Chan(id, start, 0, [], true, [], [], [])
    {
      if id !in subs {
        c := new Channel(id, 0, start);
        c.Close();
      } else {
        c := new Channel(id, CAPACITY, start);
        subs := subs[id := subs[id] + [c]];
      }
    }

    method Find(id: Id, c: Channel) returns (i: nat)
      requires id in subs
      ensures i <= |subs[id]| && (i < |subs[id]| ==> subs[id][i] == c)
      ensures i == |subs[id]| ==> c !in subs[id]
    {
      i := 0;
      while i < |subs[id]| && subs[id][i] != c
        invariant i <= |subs[id]| && c !in subs[id][..i]
      {
        i := i + 1;
      }
    }

    /** The function that `Subscribe` hands out.  It acts if the channel is still listed, and
        does nothing when it was called before, or the slug is gone or was created anew. */
    method Unsubscribe(c: Channel)
      requires Valid()
      modifies this, c
      ensures Valid() && subs.Keys == old(subs).Keys
      ensures old(Lists(c)) ==> c.Value() == old(c.Value()).(closed := true)
      ensures old(Lists(c)) ==>
                exists i: nat :: i < |old(subs)[c.home]| && old(subs)[c.home][i] == c
                                 && subs == old(subs)[c.home := DropAt(old(subs)[c.home], i)]
      ensures !old(Lists(c)) ==> subs == old(subs) && c.Value() == old(c.Value())
      ensures forall o: Channel :: Lists(o) <==> old(allocated(o) && Lists(o)) && o != c
    {
      var id := c.home;
      if id !in subs {
        return;
      }
      var i := Find(id, c);
      if i == |subs[id]| {
        return;
      }
      assert c in subs[id];
      Unlist(id, i);
      c.Close();
    }

    method Unlist(id: Id, i: nat)
      requires Valid() && id in subs && i < |subs[id]|
      modifies this
      ensures Valid() && subs == old(subs)[id := DropAt(old(subs)[id], i)]
      ensures forall o, x :: o in subs ==> (x in subs[o] <==> x in old(subs)[o] && x != old(subs)[id][i])
    {
      ghost var c := subs[id][i];
      var shorter := DropAt(subs[id], i);
      assert forall j :: 0 <= j < |shorter| ==> shorter[j] == if j < i then subs[id][j] else subs[id][j + 1];
      forall o | o in subs[id] && o != c
        ensures o in shorter
      {
        var j :| 0 <= j < |subs[id]| && subs[id][j] == o;
        assert shorter[if j < i then j else j - 1] == o;
      }
      assert c in subs[id] && c.home == id;
      assert c !in shorter;
      subs := subs[id := shorter];
    }
  }

  // ---- The stream loop ----

  method EnrichEvent(ev: Event, cache: map<string, Info>, lookup: string -> Info) returns (info: Info, cache': map<string, Info>)
    requires CacheOk(cache, lookup)
    ensures info == lookup(ev.sourceIP) && CacheOk(cache', lookup)
    ensures (info, cache') == Enrich(ev, cache, lookup)
  {
    if ev.sourceIP in cache {
      info, cache' := cache[ev.sourceIP], cache;
    } else {
      info := lookup(ev.sourceIP);
      cache' := cache[ev.sourceIP := info];
    }
  }

  method WriteHistory(history: seq<Event>, lookup: string -> Info) returns (out: seq<Frame>, cache: map<string, Info>)
    ensures out == HistoryFrames(history, lookup) && CacheOk(cache, lookup)
    ensures |out| == |history| && forall i :: 0 <= i < |history| ==> out[i] == Data(history[i], lookup(history[i].sourceIP))
  {
    out, cache := [], map[];
    for i := 0 to |history|
      invariant out == HistoryFrames(history, lookup)[..i] && CacheOk(cache, lookup)
    {
      var info;
      info, cache := EnrichEvent(history[i], cache, lookup);
      out := out + [Data(history[i], info)];
    }
  }

  /** The stream writes its history, then for each turn what `Turns.FramesAt` says: every received
      event, once and in its place, and the close if the channel ends before the request. */
  method StreamEvents(history: seq<Event>, turns: seq<Turn>, lookup: string -> Info) returns (out: seq<Frame>)
    ensures out == HistoryFrames(history, lookup) + Frames(turns, lookup)
  {
    var cache;
    out, cache := WriteHistory(history, lookup);
    ghost var whole := out + Frames(turns, lookup);
    var rest := turns;
    while rest != []
      invariant out + Frames(rest, lookup) == whole && CacheOk(cache, lookup)
      decreases |rest|
    {
      match rest[0] {
        case Got(ev) =>
          var info;
          info, cache := EnrichEvent(ev, cache, lookup);
          Regroup(out, [Data(ev, info)], Frames(rest[1..], lookup));
          out := out + [Data(ev, info)];
        case Ended =>
          out := out + [Close];
          return;
        case Beaten =>
          Regroup(out, [Heartbeat], Frames(rest[1..], lookup));
          out := out + [Heartbeat];
        case Gone =>
          assert out + [] == out;
          return;
      }
      rest := rest[1..];
    }
    assert out + [] == out;
  }
}
