/** Subscriber channels: bounded buffers that are sent to without blocking and closed once. */
module Channels {
  import opened Records
  import Tables

  /** The buffer of a subscriber's channel. */
  const CAPACITY: nat := 64

  /** A channel made by `Subscribe` for slug `home`.  Besides the buffer it carries its history:
      every event offered to it, whether there was room for each, and what was taken out;
      `start` is the length of the record log when it was made. */
  datatype Chan = Chan(
    home: Id,
    start: nat,
    capacity: nat,
    buf: seq<Event>,
    closed: bool,
    offered: seq<Event>,
    rooms: seq<bool>,
    received: seq<Event>)

  function Offer(c: Chan, ev: Event): Chan {
    var room := |c.buf| < c.capacity;
    c.(buf := if room then c.buf + [ev] else c.buf, offered := c.offered + [ev], rooms := c.rooms + [room])
  }

  /** Sends one event to each listed channel in turn; sending on a closed channel panics. */
  function SendAll(chans: map<nat, Chan>, subs: seq<nat>, ev: Event): Option<map<nat, Chan>> {
    if subs == [] then Some(chans)
    else if subs[0] !in chans || chans[subs[0]].closed then None
    else SendAll(chans[subs[0] := Offer(chans[subs[0]], ev)], subs[1..], ev)
  }

  /** Closes each listed channel in turn; closing a closed channel panics. */
  function CloseAll(chans: map<nat, Chan>, subs: seq<nat>): Option<map<nat, Chan>> {
    if subs == [] then Some(chans)
    else if subs[0] !in chans || chans[subs[0]].closed then None
    else CloseAll(chans[subs[0] := chans[subs[0]].(closed := true)], subs[1..])
  }

  ghost predicate Distinct(subs: seq<nat>) {
    forall i, j :: 0 <= i < j < |subs| ==> subs[i] != subs[j]
  }

  ghost predicate AllOpen(chans: map<nat, Chan>, subs: seq<nat>) {
    forall i :: 0 <= i < |subs| ==> subs[i] in chans && !chans[subs[i]].closed
  }

  function Offered(chans: map<nat, Chan>, subs: seq<nat>, ev: Event): map<nat, Chan> {
    map c | c in chans :: if c in subs then Offer(chans[c], ev) else chans[c]
  }

  function Closed(chans: map<nat, Chan>, subs: seq<nat>): map<nat, Chan> {
    map c | c in chans :: if c in subs then chans[c].(closed := true) else chans[c]
  }

  lemma {:induction false} SendsToEach(chans: map<nat, Chan>, subs: seq<nat>, ev: Event)
    requires Distinct(subs) && AllOpen(chans, subs)
    ensures SendAll(chans, subs, ev) == Some(Offered(chans, subs, ev))
  {
    if subs == [] {
      assert Offered(chans, subs, ev) == chans;
    } else {
      var next := chans[subs[0] := Offer(chans[subs[0]], ev)];
      assert forall i :: 0 <= i < |subs[1..]| ==> subs[1..][i] == subs[i + 1];
      SendsToEach(next, subs[1..], ev);
      assert forall c :: c in subs <==> c == subs[0] || c in subs[1..];
      assert subs[0] !in subs[1..];
      assert Offered(next, subs[1..], ev) == Offered(chans, subs, ev);
    }
  }

  lemma {:induction false} ClosesEach(chans: map<nat, Chan>, subs: seq<nat>)
    requires Distinct(subs) && AllOpen(chans, subs)
    ensures CloseAll(chans, subs) == Some(Closed(chans, subs))
  {
    if subs == [] {
      assert Closed(chans, subs) == chans;
    } else {
      var next := chans[subs[0] := chans[subs[0]].(closed := true)];
      assert forall i :: 0 <= i < |subs[1..]| ==> subs[1..][i] == subs[i + 1];
      ClosesEach(next, subs[1..]);
      assert forall c :: c in subs <==> c == subs[0] || c in subs[1..];
      assert subs[0] !in subs[1..];
      assert Closed(next, subs[1..]) == Closed(chans, subs);
    }
  }

  /** The offered events that found room. */
  function Accepted(offered: seq<Event>, rooms: seq<bool>): seq<Event>
    requires |rooms| == |offered|
  {
    if offered == [] then [] else
    Accepted(offered[..|offered| - 1], rooms[..|rooms| - 1]) +
      if rooms[|rooms| - 1] then [offered[|offered| - 1]] else []
  }

  lemma AcceptedAppend(offered: seq<Event>, rooms: seq<bool>, ev: Event, room: bool)
    requires |rooms| == |offered|
    ensures Accepted(offered + [ev], rooms + [room]) == Accepted(offered, rooms) + if room then [ev] else []
  {
    assert (offered + [ev])[..|offered|] == offered && (rooms + [room])[..|rooms|] == rooms;
  }

  /** What is true of every channel at every moment: nothing accepted is lost, repeated or
      reordered, and what was offered is what was recorded for the slug since the channel was
      made, up to now while it is open. */
  ghost predicate Faithful(c: Chan, log: seq<EventRow>) {
    && |c.rooms| == |c.offered|
    && c.received + c.buf == Accepted(c.offered, c.rooms)
    && |c.buf| <= c.capacity
    && c.start <= |log|
    && (if c.closed then c.offered <= Tables.RowsOf(log[c.start..], c.home)
        else c.offered == Tables.RowsOf(log[c.start..], c.home))
    && (forall i :: 0 <= i < |c.rooms| && !c.rooms[i] ==> c.capacity <= i)
  }

  lemma FaithfulOffer(c: Chan, log: seq<EventRow>, ev: Event)
    requires Faithful(c, log) && !c.closed
    ensures Faithful(Offer(c, ev), log + [EventRow(c.home, ev)])
  {
    var item := EventRow(c.home, ev);
    AcceptedAppend(c.offered, c.rooms, ev, |c.buf| < c.capacity);
    assert (log + [item])[c.start..] == log[c.start..] + [item];
    Tables.RowsOfConcat(log[c.start..], [item], c.home);
    AcceptedIsShort(c.offered, c.rooms);
  }

  /** As many events are accepted as were offered exactly when each of them found room. */
  lemma {:induction false} AcceptedIsShort(offered: seq<Event>, rooms: seq<bool>)
    requires |rooms| == |offered|
    ensures |Accepted(offered, rooms)| <= |offered|
    ensures |Accepted(offered, rooms)| == |offered| <==> forall i :: 0 <= i < |rooms| ==> rooms[i]
    ensures |Accepted(offered, rooms)| == |offered| ==> Accepted(offered, rooms) == offered
  {
    if offered != [] {
      var n := |offered| - 1;
      AcceptedIsShort(offered[..n], rooms[..n]);
      assert forall i :: 0 <= i < n ==> rooms[..n][i] == rooms[i];
    }
  }

  /** A log entry of another slug, or of this one after the channel was closed. */
  lemma FaithfulElsewhere(c: Chan, log: seq<EventRow>, item: EventRow)
    requires Faithful(c, log) && (c.closed || item.slug != c.home)
    ensures Faithful(c, log + [item])
  {
    assert (log + [item])[c.start..] == log[c.start..] + [item];
    Tables.RowsOfConcat(log[c.start..], [item], c.home);
  }

  /** While no more events were offered than the buffer holds, every one of them was accepted. */
  lemma {:induction false} AllAcceptedAtFirst(offered: seq<Event>, rooms: seq<bool>, capacity: nat)
    requires |rooms| == |offered| <= capacity
    requires forall i :: 0 <= i < |rooms| && !rooms[i] ==> capacity <= i
    ensures Accepted(offered, rooms) == offered
  {
    if offered != [] {
      AllAcceptedAtFirst(offered[..|offered| - 1], rooms[..|rooms| - 1], capacity);
    }
  }
}
