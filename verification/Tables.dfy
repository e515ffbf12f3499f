/** The store as two tables: slug rows by ID, and event rows in insertion order
    (internal/store/store.go).  Each operation is one transaction. */
module Tables {
  import opened Records

  datatype Db = Db(slugs: map<Id, Slug>, rows: seq<EventRow>)

  function InsertSlug(db: Db, s: Slug): Db {
    db.(slugs := db.slugs[s.id := s])
  }

  function InsertEvents(db: Db, rows: seq<EventRow>): Db {
    db.(rows := db.rows + rows)
  }

  function DeleteIds(db: Db, ids: set<Id>): Db {
    Db(db.slugs - ids, Without(db.rows, ids))
  }

  function ExpiredIds(db: Db, before: int): set<Id> {
    set id | id in db.slugs && db.slugs[id].expiresAt < before
  }

  function LoadSlugs(db: Db, since: int): map<Id, Slug> {
    map id | id in db.slugs && db.slugs[id].expiresAt > since :: db.slugs[id]
  }

  /** The rows as a snapshot of slug `id` carries them. */
  function RowsFor(id: Id, events: seq<Event>): seq<EventRow> {
    seq(|events|, i requires 0 <= i < |events| => EventRow(id, events[i]))
  }

  /** The events of one slug, in insertion order. */
  function RowsOf(rows: seq<EventRow>, id: Id): seq<Event> {
    if rows == [] then []
    else if rows[0].slug == id then [rows[0].event] + RowsOf(rows[1..], id)
    else RowsOf(rows[1..], id)
  }

  function Without(rows: seq<EventRow>, ids: set<Id>): seq<EventRow> {
    if rows == [] then []
    else if rows[0].slug in ids then Without(rows[1..], ids)
    else [rows[0]] + Without(rows[1..], ids)
  }

  /** Rows with a timestamp after `since`, in insertion order. */
  function Since(rows: seq<EventRow>, since: int): seq<EventRow> {
    if rows == [] then []
    else if rows[0].event.at > since then [rows[0]] + Since(rows[1..], since)
    else Since(rows[1..], since)
  }

  /** `since` applied to the events of one slug. */
  function EventsSince(events: seq<Event>, since: int): seq<Event> {
    if events == [] then []
    else if events[0].at > since then [events[0]] + EventsSince(events[1..], since)
    else EventsSince(events[1..], since)
  }

  /** `c` is the smaller of `now` and the earliest creation time among `slugs`. */
  ghost predicate IsEarliest(slugs: map<Id, Slug>, now: int, c: int) {
    && c <= now
    && (forall id :: id in slugs ==> c <= slugs[id].createdAt)
    && (c == now || exists id :: id in slugs && slugs[id].createdAt == c)
  }

  lemma {:induction false} RowsOfConcat(a: seq<EventRow>, b: seq<EventRow>, id: Id)
    ensures RowsOf(a + b, id) == RowsOf(a, id) + RowsOf(b, id)
  {
    if a == [] {
      assert a + b == b;
    } else {
      RowsOfConcat(a[1..], b, id);
      assert (a + b)[1..] == a[1..] + b;
    }
  }

  lemma {:induction false} RowsOfRowsFor(events: seq<Event>, id: Id, other: Id)
    ensures RowsOf(RowsFor(id, events), other) == if other == id then events else []
  {
    if events != [] {
      RowsOfRowsFor(events[1..], id, other);
      assert RowsFor(id, events)[1..] == RowsFor(id, events[1..]);
    }
  }

  /** Writing a snapshot appends its events to its slug's and touches no other slug. */
  lemma RowsOfPut(rows: seq<EventRow>, id: Id, events: seq<Event>, other: Id)
    ensures RowsOf(rows + RowsFor(id, events), other) == if other == id then RowsOf(rows, id) + events else RowsOf(rows, other)
  {
    RowsOfConcat(rows, RowsFor(id, events), other);
    RowsOfRowsFor(events, id, other);
  }

  /** Deleting slugs leaves every other slug's rows as they were, and none of theirs. */
  lemma {:induction false} RowsOfWithout(rows: seq<EventRow>, ids: set<Id>, id: Id)
    ensures RowsOf(Without(rows, ids), id) == if id in ids then [] else RowsOf(rows, id)
  {
    if rows != [] {
      RowsOfWithout(rows[1..], ids, id);
      if rows[0].slug !in ids {
        assert Without(rows, ids)[1..] == Without(rows[1..], ids);
      }
    }
  }

  lemma {:induction false} RowsOfSince(rows: seq<EventRow>, since: int, id: Id)
    ensures RowsOf(Since(rows, since), id) == EventsSince(RowsOf(rows, id), since)
  {
    if rows != [] {
      RowsOfSince(rows[1..], since, id);
      var rest := Since(rows[1..], since);
      if rows[0].event.at > since {
        assert Since(rows, since)[1..] == rest;
      }
      if rows[0].slug == id {
        assert RowsOf(rows, id)[1..] == RowsOf(rows[1..], id);
      }
    }
  }

  lemma TakeOut(a: seq<EventRow>, b: seq<EventRow>, j: nat)
    requires a != [] && multiset(a) == multiset(b) && j < |b| && b[j] == a[0]
    ensures multiset(a[1..]) == multiset(DropAt(b, j))
  {
    assert a == [a[0]] + a[1..] && b == b[..j] + [b[j]] + b[j + 1..];
    assert multiset(a) == multiset{a[0]} + multiset(a[1..]);
    assert multiset(b) == multiset(b[..j]) + multiset{b[j]} + multiset(b[j + 1..]);
    assert multiset(DropAt(b, j)) == multiset(b[..j]) + multiset(b[j + 1..]);
    assert multiset(a[1..]) == multiset(a) - multiset{a[0]} == multiset(DropAt(b, j));
  }

  lemma RowsOfDropAt(b: seq<EventRow>, j: nat, id: Id)
    requires j < |b|
    ensures |RowsOf(b, id)| == |RowsOf(DropAt(b, j), id)| + if b[j].slug == id then 1 else 0
  {
    var x, y := b[..j], b[j + 1..];
    assert b == x + ([b[j]] + y) && DropAt(b, j) == x + y;
    RowsOfConcat(x, y, id);
    RowsOfConcat(x, [b[j]] + y, id);
    RowsOfConcat([b[j]], y, id);
    assert |RowsOf([b[j]], id)| == if b[j].slug == id then 1 else 0;
  }

  /** The number of a slug's events does not depend on the order of the rows. */
  lemma {:induction false} RowsOfCount(a: seq<EventRow>, b: seq<EventRow>, id: Id)
    requires multiset(a) == multiset(b)
    ensures |RowsOf(a, id)| == |RowsOf(b, id)|
  {
    if a == [] {
      assert |multiset(b)| == 0;
    } else {
      assert a[0] in multiset(b);
      var j :| 0 <= j < |b| && b[j] == a[0];
      TakeOut(a, b, j);
      RowsOfCount(a[1..], DropAt(b, j), id);
      RowsOfDropAt(b, j, id);
    }
  }

  /** Membership in a slug's events is membership of the row in the table. */
  lemma {:induction false} RowsOfMember(rows: seq<EventRow>, id: Id, e: Event)
    ensures e in RowsOf(rows, id) <==> EventRow(id, e) in rows
  {
    if rows != [] {
      RowsOfMember(rows[1..], id, e);
    }
  }

  lemma {:induction false} SinceMember(rows: seq<EventRow>, since: int, r: EventRow)
    ensures r in Since(rows, since) <==> r in rows && r.event.at > since
  {
    if rows != [] {
      SinceMember(rows[1..], since, r);
    }
  }

  /** With events in time order, a timestamp cutoff keeps a suffix of them. */
  lemma {:induction false} EventsSinceIsSuffix(events: seq<Event>, since: int)
    requires forall i, j :: 0 <= i < j < |events| ==> events[i].at <= events[j].at
    ensures Suffix(EventsSince(events, since), events)
  {
    if events != [] {
      EventsSinceIsSuffix(events[1..], since);
      if events[0].at > since {
        EventsSinceKeepsAll(events, since);
      } else {
        DropIsSuffix(events, 1);
        SuffixOfSuffix(EventsSince(events[1..], since), events[1..], events);
      }
    }
  }

  lemma EventsSinceCons(e: Event, s: seq<Event>, since: int)
    ensures EventsSince([e] + s, since) == if e.at > since then [e] + EventsSince(s, since) else EventsSince(s, since)
  {
    assert ([e] + s)[1..] == s;
  }

  lemma EventsSinceStep(e: Event, a: seq<Event>, b: seq<Event>, since: int)
    requires EventsSince(a + b, since) == EventsSince(a, since) + EventsSince(b, since)
    ensures EventsSince([e] + (a + b), since) == EventsSince([e] + a, since) + EventsSince(b, since)
  {
    EventsSinceCons(e, a, since);
    EventsSinceCons(e, a + b, since);
    Regroup([e], EventsSince(a, since), EventsSince(b, since));
  }

  lemma {:induction false} EventsSinceConcat(a: seq<Event>, b: seq<Event>, since: int)
    ensures EventsSince(a + b, since) == EventsSince(a, since) + EventsSince(b, since)
  {
    if a == [] {
      assert a + b == b;
    } else {
      EventsSinceConcat(a[1..], b, since);
      EventsSinceStep(a[0], a[1..], b, since);
      assert a + b == [a[0]] + (a[1..] + b) && a == [a[0]] + a[1..];
    }
  }

  lemma {:induction false} EventsSinceMember(events: seq<Event>, since: int, e: Event)
    ensures e in EventsSince(events, since) <==> e in events && e.at > since
  {
    if events != [] {
      EventsSinceMember(events[1..], since, e);
      assert events == [events[0]] + events[1..];
    }
  }

  lemma {:induction false} EventsSinceKeepsAll(events: seq<Event>, since: int)
    requires forall i :: 0 <= i < |events| ==> events[i].at > since
    ensures EventsSince(events, since) == events
  {
    if events != [] {
      EventsSinceKeepsAll(events[1..], since);
    }
  }

  /** Order within one slug's events is order in the table. */
  lemma {:induction false} RowsInOrder(rows: seq<EventRow>, i: nat, j: nat)
    requires i < j < |rows| && rows[i].slug == rows[j].slug
    requires Increasing(RowsOf(rows, rows[i].slug))
    ensures rows[i].event.no < rows[j].event.no
  {
    var id := rows[i].slug;
    var a, b := rows[..j], rows[j..];
    assert rows == a + b;
    RowsOfConcat(a, b, id);
    RowsOfMember(a, id, rows[i].event);
    assert a[i] == EventRow(id, rows[i].event);
    var p :| 0 <= p < |RowsOf(a, id)| && RowsOf(a, id)[p] == rows[i].event;
    assert b[0] == rows[j];
    assert RowsOf(b, id)[0] == rows[j].event;
    var all := RowsOf(rows, id);
    assert all[p] == rows[i].event;
    assert all[|RowsOf(a, id)|] == rows[j].event;
  }
}
