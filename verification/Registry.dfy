/** The registry as an object over its entries: every public operation, the flush and the load.
    Clock readings, record numbers and drawn IDs are parameters. */
module Registry {
  import opened Records
  import opened Entries
  import opened SlugEntries
  import Tables
  import Protocol
  import Stores

  /** What `collectDirtySnapshots` hands to the rest of a flush: copies, and the entry itself. */
  datatype FlushSnapshot = FlushSnapshot(slug: Slug, rows: seq<EventRow>, entry: SlugEntry, snapshotLen: nat)

  lemma RemoveOne<K, V>(m: map<K, V>, k: K)
    requires k in m
    ensures |m - {k}| == |m| - 1
  {
    assert (m - {k}).Keys == m.Keys - {k};
  }

  ghost predicate SnapOf(s: FlushSnapshot, slugs: map<Id, SlugEntry>, mem: map<Id, Entry>) {
    var id := s.slug.id;
    && id in mem && mem[id].dirty && id in slugs
    && s.slug == mem[id].slug
    && s.entry == slugs[id]
    && s.snapshotLen == |mem[id].events|
    && s.rows == Tables.RowsFor(id, Pending(mem[id]))
  }

  /** One snapshot for each dirty entry outside `rest`, that of `id` at position `at[id]`. */
  ghost predicate Snapped(snaps: seq<FlushSnapshot>, at: map<Id, nat>, slugs: map<Id, SlugEntry>, mem: map<Id, Entry>, rest: set<Id>) {
    && (forall id :: id in at <==> id in mem && id !in rest && mem[id].dirty)
    && (forall id :: id in at ==> at[id] < |snaps| && snaps[at[id]].slug.id == id)
    && (forall i :: 0 <= i < |snaps| ==>
          SnapOf(snaps[i], slugs, mem) && snaps[i].slug.id in at && at[snaps[i].slug.id] == i)
  }

  lemma SnappedOne(snaps: seq<FlushSnapshot>, at: map<Id, nat>, slugs: map<Id, SlugEntry>, mem: map<Id, Entry>, rest: set<Id>,
                   snap: FlushSnapshot)
    requires Snapped(snaps, at, slugs, mem, rest) && SnapOf(snap, slugs, mem) && snap.slug.id in rest
    ensures Snapped(snaps + [snap], at[snap.slug.id := |snaps|], slugs, mem, rest - {snap.slug.id})
  {
  }

  lemma SnappedNone(snaps: seq<FlushSnapshot>, at: map<Id, nat>, slugs: map<Id, SlugEntry>, mem: map<Id, Entry>, rest: set<Id>, id: Id)
    requires Snapped(snaps, at, slugs, mem, rest) && id in mem && !mem[id].dirty
    ensures Snapped(snaps, at, slugs, mem, rest - {id})
  {
  }

  /** The slugs of the first `i` snapshots. */
  ghost function FirstIds(at: map<Id, nat>, i: nat): set<Id> {
    set id | id in at && at[id] < i
  }

  lemma FirstIdsGrow(snaps: seq<FlushSnapshot>, at: map<Id, nat>, slugs: map<Id, SlugEntry>, mem: map<Id, Entry>, i: nat)
    requires Snapped(snaps, at, slugs, mem, {}) && i < |snaps|
    ensures FirstIds(at, i + 1) == FirstIds(at, i) + {snaps[i].slug.id}
    ensures SnapOf(snaps[i], slugs, mem) && snaps[i].slug.id !in FirstIds(at, i)
  {
    var id := snaps[i].slug.id;
    forall o
      ensures o in FirstIds(at, i + 1) <==> o in FirstIds(at, i) || o == id
    {
      if o in at && at[o] == i {
        assert snaps[at[o]].slug.id == o;
      }
    }
  }

  lemma FirstIdsAll(snaps: seq<FlushSnapshot>, at: map<Id, nat>, slugs: map<Id, SlugEntry>, mem: map<Id, Entry>)
    requires Snapped(snaps, at, slugs, mem, {})
    ensures FirstIds(at, |snaps|) == DirtyIds(mem) && FirstIds(at, 0) == {}
  {
  }

  ghost predicate Marked(now: map<Id, Entry>, mem: map<Id, Entry>, rest: set<Id>) {
    && now.Keys == mem.Keys
    && forall id :: id in mem ==> now[id] == if id !in rest && mem[id].dirty then MarkCollected(mem[id]) else mem[id]
  }

  lemma MarkedFirst(mem: map<Id, Entry>, slugs: map<Id, SlugEntry>)
    ensures Marked(mem, mem, mem.Keys) && Snapped([], map[], slugs, mem, mem.Keys)
  {
  }

  lemma MarkedAll(now: map<Id, Entry>, mem: map<Id, Entry>)
    requires Marked(now, mem, {})
    ensures now == Collected(mem)
  {
  }

  function DirtyIds(mem: map<Id, Entry>): set<Id> {
    set id | id in mem && mem[id].dirty
  }

  function FlushedEntry(e: Entry): Entry {
    AckEntry(MarkCollected(e), |e.events|)
  }

  ghost predicate WindowsFlushed(now: map<Id, Entry>, mem: map<Id, Entry>, done: set<Id>) {
    && now.Keys == mem.Keys
    && forall id :: id in mem ==>
         now[id] == if id in done then FlushedEntry(mem[id]) else if mem[id].dirty then MarkCollected(mem[id]) else mem[id]
  }

  ghost predicate RowsFlushed(rows': seq<EventRow>, mem: map<Id, Entry>, rows: seq<EventRow>, done: set<Id>)
    requires done <= mem.Keys
  {
    forall id :: Tables.RowsOf(rows', id) ==
      if id in done then Tables.RowsOf(rows, id) + Pending(mem[id]) else Tables.RowsOf(rows, id)
  }

  ghost predicate SlugsFlushed(slugs': map<Id, Slug>, mem: map<Id, Entry>, slugs: map<Id, Slug>, done: set<Id>)
    requires done <= mem.Keys
  {
    && (forall id :: id in done ==> id in slugs' && slugs'[id] == mem[id].slug)
    && (forall id :: id !in DirtyIds(mem) ==>
          (id in slugs' <==> id in slugs) && (id in slugs ==> slugs'[id] == slugs[id]))
    && (forall id :: id in DirtyIds(mem) && id in slugs' ==>
          slugs'[id] == mem[id].slug || (id in slugs && slugs'[id] == slugs[id]))
    && (forall id :: id in slugs ==> id in slugs')
  }

  /** What a flush has made of a map of entries and a database when it has written `done`. */
  ghost predicate Flushed(now: map<Id, Entry>, db': Tables.Db, mem: map<Id, Entry>, db: Tables.Db, done: set<Id>) {
    && done <= DirtyIds(mem)
    && WindowsFlushed(now, mem, done)
    && RowsFlushed(db'.rows, mem, db.rows, done)
    && SlugsFlushed(db'.slugs, mem, db.slugs, done)
  }

  lemma RowsFlushedOne(rows': seq<EventRow>, mem: map<Id, Entry>, rows: seq<EventRow>, done: set<Id>, id: Id)
    requires done <= mem.Keys && RowsFlushed(rows', mem, rows, done) && id in mem && id !in done
    ensures RowsFlushed(rows' + Tables.RowsFor(id, Pending(mem[id])), mem, rows, done + {id})
  {
    var rows2 := rows' + Tables.RowsFor(id, Pending(mem[id]));
    forall o
      ensures Tables.RowsOf(rows2, o) ==
                if o in done + {id} then Tables.RowsOf(rows, o) + Pending(mem[o]) else Tables.RowsOf(rows, o)
    {
      Tables.RowsOfPut(rows', id, Pending(mem[id]), o);
    }
  }

  lemma SlugsFlushedOne(slugs': map<Id, Slug>, mem: map<Id, Entry>, slugs: map<Id, Slug>, done: set<Id>, id: Id, ok: bool)
    requires done <= mem.Keys && SlugsFlushed(slugs', mem, slugs, done) && id in DirtyIds(mem)
    ensures SlugsFlushed(slugs'[id := mem[id].slug], mem, slugs, if ok then done + {id} else done)
  {
  }

  lemma WindowsFlushedOne(now: map<Id, Entry>, mem: map<Id, Entry>, done: set<Id>, id: Id)
    requires WindowsFlushed(now, mem, done) && id in DirtyIds(mem) && id !in done
    ensures WindowsFlushed(now[id := AckEntry(now[id], |mem[id].events|)], mem, done + {id})
  {
  }

  lemma FlushedOne(now: map<Id, Entry>, db': Tables.Db, mem: map<Id, Entry>, db: Tables.Db, done: set<Id>, s: FlushSnapshot,
                   slugs: map<Id, SlugEntry>)
    requires Flushed(now, db', mem, db, done) && SnapOf(s, slugs, mem) && s.slug.id !in done && s.slug.id == mem[s.slug.id].slug.id
    ensures
      var id := s.slug.id;
      Flushed(now[id := AckEntry(now[id], s.snapshotLen)],
              Tables.InsertEvents(Tables.InsertSlug(db', s.slug), s.rows), mem, db, done + {id})
  {
    WindowsFlushedOne(now, mem, done, s.slug.id);
    RowsFlushedOne(db'.rows, mem, db.rows, done, s.slug.id);
    SlugsFlushedOne(db'.slugs, mem, db.slugs, done, s.slug.id, true);
  }

  ghost predicate PutOutcome(s: FlushSnapshot, ok: bool, now: map<Id, Entry>, db: Tables.Db, now': map<Id, Entry>, db': Tables.Db) {
    && s.slug.id in now
    && (ok ==>
          && now' == now[s.slug.id := AckEntry(now[s.slug.id], s.snapshotLen)]
          && db' == Tables.InsertEvents(Tables.InsertSlug(db, s.slug), s.rows))
    && (!ok ==> now' == now && (db' == db || db' == Tables.InsertSlug(db, s.slug)))
  }

  lemma FlushedStep(now: map<Id, Entry>, db': Tables.Db, now2: map<Id, Entry>, db2: Tables.Db,
                    mem: map<Id, Entry>, db: Tables.Db, done: set<Id>, s: FlushSnapshot, slugs: map<Id, SlugEntry>, ok: bool)
    requires Flushed(now, db', mem, db, done) && SnapOf(s, slugs, mem) && s.slug.id !in done && s.slug.id == mem[s.slug.id].slug.id
    requires PutOutcome(s, ok, now, db', now2, db2)
    ensures Flushed(now2, db2, mem, db, if ok then done + {s.slug.id} else done)
  {
    if ok {
      FlushedOne(now, db', mem, db, done, s, slugs);
    } else {
      SlugsFlushedOne(db'.slugs, mem, db.slugs, done, s.slug.id, false);
    }
  }

  lemma AllFlushed(now: map<Id, Entry>, db': Tables.Db, mem: map<Id, Entry>, db: Tables.Db, done: set<Id>)
    requires Flushed(now, db', mem, db, done) && done == DirtyIds(mem)
    ensures DirtyIds(now) == {}
    ensures DirtyIds(mem) == {} ==> now == mem
  {
    assert forall id :: id in mem ==> !now[id].dirty;
  }

  function Grouped(groups: map<Id, seq<Event>>, id: Id): seq<Event> {
    if id in groups then groups[id] else []
  }

  function Installed(mem: map<Id, Entry>, loaded: seq<Slug>, gen: nat, groups: map<Id, seq<Event>>): map<Id, Entry> {
    if loaded == [] then mem else
    var s := loaded[|loaded| - 1];
    Installed(mem, loaded[..|loaded| - 1], gen, groups)[s.id := LoadedEntry(s, gen, Grouped(groups, s.id))]
  }

  lemma InstalledNext(mem: map<Id, Entry>, loaded: seq<Slug>, i: nat, gen: nat, groups: map<Id, seq<Event>>)
    requires i < |loaded|
    ensures Installed(mem, loaded[..i + 1], gen, groups) ==
              Installed(mem, loaded[..i], gen, groups)[loaded[i].id := LoadedEntry(loaded[i], gen, Grouped(groups, loaded[i].id))]
  {
    assert loaded[..i + 1][..i] == loaded[..i];
  }

  /** A list holds exactly the slugs of the database that are not expired, each once. */
  ghost predicate Lists(loaded: seq<Slug>, db: Tables.Db, now: int) {
    && (forall s :: s in loaded <==> s.id in db.slugs && db.slugs[s.id] == s && s.expiresAt > now)
    && (forall id :: id in db.slugs ==> db.slugs[id].id == id)
  }

  lemma {:induction false} InstalledAt(mem: map<Id, Entry>, loaded: seq<Slug>, gen: nat, groups: map<Id, seq<Event>>, id: Id)
    requires forall i, j :: 0 <= i < j < |loaded| ==> loaded[i].id != loaded[j].id
    ensures forall i :: 0 <= i < |loaded| && loaded[i].id == id ==>
              id in Installed(mem, loaded, gen, groups) &&
              Installed(mem, loaded, gen, groups)[id] == LoadedEntry(loaded[i], gen, Grouped(groups, id))
    ensures (forall i :: 0 <= i < |loaded| ==> loaded[i].id != id) ==>
              (id in Installed(mem, loaded, gen, groups) <==> id in mem) &&
              (id in mem ==> Installed(mem, loaded, gen, groups)[id] == mem[id])
  {
    if loaded != [] {
      InstalledAt(mem, loaded[..|loaded| - 1], gen, groups, id);
    }
  }

  lemma InstalledTable(mem: map<Id, Entry>, loaded: seq<Slug>, db: Tables.Db, now: int, rows: seq<EventRow>, gen: nat,
                       groups: map<Id, seq<Event>>)
    requires Lists(loaded, db, now) && forall i, j :: 0 <= i < j < |loaded| ==> loaded[i].id != loaded[j].id
    requires forall id :: Tables.RowsOf(rows, id) == Grouped(groups, id)
    ensures Installed(mem, loaded, gen, groups) == mem + Protocol.LoadedMem(db, now, rows, gen)
  {
    var a, b := Installed(mem, loaded, gen, groups), mem + Protocol.LoadedMem(db, now, rows, gen);
    forall id
      ensures id in a <==> id in b
      ensures id in a ==> a[id] == b[id]
    {
      InstalledAt(mem, loaded, gen, groups, id);
      if id in Tables.LoadSlugs(db, now) {
        assert db.slugs[id] in loaded;
        var i :| 0 <= i < |loaded| && loaded[i] == db.slugs[id];
      } else {
        assert forall i :: 0 <= i < |loaded| && loaded[i].id == id ==> loaded[i] in loaded;
      }
    }
  }

  /** `mem` with every stored slug that is not expired restored from its rows after the
      cutoff, one second before the earliest creation time. */
  function Restored(mem: map<Id, Entry>, db: Tables.Db, now: int, earliest: int, gen: nat): map<Id, Entry> {
    mem + Protocol.LoadedMem(db, now, Tables.Since(db.rows, earliest - SECOND), gen)
  }

  lemma InstalledRestores(mem: map<Id, Entry>, loaded: seq<Slug>, db: Tables.Db, now: int, rows: seq<EventRow>, gen: nat,
                          groups: map<Id, seq<Event>>, earliest: int)
    requires Lists(loaded, db, now) && forall i, j :: 0 <= i < j < |loaded| ==> loaded[i].id != loaded[j].id
    requires forall id :: Tables.RowsOf(rows, id) == Grouped(groups, id)
    requires Tables.IsEarliest(Tables.LoadSlugs(db, now), now, earliest) && rows == Tables.Since(db.rows, earliest - SECOND)
    ensures Installed(mem, loaded, gen, groups) == Restored(mem, db, now, earliest, gen)
  {
    InstalledTable(mem, loaded, db, now, rows, gen, groups);
  }

  lemma EarliestOfTable(loaded: seq<Slug>, db: Tables.Db, now: int, c: int)
    requires Lists(loaded, db, now)
    requires c <= now && forall s :: s in loaded ==> c <= s.createdAt
    requires c == now || exists s :: s in loaded && s.createdAt == c
    ensures Tables.IsEarliest(Tables.LoadSlugs(db, now), now, c)
  {
    var m := Tables.LoadSlugs(db, now);
    assert forall id :: id in m ==> m[id] in loaded;
    if c != now {
      var s :| s in loaded && s.createdAt == c;
      assert s.id in m && m[s.id].createdAt == c;
    }
  }

  function Only(mem: map<Id, Entry>, ids: set<Id>): map<Id, Entry> {
    map id | id in mem && id in ids :: mem[id]
  }

  lemma OnlyUnexpired(mem: map<Id, Entry>, ids: set<Id>, now: int)
    requires forall id :: id in mem ==> (id in ids <==> !(mem[id].slug.expiresAt < now))
    ensures Only(mem, ids) == CleanedUp(mem, now)
  {
  }

  twostate lemma EntryKept(e: SlugEntry)
    requires old(e.Valid()) && unchanged(e) && unchanged(e.buf)
    ensures e.Valid() && e.buf == old(e.buf) && e.Value() == old(e.Value())
  {
  }

  class Registry {
    var slugs: map<Id, SlugEntry>
    const maxEventsPerSlug: int
    const slugTTL: int
    ghost var gens: nat

    /** Entries are filed under their IDs and share no memory. */
    ghost predicate Valid()
      reads `slugs, slugs.Values
    {
      && (forall id :: id in slugs ==> slugs[id].Valid() && slugs[id].slug.id == id)
      && (forall a, b :: a in slugs && b in slugs && a != b ==> slugs[a] != slugs[b] && slugs[a].buf != slugs[b].buf)
    }

    ghost function Buffers(): set<array<Event>>
      reads `slugs, slugs.Values
    {
      set e | e in slugs.Values :: e.buf
    }

    /** The registry's map with entries as values. */
    ghost function Mem(): map<Id, Entry>
      reads `slugs, slugs.Values, Buffers()
      requires Valid()
    {
      map id | id in slugs :: slugs[id].Value()
    }

    constructor (maxEventsPerSlug: int, slugTTL: int)
      ensures Valid() && Mem() == map[] && slugs == map[]
      ensures this.maxEventsPerSlug == maxEventsPerSlug && this.slugTTL == slugTTL
    {
      this.maxEventsPerSlug, this.slugTTL := maxEventsPerSlug, slugTTL;
      slugs, gens := map[], 0;
    }

    method Add(e: SlugEntry)
      requires Valid() && e.Valid() && e !in slugs.Values && e.buf !in Buffers()
      modifies this`slugs
      ensures Valid() && Mem() == old(Mem())[e.slug.id := e.Value()]
    {
      slugs := slugs[e.slug.id := e];
    }

    method FirstFree(draws: seq<Id>) returns (i: nat)
      ensures i <= |draws| && (i < |draws| ==> draws[i] !in slugs)
      ensures forall j :: 0 <= j < i ==> draws[j] in slugs
    {
      i := 0;
      while i < |draws| && draws[i] in slugs
        invariant i <= |draws|
        invariant forall j :: 0 <= j < i ==> draws[j] in slugs
      {
        i := i + 1;
      }
    }

    method AddNew(s: Slug)
      requires Valid()
      modifies this
      ensures Valid() && Mem() == old(Mem())[s.id := NewEntry(s, old(gens))]
    {
      ghost var mem := Mem();
      var e := new SlugEntry(s, gens);
      gens := gens + 1;
      assert Mem() == mem;
      Add(e);
    }

    /** IDs are drawn until one is free; when the draws run out the generator has failed. */
    method CreateSlug(draws: seq<Id>, owner: string, now: int) returns (slug: Option<Slug>)
      requires Valid()
      modifies this
      ensures Valid()
      ensures slug.None? ==> Mem() == old(Mem()) && forall i :: 0 <= i < |draws| ==> draws[i] in old(Mem())
      ensures slug.Some? ==>
                && slug.value.id !in old(Mem())
                && (exists i :: 0 <= i < |draws| && draws[i] == slug.value.id && forall j :: 0 <= j < i ==> draws[j] in old(Mem()))
                && slug.value == Slug(slug.value.id, owner, now, now + slugTTL)
                && Mem() == old(Mem())[slug.value.id := NewEntry(slug.value, old(gens))]
    {
      var i := FirstFree(draws);
      if i == |draws| {
        return None;
      }
      slug := Some(Slug(draws[i], owner, now, now + slugTTL));
      AddNew(slug.value);
    }

    ghost function Arrays(): map<Id, array<Event>>
      reads `slugs, slugs.Values
    {
      map id | id in slugs :: slugs[id].buf
    }

    /** Only the entry of `id` and its backing array differ from what they were. */
    lemma OneEntryChanged(id: Id, mem: map<Id, Entry>, arrays: map<Id, array<Event>>)
      requires id in slugs && mem.Keys == arrays.Keys == slugs.Keys
      requires forall a, b :: a in arrays && b in arrays && a != b ==> arrays[a] != arrays[b]
      requires forall a, b :: a in slugs && b in slugs && a != b ==> slugs[a] != slugs[b]
      requires forall o :: o in slugs ==> slugs[o].Valid() && slugs[o].slug.id == o
      requires forall o :: o in slugs && o != id ==> slugs[o].Value() == mem[o] && slugs[o].buf == arrays[o]
      requires slugs[id].buf == arrays[id] || slugs[id].buf !in arrays.Values
      ensures Valid() && Mem() == mem[id := slugs[id].Value()]
    {
      ApartStill(id, arrays);
    }

    lemma ApartStill(id: Id, arrays: map<Id, array<Event>>)
      requires id in slugs && arrays.Keys == slugs.Keys
      requires forall a, b :: a in arrays && b in arrays && a != b ==> arrays[a] != arrays[b]
      requires forall o :: o in slugs && o != id ==> slugs[o].buf == arrays[o]
      requires slugs[id].buf == arrays[id] || slugs[id].buf !in arrays.Values
      ensures forall a, b :: a in slugs && b in slugs && a != b ==> slugs[a].buf != slugs[b].buf
    {
      assert forall o :: o in arrays ==> arrays[o] in arrays.Values;
    }

    /** Entries were removed from the map and nothing else has changed. */
    twostate lemma EntriesRemoved()
      requires old(Valid()) && slugs.Keys <= old(slugs).Keys
      requires forall o :: o in slugs ==> slugs[o] == old(slugs)[o] && unchanged(slugs[o]) && unchanged(slugs[o].buf)
      ensures Valid() && Mem() == Only(old(Mem()), slugs.Keys)
    {
      forall o | o in slugs
        ensures slugs[o].Valid() && slugs[o].buf == old(slugs[o].buf) && slugs[o].Value() == old(slugs[o].Value())
      {
        EntryKept(slugs[o]);
      }
    }

    method RecordEvent(id: Id, ev: Event) returns (known: bool, ok: bool)
      requires Valid()
      modifies slugs.Values, Buffers()
      ensures Valid() && slugs == old(slugs) && fresh(Buffers() - old(Buffers()))
      ensures known <==> id in old(Mem())
      ensures !known ==> Mem() == old(Mem())
      ensures known ==> (ok <==> !RecordPanics(old(Mem())[id], maxEventsPerSlug))
      ensures known ==> Mem() == old(Mem())[id := RecordEntry(old(Mem())[id], ev, maxEventsPerSlug)]
    {
      if id !in slugs {
        return false, true;
      }
      known := true;
      ghost var mem, arrays := Mem(), Arrays();
      ok := slugs[id].RecordEvent(ev, maxEventsPerSlug);
      OneEntryChanged(id, mem, arrays);
    }

    method ClearEvents(id: Id) returns (known: bool)
      requires Valid()
      modifies slugs.Values
      ensures Valid() && slugs == old(slugs)
      ensures known <==> id in old(Mem())
      ensures Mem() == if known then old(Mem())[id := ClearEntry(old(Mem())[id])] else old(Mem())
    {
      if id !in slugs {
        return false;
      }
      slugs[id].Clear();
      return true;
    }

    method GetEvents(id: Id) returns (result: array<Event>)
      requires Valid()
      ensures fresh(result)
      ensures result[..] == if id in Mem() then Mem()[id].events else []
    {
      if id in slugs {
        result := slugs[id].GetEvents();
      } else {
        result := new Event[0];
      }
    }

    method DeleteSlug(id: Id)
      requires Valid()
      modifies this`slugs
      ensures Valid() && Mem() == old(Mem()) - {id}
    {
      slugs := slugs - {id};
    }

    /** The map is ranged over while entries are deleted from it. */
    method RemoveExpired(now: int) returns (removed: nat)
      modifies this`slugs
      ensures slugs.Keys <= old(slugs).Keys && forall id :: id in slugs ==> slugs[id] == old(slugs)[id]
      ensures forall id :: id in old(slugs) ==> (id in slugs <==> !(old(slugs)[id].slug.expiresAt < now))
      ensures removed == |old(slugs)| - |slugs|
    {
      removed := 0;
      var all := slugs;
      var rest := slugs.Keys;
      while rest != {}
        invariant rest <= all.Keys
        invariant slugs.Keys <= all.Keys && forall id :: id in slugs ==> slugs[id] == all[id]
        invariant forall id :: id in all ==> (id in slugs <==> id in rest || !(all[id].slug.expiresAt < now))
        invariant removed == |all| - |slugs|
      {
        var id :| id in rest;
        if slugs[id].slug.expiresAt < now {
          RemoveOne(slugs, id);
          slugs := slugs - {id};
          removed := removed + 1;
        }
        rest := rest - {id};
      }
    }

    method Cleanup(now: int) returns (removed: nat)
      requires Valid()
      modifies this`slugs
      ensures Valid() && Mem() == CleanedUp(old(Mem()), now)
      ensures removed == |old(slugs)| - |slugs|
    {
      ghost var mem := Mem();
      removed := RemoveExpired(now);
      EntriesRemoved();
      OnlyUnexpired(mem, slugs.Keys, now);
    }

    method TakeSnapshot(id: Id) returns (snap: FlushSnapshot)
      requires Valid() && id in slugs && slugs[id].dirty
      modifies slugs[id]
      ensures Valid() && slugs == old(slugs)
      ensures Mem() == old(Mem())[id := MarkCollected(old(Mem())[id])]
      ensures snap == FlushSnapshot(slugs[id].slug, Tables.RowsFor(id, Pending(old(Mem())[id])), slugs[id], |old(Mem())[id].events|)
    {
      ghost var mem, arrays := Mem(), Arrays();
      var e := slugs[id];
      var rows := e.TakePending();
      OneEntryChanged(id, mem, arrays);
      snap := FlushSnapshot(e.slug, rows[..], e, e.len);
    }

    /** One round of the loop below. */
    method CollectOne(id: Id, snaps: seq<FlushSnapshot>, ghost at: map<Id, nat>, ghost mem: map<Id, Entry>, ghost rest: set<Id>)
      returns (more: seq<FlushSnapshot>, ghost at': map<Id, nat>)
      requires Valid() && id in slugs && id in rest
      requires Marked(Mem(), mem, rest) && Snapped(snaps, at, slugs, mem, rest)
      modifies slugs[id]
      ensures Valid() && slugs == old(slugs)
      ensures Marked(Mem(), mem, rest - {id}) && Snapped(more, at', slugs, mem, rest - {id})
    {
      assert Mem()[id] == mem[id] == slugs[id].Value();
      if slugs[id].dirty {
        var snap := TakeSnapshot(id);
        SnappedOne(snaps, at, slugs, mem, rest, snap);
        more, at' := snaps + [snap], at[id := |snaps|];
      } else {
        SnappedNone(snaps, at, slugs, mem, rest, id);
        more, at' := snaps, at;
      }
    }

    method CollectDirtySnapshots() returns (snaps: seq<FlushSnapshot>, ghost at: map<Id, nat>)
      requires Valid()
      modifies slugs.Values
      ensures Valid() && slugs == old(slugs)
      ensures Mem() == Collected(old(Mem()))
      ensures Snapped(snaps, at, slugs, old(Mem()), {})
    {
      snaps, at := [], map[];
      ghost var mem := Mem();
      MarkedFirst(mem, slugs);
      var rest := slugs.Keys;
      while rest != {}
        invariant rest <= slugs.Keys && slugs == old(slugs)
        invariant Valid()
        invariant Marked(Mem(), mem, rest)
        invariant Snapped(snaps, at, slugs, mem, rest)
      {
        var id :| id in rest;
        snaps, at := CollectOne(id, snaps, at, mem, rest);
        rest := rest - {id};
      }
      MarkedAll(Mem(), mem);
    }

    method Acknowledge(s: FlushSnapshot)
      requires Valid() && s.slug.id in slugs && s.entry == slugs[s.slug.id]
      modifies s.entry
      ensures Valid() && slugs == old(slugs)
      ensures Mem() == old(Mem())[s.slug.id := AckEntry(old(Mem())[s.slug.id], s.snapshotLen)]
    {
      ghost var mem, arrays := Mem(), Arrays();
      s.entry.Acknowledge(s.snapshotLen);
      OneEntryChanged(s.slug.id, mem, arrays);
    }

    static method Put(snap: FlushSnapshot, st: Stores.Store) returns (ok: bool)
      modifies st
      ensures ok ==> st.Value() == Tables.InsertEvents(Tables.InsertSlug(old(st.Value()), snap.slug), snap.rows)
      ensures !ok ==> st.Value() == old(st.Value()) || st.Value() == Tables.InsertSlug(old(st.Value()), snap.slug)
    {
      ok := st.InsertSlug(snap.slug);
      if ok && |snap.rows| > 0 {
        ok := st.InsertEvents(snap.rows);
      } else {
        assert Tables.InsertEvents(st.Value(), snap.rows) == st.Value() || !ok;
      }
    }

    /** Writing and acknowledging one snapshot; the first store error ends it. */
    method PutAndAcknowledge(snap: FlushSnapshot, st: Stores.Store) returns (ok: bool)
      requires Valid() && snap.slug.id in slugs && snap.entry == slugs[snap.slug.id]
      modifies snap.entry, st
      ensures Valid() && slugs == old(slugs)
      ensures PutOutcome(snap, ok, old(Mem()), old(st.Value()), Mem(), st.Value())
    {
      ok := Put(snap, st);
      assert Mem() == old(Mem());
      if ok {
        Acknowledge(snap);
      }
    }

    method FlushOne(snap: FlushSnapshot, st: Stores.Store, ghost mem: map<Id, Entry>, ghost db: Tables.Db, ghost done: set<Id>)
      returns (ok: bool)
      requires Valid() && SnapOf(snap, slugs, mem) && snap.slug.id !in done && snap.slug.id == mem[snap.slug.id].slug.id
      requires Flushed(Mem(), st.Value(), mem, db, done)
      modifies snap.entry, st
      ensures Valid() && slugs == old(slugs)
      ensures Flushed(Mem(), st.Value(), mem, db, if ok then done + {snap.slug.id} else done)
    {
      ghost var now, db' := Mem(), st.Value();
      ok := PutAndAcknowledge(snap, st);
      FlushedStep(now, db', Mem(), st.Value(), mem, db, done, snap, slugs, ok);
    }

    method PutNext(snaps: seq<FlushSnapshot>, i: nat, st: Stores.Store, ghost at: map<Id, nat>,
                   ghost mem: map<Id, Entry>, ghost db: Tables.Db)
      returns (ok: bool)
      requires Valid() && Snapped(snaps, at, slugs, mem, {}) && i < |snaps|
      requires Flushed(Mem(), st.Value(), mem, db, FirstIds(at, i))
      requires forall id :: id in mem ==> mem[id].slug.id == id
      modifies slugs.Values, st
      ensures Valid() && slugs == old(slugs)
      ensures Flushed(Mem(), st.Value(), mem, db, FirstIds(at, if ok then i + 1 else i))
    {
      FirstIdsGrow(snaps, at, slugs, mem, i);
      ok := FlushOne(snaps[i], st, mem, db, FirstIds(at, i));
    }

    /** The loop of a flush, over the snapshots of the entries `mem` and onto the database `db`. */
    method PutAll(snaps: seq<FlushSnapshot>, st: Stores.Store, ghost at: map<Id, nat>, ghost mem: map<Id, Entry>, ghost db: Tables.Db)
      returns (ok: bool, ghost n: nat)
      requires Valid() && Snapped(snaps, at, slugs, mem, {})
      requires Flushed(Mem(), st.Value(), mem, db, FirstIds(at, 0))
      requires forall id :: id in mem ==> mem[id].slug.id == id
      modifies slugs.Values, st
      ensures Valid() && slugs == old(slugs)
      ensures Flushed(Mem(), st.Value(), mem, db, FirstIds(at, n))
      ensures ok ==> n == |snaps|
      ensures snaps == [] ==> ok && st.Value() == old(st.Value())
    {
      ok, n := true, 0;
      for i := 0 to |snaps|
        invariant Valid() && slugs == old(slugs)
        invariant ok && n == i
        invariant Flushed(Mem(), st.Value(), mem, db, FirstIds(at, i))
        invariant i == 0 ==> st.Value() == old(st.Value())
      {
        ok := PutNext(snaps, i, st, at, mem, db);
        if !ok {
          return;
        }
        n := n + 1;
      }
    }

    /** A flush that nothing else interrupts.  `done` are the slugs that were written: each is
        stored, with exactly the events that were not yet flushed appended to its rows, and is
        clean.  Every other slug's rows and window are as before.  Without a store error all
        dirty slugs are written; and if no entry is dirty, nothing is written. */
    method FlushTo(st: Stores.Store) returns (ok: bool, ghost done: set<Id>)
      requires Valid()
      modifies slugs.Values, st
      ensures Valid() && slugs == old(slugs)
      ensures Flushed(Mem(), st.Value(), old(Mem()), old(st.Value()), done)
      ensures ok ==> done == DirtyIds(old(Mem())) && DirtyIds(Mem()) == {}
      ensures DirtyIds(old(Mem())) == {} ==> ok && st.Value() == old(st.Value()) && Mem() == old(Mem())
    {
      ghost var mem, db := Mem(), st.Value();
      var snaps;
      ghost var at;
      snaps, at := CollectDirtySnapshots();
      if |snaps| > 0 {
        assert snaps[0].slug.id in at;
      }
      ghost var n;
      FirstIdsAll(snaps, at, slugs, mem);
      ok, n := PutAll(snaps, st, at, mem, db);
      done := FirstIds(at, n);
      if ok {
        AllFlushed(Mem(), st.Value(), mem, db, done);
      }
    }

    /** The clock reading or the earliest creation time among `loaded`, whichever is earlier. */
    static method EarliestOf(loaded: seq<Slug>, now: int) returns (earliest: int)
      ensures earliest <= now && forall s :: s in loaded ==> earliest <= s.createdAt
      ensures earliest == now || exists s :: s in loaded && s.createdAt == earliest
    {
      earliest := now;
      for i := 0 to |loaded|
        invariant earliest <= now && forall j :: 0 <= j < i ==> earliest <= loaded[j].createdAt
        invariant earliest == now || exists s :: s in loaded && s.createdAt == earliest
      {
        if loaded[i].createdAt < earliest {
          earliest := loaded[i].createdAt;
        }
      }
    }

    /** Grouping keeps, for every slug, its events in the order of the rows. */
    static method GroupEvents(rows: seq<EventRow>) returns (groups: map<Id, seq<Event>>)
      ensures forall id :: Tables.RowsOf(rows, id) == if id in groups then groups[id] else []
    {
      groups := map[];
      for i := 0 to |rows|
        invariant forall id :: Tables.RowsOf(rows[..i], id) == if id in groups then groups[id] else []
      {
        var r := rows[i];
        assert rows[..i + 1] == rows[..i] + [r];
        forall id
          ensures Tables.RowsOf(rows[..i + 1], id) == Tables.RowsOf(rows[..i], id) + if id == r.slug then [r.event] else []
        {
          Tables.RowsOfConcat(rows[..i], [r], id);
        }
        groups := groups[r.slug := (if r.slug in groups then groups[r.slug] else []) + [r.event]];
      }
      assert rows[..|rows|] == rows;
    }

    method AddLoaded(s: Slug, ghost gen: nat, events: seq<Event>)
      requires Valid()
      modifies this`slugs
      ensures Valid() && Mem() == old(Mem())[s.id := LoadedEntry(s, gen, events)]
    {
      ghost var mem := Mem();
      var e := new SlugEntry.Loaded(s, gen, events);
      assert Mem() == mem;
      Add(e);
    }

    method InstallEach(loaded: seq<Slug>, groups: map<Id, seq<Event>>)
      requires Valid()
      modifies `slugs
      ensures Valid() && Mem() == Installed(old(Mem()), loaded, gens, groups)
    {
      ghost var mem := Mem();
      for i := 0 to |loaded|
        invariant Valid() && Mem() == Installed(mem, loaded[..i], gens, groups)
      {
        InstalledNext(mem, loaded, i, gens, groups);
        AddLoaded(loaded[i], gens, Grouped(groups, loaded[i].id));
      }
      assert loaded[..|loaded|] == loaded;
    }

    method Install(loaded: seq<Slug>, groups: map<Id, seq<Event>>)
      requires Valid()
      modifies `slugs, `gens
      ensures Valid() && Mem() == Installed(old(Mem()), loaded, old(gens), groups) && gens == old(gens) + 1
    {
      InstallEach(loaded, groups);
      BumpGens();
    }

    ghost method BumpGens()
      requires Valid()
      modifies `gens
      ensures Valid() && Mem() == old(Mem()) && gens == old(gens) + 1
    {
      gens := gens + 1;
      EntriesRemoved();
      assert Only(old(Mem()), slugs.Keys) == old(Mem());
    }

    /** Reading from the store, up to the point where the entries are installed. */
    static method Fetch(st: Stores.Store, now: int, ghost mem: map<Id, Entry>, ghost gen: nat)
      returns (ok: bool, loaded: seq<Slug>, groups: map<Id, seq<Event>>, ghost earliest: int)
      requires forall id :: id in st.slugs ==> st.slugs[id].id == id
      ensures ok ==> Installed(mem, loaded, gen, groups) == Restored(mem, st.Value(), now, earliest, gen)
      ensures ok ==> Tables.IsEarliest(Tables.LoadSlugs(st.Value(), now), now, earliest)
    {
      groups, earliest := map[], now;
      ok, loaded := st.LoadSlugs(now);
      if ok {
        var cut := EarliestOf(loaded, now);
        EarliestOfTable(loaded, st.Value(), now, cut);
        var rows;
        ok, rows := st.LoadEvents(cut - SECOND);
        if ok {
          groups := GroupEvents(rows);
          earliest := cut;
          InstalledRestores(mem, loaded, st.Value(), now, rows, gen, groups, cut);
        }
      }
    }

    /** Restoring from the store: every slug not expired gets its rows after the common cutoff. */
    method LoadFrom(st: Stores.Store, now: int) returns (ok: bool, ghost earliest: int)
      requires Valid() && forall id :: id in st.slugs ==> st.slugs[id].id == id
      modifies `slugs, `gens
      ensures Valid() && st.Value() == old(st.Value())
      ensures !ok ==> Mem() == old(Mem())
      ensures ok ==> Mem() == Restored(old(Mem()), st.Value(), now, earliest, old(gens))
      ensures ok ==> Tables.IsEarliest(Tables.LoadSlugs(st.Value(), now), now, earliest)
    {
      var loaded, groups;
      ghost var mem, db, g := Mem(), st.Value(), gens;
      ok, loaded, groups, earliest := Fetch(st, now, mem, g);
      assert Mem() == mem && st.Value() == db;
      if ok {
        Install(loaded, groups);
        assert st.Value() == db;
      }
    }
  }
}
