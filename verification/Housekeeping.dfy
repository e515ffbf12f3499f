/** The flush loop's tick and the two halves of an HTTP delete, with what they keep: memory and
    store agree on which slugs exist (cmd/tripflare/main.go, internal/httpserver/handlers.go). */
module Housekeeping {
  import opened Records
  import opened Entries
  import Tables
  import RateLimit
  import R = Registry
  import Stores
  import Limiter

  /** Every stored slug is in memory or expired at `t`, every clean entry that is not expired is
      stored, and every event row belongs to a stored slug. */
  ghost predicate SlugsAgree(mem: map<Id, Entry>, db: Tables.Db, t: int) {
    && (forall id :: id in db.slugs ==> (id in mem && mem[id].slug == db.slugs[id]) || db.slugs[id].expiresAt < t)
    && (forall id :: id in mem && !mem[id].dirty && !(mem[id].slug.expiresAt < t) ==>
          id in db.slugs && db.slugs[id] == mem[id].slug)
    && (forall id :: Tables.RowsOf(db.rows, id) != [] ==> id in db.slugs)
  }

  lemma FlushAgrees(now: map<Id, Entry>, db': Tables.Db, mem: map<Id, Entry>, db: Tables.Db, done: set<Id>, t: int)
    requires SlugsAgree(mem, db, t) && R.Flushed(now, db', mem, db, done)
    ensures SlugsAgree(now, db', t)
  {
    assert forall id :: id in mem ==> now[id].slug == mem[id].slug && (id !in done ==> now[id].dirty == mem[id].dirty);
    forall id | id in db'.slugs
      ensures (id in now && now[id].slug == db'.slugs[id]) || db'.slugs[id].expiresAt < t
    {
      if id in R.DirtyIds(mem) {
      } else {
        assert id in db.slugs;
      }
    }
    forall id | id in now && !now[id].dirty && !(now[id].slug.expiresAt < t)
      ensures id in db'.slugs && db'.slugs[id] == now[id].slug
    {
      if id !in done {
        assert id !in R.DirtyIds(mem);
      }
    }
    forall id | Tables.RowsOf(db'.rows, id) != []
      ensures id in db'.slugs
    {
      if id !in done {
        assert id in db.slugs;
      }
    }
  }

  lemma CleanupAgrees(mem: map<Id, Entry>, db: Tables.Db, t: int)
    requires SlugsAgree(mem, db, t)
    ensures SlugsAgree(CleanedUp(mem, t), db, t)
  {
  }

  lemma PurgeAgrees(mem: map<Id, Entry>, db: Tables.Db, t: int, t': int)
    requires SlugsAgree(mem, db, t) && t <= t'
    ensures SlugsAgree(mem, db, t')
    ensures SlugsAgree(mem, Tables.DeleteIds(db, Tables.ExpiredIds(db, t')), t')
  {
    var gone := Tables.ExpiredIds(db, t');
    forall id
      ensures Tables.RowsOf(Tables.Without(db.rows, gone), id) == if id in gone then [] else Tables.RowsOf(db.rows, id)
    {
      Tables.RowsOfWithout(db.rows, gone, id);
    }
  }

  /** Deleting a slug from memory and not from the store breaks the agreement exactly when the
      store holds it and it is not expired. */
  lemma DeleteAgrees(mem: map<Id, Entry>, db: Tables.Db, id: Id, erased: bool, t: int)
    requires SlugsAgree(mem, db, t)
    ensures
      var db' := if erased then Tables.DeleteIds(db, {id}) else db;
      SlugsAgree(mem - {id}, db', t) <==> erased || id !in db.slugs || db.slugs[id].expiresAt < t
  {
    forall o
      ensures Tables.RowsOf(Tables.Without(db.rows, {id}), o) == if o in {id} then [] else Tables.RowsOf(db.rows, o)
    {
      Tables.RowsOfWithout(db.rows, {id}, o);
    }
    if !erased && id in db.slugs && !(db.slugs[id].expiresAt < t) {
      assert id !in mem - {id};
    }
  }

  /** After a tick in which no store call failed, at clock readings `t1` and then `t2`. */
  ghost predicate Settled(mem: map<Id, Entry>, db: Tables.Db, mem0: map<Id, Entry>, db0: Tables.Db, t1: int, t2: int) {
    && R.DirtyIds(mem) == {}
    && (forall id :: id in mem <==> id in mem0 && !(mem0[id].slug.expiresAt < t1))
    && (forall id :: id in mem ==> mem[id].slug == mem0[id].slug && mem[id].events == mem0[id].events)
    && (forall id :: id in db.slugs <==> id in mem && !(mem[id].slug.expiresAt < t2))
    && (forall id :: id in db.slugs ==>
          && db.slugs[id] == mem[id].slug
          && Tables.RowsOf(db.rows, id) ==
               Tables.RowsOf(db0.rows, id) + if mem0[id].dirty then Pending(mem0[id]) else [])
    && (forall id :: id !in db.slugs ==> Tables.RowsOf(db.rows, id) == [])
  }

  lemma RowsAfterPurge(db: Tables.Db, t: int, id: Id)
    ensures
      var db' := Tables.DeleteIds(db, Tables.ExpiredIds(db, t));
      Tables.RowsOf(db'.rows, id) == if id in db.slugs && id !in db'.slugs then [] else Tables.RowsOf(db.rows, id)
  {
    Tables.RowsOfWithout(db.rows, Tables.ExpiredIds(db, t), id);
  }

  lemma AllClean(now: map<Id, Entry>)
    requires R.DirtyIds(now) == {}
    ensures forall id :: id in now ==> !now[id].dirty
    ensures forall t :: R.DirtyIds(CleanedUp(now, t)) == {}
  {
    assert forall id :: id in now && now[id].dirty ==> id in R.DirtyIds(now);
  }

  lemma TickSettles(mem: map<Id, Entry>, db: Tables.Db, now: map<Id, Entry>, db': Tables.Db, t1: int, t2: int)
    requires SlugsAgree(mem, db, t1) && t1 <= t2
    requires R.Flushed(now, db', mem, db, R.DirtyIds(mem)) && R.DirtyIds(now) == {}
    ensures Settled(CleanedUp(now, t1), Tables.DeleteIds(db', Tables.ExpiredIds(db', t2)), mem, db, t1, t2)
  {
    FlushAgrees(now, db', mem, db, R.DirtyIds(mem), t1);
    AllClean(now);
    var left, kept := CleanedUp(now, t1), Tables.DeleteIds(db', Tables.ExpiredIds(db', t2));
    assert forall id :: id in mem ==> now[id].slug == mem[id].slug && now[id].events == mem[id].events;
    forall id
      ensures id in kept.slugs <==> id in left && !(left[id].slug.expiresAt < t2)
      ensures id in kept.slugs ==> kept.slugs[id] == left[id].slug
      ensures id !in kept.slugs ==> Tables.RowsOf(kept.rows, id) == []
      ensures id in kept.slugs ==> Tables.RowsOf(kept.rows, id) == Tables.RowsOf(db'.rows, id)
    {
      RowsAfterPurge(db', t2, id);
    }
  }

  // The calls of a tick, each with what it leaves alone.

  method Purge(reg: R.Registry, st: Stores.Store, before: int) returns (ok: bool)
    requires reg.Valid()
    modifies st
    ensures reg.Valid() && reg.Mem() == old(reg.Mem())
    ensures st.Value() ==
              if ok then Tables.DeleteIds(old(st.Value()), Tables.ExpiredIds(old(st.Value()), before)) else old(st.Value())
  {
    ok := st.DeleteExpired(before);
  }

  method Expire(reg: R.Registry, st: Stores.Store, now: int)
    requires reg.Valid()
    modifies reg`slugs
    ensures reg.Valid() && reg.Mem() == CleanedUp(old(reg.Mem()), now) && st.Value() == old(st.Value())
  {
    var _ := reg.Cleanup(now);
  }

  method CollectKeys(reg: R.Registry, st: Stores.Store, lim: Limiter.Limiter, now: int, maxAge: int)
    requires reg.Valid() && lim.Valid()
    modifies lim`keys
    ensures lim.Valid() && lim.Value() == RateLimit.Collect(old(lim.Value()), now - maxAge)
    ensures reg.Valid() && reg.Mem() == old(reg.Mem()) && st.Value() == old(st.Value())
  {
    lim.GC(now, maxAge);
  }

  /** The first three calls of a tick; the ghost results are what the flush left. */
  method FlushAndExpire(reg: R.Registry, st: Stores.Store, t1: int, t2: int)
    returns (flushed: bool, purged: bool, ghost done: set<Id>, ghost mem: map<Id, Entry>, ghost db: Tables.Db)
    requires reg.Valid()
    modifies reg`slugs, reg.slugs.Values, st
    ensures reg.Valid()
    ensures R.Flushed(mem, db, old(reg.Mem()), old(st.Value()), done)
    ensures flushed ==> done == R.DirtyIds(old(reg.Mem())) && R.DirtyIds(mem) == {}
    ensures reg.Mem() == CleanedUp(mem, t1)
    ensures st.Value() == if purged then Tables.DeleteIds(db, Tables.ExpiredIds(db, t2)) else db
  {
    flushed, done := reg.FlushTo(st);
    mem, db := reg.Mem(), st.Value();
    Expire(reg, st, t1);
    purged := Purge(reg, st, t2);
  }

  /** One tick of the flush loop, undisturbed.  Each call reads the clock anew; errors are
      logged and the tick goes on. */
  method Tick(reg: R.Registry, st: Stores.Store, lim: Limiter.Limiter, t1: int, t2: int, t3: int, maxAge: int)
    returns (flushed: bool, purged: bool)
    requires reg.Valid() && lim.Valid() && t1 <= t2
    requires SlugsAgree(reg.Mem(), st.Value(), t1)
    modifies reg`slugs, reg.slugs.Values, st, lim`keys
    ensures reg.Valid() && lim.Valid()
    ensures SlugsAgree(reg.Mem(), st.Value(), t2)
    ensures flushed && purged ==> Settled(reg.Mem(), st.Value(), old(reg.Mem()), old(st.Value()), t1, t2)
    ensures lim.Value() == RateLimit.Collect(old(lim.Value()), t3 - maxAge)
  {
    ghost var mem0, db0, keys := reg.Mem(), st.Value(), lim.Value();
    ghost var done, mem, db;
    flushed, purged, done, mem, db := FlushAndExpire(reg, st, t1, t2);
    ghost var mem', db' := reg.Mem(), st.Value();
    assert lim.Value() == keys;
    CollectKeys(reg, st, lim, t3, maxAge);
    TickAgrees(mem0, db0, mem, db, done, mem', db', purged, t1, t2);
    if flushed && purged {
      TickSettles(mem0, db0, mem, db, t1, t2);
    }
  }

  lemma TickAgrees(mem0: map<Id, Entry>, db0: Tables.Db, mem: map<Id, Entry>, db: Tables.Db, done: set<Id>,
                   mem': map<Id, Entry>, db': Tables.Db, purged: bool, t1: int, t2: int)
    requires SlugsAgree(mem0, db0, t1) && t1 <= t2
    requires R.Flushed(mem, db, mem0, db0, done)
    requires mem' == CleanedUp(mem, t1)
    requires db' == if purged then Tables.DeleteIds(db, Tables.ExpiredIds(db, t2)) else db
    ensures SlugsAgree(mem', db', t2)
  {
    FlushAgrees(mem, db, mem0, db0, done, t1);
    CleanupAgrees(mem, db, t1);
    PurgeAgrees(mem', db, t1, t2);
  }

  method DeleteBoth(reg: R.Registry, st: Stores.Store, id: Id) returns (erased: bool)
    requires reg.Valid()
    modifies reg`slugs, st
    ensures reg.Valid() && reg.Mem() == old(reg.Mem()) - {id}
    ensures st.Value() == if erased then Tables.DeleteIds(old(st.Value()), {id}) else old(st.Value())
  {
    reg.DeleteSlug(id);
    ghost var mem := reg.Mem();
    erased := st.DeleteSlug(id);
    assert reg.Mem() == mem;
  }

  /** `requireSlugOwner`, then the registry's half, then the store's.  The answer is the same
      whether or not the store's half succeeds. */
  method HandleDeleteSlug(reg: R.Registry, st: Stores.Store, id: Id, owner: string, ghost t: int) returns (found: bool, erased: bool)
    requires reg.Valid() && SlugsAgree(reg.Mem(), st.Value(), t)
    modifies reg`slugs, st
    ensures reg.Valid()
    ensures found <==> id in old(reg.Mem()) && old(reg.Mem())[id].slug.owner == owner
    ensures !found ==> reg.Mem() == old(reg.Mem()) && st.Value() == old(st.Value())
    ensures found ==> reg.Mem() == old(reg.Mem()) - {id}
    ensures found ==> st.Value() == if erased then Tables.DeleteIds(old(st.Value()), {id}) else old(st.Value())
    ensures SlugsAgree(reg.Mem(), st.Value(), t) <==>
              !found || erased || id !in old(st.Value()).slugs || old(st.Value()).slugs[id].expiresAt < t
  {
    found, erased := false, false;
    ghost var mem, db := reg.Mem(), st.Value();
    if id !in reg.slugs || reg.slugs[id].slug.owner != owner {
      return;
    }
    found := true;
    erased := DeleteBoth(reg, st, id);
    DeleteAgrees(mem, db, id, erased, t);
  }
}
