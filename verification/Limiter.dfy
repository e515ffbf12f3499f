/** The limiter as an object: entries with an array of buckets that are refilled and charged in
    place.  Clock readings are parameters. */
module Limiter {
  import opened RateLimit

  class Entry {
    const buckets: array<Bucket>
    var lastAccess: int

    ghost function Value(): KeyEntry
      reads this, buckets
    {
      KeyEntry(buckets[..], lastAccess)
    }

    constructor (tiers: seq<Tier>, now: int)
      ensures fresh(buckets) && buckets.Length == |tiers| && Value() == KeyEntry(NewBuckets(tiers, now), now)
    {
      buckets := new Bucket[|tiers|](i requires 0 <= i < |tiers| => Bucket(tiers[i].capacity as real, now));
      lastAccess := now;
      new;
      assert buckets[..] == NewBuckets(tiers, now);
    }

    method RefillBuckets(tiers: seq<Tier>, now: int)
      requires buckets.Length == |tiers| && Sound(tiers)
      modifies buckets
      ensures buckets[..] == RefillAll(old(buckets[..]), tiers, now)
    {
      for i := 0 to buckets.Length
        invariant forall j :: 0 <= j < i ==> buckets[j] == Refill(old(buckets[j]), tiers[j], now)
        invariant forall j :: i <= j < buckets.Length ==> buckets[j] == old(buckets[j])
      {
        buckets[i] := Refill(buckets[i], tiers[i], now);
      }
    }

    method HasTokens() returns (ok: bool)
      ensures ok <==> Enough(buckets[..])
    {
      for i := 0 to buckets.Length
        invariant forall j :: 0 <= j < i ==> buckets[j].tokens >= 1.0
      {
        if buckets[i].tokens < 1.0 {
          assert buckets[..][i].tokens < 1.0;
          return false;
        }
      }
      return true;
    }

    method Charge()
      modifies buckets
      ensures buckets[..] == TakeOne(old(buckets[..]))
    {
      for i := 0 to buckets.Length
        invariant forall j :: 0 <= j < i ==> buckets[j] == old(buckets[j]).(tokens := old(buckets[j]).tokens - 1.0)
        invariant forall j :: i <= j < buckets.Length ==> buckets[j] == old(buckets[j])
      {
        buckets[i] := buckets[i].(tokens := buckets[i].tokens - 1.0);
      }
    }

    /** Refilled buckets, each charged one token if every one has it. */
    method Draw(tiers: seq<Tier>, now: int) returns (ok: bool)
      requires buckets.Length == |tiers| && Sound(tiers)
      modifies this, buckets
      ensures
        var refilled := RefillAll(old(buckets[..]), tiers, now);
        ok == Enough(refilled) && Value() == KeyEntry(if ok then TakeOne(refilled) else refilled, now)
    {
      lastAccess := now;
      RefillBuckets(tiers, now);
      ok := HasTokens();
      if ok {
        Charge();
      }
    }
  }

  lemma UpdateTwice(m: Keys, k: string, x: KeyEntry, y: KeyEntry)
    ensures m[k := x][k := y] == m[k := y]
  {
  }

  class Limiter {
    const tiers: seq<Tier>
    var keys: map<string, Entry>

    /** Entries have a bucket for each tier and share no memory. */
    ghost predicate Valid()
      reads `keys
    {
      && Sound(tiers)
      && (forall k :: k in keys ==> keys[k].buckets.Length == |tiers|)
      && (forall a, b :: a in keys && b in keys && a != b ==> keys[a] != keys[b] && keys[a].buckets != keys[b].buckets)
    }

    ghost function Arrays(): set<array<Bucket>>
      reads `keys
    {
      set e | e in keys.Values :: e.buckets
    }

    ghost function Value(): (r: Keys)
      reads `keys, keys.Values, Arrays()
      requires Valid()
      ensures Shaped(r, tiers)
    {
      map k | k in keys :: keys[k].Value()
    }

    constructor (tiers: seq<Tier>)
      requires Sound(tiers)
      ensures Valid() && this.tiers == tiers && Value() == map[]
    {
      this.tiers, keys := tiers, map[];
    }

    method GetOrCreateEntry(key: string, now: int) returns (e: Entry)
      requires Valid()
      modifies `keys
      ensures Valid() && key in keys && keys[key] == e && (e in old(keys).Values || fresh(e))
      ensures e.buckets in old(Arrays()) || fresh(e.buckets)
      ensures Value() == old(Value())[key := GetOrCreate(old(Value()), key, tiers, now)]
    {
      ghost var before := Value();
      if key in keys {
        e := keys[key];
        assert Value() == before[key := before[key]];
      } else {
        e := new Entry(tiers, now);
        assert Value() == before;
        keys := keys[key := e];
      }
    }

    method Use(key: string, now: int) returns (ok: bool)
      requires Valid() && key in keys
      modifies keys[key], keys[key].buckets
      ensures Valid() && keys == old(keys)
      ensures
        var refilled := RefillAll(old(Value())[key].buckets, tiers, now);
        && ok == Enough(refilled)
        && Value() == old(Value())[key := KeyEntry(if ok then TakeOne(refilled) else refilled, now)]
    {
      ghost var before := Value();
      var e := keys[key];
      ok := e.Draw(tiers, now);
      forall k | k in keys && k != key
        ensures keys[k].Value() == before[k]
      {
        assert keys[k] != e && keys[k].buckets != e.buckets;
      }
      assert Value() == before[key := e.Value()];
    }

    method Allow(key: string, now: int) returns (ok: bool)
      requires Valid()
      modifies `keys, keys.Values, Arrays()
      ensures Valid()
      ensures (Value(), ok) == RateLimit.Allow(old(Value()), key, tiers, now)
    {
      ghost var before := Value();
      var e := GetOrCreateEntry(key, now);
      ghost var created := Value();
      ok := Use(key, now);
      UpdateTwice(before, key, created[key], Value()[key]);
    }

    method GC(now: int, maxAge: int)
      requires Valid()
      modifies `keys
      ensures Valid() && Value() == Collect(old(Value()), now - maxAge)
    {
      var all, rest := keys, keys.Keys;
      while rest != {}
        invariant rest <= all.Keys
        invariant keys.Keys <= all.Keys && forall k :: k in keys ==> keys[k] == all[k]
        invariant forall k :: k in all ==> (k in keys <==> k in rest || !(all[k].lastAccess < now - maxAge))
      {
        var k :| k in rest;
        if keys[k].lastAccess < now - maxAge {
          keys := keys - {k};
        }
        rest := rest - {k};
      }
    }
  }
}
