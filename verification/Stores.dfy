/** The store as an object.  Each method is one transaction that commits or changes nothing;
    whether it commits is not determined. */
module Stores {
  import opened Records
  import Tables

  class Store {
    var slugs: map<Id, Slug>
    var rows: seq<EventRow>

    ghost function Value(): Tables.Db
      reads this
    {
      Tables.Db(slugs, rows)
    }

    constructor ()
      ensures Value() == Tables.Db(map[], [])
    {
      slugs, rows := map[], [];
    }

    method InsertSlug(s: Slug) returns (ok: bool)
      modifies this
      ensures Value() == if ok then Tables.InsertSlug(old(Value()), s) else old(Value())
    {
      ok := *;
      if ok {
        slugs := slugs[s.id := s];
      }
    }

    method InsertEvents(events: seq<EventRow>) returns (ok: bool)
      modifies this
      ensures events == [] ==> ok
      ensures Value() == if ok then Tables.InsertEvents(old(Value()), events) else old(Value())
    {
      if events == [] {
        return true;
      }
      var committed := rows;
      for i := 0 to |events|
        invariant rows == committed + events[..i] && slugs == old(slugs)
      {
        rows := rows + [events[i]];
      }
      assert events[..|events|] == events;
      ok := *;
      if !ok {
        rows := committed;
      }
    }

    /** The slugs not expired, in no particular order. */
    method LoadSlugs(since: int) returns (ok: bool, result: seq<Slug>)
      requires forall id :: id in slugs ==> slugs[id].id == id
      ensures ok ==> forall s :: s in result <==> s.id in slugs && slugs[s.id] == s && s.expiresAt > since
      ensures ok ==> forall i, j :: 0 <= i < j < |result| ==> result[i].id != result[j].id
    {
      ok := *;
      result := [];
      var rest := slugs.Keys;
      while rest != {}
        invariant rest <= slugs.Keys
        invariant forall s :: s in result <==> s.id in slugs && s.id !in rest && slugs[s.id] == s && s.expiresAt > since
        invariant forall i, j :: 0 <= i < j < |result| ==> result[i].id != result[j].id
      {
        var id :| id in rest;
        if slugs[id].expiresAt > since {
          assert forall s :: s in result ==> s.id != id;
          result := result + [slugs[id]];
        }
        rest := rest - {id};
      }
    }

    /** The event rows after `since`, in insertion order. */
    method LoadEvents(since: int) returns (ok: bool, result: seq<EventRow>)
      ensures ok ==> result == Tables.Since(rows, since)
    {
      ok := *;
      result := [];
      for i := |rows| downto 0
        invariant result == Tables.Since(rows[i..], since)
      {
        if rows[i].event.at > since {
          result := [rows[i]] + result;
        }
      }
    }

    /** Deletes the events and then the rows of the given slugs. */
    method DeleteIds(ids: set<Id>)
      modifies this
      ensures Value() == Tables.DeleteIds(old(Value()), ids)
    {
      var kept: seq<EventRow> := [];
      for i := |rows| downto 0
        invariant kept == Tables.Without(rows[i..], ids) && rows == old(rows) && slugs == old(slugs)
      {
        if rows[i].slug !in ids {
          kept := [rows[i]] + kept;
        }
      }
      rows := kept;
      slugs := slugs - ids;
    }

    method DeleteExpired(before: int) returns (ok: bool)
      modifies this
      ensures Value() == if ok then Tables.DeleteIds(old(Value()), Tables.ExpiredIds(old(Value()), before)) else old(Value())
    {
      ok := *;
      if ok {
        DeleteIds(set id | id in slugs && slugs[id].expiresAt < before);
      }
    }

    method DeleteSlug(id: Id) returns (ok: bool)
      modifies this
      ensures Value() == if ok then Tables.DeleteIds(old(Value()), {id}) else old(Value())
    {
      ok := *;
      if ok {
        DeleteIds({id});
      }
    }
  }
}
