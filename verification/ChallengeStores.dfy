/** The challenge store as the object it is: slices in a map, appended to and shifted in place. */
module ChallengeStores {
  import Challenges
  import Records

  /** A Go slice: a backing array and a length. */
  datatype Slice = Slice(buf: array<Challenges.Txt>, len: nat)

  class ChallengeStore {
    var m: map<string, Slice>

    ghost function Buffers(): set<array<Challenges.Txt>>
      reads this
    {
      set s | s in m.Values :: s.buf
    }

    /** Slices lie within their backing arrays and share none. */
    ghost predicate Valid()
      reads this
    {
      && (forall k :: k in m ==> m[k].len <= m[k].buf.Length)
      && (forall a, b :: a in m && b in m && a != b ==> m[a].buf != m[b].buf)
    }

    ghost function Value(): Challenges.Table
      reads this, Buffers()
      requires Valid()
    {
      map k | k in m :: m[k].buf[..m[k].len]
    }

    constructor ()
      ensures Valid() && Value() == map[] && m == map[]
    {
      m := map[];
    }

    method Appended(s: Slice, value: Challenges.Txt) returns (t: Slice)
      requires s.len <= s.buf.Length
      modifies s.buf
      ensures t.len == s.len + 1 <= t.buf.Length && (t.buf == s.buf || fresh(t.buf))
      ensures t.buf[..t.len] == old(s.buf[..s.len]) + [value]
    {
      var buf := s.buf;
      if s.len == buf.Length {
        buf := new Challenges.Txt[2 * s.len + 1];
        for i := 0 to s.len
          modifies buf
          invariant buf[..i] == s.buf[..i]
        {
          buf[i] := s.buf[i];
        }
      }
      buf[s.len] := value;
      t := Slice(buf, s.len + 1);
    }

    /** Only what `fqdn` maps to is different. */
    lemma OneNameChanged(fqdn: string, before: Challenges.Table, was: map<string, Slice>)
      requires fqdn in m && m == was[fqdn := m[fqdn]] && before.Keys == was.Keys
      requires forall k :: k in was ==> was[k].len <= was[k].buf.Length
      requires forall k :: k in was && k != fqdn ==> was[k].buf[..was[k].len] == before[k] && was[k].buf != m[fqdn].buf
      requires forall a, b :: a in was && b in was && a != b ==> was[a].buf != was[b].buf
      requires m[fqdn].len <= m[fqdn].buf.Length
      ensures Valid() && Value() == before[fqdn := m[fqdn].buf[..m[fqdn].len]]
    {
    }

    method Set(fqdn: string, value: Challenges.Txt)
      requires Valid()
      modifies this, Buffers()
      ensures Valid() && fresh(Buffers() - old(Buffers()))
      ensures Value() == Challenges.Set(old(Value()), fqdn, value)
    {
      ghost var before, was := Value(), m;
      var s;
      if fqdn in m {
        s := m[fqdn];
      } else {
        var none := new Challenges.Txt[0];
        s := Slice(none, 0);
      }
      s := Appended(s, value);
      m := m[fqdn := s];
      OneNameChanged(fqdn, before, was);
    }

    method Find(fqdn: string, value: Challenges.Txt) returns (i: nat)
      requires Valid() && fqdn in m
      ensures i <= m[fqdn].len && value !in m[fqdn].buf[..i]
      ensures i < m[fqdn].len ==> m[fqdn].buf[i] == value
    {
      i := 0;
      while i < m[fqdn].len && m[fqdn].buf[i] != value
        invariant i <= m[fqdn].len && value !in m[fqdn].buf[..i]
      {
        i := i + 1;
      }
    }

    /** `append(vals[:i], vals[i+1:]...)`: the values after `i` move down in the same array. */
    static method Shift(s: Slice, i: nat)
      requires i < s.len <= s.buf.Length
      modifies s.buf
      ensures s.buf[..s.len - 1] == old(s.buf[..i] + s.buf[i + 1..s.len])
    {
      for j := i to s.len - 1
        invariant forall l :: 0 <= l < i ==> s.buf[l] == old(s.buf[l])
        invariant forall l :: i <= l < j ==> s.buf[l] == old(s.buf[l + 1])
        invariant forall l :: j <= l < s.len ==> s.buf[l] == old(s.buf[l])
      {
        s.buf[j] := s.buf[j + 1];
      }
    }

    method RemoveAt(fqdn: string, i: nat)
      requires Valid() && fqdn in m && i < m[fqdn].len
      modifies this, m[fqdn].buf
      ensures Valid() && fqdn in m && m == old(m)[fqdn := m[fqdn]] && m[fqdn].buf == old(m[fqdn].buf)
      ensures Value() == old(Value())[fqdn := Records.DropAt(old(Value())[fqdn], i)]
    {
      ghost var before, was := Value(), m;
      var s := m[fqdn];
      ghost var vals := before[fqdn];
      assert s.buf[..i] == vals[..i] && s.buf[i + 1..s.len] == vals[i + 1..];
      Shift(s, i);
      m := m[fqdn := Slice(s.buf, s.len - 1)];
      OneNameChanged(fqdn, before, was);
    }

    method Drop(fqdn: string)
      requires Valid()
      modifies this
      ensures Valid() && Buffers() <= old(Buffers()) && Value() == old(Value()) - {fqdn}
    {
      m := m - {fqdn};
    }

    method Delete(fqdn: string, value: Challenges.Txt)
      requires Valid()
      modifies this, Buffers()
      ensures Valid() && Buffers() <= old(Buffers())
      ensures Value() == Challenges.Delete(old(Value()), fqdn, value)
    {
      ghost var before := Value();
      if fqdn in m {
        var i := Find(fqdn, value);
        Challenges.DeleteIs(before, fqdn, value, i);
        if i < m[fqdn].len {
          RemoveAt(fqdn, i);
        }
        assert m[fqdn].len == |Value()[fqdn]|;
      }
      if fqdn !in m || m[fqdn].len == 0 {
        Drop(fqdn);
      }
    }

    /** A copy. */
    method GetTXT(fqdn: string) returns (result: array<Challenges.Txt>)
      requires Valid()
      ensures fresh(result) && result[..] == Challenges.Get(Value(), fqdn)
    {
      if fqdn !in m {
        result := new Challenges.Txt[0];
        return;
      }
      var s := m[fqdn];
      result := new Challenges.Txt[s.len];
      for i := 0 to s.len
        modifies result
        invariant result[..i] == s.buf[..i]
      {
        result[i] := s.buf[i];
      }
    }

    method Perform(ops: seq<Challenges.Op>)
      requires Valid()
      modifies this, Buffers()
      ensures Valid() && fresh(Buffers() - old(Buffers()))
      ensures Value() == Challenges.DoAll(old(Value()), ops)
    {
      for i := 0 to |ops|
        invariant Valid() && fresh(Buffers() - old(Buffers()))
        invariant Value() == Challenges.DoAll(old(Value()), ops[..i])
      {
        assert ops[..i + 1][..i] == ops[..i];
        match ops[i] {
          case Present(fqdn, value) => Set(fqdn, value);
          case CleanUp(fqdn, value) => Delete(fqdn, value);
        }
      }
      assert ops[..|ops|] == ops;
    }
  }

  /** An answer that was handed out reads the same after any operations, in-place removals
      included. */
  method AnswerIsStable(store: ChallengeStore, fqdn: string, ops: seq<Challenges.Op>) returns (before: seq<Challenges.Txt>, result: array<Challenges.Txt>)
    requires store.Valid()
    modifies store, store.Buffers()
    ensures store.Valid() && store.Value() == Challenges.DoAll(old(store.Value()), ops)
    ensures before == Challenges.Get(old(store.Value()), fqdn) && result[..] == before
  {
    ghost var value := store.Value();
    result := store.GetTXT(fqdn);
    before := result[..];
    assert store.Value() == value;
    store.Perform(ops);
  }
}
