/** The DNS-01 challenge store: for each name the TXT values to serve
    (internal/acme/challenge.go, internal/acme/provider.go). */
module Challenges {
  import opened Records

  /** The value of a TXT record. */
  datatype Txt = Txt(text: string)

  type Table = map<string, seq<Txt>>

  function Get(m: Table, fqdn: string): seq<Txt> {
    if fqdn in m then m[fqdn] else []
  }

  function Set(m: Table, fqdn: string, value: Txt): Table {
    m[fqdn := Get(m, fqdn) + [value]]
  }

  function RemoveFirst(s: seq<Txt>, value: Txt): seq<Txt> {
    if s == [] then [] else if s[0] == value then s[1..] else [s[0]] + RemoveFirst(s[1..], value)
  }

  function Delete(m: Table, fqdn: string, value: Txt): Table {
    var rest := RemoveFirst(Get(m, fqdn), value);
    if rest == [] then m - {fqdn} else m[fqdn := rest]
  }

  datatype Op = Present(fqdn: string, value: Txt) | CleanUp(fqdn: string, value: Txt)

  function Do(m: Table, op: Op): Table {
    match op
    case Present(fqdn, value) => Set(m, fqdn, value)
    case CleanUp(fqdn, value) => Delete(m, fqdn, value)
  }

  function DoAll(m: Table, ops: seq<Op>): Table {
    if ops == [] then m else Do(DoAll(m, ops[..|ops| - 1]), ops[|ops| - 1])
  }

  // ---- What the store should hold, from the operations alone ----

  /** Every value ever presented for a name, in order. */
  function Presented(ops: seq<Op>, fqdn: string): seq<Txt> {
    if ops == [] then [] else
    var op := ops[|ops| - 1];
    Presented(ops[..|ops| - 1], fqdn) + if op.Present? && op.fqdn == fqdn then [op.value] else []
  }

  /** How many times each value is owed for a name: each presenting counts one up, each cleaning
      up one down, but never below zero. */
  function Owed(ops: seq<Op>, fqdn: string): multiset<Txt> {
    if ops == [] then multiset{} else
    var op, before := ops[|ops| - 1], Owed(ops[..|ops| - 1], fqdn);
    if op.fqdn != fqdn then before
    else if op.Present? then before + multiset{op.value}
    else before - multiset{op.value}
  }

  /** Of each value, the latest ones, as many as owed. */
  function Latest(s: seq<Txt>, owed: multiset<Txt>): seq<Txt> {
    if s == [] then []
    else if multiset(s[1..])[s[0]] < owed[s[0]] then [s[0]] + Latest(s[1..], owed)
    else Latest(s[1..], owed)
  }

  predicate NoneEmpty(m: Table) {
    forall k :: k in m ==> m[k] != []
  }

  lemma HeadCounts(s: seq<Txt>)
    requires s != []
    ensures multiset(s) == multiset{s[0]} + multiset(s[1..])
  {
    assert s == [s[0]] + s[1..];
  }

  lemma EmptyCounts(s: seq<Txt>)
    ensures multiset(s) == multiset{} <==> s == []
  {
    assert |multiset(s)| == |s|;
  }

  lemma RemoveFromCons(x: Txt, s: seq<Txt>, v: Txt)
    ensures RemoveFirst([x] + s, v) == if x == v then s else [x] + RemoveFirst(s, v)
  {
    assert ([x] + s)[1..] == s;
  }

  lemma {:induction false} LatestAppend(s: seq<Txt>, owed: multiset<Txt>, v: Txt)
    ensures Latest(s + [v], owed + multiset{v}) == Latest(s, owed) + [v]
  {
    if s != [] {
      assert (s + [v])[1..] == s[1..] + [v];
      LatestAppend(s[1..], owed, v);
    }
  }

  lemma {:induction false} LatestSaturates(s: seq<Txt>, owed: multiset<Txt>, v: Txt)
    requires multiset(s)[v] <= owed[v]
    ensures Latest(s, owed + multiset{v}) == Latest(s, owed)
  {
    if s != [] {
      HeadCounts(s);
      LatestSaturates(s[1..], owed, v);
    }
  }

  lemma {:induction false} LatestRemove(s: seq<Txt>, owed: multiset<Txt>, v: Txt)
    requires owed[v] <= multiset(s)[v]
    ensures Latest(s, owed - multiset{v}) == RemoveFirst(Latest(s, owed), v)
  {
    if s != [] {
      HeadCounts(s);
      var tail := s[1..];
      RemoveFromCons(s[0], Latest(tail, owed), v);
      if s[0] == v && owed[v] == multiset(tail)[v] + 1 {
        assert (owed - multiset{v}) + multiset{v} == owed;
        LatestSaturates(tail, owed - multiset{v}, v);
      } else {
        LatestRemove(tail, owed, v);
      }
    }
  }

  lemma {:induction false} RemoveFirstCounts(s: seq<Txt>, v: Txt)
    ensures multiset(RemoveFirst(s, v)) == multiset(s) - multiset{v}
  {
    if s != [] {
      HeadCounts(s);
      RemoveFirstCounts(s[1..], v);
    }
  }

  /** The values that a table serves for a name are those still owed to it, and of equal values
      the latest, in the order in which they were presented; a name that is owed nothing is not
      in the table. */
  ghost predicate Serves(m: Table, fqdn: string, presented: seq<Txt>, owed: multiset<Txt>) {
    && Get(m, fqdn) == Latest(presented, owed)
    && multiset(Get(m, fqdn)) == owed <= multiset(presented)
    && (fqdn in m <==> owed != multiset{})
  }

  lemma ServesPresented(m: Table, fqdn: string, presented: seq<Txt>, owed: multiset<Txt>, v: Txt)
    requires Serves(m, fqdn, presented, owed)
    ensures Serves(Set(m, fqdn, v), fqdn, presented + [v], owed + multiset{v})
  {
    LatestAppend(presented, owed, v);
  }

  lemma ServesCleanedUp(m: Table, fqdn: string, presented: seq<Txt>, owed: multiset<Txt>, v: Txt)
    requires Serves(m, fqdn, presented, owed)
    ensures Serves(Delete(m, fqdn, v), fqdn, presented, owed - multiset{v})
  {
    LatestRemove(presented, owed, v);
    var rest := RemoveFirst(Get(m, fqdn), v);
    RemoveFirstCounts(Get(m, fqdn), v);
    EmptyCounts(rest);
    assert Get(Delete(m, fqdn, v), fqdn) == rest;
  }

  /** In every run, whatever the order in which names and values come and go, every name is
      served what it is owed. */
  lemma {:induction false} StoreServesWhatIsOwed(ops: seq<Op>, fqdn: string)
    ensures Serves(DoAll(map[], ops), fqdn, Presented(ops, fqdn), Owed(ops, fqdn))
  {
    if ops != [] {
      var init, op := ops[..|ops| - 1], ops[|ops| - 1];
      StoreServesWhatIsOwed(init, fqdn);
      var m, presented, owed := DoAll(map[], init), Presented(init, fqdn), Owed(init, fqdn);
      if op.fqdn != fqdn {
        OtherNameKept(m, op, fqdn);
        assert presented + [] == presented;
      } else if op.Present? {
        ServesPresented(m, fqdn, presented, owed, op.value);
      } else {
        ServesCleanedUp(m, fqdn, presented, owed, op.value);
        assert presented + [] == presented;
      }
    }
  }

  lemma OtherNameKept(m: Table, op: Op, fqdn: string)
    requires op.fqdn != fqdn
    ensures Get(Do(m, op), fqdn) == Get(m, fqdn) && (fqdn in Do(m, op) <==> fqdn in m)
  {
  }

  lemma SameNameSame(m: Table, m': Table, op: Op)
    requires Get(m, op.fqdn) == Get(m', op.fqdn)
    ensures Get(Do(m, op), op.fqdn) == Get(Do(m', op), op.fqdn)
  {
  }

  /** What other names are used for makes no difference to a name. */
  lemma {:induction false} NamesAreIndependent(ops: seq<Op>, fqdn: string)
    ensures Get(DoAll(map[], ops), fqdn) == Get(DoAll(map[], OpsOn(ops, fqdn)), fqdn)
  {
    if ops != [] {
      var init, op := ops[..|ops| - 1], ops[|ops| - 1];
      NamesAreIndependent(init, fqdn);
      var before := OpsOn(init, fqdn);
      if op.fqdn == fqdn {
        assert OpsOn(ops, fqdn)[..|before|] == before;
        SameNameSame(DoAll(map[], init), DoAll(map[], before), op);
      } else {
        assert OpsOn(ops, fqdn) == before;
        OtherNameKept(DoAll(map[], init), op, fqdn);
      }
    }
  }

  function OpsOn(ops: seq<Op>, fqdn: string): seq<Op> {
    if ops == [] then [] else
    var op := ops[|ops| - 1];
    OpsOn(ops[..|ops| - 1], fqdn) + if op.fqdn == fqdn then [op] else []
  }

  // ---- Cleaning up after presenting ----

  /** Nothing but `v` follows the first `v`. */
  ghost predicate OnlyItselfFollows(s: seq<Txt>, v: Txt) {
    forall i, j :: 0 <= i <= j < |s| && s[i] == v ==> s[j] == v
  }

  lemma {:induction false} RemoveAppended(s: seq<Txt>, v: Txt)
    ensures RemoveFirst(s + [v], v) == s <==> OnlyItselfFollows(s, v)
  {
    if s != [] {
      var t := s[1..];
      assert s == [s[0]] + t && s + [v] == [s[0]] + (t + [v]);
      RemoveFromCons(s[0], t + [v], v);
      if s[0] == v {
        RotateSame(s, v);
      } else {
        RemoveAppended(t, v);
        FollowsFromTail(s, v);
      }
    } else {
      assert [] + [v] == [v];
    }
  }

  lemma FollowsFromTail(s: seq<Txt>, v: Txt)
    requires s != [] && s[0] != v
    ensures OnlyItselfFollows(s, v) <==> OnlyItselfFollows(s[1..], v)
  {
    var t := s[1..];
    if OnlyItselfFollows(s, v) {
      forall i, j | 0 <= i <= j < |t| && t[i] == v ensures t[j] == v {
        assert s[i + 1] == v && s[j + 1] == t[j];
      }
    }
    if OnlyItselfFollows(t, v) {
      forall i, j | 0 <= i <= j < |s| && s[i] == v ensures s[j] == v {
        assert t[i - 1] == v && t[j - 1] == s[j];
      }
    }
  }

  /** A sequence that starts with `v` is its own tail with `v` appended exactly when it holds
      nothing else. */
  lemma RotateSame(s: seq<Txt>, v: Txt)
    requires s != [] && s[0] == v
    ensures s[1..] + [v] == s <==> OnlyItselfFollows(s, v)
  {
    if s[1..] + [v] == s {
      forall j | 0 <= j < |s| ensures s[j] == v {
        RotateSameAt(s, v, j);
      }
    }
    if OnlyItselfFollows(s, v) {
      assert forall j :: 0 <= j < |s| ==> s[j] == v;
    }
  }

  lemma {:induction false} RotateSameAt(s: seq<Txt>, v: Txt, j: nat)
    requires j < |s| && s[1..] + [v] == s
    ensures s[j] == v
    decreases |s| - j
  {
    if j + 1 < |s| {
      RotateSameAt(s, v, j + 1);
    }
  }

  /** Presenting a value and cleaning it up leaves the name with the same values as before, and
      undoes the presenting exactly when nothing but that value followed its first copy: what is
      removed is the oldest copy, not the one just added. */
  lemma CleanUpUndoesPresent(m: Table, fqdn: string, v: Txt)
    requires NoneEmpty(m)
    ensures
      var m' := Delete(Set(m, fqdn, v), fqdn, v);
      && multiset(Get(m', fqdn)) == multiset(Get(m, fqdn))
      && (m' == m <==> OnlyItselfFollows(Get(m, fqdn), v))
  {
    var s := Get(m, fqdn);
    var rest := RemoveFirst(s + [v], v);
    RemoveFirstCounts(s + [v], v);
    assert multiset(s + [v]) - multiset{v} == multiset(s);
    RemoveAppended(s, v);
    EmptyCounts(rest);
    EmptyCounts(s);
    Rewritten(m, fqdn, s + [v], rest);
  }

  /** Two updates of one name are one, and no update when they end where they began. */
  lemma Rewritten(m: Table, fqdn: string, s: seq<Txt>, t: seq<Txt>)
    requires NoneEmpty(m)
    ensures
      var m' := if t == [] then m[fqdn := s] - {fqdn} else m[fqdn := s][fqdn := t];
      Get(m', fqdn) == t && (m' == m <==> t == Get(m, fqdn))
  {
    var m' := if t == [] then m[fqdn := s] - {fqdn} else m[fqdn := s][fqdn := t];
    assert forall k :: k != fqdn ==> (k in m' <==> k in m) && (k in m ==> m'[k] == m[k]);
    if t == Get(m, fqdn) {
      assert m' == m;
    }
  }

  /** Section 8.4 of RFC 8555: a domain and its wildcard are validated at one name.  Both values
      are served until cleaned up, and cleaning up in either order restores the table. */
  lemma ApexAndWildcardShareAName(m: Table, fqdn: string, apex: Txt, wildcard: Txt, apexFirst: bool)
    requires NoneEmpty(m) && apex !in Get(m, fqdn) && wildcard !in Get(m, fqdn)
    ensures
      var both := Set(Set(m, fqdn, apex), fqdn, wildcard);
      var first, second := if apexFirst then apex else wildcard, if apexFirst then wildcard else apex;
      && Get(both, fqdn) == Get(m, fqdn) + [apex, wildcard]
      && Get(Delete(both, fqdn, first), fqdn) == Get(m, fqdn) + [second]
      && Delete(Delete(both, fqdn, first), fqdn, second) == m
  {
    var s := Get(m, fqdn);
    var first, second := if apexFirst then apex else wildcard, if apexFirst then wildcard else apex;
    assert s + [apex] + [wildcard] == s + [apex, wildcard];
    assert Set(Set(m, fqdn, apex), fqdn, wildcard) == m[fqdn := s + [apex, wildcard]];
    RemoveEither(s, apex, wildcard, first, second);
    DeleteOne(m, fqdn, s + [apex, wildcard], first, s + [second]);
    Rewritten(m, fqdn, s + [second], s);
  }

  lemma RemoveEither(s: seq<Txt>, a: Txt, b: Txt, first: Txt, second: Txt)
    requires a !in s && b !in s && ((first == a && second == b) || (first == b && second == a))
    ensures RemoveFirst(s + [a, b], first) == s + [second] && RemoveFirst(s + [second], second) == s
  {
    assert [a, b] == [a] + [b] && s + [] == s;
    RemoveFromCons(a, [b], first);
    RemoveOnly(b);
    RemoveOnly(second);
    assert RemoveFirst([a, b], first) == [second];
    RemoveBeyond(s, [a, b], first);
    RemoveBeyond(s, [second], second);
  }

  lemma DeleteOne(m: Table, fqdn: string, s: seq<Txt>, v: Txt, rest: seq<Txt>)
    requires rest == RemoveFirst(s, v) && rest != []
    ensures Delete(m[fqdn := s], fqdn, v) == m[fqdn := rest]
  {
  }

  lemma RemoveOnly(v: Txt)
    ensures RemoveFirst([v], v) == []
  {
    RemoveFromCons(v, [], v);
    assert [v] + [] == [v];
  }

  lemma {:induction false} RemoveBeyond(s: seq<Txt>, t: seq<Txt>, v: Txt)
    requires v !in s
    ensures RemoveFirst(s + t, v) == s + RemoveFirst(t, v)
  {
    if s == [] {
      assert s + t == t;
    } else {
      assert (s + t)[1..] == s[1..] + t;
      RemoveBeyond(s[1..], t, v);
    }
  }

  lemma {:induction false} RemoveAt(s: seq<Txt>, i: nat, v: Txt)
    requires i <= |s| && v !in s[..i] && (i < |s| ==> s[i] == v)
    ensures RemoveFirst(s, v) == DropAt(s, i)
  {
    if i > 0 {
      assert s[0] == s[..i][0];
      assert s[1..][..i - 1] == s[..i][1..];
      RemoveAt(s[1..], i - 1, v);
      assert i < |s| ==> s[1..][..i - 1] + s[1..][i..] == s[1..i] + s[i + 1..];
    }
  }

  lemma DeleteIs(m: Table, fqdn: string, v: Txt, i: nat)
    requires fqdn in m && i <= |m[fqdn]| && v !in m[fqdn][..i] && (i < |m[fqdn]| ==> m[fqdn][i] == v)
    ensures
      var m' := m[fqdn := DropAt(m[fqdn], i)];
      && Delete(m, fqdn, v) == (if m'[fqdn] == [] then m' - {fqdn} else m')
      && (i == |m[fqdn]| ==> m' == m)
  {
    RemoveAt(m[fqdn], i, v);
  }
}
