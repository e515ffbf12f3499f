/** How young a bucket may be collected: exactly when it has surely refilled. */
module GcAge {
  import opened Records
  import opened RateLimit
  import opened RateTraces

  const KEY: string := "k"

  function Burst(t: int, n: nat): seq<Op> {
    if n == 0 then [] else [Call(t, KEY)] + Burst(t, n - 1)
  }

  predicate AllTrue(s: seq<bool>) {
    forall i :: 0 <= i < |s| ==> s[i]
  }

  ghost function AfterAll(tiers: seq<Tier>, keys: Keys, ops: seq<Op>): (r: Keys)
    requires Sound(tiers) && Shaped(keys, tiers)
    ensures Shaped(r, tiers)
    decreases |ops|
  {
    if ops == [] then keys else AfterAll(tiers, After(tiers, keys, ops[0]), ops[1..])
  }

  ghost function OutcomeOf(tiers: seq<Tier>, keys: Keys, op: Op): seq<bool>
    requires Sound(tiers) && Shaped(keys, tiers)
  {
    if op.Call? && op.key == KEY then [Verdict(tiers, keys, op)] else []
  }

  lemma OutcomesCons(tiers: seq<Tier>, keys: Keys, op: Op, rest: seq<Op>)
    requires Sound(tiers) && Shaped(keys, tiers)
    ensures Outcomes(tiers, keys, [op] + rest, KEY) == OutcomeOf(tiers, keys, op) + Outcomes(tiers, After(tiers, keys, op), rest, KEY)
    ensures AfterAll(tiers, keys, [op] + rest) == AfterAll(tiers, After(tiers, keys, op), rest)
  {
    assert ([op] + rest)[1..] == rest;
  }

  lemma {:induction false} OutcomesConcat(tiers: seq<Tier>, keys: Keys, a: seq<Op>, b: seq<Op>)
    requires Sound(tiers) && Shaped(keys, tiers)
    ensures Outcomes(tiers, keys, a + b, KEY) == Outcomes(tiers, keys, a, KEY) + Outcomes(tiers, AfterAll(tiers, keys, a), b, KEY)
    decreases |a|
  {
    if a == [] {
      assert a + b == b;
    } else {
      var op, rest := a[0], a[1..];
      assert a == [op] + rest && a + b == [op] + (rest + b);
      var next := After(tiers, keys, op);
      OutcomesConcat(tiers, next, rest, b);
      OutcomesCons(tiers, keys, op, rest);
      OutcomesCons(tiers, keys, op, rest + b);
      Regroup(OutcomeOf(tiers, keys, op), Outcomes(tiers, next, rest, KEY), Outcomes(tiers, AfterAll(tiers, next, rest), b, KEY));
    }
  }

  /** A burst is allowed in full exactly when the bucket holds that many tokens. */
  lemma {:induction false} BurstNeeds(tier: Tier, keys: Keys, t: int, n: nat)
    requires Settled(keys, [tier], t)
    ensures AllTrue(Outcomes([tier], keys, Burst(t, n), KEY)) <==> Level(keys, KEY, [tier], 0, t) >= n as real
    decreases n
  {
    LevelLater(keys, KEY, [tier], 0, t, t);
    if n > 0 {
      var op := Call(t, KEY);
      AllowIsAtomic(keys, KEY, [tier], t);
      OutcomesCons([tier], keys, op, Burst(t, n - 1));
      BurstNeeds(tier, After([tier], keys, op), t, n - 1);
      AllTrueCons(Verdict([tier], keys, op), Outcomes([tier], After([tier], keys, op), Burst(t, n - 1), KEY));
    }
  }

  lemma AllTrueCons(b: bool, s: seq<bool>)
    ensures AllTrue([b] + s) <==> b && AllTrue(s)
  {
    assert ([b] + s)[0] == b && ([b] + s)[1..] == s;
    if AllTrue([b] + s) {
      forall i | 0 <= i < |s|
        ensures s[i]
      {
        assert ([b] + s)[i + 1] == s[i];
      }
    }
  }

  /** And then it takes them all. */
  lemma {:induction false} BurstTakes(tier: Tier, keys: Keys, t: int, n: nat)
    requires Settled(keys, [tier], t) && Level(keys, KEY, [tier], 0, t) >= n as real && n > 0
    ensures
      var r := AfterAll([tier], keys, Burst(t, n));
      && Settled(r, [tier], t) && KEY in r && r[KEY].lastAccess == t
      && Level(r, KEY, [tier], 0, t) == Level(keys, KEY, [tier], 0, t) - n as real
    decreases n
  {
    var op := Call(t, KEY);
    AllowIsAtomic(keys, KEY, [tier], t);
    OutcomesCons([tier], keys, op, Burst(t, n - 1));
    if n > 1 {
      BurstTakes(tier, After([tier], keys, op), t, n - 1);
    }
  }

  /** The bucket is drained at time 0 and asked for all it can hold at time `t`; in between, at
      `t`, there may be a collection. */
  function Drain(tier: Tier): seq<Op> {
    Burst(0, if tier.capacity > 0 then tier.capacity else 0)
  }

  function Ask(tier: Tier, t: int): seq<Op> {
    Burst(t, if tier.capacity > 0 then tier.capacity else 0)
  }

  lemma DrainedState(tier: Tier, t: int)
    requires tier.window > 0 && tier.capacity > 0 && t >= 0
    ensures
      var r := AfterAll([tier], map[], Drain(tier));
      && Settled(r, [tier], t) && KEY in r && r[KEY].lastAccess == 0
      && Level(r, KEY, [tier], 0, t) == Min(t as real * Rate(tier), tier.capacity as real)
  {
    BurstTakes(tier, map[], 0, tier.capacity);
    var r := AfterAll([tier], map[], Drain(tier));
    LevelLater(r, KEY, [tier], 0, 0, t);
    SettledLater(r, [tier], 0, t);
  }

  /** With one tier, as wired: a collection of age `maxAge` shows in the verdicts of some trace
      if it is more than one clock tick younger than the window. */
  lemma YoungCollectionShows(tier: Tier, maxAge: int)
    requires tier.capacity >= 1 && maxAge >= 0 && maxAge + 1 < tier.window
    ensures Outcomes([tier], map[], Drain(tier) + Ask(tier, maxAge + 1), KEY)
         != Outcomes([tier], map[], Drain(tier) + ([Gc(maxAge + 1, maxAge)] + Ask(tier, maxAge + 1)), KEY)
  {
    var t, c := maxAge + 1, tier.capacity;
    DrainedState(tier, t);
    var r, gc := AfterAll([tier], map[], Drain(tier)), Gc(t, maxAge);
    var q := After([tier], r, gc);
    OutcomesConcat([tier], map[], Drain(tier), Ask(tier, t));
    OutcomesConcat([tier], map[], Drain(tier), [gc] + Ask(tier, t));
    OutcomesCons([tier], r, gc, Ask(tier, t));
    assert KEY !in q && Settled(q, [tier], t);
    BurstNeeds(tier, r, t, c);
    BurstNeeds(tier, q, t, c);
    PartlyRefilled(tier, t);
    var shared := Outcomes([tier], map[], Drain(tier), KEY);
    var x, y := Outcomes([tier], r, Ask(tier, t), KEY), Outcomes([tier], q, Ask(tier, t), KEY);
    assert x != y;
    assert (shared + x)[|shared|..] == x && (shared + y)[|shared|..] == y;
  }

  lemma PartlyRefilled(tier: Tier, t: int)
    requires tier.capacity >= 1 && 0 <= t < tier.window
    ensures t as real * Rate(tier) < tier.capacity as real
  {
    RateTimesWindow(tier);
    LessTimes(t as real, tier.window as real, Rate(tier), tier.capacity as real);
  }

  lemma LessTimes(t: real, w: real, r: real, c: real)
    requires w * r == c && c > 0.0 && 0.0 <= t < w
    ensures t * r < c
  {
    assert r > 0.0;
    assert t * r < w * r;
  }

  // ---- What is kept ----

  lemma {:induction false} AfterAllSnoc(tiers: seq<Tier>, keys: Keys, ops: seq<Op>)
    requires Sound(tiers) && Shaped(keys, tiers) && ops != []
    ensures AfterAll(tiers, keys, ops) == After(tiers, AfterAll(tiers, keys, ops[..|ops| - 1]), ops[|ops| - 1])
    decreases |ops|
  {
    var next := After(tiers, keys, ops[0]);
    if |ops| == 1 {
      assert ops[1..] == [] && ops[..0] == [];
    } else {
      AfterAllSnoc(tiers, next, ops[1..]);
      assert ops[1..][..|ops| - 2] == ops[..|ops| - 1][1..];
    }
  }

  /** An entry last used at `t` outlives this operation as it is. */
  predicate Outlives(t: int, key: string, op: Op) {
    match op
    case Call(_, k) => k != key
    case Gc(now, maxAge) => now - t <= maxAge
  }

  /** The latest call on the key is at `i`, and no collection since found it too old. */
  predicate Survives(ops: seq<Op>, key: string, i: int) {
    && 0 <= i < |ops| && ops[i] == Call(ops[i].t, key)
    && forall j :: i < j < |ops| ==> Outlives(ops[i].t, key, ops[j])
  }

  /** What the limiter holds after any trace: exactly the keys whose latest call was, at every
      collection since, not older than the collection's age, each with the time of that call. */
  lemma {:induction false} KeysAreRecent(tiers: seq<Tier>, ops: seq<Op>, key: string)
    requires Sound(tiers)
    ensures key in AfterAll(tiers, map[], ops) <==> exists i :: Survives(ops, key, i)
    ensures forall i :: Survives(ops, key, i) ==> AfterAll(tiers, map[], ops)[key].lastAccess == ops[i].t
    decreases |ops|
  {
    if ops != [] {
      var n := |ops| - 1;
      var init := ops[..n];
      KeysAreRecent(tiers, init, key);
      AfterAllSnoc(tiers, map[], ops);
      forall i | i != n
        ensures Survives(ops, key, i) <==> Survives(init, key, i) && Outlives(init[i].t, key, ops[n])
      {
        SurvivesLonger(ops, key, i);
      }
      assert Survives(ops, key, n) <==> ops[n] == Call(ops[n].t, key);
    }
  }

  lemma SurvivesLonger(ops: seq<Op>, key: string, i: int)
    requires ops != [] && i != |ops| - 1
    ensures
      var n := |ops| - 1;
      Survives(ops, key, i) <==> Survives(ops[..n], key, i) && Outlives(ops[i].t, key, ops[n])
  {
    var n := |ops| - 1;
    if 0 <= i < n {
      assert ops[..n][i] == ops[i];
      assert forall j :: i < j < n ==> ops[..n][j] == ops[j];
    }
  }
}
