/** The limiter over whole traces of calls and collections on a monotone clock. */
module RateTraces {
  import opened RateLimit

  datatype Op = Call(t: int, key: string) | Gc(t: int, maxAge: int)

  ghost predicate Monotone(ops: seq<Op>, now: int) {
    ops == [] || (now <= ops[0].t && Monotone(ops[1..], ops[0].t))
  }

  /** No collection is younger than a window, less the clock's one nanosecond. */
  ghost predicate Patient(ops: seq<Op>, tiers: seq<Tier>) {
    forall i, j :: 0 <= i < |ops| && ops[i].Gc? && 0 <= j < |tiers| ==> ops[i].maxAge + 1 >= tiers[j].window
  }

  ghost function After(tiers: seq<Tier>, keys: Keys, op: Op): (r: Keys)
    requires Sound(tiers) && Shaped(keys, tiers)
    ensures Shaped(r, tiers)
  {
    match op
    case Call(t, key) => Allow(keys, key, tiers, t).0
    case Gc(t, maxAge) => Collect(keys, t - maxAge)
  }

  /** Whether a call is allowed. */
  ghost predicate Verdict(tiers: seq<Tier>, keys: Keys, op: Op)
    requires Sound(tiers) && Shaped(keys, tiers) && op.Call?
  {
    Allow(keys, op.key, tiers, op.t).1
  }

  lemma LevelLater(keys: Keys, key: string, tiers: seq<Tier>, i: nat, t1: int, t2: int)
    requires Settled(keys, tiers, t1) && i < |tiers| && t1 <= t2
    ensures Level(keys, key, tiers, i, t2) == Min(Level(keys, key, tiers, i, t1) + (t2 - t1) as real * Rate(tiers[i]), tiers[i].capacity as real)
    ensures 0.0 <= Level(keys, key, tiers, i, t1) <= tiers[i].capacity as real
  {
    if key in keys {
      TokensLater(keys[key].buckets[i], tiers[i], t1, t2);
    } else {
      RateNonNegative(tiers[i]);
      MulMono(0, t2 - t1, Rate(tiers[i]));
    }
  }

  lemma SettledLater(keys: Keys, tiers: seq<Tier>, t1: int, t2: int)
    requires Settled(keys, tiers, t1) && t1 <= t2
    ensures Settled(keys, tiers, t2)
  {
  }

  /** A call is allowed exactly when every tier holds a token; it then takes one from each, and
      otherwise none from any; and it touches no other key. */
  lemma AllowIsAtomic(keys: Keys, key: string, tiers: seq<Tier>, now: int)
    requires Settled(keys, tiers, now)
    ensures
      var (keys', ok) := Allow(keys, key, tiers, now);
      && Settled(keys', tiers, now)
      && (ok <==> forall i :: 0 <= i < |tiers| ==> Level(keys, key, tiers, i, now) >= 1.0)
      && (forall i :: 0 <= i < |tiers| ==>
            Level(keys', key, tiers, i, now) == Level(keys, key, tiers, i, now) - if ok then 1.0 else 0.0)
      && (forall other, i, t :: other != key && 0 <= i < |tiers| ==>
            Level(keys', other, tiers, i, t) == Level(keys, other, tiers, i, t))
  {
    var e := GetOrCreate(keys, key, tiers, now);
    var refilled := RefillAll(e.buckets, tiers, now);
    forall i | 0 <= i < |tiers|
      ensures refilled[i].tokens == Level(keys, key, tiers, i, now) && refilled[i].lastRefill == now
      ensures 0.0 <= refilled[i].tokens <= tiers[i].capacity as real
    {
      LevelLater(keys, key, tiers, i, now, now);
    }
  }

  /** Collecting only full buckets changes no level. */
  lemma CollectKeepsLevels(keys: Keys, key: string, tiers: seq<Tier>, now: int, maxAge: int)
    requires Settled(keys, tiers, now) && forall j :: 0 <= j < |tiers| ==> maxAge + 1 >= tiers[j].window
    ensures Settled(Collect(keys, now - maxAge), tiers, now)
    ensures forall i :: 0 <= i < |tiers| ==>
              Level(Collect(keys, now - maxAge), key, tiers, i, now) == Level(keys, key, tiers, i, now)
  {
    if key in keys && keys[key].lastAccess < now - maxAge {
      forall i | 0 <= i < |tiers|
        ensures Level(keys, key, tiers, i, now) == tiers[i].capacity as real
      {
        FullAfterWindow(keys[key].buckets[i], tiers[i], now);
      }
    }
  }

  lemma AfterIsSettled(tiers: seq<Tier>, keys: Keys, now: int, op: Op)
    requires Settled(keys, tiers, now) && now <= op.t
    ensures Settled(After(tiers, keys, op), tiers, op.t)
  {
    SettledLater(keys, tiers, now, op.t);
    if op.Call? {
      AllowIsAtomic(keys, op.key, tiers, op.t);
    }
  }

  // ---- Rate bound ----

  /** Allowed calls on `key` at times from `a` to `b`. */
  ghost function Allowed(tiers: seq<Tier>, keys: Keys, ops: seq<Op>, key: string, a: int, b: int): nat
    requires Sound(tiers) && Shaped(keys, tiers)
    decreases |ops|
  {
    if ops == [] then 0 else
    var op := ops[0];
    (if op.Call? && op.key == key && a <= op.t <= b && Verdict(tiers, keys, op) then 1 else 0)
      + Allowed(tiers, After(tiers, keys, op), ops[1..], key, a, b)
  }

  ghost predicate AtMostRate(n: int, tier: Tier, d: int)
    requires tier.window > 0
  {
    n as real <= tier.capacity as real + d as real * Rate(tier)
  }

  /** What was allowed since time `a` and what is left in the bucket together stay under what
      the bucket held and what accrued. */
  ghost predicate Balanced(tiers: seq<Tier>, keys: Keys, key: string, i: nat, a: int, now: int, n: nat)
    requires Sound(tiers) && Shaped(keys, tiers) && i < |tiers|
  {
    n as real + Level(keys, key, tiers, i, now) <= tiers[i].capacity as real + (now - a) as real * Rate(tiers[i])
  }

  lemma BalancedLater(tiers: seq<Tier>, keys: Keys, key: string, i: nat, a: int, now: int, t: int, n: nat)
    requires Settled(keys, tiers, now) && i < |tiers| && now <= t && Balanced(tiers, keys, key, i, a, now, n)
    ensures Balanced(tiers, keys, key, i, a, t, n)
  {
    LevelLater(keys, key, tiers, i, now, t);
    MulAdd(now - a, t - now, Rate(tiers[i]));
  }

  lemma BalancedAfter(tiers: seq<Tier>, keys: Keys, key: string, i: nat, a: int, op: Op, n: nat)
    requires Settled(keys, tiers, op.t) && i < |tiers| && Balanced(tiers, keys, key, i, a, op.t, n)
    requires op.Gc? ==> forall j :: 0 <= j < |tiers| ==> op.maxAge + 1 >= tiers[j].window
    ensures Balanced(tiers, After(tiers, keys, op), key, i, a, op.t,
                     n + if op.Call? && op.key == key && Verdict(tiers, keys, op) then 1 else 0)
  {
    match op
    case Call(t, k) => AllowIsAtomic(keys, k, tiers, t);
    case Gc(t, maxAge) => CollectKeepsLevels(keys, key, tiers, t, maxAge);
  }

  lemma BalancedEnds(tiers: seq<Tier>, keys: Keys, key: string, i: nat, a: int, now: int, b: int, n: nat)
    requires Settled(keys, tiers, now) && i < |tiers| && Balanced(tiers, keys, key, i, a, now, n) && a <= b
    requires n > 0 ==> now <= b
    ensures AtMostRate(n, tiers[i], b - a)
  {
    LevelLater(keys, key, tiers, i, now, now);
    RateNonNegative(tiers[i]);
    EndsAt(n, Level(keys, key, tiers, i, now), tiers[i].capacity as real, now - a, b - a, Rate(tiers[i]));
  }

  lemma EndsAt(n: nat, level: real, capacity: real, d: int, e: int, r: real)
    requires n as real + level <= capacity + d as real * r && level >= 0.0 && capacity >= 0.0 && r >= 0.0 && e >= 0
    requires n > 0 ==> d <= e
    ensures n as real <= capacity + e as real * r
  {
    if n > 0 {
      MulMono(d, e, r);
    } else {
      MulMono(0, e, r);
    }
  }

  lemma {:induction false} BoundFrom(tiers: seq<Tier>, keys: Keys, now: int, ops: seq<Op>, key: string, i: nat, a: int, b: int, n: nat)
    requires Settled(keys, tiers, now) && Monotone(ops, now) && Patient(ops, tiers) && i < |tiers| && a <= now && a <= b
    requires n > 0 ==> now <= b
    requires Balanced(tiers, keys, key, i, a, now, n)
    ensures AtMostRate(n + Allowed(tiers, keys, ops, key, a, b), tiers[i], b - a)
    decreases |ops|
  {
    if ops == [] {
      BalancedEnds(tiers, keys, key, i, a, now, b, n);
    } else if ops[0].t > b {
      BalancedEnds(tiers, keys, key, i, a, now, b, n);
      NoneAllowedLate(tiers, keys, ops, key, a, b);
    } else {
      var op := ops[0];
      BalancedLater(tiers, keys, key, i, a, now, op.t, n);
      SettledLater(keys, tiers, now, op.t);
      BalancedAfter(tiers, keys, key, i, a, op, n);
      AfterIsSettled(tiers, keys, now, op);
      var m := n + if op.Call? && op.key == key && Verdict(tiers, keys, op) then 1 else 0;
      BoundFrom(tiers, After(tiers, keys, op), op.t, ops[1..], key, i, a, b, m);
    }
  }

  lemma {:induction false} NoneAllowedLate(tiers: seq<Tier>, keys: Keys, ops: seq<Op>, key: string, a: int, b: int)
    requires Sound(tiers) && Shaped(keys, tiers) && ops != [] && ops[0].t > b && Monotone(ops, ops[0].t)
    ensures Allowed(tiers, keys, ops, key, a, b) == 0
    decreases |ops|
  {
    if |ops| > 1 {
      NoneAllowedLate(tiers, After(tiers, keys, ops[0]), ops[1..], key, a, b);
    }
  }

  lemma {:induction false} BoundBefore(tiers: seq<Tier>, keys: Keys, now: int, ops: seq<Op>, key: string, i: nat, a: int, b: int)
    requires Settled(keys, tiers, now) && Monotone(ops, now) && Patient(ops, tiers) && i < |tiers| && a <= b
    ensures AtMostRate(Allowed(tiers, keys, ops, key, a, b), tiers[i], b - a)
    decreases |ops|
  {
    if ops == [] {
      RateNonNegative(tiers[i]);
      MulMono(0, b - a, Rate(tiers[i]));
    } else if ops[0].t < a {
      AfterIsSettled(tiers, keys, now, ops[0]);
      BoundBefore(tiers, After(tiers, keys, ops[0]), ops[0].t, ops[1..], key, i, a, b);
    } else {
      var t := ops[0].t;
      SettledLater(keys, tiers, now, t);
      LevelLater(keys, key, tiers, i, t, t);
      RateNonNegative(tiers[i]);
      MulMono(0, t - a, Rate(tiers[i]));
      BoundFrom(tiers, keys, t, ops, key, i, a, b, 0);
    }
  }

  /** The rate bound.  In any trace from an empty limiter, for every key, every tier and every
      interval, the calls allowed in the interval number at most the capacity plus what accrues
      over the interval (both sides times the window). */
  lemma RateBound(tiers: seq<Tier>, start: int, ops: seq<Op>, key: string, i: nat, a: int, b: int)
    requires Sound(tiers) && Monotone(ops, start) && Patient(ops, tiers) && i < |tiers| && a <= b
    ensures Allowed(tiers, map[], ops, key, a, b) * tiers[i].window <= tiers[i].capacity * (tiers[i].window + (b - a))
  {
    BoundBefore(tiers, map[], start, ops, key, i, a, b);
    ScaleByWindow(Allowed(tiers, map[], ops, key, a, b), tiers[i], b - a);
  }

  lemma ScaleByWindow(n: int, tier: Tier, d: int)
    requires tier.window > 0 && AtMostRate(n, tier, d)
    ensures n * tier.window <= tier.capacity * (tier.window + d)
  {
    RateTimesWindow(tier);
    Scale(n as real, tier.capacity as real, d as real, Rate(tier), tier.window as real);
    assert (n * tier.window) as real == n as real * tier.window as real;
    assert (tier.capacity * (tier.window + d)) as real == tier.capacity as real * (tier.window as real + d as real);
  }

  lemma Scale(n: real, c: real, d: real, r: real, w: real)
    requires w > 0.0 && w * r == c && n <= c + d * r
    ensures n * w <= c * (w + d)
  {
    assert (c + d * r) * w == c * w + d * (w * r);
    assert n * w <= (c + d * r) * w;
  }

  // ---- What can be left out of a trace ----

  ghost function Outcomes(tiers: seq<Tier>, keys: Keys, ops: seq<Op>, key: string): seq<bool>
    requires Sound(tiers) && Shaped(keys, tiers)
    decreases |ops|
  {
    if ops == [] then [] else
    (if ops[0].Call? && ops[0].key == key then [Verdict(tiers, keys, ops[0])] else [])
      + Outcomes(tiers, After(tiers, keys, ops[0]), ops[1..], key)
  }

  function Kept(ops: seq<Op>, keep: seq<bool>): seq<Op>
    requires |keep| == |ops|
  {
    if ops == [] then [] else (if keep[0] then [ops[0]] else []) + Kept(ops[1..], keep[1..])
  }

  /** The outcomes, in the whole trace, of the calls on `key` that are kept. */
  ghost function KeptOutcomes(tiers: seq<Tier>, keys: Keys, ops: seq<Op>, keep: seq<bool>, key: string): seq<bool>
    requires Sound(tiers) && Shaped(keys, tiers) && |keep| == |ops|
    decreases |ops|
  {
    if ops == [] then [] else
    (if keep[0] && ops[0].Call? && ops[0].key == key then [Verdict(tiers, keys, ops[0])] else [])
      + KeptOutcomes(tiers, After(tiers, keys, ops[0]), ops[1..], keep[1..], key)
  }

  /** Left out are only collections, calls on other keys, and calls on `key` that are denied. */
  ghost predicate Droppable(tiers: seq<Tier>, keys: Keys, ops: seq<Op>, keep: seq<bool>, key: string)
    requires Sound(tiers) && Shaped(keys, tiers) && |keep| == |ops|
    decreases |ops|
  {
    ops == [] ||
    ((!keep[0] && ops[0].Call? && ops[0].key == key ==> !Verdict(tiers, keys, ops[0]))
      && Droppable(tiers, After(tiers, keys, ops[0]), ops[1..], keep[1..], key))
  }

  ghost predicate SameLevels(k1: Keys, k2: Keys, tiers: seq<Tier>, key: string, now: int)
    requires Sound(tiers) && Shaped(k1, tiers) && Shaped(k2, tiers)
  {
    forall i :: 0 <= i < |tiers| ==> Level(k1, key, tiers, i, now) == Level(k2, key, tiers, i, now)
  }

  lemma SameLater(k1: Keys, k2: Keys, tiers: seq<Tier>, key: string, t1: int, t2: int)
    requires Settled(k1, tiers, t1) && Settled(k2, tiers, t1) && t1 <= t2 && SameLevels(k1, k2, tiers, key, t1)
    ensures SameLevels(k1, k2, tiers, key, t2)
  {
    forall i | 0 <= i < |tiers|
      ensures Level(k1, key, tiers, i, t2) == Level(k2, key, tiers, i, t2)
    {
      LevelLater(k1, key, tiers, i, t1, t2);
      LevelLater(k2, key, tiers, i, t1, t2);
    }
  }

  lemma SameCall(k1: Keys, k2: Keys, tiers: seq<Tier>, key: string, op: Op)
    requires Settled(k1, tiers, op.t) && Settled(k2, tiers, op.t) && SameLevels(k1, k2, tiers, key, op.t) && op.Call?
    ensures op.key == key ==> Verdict(tiers, k1, op) == Verdict(tiers, k2, op)
    ensures SameLevels(After(tiers, k1, op), After(tiers, k2, op), tiers, key, op.t)
  {
    AllowIsAtomic(k1, op.key, tiers, op.t);
    AllowIsAtomic(k2, op.key, tiers, op.t);
    var l1, l2 := After(tiers, k1, op), After(tiers, k2, op);
    forall i | 0 <= i < |tiers|
      ensures Level(l1, key, tiers, i, op.t) == Level(l2, key, tiers, i, op.t)
    {
      if op.key == key {
        assert Verdict(tiers, k1, op) == Verdict(tiers, k2, op);
      } else {
        assert Level(l1, key, tiers, i, op.t) == Level(k1, key, tiers, i, op.t);
        assert Level(l2, key, tiers, i, op.t) == Level(k2, key, tiers, i, op.t);
      }
    }
  }

  /** The same operation on both sides. */
  lemma SameStep(k1: Keys, k2: Keys, tiers: seq<Tier>, key: string, now: int, op: Op)
    requires Settled(k1, tiers, op.t) && Settled(k2, tiers, op.t) && SameLevels(k1, k2, tiers, key, op.t)
    requires op.Gc? ==> forall j :: 0 <= j < |tiers| ==> op.maxAge + 1 >= tiers[j].window
    ensures op.Call? && op.key == key ==> Verdict(tiers, k1, op) == Verdict(tiers, k2, op)
    ensures SameLevels(After(tiers, k1, op), After(tiers, k2, op), tiers, key, op.t)
  {
    if op.Gc? {
      CollectKeepsLevels(k1, key, tiers, op.t, op.maxAge);
      CollectKeepsLevels(k2, key, tiers, op.t, op.maxAge);
      var l1, l2 := After(tiers, k1, op), After(tiers, k2, op);
      forall i | 0 <= i < |tiers|
        ensures Level(l1, key, tiers, i, op.t) == Level(l2, key, tiers, i, op.t)
      {
        assert Level(l1, key, tiers, i, op.t) == Level(k1, key, tiers, i, op.t);
      }
    } else {
      SameCall(k1, k2, tiers, key, op);
    }
  }

  /** An operation on one side only, of the kinds that can be left out. */
  lemma SkippedStep(k1: Keys, k2: Keys, tiers: seq<Tier>, key: string, op: Op)
    requires Settled(k1, tiers, op.t) && Settled(k2, tiers, op.t) && SameLevels(k1, k2, tiers, key, op.t)
    requires op.Gc? ==> forall j :: 0 <= j < |tiers| ==> op.maxAge + 1 >= tiers[j].window
    requires op.Call? && op.key == key ==> !Verdict(tiers, k1, op)
    ensures SameLevels(After(tiers, k1, op), k2, tiers, key, op.t)
  {
    match op
    case Call(t, k) => AllowIsAtomic(k1, k, tiers, t);
    case Gc(t, maxAge) => CollectKeepsLevels(k1, key, tiers, t, maxAge);
  }

  lemma {:induction false} DroppingFrom(tiers: seq<Tier>, k1: Keys, k2: Keys, now: int, ops: seq<Op>, keep: seq<bool>, key: string)
    requires Settled(k1, tiers, now) && Settled(k2, tiers, now) && SameLevels(k1, k2, tiers, key, now)
    requires Monotone(ops, now) && Patient(ops, tiers) && |keep| == |ops| && Droppable(tiers, k1, ops, keep, key)
    ensures KeptOutcomes(tiers, k1, ops, keep, key) == Outcomes(tiers, k2, Kept(ops, keep), key)
    decreases |ops|
  {
    if ops != [] {
      var op := ops[0];
      SettledLater(k1, tiers, now, op.t);
      SettledLater(k2, tiers, now, op.t);
      SameLater(k1, k2, tiers, key, now, op.t);
      AfterIsSettled(tiers, k1, now, op);
      AfterIsSettled(tiers, k2, now, op);
      var rest := Kept(ops[1..], keep[1..]);
      if keep[0] {
        SameStep(k1, k2, tiers, key, now, op);
        DroppingFrom(tiers, After(tiers, k1, op), After(tiers, k2, op), op.t, ops[1..], keep[1..], key);
        assert ([op] + rest)[1..] == rest;
      } else {
        SkippedStep(k1, k2, tiers, key, op);
        DroppingFrom(tiers, After(tiers, k1, op), k2, op.t, ops[1..], keep[1..], key);
        assert Kept(ops, keep) == rest;
      }
    }
  }

  /** Denied calls, other keys and collections change nothing: leave out of any trace any of
      them, and every call on `key` that is kept comes out as before. */
  lemma DeniedCallsChangeNothing(tiers: seq<Tier>, start: int, ops: seq<Op>, keep: seq<bool>, key: string)
    requires Sound(tiers) && Monotone(ops, start) && Patient(ops, tiers) && |keep| == |ops|
    requires Droppable(tiers, map[], ops, keep, key)
    ensures KeptOutcomes(tiers, map[], ops, keep, key) == Outcomes(tiers, map[], Kept(ops, keep), key)
  {
    DroppingFrom(tiers, map[], map[], start, ops, keep, key);
  }

  lemma {:induction false} KeptAllOfKey(tiers: seq<Tier>, keys: Keys, ops: seq<Op>, keep: seq<bool>, key: string)
    requires Sound(tiers) && Shaped(keys, tiers) && |keep| == |ops|
    requires forall i :: 0 <= i < |ops| && !keep[i] ==> ops[i].Gc? || ops[i].key != key
    ensures Droppable(tiers, keys, ops, keep, key)
    ensures KeptOutcomes(tiers, keys, ops, keep, key) == Outcomes(tiers, keys, ops, key)
    decreases |ops|
  {
    if ops != [] {
      KeptAllOfKey(tiers, After(tiers, keys, ops[0]), ops[1..], keep[1..], key);
    }
  }

  /** Collections and traffic on other keys change no verdict of a key, wherever they are
      inserted: the outcomes with them are the outcomes without. */
  lemma CollectionsAndOtherKeysChangeNothing(tiers: seq<Tier>, start: int, ops: seq<Op>, keep: seq<bool>, key: string)
    requires Sound(tiers) && Monotone(ops, start) && Patient(ops, tiers) && |keep| == |ops|
    requires forall i :: 0 <= i < |ops| && !keep[i] ==> ops[i].Gc? || ops[i].key != key
    ensures Outcomes(tiers, map[], ops, key) == Outcomes(tiers, map[], Kept(ops, keep), key)
  {
    KeptAllOfKey(tiers, map[], ops, keep, key);
    DroppingFrom(tiers, map[], map[], start, ops, keep, key);
  }

  const MINUTE: int := 60_000_000_000
  const HOUR: int := 3_600_000_000_000

  /** The limiter as `main` wires it: one tier of a minute, collections of an hour.  Within any
      time `d`, a key gets at most `capacity` calls plus its share of `d`. */
  lemma WiredRateBound(capacity: int, start: int, ops: seq<Op>, key: string, a: int, b: int)
    requires capacity >= 0 && Monotone(ops, start) && a <= b
    requires forall i :: 0 <= i < |ops| && ops[i].Gc? ==> ops[i].maxAge == HOUR
    ensures Allowed([Tier(capacity, MINUTE)], map[], ops, key, a, b) * MINUTE <= capacity * (MINUTE + (b - a))
  {
    RateBound([Tier(capacity, MINUTE)], start, ops, key, 0, a, b);
  }
}
