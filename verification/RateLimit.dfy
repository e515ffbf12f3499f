/** The token-bucket limiter, in exact arithmetic (internal/ratelimit/ratelimit.go). */
module RateLimit {
  import opened Records

  datatype Tier = Tier(capacity: int, window: int)

  datatype Bucket = Bucket(tokens: real, lastRefill: int)

  datatype KeyEntry = KeyEntry(buckets: seq<Bucket>, lastAccess: int)

  type Keys = map<string, KeyEntry>

  /** What the arithmetic needs of a configuration; nothing validates it. */
  ghost predicate Sound(tiers: seq<Tier>) {
    forall i :: 0 <= i < |tiers| ==> tiers[i].capacity >= 0 && tiers[i].window > 0
  }

  function Rate(tier: Tier): real
    requires tier.window > 0
  {
    tier.capacity as real / tier.window as real
  }

  function Refill(b: Bucket, tier: Tier, now: int): Bucket
    requires tier.window > 0
  {
    var elapsed := now - b.lastRefill;
    if elapsed <= 0 then b else
    var tokens := b.tokens + elapsed as real * Rate(tier);
    Bucket(if tokens > tier.capacity as real then tier.capacity as real else tokens, now)
  }

  function NewBuckets(tiers: seq<Tier>, now: int): seq<Bucket> {
    seq(|tiers|, i requires 0 <= i < |tiers| => Bucket(tiers[i].capacity as real, now))
  }

  function RefillAll(bs: seq<Bucket>, tiers: seq<Tier>, now: int): (r: seq<Bucket>)
    requires |bs| == |tiers| && Sound(tiers)
    ensures |r| == |bs| && forall i :: 0 <= i < |bs| ==> r[i] == Refill(bs[i], tiers[i], now)
  {
    seq(|bs|, i requires 0 <= i < |bs| => Refill(bs[i], tiers[i], now))
  }

  predicate Enough(bs: seq<Bucket>) {
    forall i :: 0 <= i < |bs| ==> bs[i].tokens >= 1.0
  }

  function TakeOne(bs: seq<Bucket>): seq<Bucket> {
    seq(|bs|, i requires 0 <= i < |bs| => bs[i].(tokens := bs[i].tokens - 1.0))
  }

  ghost predicate Shaped(keys: Keys, tiers: seq<Tier>) {
    forall key :: key in keys ==> |keys[key].buckets| == |tiers|
  }

  function GetOrCreate(keys: Keys, key: string, tiers: seq<Tier>, now: int): KeyEntry {
    if key in keys then keys[key] else KeyEntry(NewBuckets(tiers, now), now)
  }

  function Allow(keys: Keys, key: string, tiers: seq<Tier>, now: int): (Keys, bool)
    requires Sound(tiers) && Shaped(keys, tiers)
  {
    var refilled := RefillAll(GetOrCreate(keys, key, tiers, now).buckets, tiers, now);
    var ok := Enough(refilled);
    (keys[key := KeyEntry(if ok then TakeOne(refilled) else refilled, now)], ok)
  }

  function Collect(keys: Keys, cutoff: int): Keys {
    map key | key in keys && !(keys[key].lastAccess < cutoff) :: keys[key]
  }

  // What a bucket would hold at time `t`: the only thing that verdicts depend on.

  function Level(keys: Keys, key: string, tiers: seq<Tier>, i: nat, t: int): real
    requires Sound(tiers) && Shaped(keys, tiers) && i < |tiers|
  {
    if key in keys then Refill(keys[key].buckets[i], tiers[i], t).tokens else tiers[i].capacity as real
  }

  /** The state of a limiter that has run up to time `now` on a monotone clock. */
  ghost predicate Settled(keys: Keys, tiers: seq<Tier>, now: int) {
    && Sound(tiers) && Shaped(keys, tiers)
    && forall key :: key in keys ==> keys[key].lastAccess <= now && SettledEntry(keys[key], tiers)
  }

  ghost predicate SettledEntry(e: KeyEntry, tiers: seq<Tier>) {
    && |e.buckets| == |tiers|
    && forall i :: 0 <= i < |tiers| ==>
         e.buckets[i].lastRefill == e.lastAccess && 0.0 <= e.buckets[i].tokens <= tiers[i].capacity as real
  }

  function Min(a: real, b: real): real {
    if a > b then b else a
  }

  lemma RateTimesWindow(tier: Tier)
    requires tier.window > 0
    ensures tier.window as real * Rate(tier) == tier.capacity as real
  {
  }

  lemma MulMono(a: int, b: int, r: real)
    requires a <= b && r >= 0.0
    ensures a as real * r <= b as real * r
  {
  }

  lemma MulAdd(a: int, b: int, r: real)
    ensures (a + b) as real * r == a as real * r + b as real * r
  {
  }

  lemma RateNonNegative(tier: Tier)
    requires tier.window > 0 && tier.capacity >= 0
    ensures Rate(tier) >= 0.0
  {
  }

  /** Refilling is adding what accrued since, up to the capacity. */
  lemma RefillIs(b: Bucket, tier: Tier, t: int)
    requires tier.window > 0 && tier.capacity >= 0 && b.lastRefill <= t && b.tokens <= tier.capacity as real
    ensures Refill(b, tier, t) == Bucket(Min(b.tokens + (t - b.lastRefill) as real * Rate(tier), tier.capacity as real), t)
  {
    RateNonNegative(tier);
    MulMono(0, t - b.lastRefill, Rate(tier));
  }

  /** Polling is neutral: refilling at `t1` and then at `t2` is refilling at `t2`. */
  lemma RefillComposes(b: Bucket, tier: Tier, t1: int, t2: int)
    requires tier.window > 0 && tier.capacity >= 0 && b.lastRefill <= t1 <= t2 && b.tokens <= tier.capacity as real
    ensures Refill(Refill(b, tier, t1), tier, t2) == Refill(b, tier, t2)
  {
    RateNonNegative(tier);
    RefillIs(b, tier, t1);
    RefillIs(b, tier, t2);
    RefillIs(Refill(b, tier, t1), tier, t2);
    MulAdd(t1 - b.lastRefill, t2 - t1, Rate(tier));
    MulMono(0, t2 - t1, Rate(tier));
  }

  /** The same, of levels: what a bucket holds at `t2` is what it held at `t1` and what accrued. */
  lemma TokensLater(b: Bucket, tier: Tier, t1: int, t2: int)
    requires tier.window > 0 && tier.capacity >= 0 && b.lastRefill <= t1 <= t2 && 0.0 <= b.tokens <= tier.capacity as real
    ensures 0.0 <= Refill(b, tier, t1).tokens <= tier.capacity as real
    ensures Refill(b, tier, t2).tokens ==
              Min(Refill(b, tier, t1).tokens + (t2 - t1) as real * Rate(tier), tier.capacity as real)
  {
    RefillStays(b, tier, t1);
    RefillComposes(b, tier, t1, t2);
    RefillIs(Refill(b, tier, t1), tier, t2);
  }

  lemma RefillStays(b: Bucket, tier: Tier, t: int)
    requires tier.window > 0 && tier.capacity >= 0 && b.lastRefill <= t && 0.0 <= b.tokens <= tier.capacity as real
    ensures 0.0 <= Refill(b, tier, t).tokens <= tier.capacity as real && Refill(b, tier, t).lastRefill == t
  {
    RefillIs(b, tier, t);
    RateNonNegative(tier);
    MulMono(0, t - b.lastRefill, Rate(tier));
  }

  /** A bucket that has been left alone for a whole window is full. */
  lemma FullAfterWindow(b: Bucket, tier: Tier, t: int)
    requires tier.window > 0 && tier.capacity >= 0 && 0.0 <= b.tokens <= tier.capacity as real
    requires b.lastRefill + tier.window <= t
    ensures Refill(b, tier, t).tokens == tier.capacity as real
  {
    RefillIs(b, tier, t);
    RateNonNegative(tier);
    MulMono(tier.window, t - b.lastRefill, Rate(tier));
    RateTimesWindow(tier);
  }
}
