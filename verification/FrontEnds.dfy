/** What a DNS message and an HTTP hit do to the registry and the limiter
    (internal/dns/server.go, internal/httpserver/server.go). */
module FrontEnds {
  import opened Records
  import opened Entries
  import opened Hosts
  import opened Questions
  import RateLimit
  import R = Registry
  import Limiter
  import Challenges
  import ChallengeStores
  import SlugEntries

  ghost predicate Noted(mem: map<Id, Entry>, mem0: map<Id, Entry>, qs: seq<Question>, events: seq<Event>, domain: string, max: int)
    requires |events| == |qs|
  {
    && mem.Keys == mem0.Keys
    && forall id :: id in mem0 ==> mem[id] == RecordEach(mem0[id], EventsFor(qs, events, domain, mem0.Keys, id), max)
  }

  lemma NotedNext(mem: map<Id, Entry>, mem0: map<Id, Entry>, qs: seq<Question>, events: seq<Event>, i: nat, domain: string, max: int)
    requires i < |qs| == |events| && Noted(mem, mem0, qs[..i], events[..i], domain, max)
    ensures
      var hit := Hit(qs[i], domain, mem0.Keys);
      Noted(if hit.Some? then mem[hit.value := RecordEntry(mem[hit.value], events[i], max)] else mem,
            mem0, qs[..i + 1], events[..i + 1], domain, max)
  {
    assert qs[..i + 1][..i] == qs[..i] && events[..i + 1][..i] == events[..i];
    var hit := Hit(qs[i], domain, mem0.Keys);
    forall id | id in mem0
      ensures EventsFor(qs[..i + 1], events[..i + 1], domain, mem0.Keys, id) ==
                EventsFor(qs[..i], events[..i], domain, mem0.Keys, id) + if hit == Some(id) then [events[i]] else []
    {
    }
    if hit.Some? {
      var before := EventsFor(qs[..i], events[..i], domain, mem0.Keys, hit.value);
      assert (before + [events[i]])[..|before|] == before;
    }
    assert forall s: seq<Event> :: s + [] == s;
  }

  // The three structures share no memory, so a call on one leaves the others as they were.

  twostate lemma LimiterKept(lim: Limiter.Limiter)
    requires old(lim.Valid()) && unchanged(lim)
    requires forall e :: e in lim.keys.Values ==> unchanged(e) && unchanged(e.buckets)
    ensures lim.Valid() && lim.Value() == old(lim.Value())
  {
    forall k | k in lim.keys
      ensures lim.keys[k].Value() == old(lim.keys[k].Value())
    {
      assert lim.keys[k] in lim.keys.Values;
    }
  }

  twostate lemma StoreKept(store: ChallengeStores.ChallengeStore)
    requires old(store.Valid()) && unchanged(store) && unchanged(store.Buffers())
    ensures store.Valid() && store.Value() == old(store.Value())
  {
    forall k | k in store.m
      ensures store.m[k].buf[..store.m[k].len] == old(store.m[k].buf[..store.m[k].len])
    {
      assert store.m[k] in store.m.Values && store.m[k].buf in store.Buffers();
    }
  }

  twostate lemma RegistryKept(reg: R.Registry)
    requires old(reg.Valid()) && unchanged(reg)
    requires forall e :: e in reg.slugs.Values ==> unchanged(e) && unchanged(e.buf)
    ensures reg.Valid() && reg.Mem() == old(reg.Mem())
  {
    forall id | id in reg.slugs
      ensures reg.slugs[id].Valid() && reg.slugs[id].Value() == old(reg.slugs[id].Value())
    {
      assert reg.slugs[id] in reg.slugs.Values;
    }
  }

  method Record(reg: R.Registry, slug: Id, ev: Event,
                ghost es: set<Limiter.Entry>, ghost bs: set<array<RateLimit.Bucket>>, ghost ts: set<array<Challenges.Txt>>)
    returns (ok: bool)
    requires reg.Valid() && slug in reg.slugs
    modifies reg.slugs.Values, reg.Buffers()
    ensures reg.Valid() && ok == !RecordPanics(old(reg.Mem())[slug], reg.maxEventsPerSlug)
    ensures reg.slugs == old(reg.slugs) && fresh(reg.Buffers() - old(reg.Buffers()))
    ensures reg.Mem() == old(reg.Mem())[slug := RecordEntry(old(reg.Mem())[slug], ev, reg.maxEventsPerSlug)]
    ensures unchanged(es) && unchanged(bs) && unchanged(ts)
  {
    var _, fine := reg.RecordEvent(slug, ev);
    ok := fine;
  }

  method AnswerChallenge(store: ChallengeStores.ChallengeStore, name: string)
    returns (texts: seq<(string, Challenges.Txt)>)
    requires store.Valid()
    ensures texts == TextsOf(name, store.Value())
    ensures |texts| == |Challenges.Get(store.Value(), name)|
    ensures forall i :: 0 <= i < |texts| ==> texts[i] == (name, Challenges.Get(store.Value(), name)[i])
  {
    var values := store.GetTXT(name);
    texts := [];
    for i := 0 to values.Length
      invariant texts == TextsOf(name, store.Value())[..i]
    {
      texts := texts + [(name, values[i])];
    }
  }

  /** One slug's part in a message: recorded once for each question that names it, in order,
      and only if it is registered.  `ok` is false when a record call panics. */
  method Note(reg: R.Registry, q: Question, ev: Event, domain: string, ghost qs: seq<Question>, ghost events: seq<Event>,
              ghost i: nat, ghost mem0: map<Id, Entry>, ghost store: ChallengeStores.ChallengeStore)
    returns (ok: bool)
    requires store.Valid()
    requires reg.Valid() && i < |qs| == |events| && q == qs[i] && ev == events[i]
    requires Noted(reg.Mem(), mem0, qs[..i], events[..i], domain, reg.maxEventsPerSlug)
    modifies reg.slugs.Values, reg.Buffers()
    ensures reg.Valid() && reg.slugs == old(reg.slugs)
    ensures Noted(reg.Mem(), mem0, qs[..i + 1], events[..i + 1], domain, reg.maxEventsPerSlug)
    ensures fresh(reg.Buffers() - old(reg.Buffers()))
    ensures store.Valid() && store.Value() == old(store.Value())
  {
    NotedNext(reg.Mem(), mem0, qs, events, i, domain, reg.maxEventsPerSlug);
    ok := true;
    var hit := Hit(q, domain, reg.slugs.Keys);
    if hit.Some? {
      assert hit.value in reg.Mem();
      ok := Record(reg, hit.value, ev, {}, {}, store.Buffers());
    }
    StoreKept(store);
  }

  datatype Reply = Reply(texts: seq<(string, Challenges.Txt)>, nameError: bool)

  /** What has been answered of some questions: `answered` says that one of them was the
      server's, `missing` that a challenge found nothing. */
  ghost predicate Answers(texts: seq<(string, Challenges.Txt)>, answered: bool, missing: bool,
                          qs: seq<Question>, domain: string, table: Challenges.Table) {
    && texts == Texts(qs, domain, table)
    && (answered <==> !AllForeign(qs, domain))
    && (missing <==> exists i :: 0 <= i < |qs| && Unserved(qs[i], domain, table))
  }

  lemma AnswersNext(texts: seq<(string, Challenges.Txt)>, answered: bool, missing: bool,
                    qs: seq<Question>, i: nat, domain: string, table: Challenges.Table)
    requires i < |qs| && Answers(texts, answered, missing, qs[..i], domain, table)
    ensures
      var c := Classify(qs[i], domain);
      var more := if c.Challenge? then TextsOf(Lower(qs[i].name), table) else [];
      Answers(texts + more, answered || !c.Foreign?, missing || (c.Challenge? && more == []), qs[..i + 1], domain, table)
  {
    var now, before := qs[..i + 1], qs[..i];
    assert now[..i] == before && now[i] == qs[i];
    assert forall j :: 0 <= j < |before| ==> before[j] == now[j];
    if missing {
      var j :| 0 <= j < |before| && Unserved(before[j], domain, table);
      assert Unserved(now[j], domain, table);
    }
    if Unserved(qs[i], domain, table) {
      assert Unserved(now[i], domain, table);
    }
  }

  method AnswerOne(reg: R.Registry, store: ChallengeStores.ChallengeStore, q: Question, domain: string,
                   texts: seq<(string, Challenges.Txt)>, answered: bool, missing: bool, ghost qs: seq<Question>, ghost i: nat)
    returns (texts': seq<(string, Challenges.Txt)>, answered': bool, missing': bool)
    requires reg.Valid() && store.Valid() && i < |qs| && q == qs[i]
    requires Answers(texts, answered, missing, qs[..i], domain, store.Value())
    ensures Answers(texts', answered', missing', qs[..i + 1], domain, store.Value())
    ensures reg.Valid() && reg.Mem() == old(reg.Mem()) && store.Value() == old(store.Value())
  {
    AnswersNext(texts, answered, missing, qs, i, domain, store.Value());
    answered' := answered || !Classify(q, domain).Foreign?;
    texts', missing' := texts, missing;
    if Classify(q, domain).Challenge? {
      ghost var table := store.Value();
      var more := AnswerChallenge(store, Lower(q.name));
      assert store.Value() == table;
      texts', missing' := texts + more, missing || more == [];
    } else {
      assert texts + [] == texts;
    }
    RegistryKept(reg);
  }

  method HandleOne(reg: R.Registry, store: ChallengeStores.ChallengeStore, q: Question, ev: Event, domain: string,
                   texts: seq<(string, Challenges.Txt)>, answered: bool, missing: bool,
                   ghost qs: seq<Question>, ghost events: seq<Event>, ghost i: nat, ghost mem0: map<Id, Entry>)
    returns (ok: bool, texts': seq<(string, Challenges.Txt)>, answered': bool, missing': bool)
    requires reg.Valid() && store.Valid() && i < |qs| == |events| && q == qs[i] && ev == events[i]
    requires Noted(reg.Mem(), mem0, qs[..i], events[..i], domain, reg.maxEventsPerSlug)
    requires Answers(texts, answered, missing, qs[..i], domain, store.Value())
    modifies reg.slugs.Values, reg.Buffers()
    ensures reg.Valid() && reg.slugs == old(reg.slugs) && fresh(reg.Buffers() - old(reg.Buffers()))
    ensures store.Valid() && store.Value() == old(store.Value())
    ensures Noted(reg.Mem(), mem0, qs[..i + 1], events[..i + 1], domain, reg.maxEventsPerSlug)
    ensures Answers(texts', answered', missing', qs[..i + 1], domain, store.Value())
  {
    texts', answered', missing' := AnswerOne(reg, store, q, domain, texts, answered, missing, qs, i);
    ok := Note(reg, q, ev, domain, qs, events, i, mem0, store);
  }

  /** The loop over the questions; a panic in a record call ends it after the first `n`. */
  method AnswerQuestions(reg: R.Registry, store: ChallengeStores.ChallengeStore, qs: seq<Question>, events: seq<Event>, domain: string)
    returns (ok: bool, texts: seq<(string, Challenges.Txt)>, answered: bool, missing: bool, n: nat)
    requires reg.Valid() && store.Valid() && |events| == |qs|
    modifies reg.slugs.Values, reg.Buffers()
    ensures reg.Valid() && store.Valid() && store.Value() == old(store.Value()) && n <= |qs| && (ok ==> n == |qs|)
    ensures Noted(reg.Mem(), old(reg.Mem()), qs[..n], events[..n], domain, reg.maxEventsPerSlug)
    ensures Answers(texts, answered, missing, qs[..n], domain, store.Value())
  {
    ok, texts, answered, missing, n := true, [], false, false, 0;
    ghost var mem0, table := reg.Mem(), store.Value();
    while n < |qs| && ok
      invariant n <= |qs|
      invariant reg.Valid() && reg.slugs == old(reg.slugs) && fresh(reg.Buffers() - old(reg.Buffers()))
      invariant store.Valid() && store.Value() == table
      invariant Noted(reg.Mem(), mem0, qs[..n], events[..n], domain, reg.maxEventsPerSlug)
      invariant Answers(texts, answered, missing, qs[..n], domain, table)
      decreases |qs| - n
    {
      ok, texts, answered, missing :=
        HandleOne(reg, store, qs[n], events[n], domain, texts, answered, missing, qs, events, n, mem0);
      n := n + 1;
    }
  }

  /** A message.  A registered slug has recorded one event for each question that is a hit on
      it, in order, and nothing else has changed.  The TXT records are those of the challenge
      questions; the reply is a name error when no question is the server's, or when a challenge
      question finds nothing.  When a record call panics, only the first `n` questions count. */
  method HandleQuery(reg: R.Registry, store: ChallengeStores.ChallengeStore, qs: seq<Question>, events: seq<Event>, domain: string)
    returns (ok: bool, reply: Reply, n: nat)
    requires reg.Valid() && store.Valid() && |events| == |qs|
    modifies reg.slugs.Values, reg.Buffers()
    ensures reg.Valid() && store.Valid() && store.Value() == old(store.Value()) && n <= |qs| && (ok ==> n == |qs|)
    ensures reg.Mem().Keys == old(reg.Mem()).Keys
    ensures forall id :: id in old(reg.Mem()) ==>
              reg.Mem()[id] == RecordEach(old(reg.Mem())[id], EventsFor(qs[..n], events[..n], domain, old(reg.Mem()).Keys, id),
                                          reg.maxEventsPerSlug)
    ensures ok ==> reply.texts == Texts(qs, domain, store.Value())
    ensures ok ==> (reply.nameError <==>
                      || (forall i :: 0 <= i < |qs| ==> Classify(qs[i], domain).Foreign?)
                      || exists i :: 0 <= i < |qs| && Classify(qs[i], domain).Challenge?
                                     && Challenges.Get(store.Value(), Lower(qs[i].name)) == [])
  {
    var texts, answered, missing;
    ok, texts, answered, missing, n := AnswerQuestions(reg, store, qs, events, domain);
    assert n == |qs| ==> qs[..n] == qs;
    reply := Reply(texts, !answered || missing);
  }

  method TakeToken(lim: Limiter.Limiter, key: string, now: int,
                   ghost es: set<SlugEntries.SlugEntry>, ghost bs: set<array<Event>>)
    returns (ok: bool)
    requires lim.Valid()
    modifies lim`keys, lim.keys.Values, lim.Arrays()
    ensures lim.Valid() && (lim.Value(), ok) == RateLimit.Allow(old(lim.Value()), key, lim.tiers, now)
    ensures unchanged(es) && unchanged(bs)
  {
    ok := lim.Allow(key, now);
  }

  method TakeOnly(reg: R.Registry, lim: Limiter.Limiter, key: string, now: int) returns (ok: bool)
    requires reg.Valid() && lim.Valid()
    modifies lim`keys, lim.keys.Values, lim.Arrays()
    ensures lim.Valid() && (lim.Value(), ok) == RateLimit.Allow(old(lim.Value()), key, lim.tiers, now)
    ensures reg.Valid() && reg.Mem() == old(reg.Mem()) && reg.Buffers() == old(reg.Buffers())
  {
    ok := TakeToken(lim, key, now, reg.slugs.Values, reg.Buffers());
    RegistryKept(reg);
  }

  method RecordOnly(reg: R.Registry, lim: Limiter.Limiter, slug: Id, ev: Event) returns (ok: bool)
    requires reg.Valid() && lim.Valid() && slug in reg.slugs
    modifies reg.slugs.Values, reg.Buffers()
    ensures reg.Valid() && ok == !RecordPanics(old(reg.Mem())[slug], reg.maxEventsPerSlug)
    ensures reg.Mem() == old(reg.Mem())[slug := RecordEntry(old(reg.Mem())[slug], ev, reg.maxEventsPerSlug)]
    ensures lim.Valid() && lim.Value() == old(lim.Value())
  {
    ok := Record(reg, slug, ev, lim.keys.Values, lim.Arrays(), {});
    LimiterKept(lim);
  }

  /** A hit over HTTP: only for a registered slug is a token taken, and only from the caller's
      own pair of address and slug; the event is recorded exactly when the limiter allows it. */
  method HandleTripflare(reg: R.Registry, lim: Limiter.Limiter, slug: Id, ip: string, ev: Event, now: int)
    returns (allowed: bool, ok: bool)
    requires reg.Valid() && lim.Valid()
    modifies reg.slugs.Values, reg.Buffers(), lim`keys, lim.keys.Values, lim.Arrays()
    ensures reg.Valid() && lim.Valid()
    ensures slug !in old(reg.Mem()) ==> !allowed && lim.Value() == old(lim.Value())
    ensures slug in old(reg.Mem()) ==>
              (lim.Value(), allowed) == RateLimit.Allow(old(lim.Value()), LimitKey(ip, slug), lim.tiers, now)
    ensures reg.Mem() ==
              if allowed then old(reg.Mem())[slug := RecordEntry(old(reg.Mem())[slug], ev, reg.maxEventsPerSlug)]
              else old(reg.Mem())
    ensures ok <==> !(allowed && RecordPanics(old(reg.Mem())[slug], reg.maxEventsPerSlug))
  {
    allowed, ok := false, true;
    if slug in reg.slugs {
      allowed := TakeOnly(reg, lim, LimitKey(ip, slug), now);
      if allowed {
        ok := RecordOnly(reg, lim, slug, ev);
      }
    }
  }
}
