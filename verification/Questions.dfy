/** How a DNS message is taken apart: which questions are challenges, which are hits on a slug,
    and what is answered (internal/dns/server.go). */
module Questions {
  import opened Records
  import opened Entries
  import opened Hosts
  import Challenges
  import EntryRuns

  datatype QType = A | AAAA | NS | SOA | TXT | Other(code: nat)

  datatype Question = Question(name: string, qtype: QType)

  datatype Class = Challenge | Apex | Sub | Foreign

  const CHALLENGE_PREFIX := "_acme-challenge."

  predicate HasPrefix(s: string, t: string) {
    |t| <= |s| && s[..|t|] == t
  }

  /** `domain` is the server's domain with its final dot. */
  function Classify(q: Question, domain: string): Class {
    var name := Lower(q.name);
    if q.qtype.TXT? && HasPrefix(name, CHALLENGE_PREFIX) && HasSuffix(name, domain) then Challenge
    else if name == domain then Apex
    else if HasSuffix(name, "." + domain) && name != domain then Sub
    else Foreign
  }

  /** The known slug that a question is recorded for. */
  function Hit(q: Question, domain: string, known: set<Id>): Option<Id> {
    if !Classify(q, domain).Sub? then None else
    var slug := DnsSlug(Lower(q.name), domain);
    if slug != "" && slug in known then Some(slug) else None
  }

  /** `events[i]` is what recording question `i` would append; these are the ones recorded for
      a slug. */
  function EventsFor(qs: seq<Question>, events: seq<Event>, domain: string, known: set<Id>, id: Id): seq<Event>
    requires |events| == |qs|
  {
    if qs == [] then [] else
    var n := |qs| - 1;
    EventsFor(qs[..n], events[..n], domain, known, id) + if Hit(qs[n], domain, known) == Some(id) then [events[n]] else []
  }

  function RecordEach(e: Entry, events: seq<Event>, max: int): Entry {
    if events == [] then e else RecordEntry(RecordEach(e, events[..|events| - 1], max), events[|events| - 1], max)
  }

  /** The TXT records of the answer: a name and a value each. */
  function Texts(qs: seq<Question>, domain: string, table: Challenges.Table): seq<(string, Challenges.Txt)> {
    if qs == [] then [] else
    var n := |qs| - 1;
    Texts(qs[..n], domain, table) + if Classify(qs[n], domain).Challenge? then TextsOf(Lower(qs[n].name), table) else []
  }

  function TextsOf(name: string, table: Challenges.Table): seq<(string, Challenges.Txt)> {
    var values := Challenges.Get(table, name);
    seq(|values|, i requires 0 <= i < |values| => (name, values[i]))
  }

  /** A challenge question that nothing is served for. */
  predicate Unserved(q: Question, domain: string, table: Challenges.Table) {
    Classify(q, domain).Challenge? && Challenges.Get(table, Lower(q.name)) == []
  }

  predicate AllForeign(qs: seq<Question>, domain: string) {
    forall i :: 0 <= i < |qs| ==> Classify(qs[i], domain).Foreign?
  }

  lemma {:induction false} LowerConcat(a: string, b: string)
    ensures Lower(a + b) == Lower(a) + Lower(b)
  {
  }

  lemma ChallengeNameIsLower(slug: string, d: string)
    requires Lower(slug) == slug && Lower(d) == d
    ensures Lower(CHALLENGE_PREFIX + slug + "." + d) == CHALLENGE_PREFIX + slug + "." + d
  {
    assert Lower(CHALLENGE_PREFIX) == CHALLENGE_PREFIX && Lower(".") == ".";
    LowerConcat(CHALLENGE_PREFIX, slug);
    LowerConcat(CHALLENGE_PREFIX + slug, ".");
    LowerConcat(CHALLENGE_PREFIX + slug + ".", d);
  }

  lemma ChallengeNameIsBelow(slug: string, d: string)
    requires slug != "" && '.' !in slug && d != "" && d[|d| - 1] == '.'
    ensures
      var name := CHALLENGE_PREFIX + slug + "." + d;
      HasPrefix(name, CHALLENGE_PREFIX) && HasSuffix(name, d) && HasSuffix(name, "." + d) && name != d &&
      DnsSlug(name, d) == slug
  {
    var name := CHALLENGE_PREFIX + slug + "." + d;
    SuffixOfConcat(CHALLENGE_PREFIX + slug + ".", d);
    assert name == (CHALLENGE_PREFIX + slug) + ("." + d);
    SuffixOfConcat(CHALLENGE_PREFIX + slug, "." + d);
    assert Fqdn(d) == d && IsPrefix(CHALLENGE_PREFIX);
    DnsSlugOf(CHALLENGE_PREFIX, slug, d);
    assert name[..|CHALLENGE_PREFIX|] == CHALLENGE_PREFIX;
  }

  /** A slug's own challenge name is below the slug: asked for any other type it is a hit on the
      slug, asked for TXT it is a challenge and no hit, whatever is registered. */
  lemma ChallengeQuestionsAreNoHits(slug: string, d: string, qtype: QType, known: set<Id>)
    requires slug in known && slug != "" && '.' !in slug && Lower(slug) == slug
    requires d != "" && d[|d| - 1] == '.' && Lower(d) == d
    ensures Hit(Question(CHALLENGE_PREFIX + slug + "." + d, qtype), d, known) == if qtype.TXT? then None else Some(slug)
  {
    ChallengeNameIsLower(slug, d);
    ChallengeNameIsBelow(slug, d);
  }

  // ---- What the functions above must make of a message ----

  /** One record for each value served, in order, with the name asked for. */
  lemma TextsAreTheValues(name: string, table: Challenges.Table)
    ensures |TextsOf(name, table)| == |Challenges.Get(table, name)|
    ensures forall i :: 0 <= i < |TextsOf(name, table)| ==> TextsOf(name, table)[i] == (name, Challenges.Get(table, name)[i])
  {
  }

  lemma TextsSnoc(qs: seq<Question>, q: Question, domain: string, table: Challenges.Table)
    ensures Texts(qs + [q], domain, table) == Texts(qs, domain, table) + Texts([q], domain, table)
  {
    TextsOfOne(q, domain, table);
    assert (qs + [q])[..|qs|] == qs && (qs + [q])[|qs|] == q;
  }

  /** Questions are answered one after the other, each as if it were alone. */
  lemma {:induction false} TextsConcat(a: seq<Question>, b: seq<Question>, domain: string, table: Challenges.Table)
    ensures Texts(a + b, domain, table) == Texts(a, domain, table) + Texts(b, domain, table)
    decreases |b|
  {
    if b == [] {
      assert a + b == a;
    } else {
      var init, q := b[..|b| - 1], b[|b| - 1];
      assert b == init + [q] && a + b == (a + init) + [q];
      TextsConcat(a, init, domain, table);
      TextsSnoc(init, q, domain, table);
      TextsSnoc(a + init, q, domain, table);
      Records.Regroup(Texts(a, domain, table), Texts(init, domain, table), Texts([q], domain, table));
    }
  }

  lemma TextsOfOne(q: Question, domain: string, table: Challenges.Table)
    ensures Texts([q], domain, table) == if Classify(q, domain).Challenge? then TextsOf(Lower(q.name), table) else []
  {
    assert [q][..0] == [];
  }

  /** Events are recorded for questions one after the other, each as if it were alone. */
  lemma {:induction false} EventsForConcat(a: seq<Question>, b: seq<Question>, evA: seq<Event>, evB: seq<Event>,
                                           domain: string, known: set<Id>, id: Id)
    requires |evA| == |a| && |evB| == |b|
    ensures EventsFor(a + b, evA + evB, domain, known, id) ==
              EventsFor(a, evA, domain, known, id) + EventsFor(b, evB, domain, known, id)
    decreases |b|
  {
    if b == [] {
      assert a + b == a && evA + evB == evA;
      assert EventsFor(a, evA, domain, known, id) + [] == EventsFor(a, evA, domain, known, id);
    } else {
      var n := |b| - 1;
      EventsForConcat(a, b[..n], evA, evB[..n], domain, known, id);
      assert (a + b)[..|a + b| - 1] == a + b[..n] && (evA + evB)[..|a + b| - 1] == evA + evB[..n];
    }
  }

  lemma EventsForOne(q: Question, ev: Event, domain: string, known: set<Id>, id: Id)
    ensures EventsFor([q], [ev], domain, known, id) == if Hit(q, domain, known) == Some(id) then [ev] else []
  {
    assert [q][..0] == [] && [ev][..0] == [];
  }

  /** What a message leaves in a slug's window: the newest `max` of what was there and of what is
      recorded, in the order of the questions; and no record call of it panics. */
  lemma {:induction false} WindowAfterMessage(e: Entry, events: seq<Event>, max: int)
    requires max >= 1 && |e.events| <= max
    ensures RecordEach(e, events, max).events == EntryRuns.LastN(e.events + events, max)
    ensures !RecordPanics(RecordEach(e, events, max), max)
  {
    if events == [] {
      assert e.events + events == e.events;
    } else {
      var init, ev := events[..|events| - 1], events[|events| - 1];
      WindowAfterMessage(e, init, max);
      EntryRuns.LastNAppend(e.events + init, ev, max);
      assert e.events + events == (e.events + init) + [ev];
    }
  }

  /** Letter case makes no difference: questions of one type whose names differ only in it have the
      same class, are recorded for the same slug and get the same TXT records. */
  lemma CaseMakesNoDifference(q: Question, r: Question, domain: string, known: set<Id>, table: Challenges.Table)
    requires q.qtype == r.qtype && SameButCase(q.name, r.name)
    ensures Classify(q, domain) == Classify(r, domain)
    ensures Hit(q, domain, known) == Hit(r, domain, known)
    ensures Texts([q], domain, table) == Texts([r], domain, table)
    ensures Unserved(q, domain, table) == Unserved(r, domain, table)
  {
    CaseIsLost(q.name, r.name);
    TextsOfOne(q, domain, table);
    TextsOfOne(r, domain, table);
  }

  /** A domain as it is configured: not empty, in lower case, without the final dot. */
  predicate PlainDomain(domain: string) {
    domain != "" && domain[|domain| - 1] != '.' && NoUpper(domain)
  }

  lemma NoUpperConcat(s: string, t: string)
    requires NoUpper(s) && NoUpper(t)
    ensures NoUpper(s + t)
  {
  }

  lemma SlugNameClass(slug: string, domain: string, qtype: QType)
    requires PlainDomain(domain) && NoUpper(slug) && '.' !in slug && (slug != "_acme-challenge" || !qtype.TXT?)
    ensures Classify(Question(slug + "." + domain + ".", qtype), domain + ".").Sub?
  {
    var name := slug + "." + domain + ".";
    NoUpperConcat(slug, "." + domain + ".");
    assert name == slug + ("." + domain + ".");
    LowerIs(name, name);
    assert name == slug + ("." + (domain + "."));
    SuffixOfConcat(slug, "." + (domain + "."));
    assert |name| > |domain + "."|;
    if HasPrefix(name, CHALLENGE_PREFIX) {
      ChallengeLabel(slug, "." + domain + ".");
    }
  }

  lemma ChallengeLabel(slug: string, rest: string)
    requires '.' !in slug && rest != "" && rest[0] == '.' && HasPrefix(slug + rest, CHALLENGE_PREFIX)
    ensures slug == "_acme-challenge"
  {
    var s, p := slug + rest, CHALLENGE_PREFIX;
    assert forall i :: 0 <= i < 16 ==> s[i] == s[..16][i] == p[i];
    assert s[|slug|] == '.' && forall i :: 0 <= i < |slug| ==> s[i] != '.';
    assert p[15] == '.' && forall i :: 0 <= i < 15 ==> p[i] != '.';
    assert |slug| == 15;
    assert slug == s[..16][..15];
  }

  /** A question for a registered slug, with its name in any case and of any type but the challenge
      for the domain itself, is recorded for that slug. */
  lemma SlugQuestionsAreHits(name: string, slug: string, domain: string, qtype: QType, known: set<Id>)
    requires PlainDomain(domain) && NoUpper(slug) && slug != "" && '.' !in slug && slug in known
    requires slug != "_acme-challenge" || !qtype.TXT?
    requires SameButCase(name, slug + "." + domain + ".")
    ensures Classify(Question(name, qtype), domain + ".").Sub?
    ensures Hit(Question(name, qtype), domain + ".", known) == Some(slug)
  {
    var wire := slug + "." + domain + ".";
    SlugNameClass(slug, domain, qtype);
    CaseIsLost(name, wire);
    NoUpperConcat(slug, "." + domain + ".");
    assert wire == slug + ("." + domain + ".");
    LowerIs(wire, wire);
    assert "" + slug == slug;
    DnsSlugOnTheWire("", slug, domain);
  }

  /** The domain itself is answered for and never recorded, whatever the type and the case; only a
      domain that is a challenge name itself is taken for one when asked for TXT. */
  lemma ApexQuestions(name: string, domain: string, qtype: QType, known: set<Id>)
    requires PlainDomain(domain) && SameButCase(name, domain + ".")
    ensures Classify(Question(name, qtype), domain + ".") ==
              if qtype.TXT? && HasPrefix(domain + ".", CHALLENGE_PREFIX) then Challenge else Apex
    ensures Hit(Question(name, qtype), domain + ".", known) == None
  {
    var wire := domain + ".";
    CaseIsLost(name, wire);
    NoUpperConcat(domain, ".");
    LowerIs(wire, wire);
    assert wire[0..] == wire;
  }

  lemma BelowEndsInDomain(name: string, domain: string)
    requires HasSuffix(name, "." + domain)
    ensures HasSuffix(name, domain)
  {
    assert name[|name| - |domain|..] == name[|name| - |"." + domain|..][1..];
  }

  /** A name that does not end in the domain is foreign: neither answered nor recorded. */
  lemma ForeignQuestions(q: Question, domain: string, known: set<Id>)
    requires !HasSuffix(Lower(q.name), domain)
    ensures Classify(q, domain).Foreign? && Hit(q, domain, known) == None
  {
    var name := Lower(q.name);
    assert name[0..] == name;
    if HasSuffix(name, "." + domain) {
      BelowEndsInDomain(name, domain);
    }
  }

  lemma OwnChallengeClass(name: string, domain: string)
    requires PlainDomain(domain) && SameButCase(name, CHALLENGE_PREFIX + domain + ".")
    ensures Lower(name) == CHALLENGE_PREFIX + domain + "." && Classify(Question(name, TXT), domain + ".").Challenge?
  {
    var fqdn := CHALLENGE_PREFIX + domain + ".";
    NoUpperConcat(CHALLENGE_PREFIX, domain + ".");
    assert fqdn == CHALLENGE_PREFIX + (domain + ".");
    CaseIsLost(name, fqdn);
    LowerIs(fqdn, fqdn);
    SuffixOfConcat(CHALLENGE_PREFIX, domain + ".");
    assert fqdn[..16] == CHALLENGE_PREFIX;
  }

  lemma TextsOfSet(m: Challenges.Table, fqdn: string, value: Challenges.Txt)
    ensures TextsOf(fqdn, Challenges.Set(m, fqdn, value)) == TextsOf(fqdn, m) + [(fqdn, value)]
  {
  }

  lemma AnsweredWithBoth(q: Question, fqdn: string, domain: string, m: Challenges.Table, a: Challenges.Txt, b: Challenges.Txt)
    requires Classify(q, domain).Challenge? && Lower(q.name) == fqdn
    ensures Texts([q], domain, Challenges.Set(Challenges.Set(m, fqdn, a), fqdn, b)) ==
              Texts([q], domain, m) + [(fqdn, a), (fqdn, b)]
  {
    var one := Challenges.Set(m, fqdn, a);
    TextsOfSet(m, fqdn, a);
    TextsOfSet(one, fqdn, b);
    TextsOfOne(q, domain, Challenges.Set(one, fqdn, b));
    TextsOfOne(q, domain, m);
  }

  /** The domain's own challenge name: asked for TXT, in any case, it is answered with every value
      presented for it, so with that of the domain and that of its wildcard (section 8.4 of
      RFC 8555), and never recorded. */
  lemma BothChallengesAreAnswered(name: string, domain: string, m: Challenges.Table, apex: Challenges.Txt, wildcard: Challenges.Txt,
                                  known: set<Id>)
    requires PlainDomain(domain) && SameButCase(name, CHALLENGE_PREFIX + domain + ".")
    ensures
      var fqdn := CHALLENGE_PREFIX + domain + ".";
      var table := Challenges.Set(Challenges.Set(m, fqdn, apex), fqdn, wildcard);
      && Classify(Question(name, TXT), domain + ".").Challenge? && Hit(Question(name, TXT), domain + ".", known) == None
      && Texts([Question(name, TXT)], domain + ".", table)
           == Texts([Question(name, TXT)], domain + ".", m) + [(fqdn, apex), (fqdn, wildcard)]
  {
    var fqdn := CHALLENGE_PREFIX + domain + ".";
    OwnChallengeClass(name, domain);
    AnsweredWithBoth(Question(name, TXT), fqdn, domain + ".", m, apex, wildcard);
  }
}
