/** The two ways in which a slug is read off a name: from a DNS question and from an HTTP host
    (internal/dns/server.go, internal/httpserver/server.go). */
module Hosts {
  import opened SlugIds

  // ---- strings ----

  predicate HasSuffix(s: string, t: string) {
    |t| <= |s| && s[|s| - |t|..] == t
  }

  function TrimSuffix(s: string, t: string): string {
    if HasSuffix(s, t) then s[..|s| - |t|] else s
  }

  function LastIndex(s: string, c: char): int {
    if s == [] then -1
    else if s[|s| - 1] == c then |s| - 1
    else LastIndex(s[..|s| - 1], c)
  }

  /** What comes before the first `c`, or all of `s`. */
  function CutAt(s: string, c: char): string {
    if s == [] || s[0] == c then [] else [s[0]] + CutAt(s[1..], c)
  }

  function Lower(s: string): string {
    seq(|s|, i requires 0 <= i < |s| => if 'A' <= s[i] <= 'Z' then 'a' + (s[i] - 'A') else s[i])
  }

  /** `dns.Fqdn`: a final dot is added unless there is one. */
  function Fqdn(s: string): string {
    if s != [] && s[|s| - 1] == '.' then s else s + "."
  }

  // ---- the extractors ----

  /** What follows the last dot, or all of `sub`. */
  function LastLabel(sub: string): string {
    var i := LastIndex(sub, '.');
    if i >= 0 && i < |sub| then sub[i + 1..] else sub
  }

  function DnsSlug(qname: string, domain: string): string {
    var suffix := "." + Fqdn(domain);
    if !HasSuffix(qname, suffix) then "" else
    LastLabel(TrimSuffix(qname, suffix))
  }

  function HttpSlug(host: string, domain: string): string {
    var h := CutAt(host, ':');
    if !HasSuffix(h, "." + domain) then "" else
    var slug := TrimSuffix(h, "." + domain);
    if '.' in slug then "" else slug
  }

  /** The limiter's key. */
  function LimitKey(ip: string, slug: string): string {
    ip + ":" + slug
  }

  lemma SuffixOfConcat(a: string, b: string)
    ensures HasSuffix(a + b, b) && TrimSuffix(a + b, b) == a
  {
  }

  lemma {:induction false} LastIndexFinds(a: string, s: string, c: char)
    requires c !in s
    ensures LastIndex(a + [c] + s, c) == |a|
    ensures LastIndex(s, c) == -1
  {
    var t := a + [c] + s;
    if s == [] {
      assert t[|t| - 1] == c;
    } else {
      var init := s[..|s| - 1];
      assert t[..|t| - 1] == a + [c] + init && t[|t| - 1] == s[|s| - 1];
      LastIndexFinds(a, init, c);
    }
  }

  lemma {:induction false} LastIndexIs(s: string, c: char)
    ensures -1 <= LastIndex(s, c) < |s|
    ensures LastIndex(s, c) >= 0 ==> s[LastIndex(s, c)] == c
    ensures forall j :: LastIndex(s, c) < j < |s| ==> s[j] != c
  {
    if s != [] && s[|s| - 1] != c {
      LastIndexIs(s[..|s| - 1], c);
    }
  }

  lemma {:induction false} CutAtIs(s: string, t: string, c: char)
    requires c !in s
    ensures CutAt(s, c) == s && CutAt(s + [c] + t, c) == s
    ensures c !in CutAt(s, c)
  {
    if s != [] {
      CutAtIs(s[1..], t, c);
      assert (s + [c] + t)[1..] == s[1..] + [c] + t;
    }
  }

  lemma {:induction false} CutAtDrops(s: string, c: char)
    ensures c !in CutAt(s, c)
  {
    if s != [] && s[0] != c {
      CutAtDrops(s[1..], c);
    }
  }

  /** A name below the domain with any number of labels before its slug: nothing, or labels that
      end in a dot. */
  predicate IsPrefix(p: string) {
    p == "" || p[|p| - 1] == '.'
  }

  lemma PrefixedLabel(p: string, slug: string)
    requires IsPrefix(p) && '.' !in slug
    ensures LastLabel(p + slug) == slug
  {
    if p == "" {
      LastIndexFinds("", slug, '.');
      assert p + slug == slug;
    } else {
      var a := p[..|p| - 1];
      assert p + slug == a + ['.'] + slug;
      LastIndexFinds(a, slug, '.');
    }
  }

  lemma Regroup(p: string, slug: string, d: string)
    ensures (p + slug) + ("." + d) == p + slug + "." + d
  {
  }

  lemma DnsSlugOf(p: string, slug: string, domain: string)
    requires IsPrefix(p) && '.' !in slug
    ensures DnsSlug(p + slug + "." + Fqdn(domain), domain) == slug
  {
    Regroup(p, slug, Fqdn(domain));
    SuffixOfConcat(p + slug, "." + Fqdn(domain));
    PrefixedLabel(p, slug);
  }

  lemma LastLabelCuts(sub: string) returns (p: string)
    ensures IsPrefix(p) && '.' !in LastLabel(sub) && sub == p + LastLabel(sub)
  {
    LastIndexIs(sub, '.');
    p := sub[..LastIndex(sub, '.') + 1];
  }

  /** The name taken apart where the extractor cuts it. */
  lemma DnsSlugCuts(qname: string, domain: string) returns (p: string)
    requires DnsSlug(qname, domain) != ""
    ensures IsPrefix(p) && '.' !in DnsSlug(qname, domain)
    ensures qname == p + DnsSlug(qname, domain) + "." + Fqdn(domain)
  {
    var sub := TrimSuffix(qname, "." + Fqdn(domain));
    p := LastLabelCuts(sub);
    Regroup(p, LastLabel(sub), Fqdn(domain));
    assert qname == sub + ("." + Fqdn(domain));
  }

  /** What the DNS extractor finds, exactly: it reads `slug` off a name if and only if the name is
      that label, without a dot, right below the domain, after any prefix. */
  lemma DnsSlugIs(qname: string, domain: string, slug: string)
    requires slug != ""
    ensures DnsSlug(qname, domain) == slug <==>
              '.' !in slug && exists p :: IsPrefix(p) && qname == p + slug + "." + Fqdn(domain)
  {
    if DnsSlug(qname, domain) == slug {
      var p := DnsSlugCuts(qname, domain);
      assert IsPrefix(p) && qname == p + slug + "." + Fqdn(domain);
    }
    if p :| '.' !in slug && IsPrefix(p) && qname == p + slug + "." + Fqdn(domain) {
      DnsSlugOf(p, slug, domain);
    }
  }

  /** What the HTTP extractor finds, exactly: one label right below the domain, and no other. */
  lemma HttpSlugIs(host: string, domain: string, slug: string)
    requires slug != ""
    ensures HttpSlug(host, domain) == slug <==> '.' !in slug && CutAt(host, ':') == slug + "." + domain
  {
    var h := CutAt(host, ':');
    if '.' !in slug && h == slug + "." + domain {
      assert h == slug + ("." + domain);
      SuffixOfConcat(slug, "." + domain);
    }
  }

  lemma FqdnOfHost(a: string, domain: string)
    requires domain != ""
    ensures Fqdn(a + "." + domain) == a + "." + Fqdn(domain)
  {
    var h := a + "." + domain;
    assert h[|h| - 1] == domain[|domain| - 1];
    assert h + "." == a + "." + (domain + ".");
  }

  /** The extractors agree: whatever the HTTP side reads off a lower-case host, with or without
      a port, the DNS side reads off the question for that host. */
  lemma ExtractorsAgree(host: string, domain: string)
    requires HttpSlug(host, domain) != "" && domain != ""
    requires Lower(CutAt(host, ':')) == CutAt(host, ':')
    ensures DnsSlug(Lower(Fqdn(CutAt(host, ':'))), domain) == HttpSlug(host, domain)
  {
    var slug := HttpSlug(host, domain);
    HttpSlugIs(host, domain, slug);
    LowerFqdn(CutAt(host, ':'));
    FqdnOfHost(slug, domain);
    DnsSlugOf("", slug, domain);
    assert "" + slug == slug;
  }

  lemma LowerFqdn(s: string)
    requires Lower(s) == s
    ensures Lower(Fqdn(s)) == Fqdn(s)
  {
    assert forall i :: 0 <= i < |s| ==> Lower(s)[i] == s[i];
  }

  lemma HttpOfPrefixed(a: string, slug: string, domain: string)
    requires ':' !in a + slug + "." + domain
    ensures HttpSlug(a + slug + "." + domain, domain) == if '.' in a + slug then "" else a + slug
  {
    var h := a + slug + "." + domain;
    CutAtIs(h, "", ':');
    assert h == (a + slug) + ("." + domain);
    SuffixOfConcat(a + slug, "." + domain);
  }

  /** The other way, the HTTP side accepts less: it finds the slug of a DNS name exactly when
      nothing stands before the slug. */
  lemma HttpFindsUnprefixed(p: string, slug: string, domain: string)
    requires IsPrefix(p) && slug != "" && '.' !in slug && ':' !in p + slug + "." + domain && domain != ""
    ensures DnsSlug(Fqdn(p + slug + "." + domain), domain) == slug
    ensures HttpSlug(p + slug + "." + domain, domain) == (if p == "" then slug else "")
  {
    FqdnOfHost(p + slug, domain);
    DnsSlugOf(p, slug, domain);
    HttpOfPrefixed(p, slug, domain);
    if p != "" {
      assert (p + slug)[|p| - 1] == '.';
    } else {
      assert p + slug == slug;
    }
  }

  /** Every generated ID survives both extractors, with any labels before it on the DNS side and
      any port after it on the HTTP side. */
  lemma GeneratedIdsSurvive(bs: seq<Byte>, p: string, domain: string, port: string)
    requires |bs| == 5 && IsPrefix(p) && ':' !in domain && domain != ""
    ensures
      var id := SlugId(bs);
      && DnsSlug(Fqdn(p + id + "." + domain), domain) == id
      && HttpSlug(id + "." + domain, domain) == id
      && HttpSlug(id + "." + domain + ":" + port, domain) == id
  {
    var id := SlugId(bs);
    SlugIdDecodes(bs);
    assert forall i :: 0 <= i < |id| ==> IsDigit(id[i]) && id[i] != '.' && id[i] != ':';
    var h := id + "." + domain;
    FqdnOfHost(p + id, domain);
    DnsSlugOf(p, id, domain);
    assert ':' !in h;
    CutAtIs(h, port, ':');
    assert h + ":" + port == h + [':'] + port;
    HttpSlugIs(h, domain, id);
    HttpSlugIs(h + ":" + port, domain, id);
  }

  /** An extracted slug has no colon, so addresses, which may have many, cannot run into it:
      two pairs share a limiter key only when they are the same pair. */
  lemma LimitKeysAreInjective(ip1: string, host1: string, ip2: string, host2: string, domain: string)
    requires LimitKey(ip1, HttpSlug(host1, domain)) == LimitKey(ip2, HttpSlug(host2, domain))
    ensures ip1 == ip2 && HttpSlug(host1, domain) == HttpSlug(host2, domain)
  {
    var s1, s2 := HttpSlug(host1, domain), HttpSlug(host2, domain);
    CutAtDrops(host1, ':');
    CutAtDrops(host2, ':');
    assert ':' !in s1 && ':' !in s2;
    LastIndexFinds(ip1, s1, ':');
    LastIndexFinds(ip2, s2, ':');
    var k1, k2 := ip1 + [':'] + s1, ip2 + [':'] + s2;
    assert k1 == LimitKey(ip1, s1) && k2 == LimitKey(ip2, s2);
    assert k1[..|ip1|] == ip1 && k2[..|ip2|] == ip2;
    assert k1[|ip1| + 1..] == s1 && k2[|ip2| + 1..] == s2;
  }

  // ---- Letter case and the final dot, by their characters ----

  /** Two names that differ only in the case of letters: characters 65 to 90 against those 32
      further on. */
  predicate SameButCase(s: string, t: string) {
    && |s| == |t|
    && forall i :: 0 <= i < |s| ==>
         || s[i] == t[i]
         || (65 <= s[i] as int <= 90 && t[i] as int == s[i] as int + 32)
         || (65 <= t[i] as int <= 90 && s[i] as int == t[i] as int + 32)
  }

  predicate NoUpper(s: string) {
    forall i :: 0 <= i < |s| ==> !(65 <= s[i] as int <= 90)
  }

  /** What lower-casing makes: the one name without upper-case letters that differs from the given
      one only in case. */
  lemma LowerIs(s: string, t: string)
    ensures t == Lower(s) <==> NoUpper(t) && SameButCase(s, t)
  {
    if NoUpper(t) && SameButCase(s, t) {
      forall i | 0 <= i < |s|
        ensures Lower(s)[i] == t[i]
      {
      }
    }
  }

  lemma CaseIsLost(s: string, t: string)
    requires SameButCase(s, t)
    ensures Lower(s) == Lower(t)
  {
    LowerIs(t, Lower(t));
    LowerIs(s, Lower(t));
  }

  /** The DNS extractor on wire names: `domain` has no final dot, the name does. */
  lemma DnsSlugOnTheWire(p: string, slug: string, domain: string)
    requires IsPrefix(p) && '.' !in slug && domain != "" && domain[|domain| - 1] != '.'
    ensures DnsSlug(p + slug + "." + domain + ".", domain) == slug
    ensures DnsSlug(p + slug + "." + domain + ".", domain + ".") == slug
  {
    FqdnIs(domain);
    Regroup(p, slug, domain + ".");
    assert p + slug + "." + domain + "." == p + slug + "." + Fqdn(domain);
    DnsSlugOf(p, slug, domain);
    DnsSlugOf(p, slug, domain + ".");
  }

  lemma FqdnIs(domain: string)
    requires domain != "" && domain[|domain| - 1] != '.'
    ensures Fqdn(domain) == domain + "." && Fqdn(domain + ".") == domain + "."
  {
  }
}
