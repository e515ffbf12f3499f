/** The values that the registry and the store exchange. */
module Records {

  datatype Option<+T> = None | Some(value: T)

  type Id = string

  /** One second in the nanoseconds of Go's `time.Duration`; all times are nanoseconds. */
  const SECOND: int := 1_000_000_000

  datatype Slug = Slug(id: Id, owner: string, createdAt: int, expiresAt: int)

  /** A captured event.  `no` is the position of the record call in the order in which the
      registry's lock admitted such calls.  The program does not store it and no operation
      below branches on it: it gives every event an identity, so that "the same event" and
      "recorded later" can be said. */
  datatype Event = Event(no: nat, kind: string, sourceIP: string, at: int, data: string)

  datatype EventRow = EventRow(slug: Id, event: Event)

  /** `s` without its element `i`, the rest in order. */
  function DropAt<T>(s: seq<T>, i: nat): seq<T> {
    if i < |s| then s[..i] + s[i + 1..] else s
  }

  /** `s` is a suffix of `t`. */
  ghost predicate Suffix<T>(s: seq<T>, t: seq<T>) {
    |s| <= |t| && s == t[|t| - |s|..]
  }

  ghost predicate Increasing(s: seq<Event>) {
    forall i, j :: 0 <= i < j < |s| ==> s[i].no < s[j].no
  }

  ghost predicate IncreasingFrom(s: seq<Event>, k: int) {
    forall i, j :: 0 <= i < j < |s| && k <= i ==> s[i].no < s[j].no
  }

  /** Everything in `hi` from index `k` on was recorded after everything in `lo`. */
  ghost predicate Above(lo: seq<Event>, hi: seq<Event>, k: int) {
    forall i, j :: 0 <= i < |lo| && 0 <= j < |hi| && k <= j ==> lo[i].no < hi[j].no
  }

  lemma Regroup<T>(x: seq<T>, y: seq<T>, z: seq<T>)
    ensures x + (y + z) == (x + y) + z
  {
  }

  lemma AboveConcat(a: seq<Event>, b: seq<Event>, hi: seq<Event>, k: int)
    requires Above(a, hi, k) && Above(b, hi, k)
    ensures Above(a + b, hi, k)
  {
  }

  lemma IncreasingConcat(a: seq<Event>, b: seq<Event>)
    requires Increasing(a) && Increasing(b) && Above(a, b, 0)
    ensures Increasing(a + b)
  {
  }

  lemma SuffixOfSuffix<T>(s: seq<T>, t: seq<T>, u: seq<T>)
    requires Suffix(s, t) && Suffix(t, u)
    ensures Suffix(s, u)
  {
    assert s == u[|u| - |t|..][|t| - |s|..];
  }

  lemma SuffixAppend<T>(s: seq<T>, t: seq<T>, u: seq<T>)
    requires Suffix(s, t)
    ensures Suffix(s + u, t + u)
  {
    assert s + u == (t + u)[|t + u| - |s + u|..];
  }

  lemma DropIsSuffix<T>(t: seq<T>, d: nat)
    requires d <= |t|
    ensures Suffix(t[d..], t)
  {
  }

  lemma Grow(lo: seq<Event>, s: seq<Event>, k: int, ev: Event)
    requires IncreasingFrom(s, k) && Above(lo, s, k)
    requires forall i :: 0 <= i < |s| ==> s[i].no < ev.no
    requires forall i :: 0 <= i < |lo| ==> lo[i].no < ev.no
    ensures IncreasingFrom(s + [ev], k) && Above(lo, s + [ev], k)
  {
  }

  lemma Shift(lo: seq<Event>, s: seq<Event>, k: int)
    requires IncreasingFrom(s, k) && Above(lo, s, k) && s != []
    ensures IncreasingFrom(s[1..], k - 1) && Above(lo, s[1..], k - 1)
  {
  }

  /** A window that loses its first event and gains a new one. */
  lemma ShiftGrow(lo: seq<Event>, s: seq<Event>, k: int, ev: Event)
    requires IncreasingFrom(s, k) && Above(lo, s, k) && s != []
    requires forall i :: 0 <= i < |s| ==> s[i].no < ev.no
    requires forall i :: 0 <= i < |lo| ==> lo[i].no < ev.no
    ensures IncreasingFrom(s[1..] + [ev], k - 1) && Above(lo, s[1..] + [ev], k - 1)
  {
    Shift(lo, s, k);
    Grow(lo, s[1..], k - 1, ev);
  }
}
