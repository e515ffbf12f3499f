/** A restart loads every stored row of a slug, however many, and recording into a window of
    more than `max + 1` events panics, until it is cleared.  Since evicted events stay in the
    store, an ordinary busy slug gets there. */
module RestartLimit {
  import opened Records
  import opened Entries
  import opened Tables
  import opened Protocol

  /** After a restart in any state, whatever the order in which rows are read, recording into a
      stored slug works if and only if at most `max + 1` of its rows are newer than the cutoff
      (and, with a cap below one, at least one is). */
  lemma RecordingAfterRestart(c: Config, st: State, step: Step, id: Id)
    requires step.Restart? && st.now <= step.t && LoadsFrom(st.db, step)
    requires id in st.db.slugs && st.db.slugs[id].expiresAt > step.t
    ensures id in Next(c, st, step).mem
    ensures
      var n := |EventsSince(RowsOf(st.db.rows, id), step.earliest - SECOND)|;
      RecordPanics(Next(c, st, step).mem[id], c.max) <==> n > c.max + 1 || (c.max <= 0 && n == 0)
  {
    RowsOfCount(step.loaded, Since(st.db.rows, step.earliest - SECOND), id);
    RowsOfSince(st.db.rows, step.earliest - SECOND, id);
  }

  /** One event is recorded and flushed. */
  const ROUND: seq<Step> := [Record(NAME, "dns", "", ""), Collect, PutSlug(NAME, true), PutEvents(true), Ack]

  function Rounds(n: nat): seq<Step> {
    if n == 0 then [Create(NAME, "")] else Rounds(n - 1) + ROUND
  }

  lemma {:induction false} KeepsOn(d: Discipline, c: Config, st: State, a: seq<Step>, b: seq<Step>)
    requires Keeps(d, c, st, a) && Keeps(d, c, Run(c, st, a), b)
    ensures Keeps(d, c, st, a + b)
    decreases |a|
  {
    if a == [] {
      assert a + b == b;
    } else {
      KeepsOn(d, c, Next(c, st, a[0]), a[1..], b);
      assert (a + b)[0] == a[0] && (a + b)[1..] == a[1..] + b;
    }
  }

  lemma KeepsOne(d: Discipline, c: Config, st: State, step: Step)
    requires Allowed(d, st, step)
    ensures Keeps(d, c, st, [step]) && Run(c, st, [step]) == Next(c, st, step)
  {
  }

  function Only(c: Config): Slug {
    Slug(NAME, "", 0, c.ttl)
  }

  /** One slug, nothing in flight, and `n` stored rows. */
  ghost predicate Calm(c: Config, st: State, n: nat) {
    && st.todo == map[] && st.cursor == Between && st.now == 0
    && st.mem.Keys == {NAME} && st.mem[NAME].slug == Only(c)
    && st.mem[NAME].flushedCount == |st.mem[NAME].events| <= c.max
    && (st.db.slugs == map[NAME := Only(c)] || (n == 0 && st.db.slugs == map[]))
    && |st.db.rows| == n
    && (forall r :: r in st.db.rows ==> r.slug == NAME && r.event.at == 0)
  }

  /** The state in the middle of a round, with its one snapshot in flight. */
  ghost predicate Mid(c: Config, st: State, n: nat, s: Snapshot) {
    && st.todo == map[NAME := s] && st.now == 0
    && st.mem.Keys == {NAME} && st.mem[NAME].slug == Only(c) == s.slug && st.mem[NAME].gen == s.gen
    && st.mem[NAME].evictedDuringFlush == 0 && |st.mem[NAME].events| == s.snapshotLen <= c.max
    && |s.events| == 1 && s.events[0].at == 0
    && |st.db.rows| == n
    && (forall r :: r in st.db.rows ==> r.slug == NAME && r.event.at == 0)
  }

  lemma CalmRecordCollect(c: Config, st: State, n: nat) returns (s: Snapshot)
    requires c.max >= 1 && Calm(c, st, n)
    ensures
      var s2 := Next(c, Next(c, st, ROUND[0]), ROUND[1]);
      && Mid(c, s2, n, s) && s2.cursor == Between && s2.db == st.db
  {
    var e := st.mem[NAME];
    var s1 := Next(c, st, ROUND[0]);
    var e1 := s1.mem[NAME];
    assert !RecordPanics(e, c.max) && e1.dirty && e1.flushedCount == |e1.events| - 1 && |e1.events| <= c.max;
    s := TakeSnapshot(e1, |s1.log|);
    assert s.events == [NewEvent(st, ROUND[0])];
    assert Next(c, s1, ROUND[1]).todo == map[NAME := s];
  }

  lemma MidFinish(c: Config, st: State, n: nat, s: Snapshot)
    requires Mid(c, st, n, s) && st.cursor == Between && (st.db.slugs == map[] || st.db.slugs == map[NAME := Only(c)])
    ensures Calm(c, Next(c, Next(c, Next(c, st, ROUND[2]), ROUND[3]), ROUND[4]), n + 1)
  {
    var s3 := Next(c, st, ROUND[2]);
    assert s3.cursor == SlugPut(NAME) && s3.db.slugs == map[NAME := Only(c)] && Mid(c, s3, n, s);
    var s4 := Next(c, s3, ROUND[3]);
    assert s4.cursor == Inserted(NAME) && Mid(c, s4, n + 1, s);
    var s5 := Next(c, s4, ROUND[4]);
    assert s5.todo == map[] && s5.mem[NAME].flushedCount == s.snapshotLen;
  }

  lemma RunCons(d: Discipline, c: Config, st: State, step: Step, rest: seq<Step>)
    requires Allowed(d, st, step) && Keeps(d, c, Next(c, st, step), rest)
    ensures Keeps(d, c, st, [step] + rest) && Run(c, st, [step] + rest) == Run(c, Next(c, st, step), rest)
  {
    assert ([step] + rest)[1..] == rest;
  }

  lemma RunRound(c: Config, st: State)
    ensures Keeps(FreshNames, c, st, ROUND)
    ensures Run(c, st, ROUND) == Next(c, Next(c, Next(c, Next(c, Next(c, st, ROUND[0]), ROUND[1]), ROUND[2]), ROUND[3]), ROUND[4])
  {
    var s1 := Next(c, st, ROUND[0]);
    var s2 := Next(c, s1, ROUND[1]);
    var s3 := Next(c, s2, ROUND[2]);
    var s4 := Next(c, s3, ROUND[3]);
    KeepsOne(FreshNames, c, s4, ROUND[4]);
    RunCons(FreshNames, c, s3, ROUND[3], [ROUND[4]]);
    RunCons(FreshNames, c, s2, ROUND[2], [ROUND[3]] + [ROUND[4]]);
    RunCons(FreshNames, c, s1, ROUND[1], [ROUND[2]] + ([ROUND[3]] + [ROUND[4]]));
    RunCons(FreshNames, c, st, ROUND[0], [ROUND[1]] + ([ROUND[2]] + ([ROUND[3]] + [ROUND[4]])));
    assert ROUND == [ROUND[0]] + ([ROUND[1]] + ([ROUND[2]] + ([ROUND[3]] + [ROUND[4]])));
  }

  lemma CalmRound(c: Config, st: State, n: nat)
    requires c.max >= 1 && Calm(c, st, n)
    ensures Keeps(FreshNames, c, st, ROUND) && Calm(c, Run(c, st, ROUND), n + 1)
  {
    RunRound(c, st);
    var s := CalmRecordCollect(c, st, n);
    MidFinish(c, Next(c, Next(c, st, ROUND[0]), ROUND[1]), n, s);
  }

  lemma {:induction false} CalmRounds(c: Config, n: nat)
    requires c.max >= 1
    ensures Keeps(FreshNames, c, Init, Rounds(n)) && Calm(c, Run(c, Init, Rounds(n)), n)
  {
    if n == 0 {
      KeepsOne(FreshNames, c, Init, Create(NAME, ""));
    } else {
      CalmRounds(c, n - 1);
      CalmRound(c, Run(c, Init, Rounds(n - 1)), n - 1);
      KeepsOn(FreshNames, c, Init, Rounds(n - 1), ROUND);
      RunOn(c, Init, Rounds(n - 1), ROUND);
    }
  }

  lemma {:induction false} AllRowsOf(rows: seq<EventRow>)
    requires forall r :: r in rows ==> r.slug == NAME && r.event.at == 0
    ensures |RowsOf(rows, NAME)| == |rows| && Since(rows, -SECOND) == rows
  {
    if rows != [] {
      AllRowsOf(rows[1..]);
    }
  }

  /** For every cap there is a run with no error, no overlap and no clear after which a restart
      leaves a slug that can record nothing until it is cleared: `max + 2` events, each recorded
      and flushed. */
  lemma RestartCanStopRecording(c: Config)
    requires c.max >= 1 && c.ttl > 0
    ensures
      var st := Run(c, Init, Rounds(c.max + 2));
      var step := Restart(0, 0, st.db.rows);
      && Keeps(FreshNames, c, Init, Rounds(c.max + 2) + [step])
      && NAME in Run(c, Init, Rounds(c.max + 2) + [step]).mem
      && RecordPanics(Run(c, Init, Rounds(c.max + 2) + [step]).mem[NAME], c.max)
  {
    CalmRounds(c, c.max + 2);
    var st := Run(c, Init, Rounds(c.max + 2));
    var step := Restart(0, 0, st.db.rows);
    AllRowsOf(st.db.rows);
    assert LoadsFrom(st.db, step);
    KeepsOne(FreshNames, c, st, step);
    KeepsOn(FreshNames, c, Init, Rounds(c.max + 2), [step]);
    RunOn(c, Init, Rounds(c.max + 2), [step]);
    RowsOfSince(st.db.rows, -SECOND, NAME);
    RecordingAfterRestart(c, st, step, NAME);
  }
}
