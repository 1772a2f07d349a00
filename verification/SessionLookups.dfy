/** What lookups show while other operations run: only what puts and appends brought in, and after a take only
    what a lookup had read before it. */
module SessionLookups {
  import opened ErasureCode
  import opened Sessions
  import opened SessionRuns

  // ----- where a shown session comes from -----

  /** A session as position r of the log accounts for it: as the transactions before r left it, as a put
      wrote it to the cache, or as an append did. */
  ghost predicate Source<I, C>(log: seq<Event<I, C>>, r: nat, id: Id, s: Session<I, C>)
    requires r <= |log|
  {
    Replay(log[..r], id) == Some(s) || (r < |log| && (log[r] == Begun(id, s) || TriedAt(log, r, id, s)))
  }

  ghost predicate TriedAt<I, C>(log: seq<Event<I, C>>, r: nat, id: Id, s: Session<I, C>)
    requires r < |log|
  {
    var before := Replay(log[..r], id);
    log[r].Tried? && log[r].id == id && before.Some? && s == WithChunk(before.value, log[r].chunk)
  }

  ghost predicate Known<I, C>(log: seq<Event<I, C>>, upTo: nat, id: Id, s: Session<I, C>) {
    exists r :: 0 <= r <= upTo && r <= |log| && Source(log, r, id, s)
  }

  ghost predicate Origins<I, C>(st: State<I, C>) {
    (forall id :: id in st.cache ==> Known(st.log, |st.log|, id, st.cache[id])) &&
    (forall t :: 0 <= t < |st.tasks| && st.tasks[t].Fill? ==>
      Known(st.log, |st.log|, st.tasks[t].id, st.tasks[t].session)) &&
    (forall p :: 0 <= p < |st.log| && st.log[p].Shown? ==> Known(st.log, p, st.log[p].id, st.log[p].session))
  }

  lemma KnownMore<I, C>(log: seq<Event<I, C>>, more: seq<Event<I, C>>, upTo: nat, to: nat, id: Id, s: Session<I, C>)
    requires Known(log, upTo, id, s) && upTo <= to
    ensures Known(log + more, to, id, s)
  {
    hide Replay;
    var r :| 0 <= r <= upTo && r <= |log| && Source(log, r, id, s);
    assert (log + more)[..r] == log[..r];
    assert Source(log + more, r, id, s);
  }

  lemma KnownNow<I, C>(log: seq<Event<I, C>>, e: Event<I, C>, id: Id, s: Session<I, C>)
    requires e == Begun(id, s) || (e.Tried? && e.id == id && Replay(log, id).Some? &&
                                   s == WithChunk(Replay(log, id).value, e.chunk))
    ensures Known(log + [e], |log| + 1, id, s)
  {
    hide Replay;
    assert (log + [e])[..|log|] == log;
    assert Source(log + [e], |log|, id, s);
  }

  lemma KnownStored<I, C>(log: seq<Event<I, C>>, id: Id, s: Session<I, C>)
    requires Replay(log, id) == Some(s)
    ensures Known(log, |log|, id, s)
  {
    hide Replay;
    assert log[..|log|] == log;
    assert Source(log, |log|, id, s);
  }

  /** What the cache may hold after a step. */
  lemma ActCache<I, C>(st: State<I, C>, task: Task<I, C>, commits: bool, id: Id)
    requires id in Act(st, task, commits).cache
    ensures var e, s := Act(st, task, commits), Act(st, task, commits).cache[id];
      (id in st.cache && s == st.cache[id]) || (task.Fill? && task.id == id && s == task.session) ||
      e.events == [Begun(id, s)] ||
      (task.AppendTx? && id in st.db && e.events == [Tried(id, task.chunk)] && s == WithChunk(st.db[id], task.chunk))
  {
    hide Expired, WithChunk, WithExpiry;
  }

  /** A lookup is about to fill the cache only with what it read from the database, and shows only what it found
      in the cache or read. */
  lemma ActShows<I, C>(st: State<I, C>, task: Task<I, C>, commits: bool)
    ensures var e := Act(st, task, commits);
      e.task.Fill? ==> e.events == [] && e.task.id in st.db && e.task.session == st.db[e.task.id]
    ensures var e := Act(st, task, commits);
      e.events != [] && e.events[0].Shown? ==>
        (e.events[0].id in st.cache && e.events[0].session == st.cache[e.events[0].id]) ||
        (task.Fill? && e.events[0] == Shown(task.id, task.session))
  {
    hide Expired, WithChunk, WithExpiry;
  }

  lemma OriginsKept<I, C>(st: State<I, C>, t: nat, commits: bool)
    requires Moves(st, t) && Origins(st) && forall id :: Replay(st.log, id) == InDb(st, id)
    ensures Origins(Step(st, Move(t, commits)))
  {
    hide Replay, Known, Act;
    var task := st.tasks[t];
    var e, after := Act(st, task, commits), Step(st, Move(t, commits));
    var n, m := |st.log|, |after.log|;
    EventsOfAct(st, task, commits);
    ActShows(st, task, commits);
    forall id | id in after.cache ensures Known(after.log, m, id, after.cache[id]) {
      ActCache(st, task, commits, id);
      var appends := task.AppendTx? && id in st.db && e.events == [Tried(id, task.chunk)] &&
                     after.cache[id] == WithChunk(st.db[id], task.chunk);
      if e.events == [Begun(id, after.cache[id])] || appends {
        KnownNow(st.log, e.events[0], id, after.cache[id]);
      } else {
        KnownMore(st.log, e.events, n, m, id, after.cache[id]);
      }
    }
    forall u | 0 <= u < |after.tasks| && after.tasks[u].Fill?
      ensures Known(after.log, m, after.tasks[u].id, after.tasks[u].session)
    {
      if u == t {
        KnownStored(st.log, e.task.id, e.task.session);
      }
      KnownMore(st.log, e.events, n, m, after.tasks[u].id, after.tasks[u].session);
    }
    forall p | 0 <= p < m && after.log[p].Shown? ensures Known(after.log, p, after.log[p].id, after.log[p].session) {
      KnownMore(st.log, e.events, if p < n then p else n, p, after.log[p].id, after.log[p].session);
    }
  }

  lemma {:induction false} RunOrigins<I, C>(st: State<I, C>, choices: seq<Choice>)
    requires Initial(st)
    ensures Origins(Run(st, choices))
  {
    hide Act, Replay, WriterFits, Sound, Accounts, Known;
    if choices != [] {
      var n := |choices| - 1;
      var before, c := Run(st, choices[..n]), choices[n];
      RunOrigins(st, choices[..n]);
      RunKeeps(st, choices[..n]);
      if c.Move? && Moves(before, c.t) {
        OriginsKept(before, c.t, c.commits);
      } else {
        assert Step(before, c) == before.(now := Step(before, c).now);
      }
    }
  }

  /** However the operations interleave, a lookup shows a session as a put wrote it to the cache, or a session that
      was put, with the chunks of exactly the appends committed up to some point since then, and possibly of one
      more append whose transaction was open at that point. */
  lemma ShownWasPut<I, C>(st: State<I, C>, choices: seq<Choice>, p: nat) returns (q: nat, r: nat)
    requires Initial(st) && p < |Run(st, choices).log| && Run(st, choices).log[p].Shown?
    ensures var log, e := Run(st, choices).log, Run(st, choices).log[p];
      q < p && log[q].id == e.id && (log[q].Put? || log[q] == Begun(e.id, e.session))
    ensures var log, e := Run(st, choices).log, Run(st, choices).log[p];
      log[q].Put? ==>
        q < r <= p && OnlyAppends(log[q + 1..r], e.id) &&
        var s := log[q].session.(chunks := log[q].session.chunks + Chunks(log[q + 1..r], e.id));
        e.session == s || (log[r].Tried? && log[r].id == e.id && e.session == WithChunk(s, log[r].chunk))
  {
    hide Run, Initial, Chunks, OnlyAppends, Replay;
    RunOrigins(st, choices);
    var log := Run(st, choices).log;
    var e := log[p];
    assert Known(log, p, e.id, e.session);
    r :| 0 <= r <= p && r <= |log| && Source(log, r, e.id, e.session);
    if Replay(log[..r], e.id) != Some(e.session) && log[r] == Begun(e.id, e.session) {
      q := r;
    } else {
      q := ReplayMeans(log[..r], e.id);
      assert log[..r][q + 1..] == log[q + 1..r];
    }
  }

  // ----- what lookups show after a take -----

  /** A lookup has read a session and is about to return it after filling the cache. */
  ghost predicate AboutToShow<I, C>(tasks: seq<Task<I, C>>, id: Id) {
    exists t :: 0 <= t < |tasks| && tasks[t].Fill? && tasks[t].id == id && tasks[t].goal.Report?
  }

  /** A session has been read that is still valid, and is about to fill the cache. */
  ghost predicate AboutToFill<I, C>(tasks: seq<Task<I, C>>, now: nat, id: Id) {
    exists t :: 0 <= t < |tasks| && tasks[t].Fill? && tasks[t].id == id && !Expired(tasks[t].session, now)
  }

  ghost predicate LookupWaits<I, C>(tasks: seq<Task<I, C>>, id: Id) {
    exists t :: 0 <= t < |tasks| && tasks[t] == LookCache(id, Report)
  }

  ghost predicate Stale<I, C>(tasks: seq<Task<I, C>>, now: nat, id: Id) {
    AboutToShow(tasks, id) || (AboutToFill(tasks, now, id) && LookupWaits(tasks, id))
  }

  /** An id that is gone from the database, and that no lookup can show unless it is put again. */
  ghost predicate Hidden<I, C>(st: State<I, C>, id: Id) {
    id !in st.db && !Stale(st.tasks, st.now, id) &&
    (id in st.cache && !Expired(st.cache[id], st.now) ==> !LookupWaits(st.tasks, id))
  }

  ghost predicate NotPutSince<I, C>(log: seq<Event<I, C>>, from: nat, id: Id) {
    forall i :: from <= i < |log| && log[i].id == id ==> !log[i].Begun? && !log[i].Put?
  }

  ghost predicate ShownSince<I, C>(log: seq<Event<I, C>>, from: nat, id: Id) {
    exists i :: from <= i < |log| && log[i].Shown? && log[i].id == id
  }

  /** What a step of a hidden id does, unless it is put. */
  lemma ActHidden<I, C>(st: State<I, C>, task: Task<I, C>, commits: bool, id: Id)
    requires id !in st.db
    requires var ev := Act(st, task, commits).events; ev != [] && ev[0].id == id ==> !ev[0].Begun? && !ev[0].Put?
    ensures var e := Act(st, task, commits);
      id !in e.db && !(e.task.Fill? && e.task.id == id) && e.task != LookCache(id, Report)
    ensures var e := Act(st, task, commits);
      id in e.cache ==>
        (id in st.cache && e.cache[id] == st.cache[id]) ||
        (task.Fill? && task.id == id && e.cache[id] == task.session)
    ensures var e := Act(st, task, commits);
      e.events != [] && e.events[0].Shown? && e.events[0].id == id ==>
        (task == LookCache(id, Report) && id in st.cache && !Expired(st.cache[id], st.now)) ||
        (task.Fill? && task.id == id && task.goal.Report?)
  {
    hide Expired, WithChunk, WithExpiry;
  }

  lemma HiddenKept<I, C>(st: State<I, C>, c: Choice, id: Id)
    requires Hidden(st, id) && NotPutSince(Step(st, c).log, |st.log|, id)
    ensures st.log <= Step(st, c).log && Hidden(Step(st, c), id) && !ShownSince(Step(st, c).log, |st.log|, id)
  {
    hide Act;
    var after := Step(st, c);
    if c.Move? && Moves(st, c.t) {
      var task := st.tasks[c.t];
      var e := Act(st, task, c.commits);
      EventsOfAct(st, task, c.commits);
      assert e.events != [] ==> after.log[|st.log|] == e.events[0];
      ActHidden(st, task, c.commits, id);
    }
  }

  /** A hidden id stays hidden until it is put. */
  lemma {:induction false} RunHidden<I, C>(at: State<I, C>, choices: seq<Choice>, id: Id)
    requires Hidden(at, id) && NotPutSince(Run(at, choices).log, |at.log|, id)
    ensures at.log <= Run(at, choices).log
    ensures Hidden(Run(at, choices), id) && !ShownSince(Run(at, choices).log, |at.log|, id)
  {
    hide Hidden, Step;
    if choices != [] {
      var n := |choices| - 1;
      var before, after := Run(at, choices[..n]), Run(at, choices);
      LogGrows(before, choices[n]);
      LogKept(at, choices[..n]);
      RunHidden(at, choices[..n], id);
      HiddenKept(before, choices[n], id);
    }
  }

  lemma LogGrows<I, C>(st: State<I, C>, c: Choice)
    ensures st.log <= Step(st, c).log
  {
    hide Act;
  }

  lemma {:induction false} LogKept<I, C>(st: State<I, C>, choices: seq<Choice>)
    ensures st.log <= Run(st, choices).log
  {
    hide Step;
    if choices != [] {
      LogKept(st, choices[..|choices| - 1]);
      LogGrows(Run(st, choices[..|choices| - 1]), choices[|choices| - 1]);
    }
  }

  /** Once a take has removed an id, it is gone from the database for as long as it is not put again. */
  lemma {:induction false} NothingLeft<I, C>(log: seq<Event<I, C>>, r: nat, id: Id)
    requires r < |log| && log[r].Removed? && log[r].id == id && NotPutSince(log, r, id)
    ensures Replay(log, id) == None
    decreases |log|
  {
    if r < |log| - 1 {
      NothingLeft(log[..|log| - 1], r, id);
    }
  }

  lemma GoneAfterRemoval<I, C>(st: State<I, C>, choices: seq<Choice>, r: nat, id: Id)
    requires Initial(st)
    requires var log := Run(st, choices).log;
      r < |log| && log[r].Removed? && log[r].id == id && NotPutSince(log, r, id)
    ensures id !in Run(st, choices).db
  {
    hide Run, Initial, Replay, NotPutSince;
    RunKeeps(st, choices);
    NothingLeft(Run(st, choices).log, r, id);
    assert InDb(Run(st, choices), id) == None;
  }

  /** A run after which a lookup has shown an id that was not put in it. */
  ghost predicate ShowsUnput<I, C>(at: State<I, C>, choices: seq<Choice>, id: Id) {
    NotPutSince(Run(at, choices).log, |at.log|, id) && ShownSince(Run(at, choices).log, |at.log|, id)
  }

  lemma OneStep<I, C>(at: State<I, C>, c: Choice)
    ensures Run(at, [c]) == Step(at, c)
  {
    assert [c][..0] == [];
  }

  lemma TwoSteps<I, C>(at: State<I, C>, c: Choice, d: Choice)
    ensures Run(at, [c, d]) == Step(Step(at, c), d)
  {
    OneStep(at, c);
    assert [c, d][..1] == [c];
  }

  /** A read that is under way is shown after all. */
  lemma StaleShows<I, C>(at: State<I, C>, id: Id) returns (choices: seq<Choice>)
    requires Stale(at.tasks, at.now, id)
    ensures ShowsUnput(at, choices, id)
  {
    hide Run;
    if AboutToShow(at.tasks, id) {
      var t :| 0 <= t < |at.tasks| && at.tasks[t].Fill? && at.tasks[t].id == id && at.tasks[t].goal.Report?;
      choices := [Move(t, true)];
      OneStep(at, choices[0]);
      var log := Run(at, choices).log;
      assert log == at.log + [Shown(id, at.tasks[t].session)];
      assert log[|at.log|].Shown? && log[|at.log|].id == id;
    } else {
      var t :| 0 <= t < |at.tasks| && at.tasks[t].Fill? && at.tasks[t].id == id &&
               !Expired(at.tasks[t].session, at.now);
      var u :| 0 <= u < |at.tasks| && at.tasks[u] == LookCache(id, Report);
      choices := [Move(t, true), Move(u, true)];
      TwoSteps(at, choices[0], choices[1]);
      assert Step(at, choices[0]).log == at.log + [];
      var log := Run(at, choices).log;
      assert log == at.log + [Shown(id, at.tasks[t].session)];
      assert log[|at.log|].Shown? && log[|at.log|].id == id;
    }
  }

  /** When a take has cleared the cache, and its id is gone from the database, a lookup can show the id again without
      its being put again if and only if, at that step, a lookup had read the session and was about to return it,
      or was about to fill the cache with it, still valid, while another lookup was waiting. */
  lemma ShownAfterTake<I, C>(at: State<I, C>, t: nat, commits: bool, id: Id)
    requires t < |at.tasks| && at.tasks[t].TakeCache? && at.tasks[t].id == id && id !in at.db
    ensures var gone := Step(at, Move(t, commits));
      (exists choices :: ShowsUnput(gone, choices, id)) <==> Stale(at.tasks, at.now, id)
  {
    hide Run, NotPutSince, ShownSince;
    var gone := Step(at, Move(t, commits));
    assert gone.tasks == at.tasks[t := TakeGive(id, at.tasks[t].got)] && gone.cache == at.cache - {id};
    SameStale(at.tasks, t, gone.tasks[t], at.now, id);
    if Stale(at.tasks, at.now, id) {
      var choices := StaleShows(gone, id);
    } else {
      forall choices ensures !ShowsUnput(gone, choices, id) {
        if NotPutSince(Run(gone, choices).log, |gone.log|, id) {
          RunHidden(gone, choices, id);
        }
      }
    }
  }

  lemma SameStale<I, C>(tasks: seq<Task<I, C>>, t: nat, task: Task<I, C>, now: nat, id: Id)
    requires t < |tasks| && tasks[t].TakeCache? && task.TakeGive?
    ensures Stale(tasks[t := task], now, id) <==> Stale(tasks, now, id)
  {
    var more := tasks[t := task];
    assert forall u :: 0 <= u < |tasks| && u != t ==> more[u] == tasks[u];
  }
}
