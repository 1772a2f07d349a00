/** When interleaving can break what a single operation promises: an id handed out twice, and a committed chunk
    lost. Both are decided by the operations of the start. */
module SessionLosses {
  import opened ErasureCode
  import opened Sessions
  import opened SessionRuns

  // ----- what every run keeps within bounds -----

  predicate LiveIn<I, C>(db: map<Id, Session<I, C>>, id: Id, t0: nat) {
    id in db && !Expired(db[id], t0)
  }

  function Happens<I, C>(e: Effect<I, C>, k: Kind, id: Id): nat {
    One(e.events != [] && Is(e.events[0], k) && e.events[0].id == id)
  }

  /** What a step adds to the counts of sessions that were not expired at the start, and takes from what the operations
      can still do. */
  lemma ActLivePuts<I, C>(st: State<I, C>, task: Task<I, C>, commits: bool, id: Id, t0: nat)
    requires t0 <= st.now
    ensures var e := Act(st, task, commits);
      Happens(e, LivePuts(t0), id) + One(Plays(e.task, LivePutters(t0), id)) <= One(Plays(task, LivePutters(t0), id))
  {
    hide WithChunk;
  }

  lemma ActLiveDb<I, C>(st: State<I, C>, task: Task<I, C>, commits: bool, id: Id, t0: nat)
    requires t0 <= st.now
    ensures var e := Act(st, task, commits);
      Happens(e, LiveRemovals(t0), id) + One(LiveIn(e.db, id, t0))
        <= Happens(e, LivePuts(t0), id) + One(LiveIn(st.db, id, t0))
  {
    hide WithExpiry;
  }

  lemma ActLiveHeld<I, C>(st: State<I, C>, task: Task<I, C>, commits: bool, id: Id, t0: nat)
    requires t0 <= st.now
    ensures var e := Act(st, task, commits);
      Happens(e, Takes, id) + One(Plays(e.task, LiveHolders(t0), id))
        <= One(Plays(task, LiveHolders(t0), id)) + Happens(e, LiveRemovals(t0), id) + Happens(e, LiveLeaks(t0), id)
  {
    hide WithExpiry, WithChunk;
  }

  lemma ActOnce<I, C>(st: State<I, C>, task: Task<I, C>, commits: bool, id: Id, t0: nat)
    ensures var e := Act(st, task, commits);
      Happens(e, LiveLeaks(t0), id) > 0 ==> LiveIn(st.db, id, t0) && !commits && task == TakeTx(id)
    ensures var e := Act(st, task, commits);
      Happens(e, Takes, id) + One(Plays(e.task, Takers, id)) <= One(Plays(task, Takers, id))
    ensures !Act(st, task, commits).task.TakeTx?
  {
    hide WithExpiry, WithChunk;
  }

  lemma ActAppends<I, C>(st: State<I, C>, task: Task<I, C>, commits: bool, id: Id)
    ensures var e := Act(st, task, commits);
      Happens(e, Appends, id) + One(Plays(e.task, Appenders, id)) <= One(Plays(task, Appenders, id))
  {
    hide WithExpiry, WithChunk, Expired;
  }

  /** The accounts of an id since the start. */
  ghost predicate Ledger<I, C>(start: State<I, C>, choices: seq<Choice>, st: State<I, C>, id: Id) {
    var t0, log := start.now, st.log;
    t0 <= st.now && TakesLeft(start.tasks, st.tasks) &&
    Count(log, LivePuts(t0), id) + Playing(st.tasks, LivePutters(t0), id)
      <= Playing(start.tasks, LivePutters(t0), id) &&
    Count(log, LiveRemovals(t0), id) + One(LiveIn(st.db, id, t0)) <= Count(log, LivePuts(t0), id) &&
    Count(log, Takes, id) + Playing(st.tasks, LiveHolders(t0), id)
      <= Count(log, LiveRemovals(t0), id) + Count(log, LiveLeaks(t0), id) &&
    (Count(log, LiveLeaks(t0), id) > 0 ==> Count(log, LivePuts(t0), id) > 0) &&
    Count(log, LiveLeaks(t0), id) <= FailedTakes(start.tasks, choices, id) &&
    Count(log, Takes, id) + Playing(st.tasks, Takers, id) <= Playing(start.tasks, Takers, id) &&
    Count(log, Appends, id) + Playing(st.tasks, Appenders, id) <= Playing(start.tasks, Appenders, id)
  }

  lemma LedgerStep<I, C>(start: State<I, C>, choices: seq<Choice>, st: State<I, C>, c: Choice, id: Id)
    requires Ledger(start, choices, st, id)
    ensures Ledger(start, choices + [c], Step(st, c), id)
  {
    hide Count, Playing, Act, Plays, Is, LiveIn;
    var t0 := start.now;
    assert (choices + [c])[..|choices|] == choices;
    if c.Move? && Moves(st, c.t) {
      var task := st.tasks[c.t];
      var e := Act(st, task, c.commits);
      CountsOfAct(st, task, c.commits, id);
      ActLivePuts(st, task, c.commits, id, t0);
      ActLiveDb(st, task, c.commits, id, t0);
      ActLiveHeld(st, task, c.commits, id, t0);
      ActOnce(st, task, c.commits, id, t0);
      ActAppends(st, task, c.commits, id);
      forall k: Kind ensures Count(st.log + e.events, k, id) == Count(st.log, k, id) + Happens(e, k, id) {
      }
      forall r: Role
        ensures Playing(st.tasks[c.t := e.task], r, id)
          == Playing(st.tasks, r, id) - One(Plays(task, r, id)) + One(Plays(e.task, r, id))
      {
        PlayingUpdate(st.tasks, c.t, e.task, r, id);
      }
    }
  }

  lemma {:induction false} NobodyHolds<I, C>(tasks: seq<Task<I, C>>, id: Id, t0: nat)
    requires forall t :: 0 <= t < |tasks| ==> Entry(tasks[t])
    ensures Playing(tasks, LiveHolders(t0), id) == 0
  {
    if tasks != [] { NobodyHolds(tasks[..|tasks| - 1], id, t0); }
  }

  lemma {:induction false} RunLedger<I, C>(st: State<I, C>, choices: seq<Choice>, id: Id)
    requires Initial(st)
    ensures Ledger(st, choices, Run(st, choices), id)
  {
    hide Step, Ledger;
    if choices == [] {
      StartLedger(st, id);
    } else {
      var n := |choices| - 1;
      RunLedger(st, choices[..n], id);
      LedgerStep(st, choices[..n], Run(st, choices[..n]), choices[n], id);
      assert choices[..n] + [choices[n]] == choices;
    }
  }

  lemma StartLedger<I, C>(st: State<I, C>, id: Id)
    requires Initial(st)
    ensures Ledger(st, [], st, id)
  {
    hide Playing;
    NobodyHolds(st.tasks, id, st.now);
  }

  // ----- driving some operations while the others wait -----

  ghost predicate AllCommit(choices: seq<Choice>) {
    forall i :: 0 <= i < |choices| ==> choices[i].Move? && choices[i].commits
  }

  lemma {:induction false} NoFailedTakes<I, C>(tasks: seq<Task<I, C>>, choices: seq<Choice>, id: Id)
    requires AllCommit(choices)
    ensures FailedTakes(tasks, choices, id) == 0
  {
    if choices != [] { NoFailedTakes(tasks, choices[..|choices| - 1], id); }
  }

  /** A state that some run reaches. */
  ghost predicate Reaches<I, C>(st: State<I, C>, choices: seq<Choice>, at: State<I, C>) {
    Run(st, choices) == at
  }

  lemma OneMore<I, C>(st: State<I, C>, choices: seq<Choice>, at: State<I, C>, t: nat, commits: bool)
    returns (more: seq<Choice>)
    requires Reaches(st, choices, at)
    ensures Reaches(st, more, Step(at, Move(t, commits)))
    ensures commits && AllCommit(choices) ==> AllCommit(more)
  {
    hide Step;
    more := choices + [Move(t, commits)];
    assert more[..|choices|] == choices;
  }

  /** An operation that can put a session gets to where it writes the cache, if it finds nothing. */
  lemma Prepare<I, C>(st: State<I, C>, choices: seq<Choice>, at: State<I, C>, t: nat, id: Id)
    returns (more: seq<Choice>, next: State<I, C>, s: Session<I, C>, after: Option<C>)
    requires Reaches(st, choices, at) && t < |at.tasks| && Entry(at.tasks[t])
    requires Plays(at.tasks[t], LivePutters(at.now), id) && id !in at.cache && id !in at.db
    ensures Reaches(st, more, next) && (AllCommit(choices) ==> AllCommit(more))
    ensures next == at.(tasks := at.tasks[t := PutCache(id, s, after)]) && !Expired(s, at.now)
    ensures after == if at.tasks[t].LookCache? then Some(at.tasks[t].goal.chunk) else None
  {
    hide Reaches, AllCommit;
    if at.tasks[t].PutCache? {
      s, after := at.tasks[t].session, None;
      more, next := choices, at;
      assert at.tasks[t := at.tasks[t]] == at.tasks;
    } else {
      var goal := at.tasks[t].goal;
      s, after := WithExpiry(goal.initial, at.now), Some(goal.chunk);
      var mid := at.(tasks := at.tasks[t := LookDb(id, goal)]);
      next := at.(tasks := at.tasks[t := PutCache(id, s, after)]);
      more := OneMore(st, choices, at, t, true);
      assert Step(at, Move(t, true)) == mid by { assert at.log + [] == at.log; }
      more := OneMore(st, more, mid, t, true);
      assert Step(mid, Move(t, true)) == next by { assert mid.log + [] == mid.log; }
    }
  }

  /** It puts the session. */
  lemma PutIt<I, C>(st: State<I, C>, choices: seq<Choice>, at: State<I, C>, t: nat, id: Id, s: Session<I, C>,
                    after: Option<C>) returns (more: seq<Choice>, next: State<I, C>)
    requires Reaches(st, choices, at) && t < |at.tasks| && at.tasks[t] == PutCache(id, s, after) && at.writer.None?
    ensures Reaches(st, more, next) && (AllCommit(choices) ==> AllCommit(more))
    ensures next == at.(cache := at.cache[id := s], db := at.db[id := s], log := at.log + [Begun(id, s), Put(id, s)],
                        tasks := at.tasks[t := if after.None? then Done else AppendTx(id, after.value)])
  {
    hide Reaches, AllCommit;
    var mid := at.(cache := at.cache[id := s], log := at.log + [Begun(id, s)],
                   tasks := at.tasks[t := PutDb(id, s, after)]);
    next := at.(cache := at.cache[id := s], db := at.db[id := s], log := at.log + [Begun(id, s), Put(id, s)],
                tasks := at.tasks[t := if after.None? then Done else AppendTx(id, after.value)]);
    more := OneMore(st, choices, at, t, true);
    assert Step(at, Move(t, true)) == mid;
    more := OneMore(st, more, mid, t, true);
    assert mid.log + [Put(id, s)] == next.log;
    assert Step(mid, Move(t, true)) == next;
  }

  /** A take hands out the session that is there; should its commit fail, the session stays. */
  lemma TakeIt<I, C>(st: State<I, C>, choices: seq<Choice>, at: State<I, C>, u: nat, id: Id, s: Session<I, C>,
                     commits: bool) returns (more: seq<Choice>, next: State<I, C>)
    requires Reaches(st, choices, at) && u < |at.tasks| && at.tasks[u] == TakeTx(id) && at.writer.None?
    requires id in at.db && at.db[id] == s && !Expired(s, at.now)
    ensures Reaches(st, more, next) && (commits && AllCommit(choices) ==> AllCommit(more))
    ensures next == at.(cache := at.cache - {id}, db := if commits then at.db - {id} else at.db,
                        log := at.log + [if commits then Removed(id, s) else Leaked(id, s), Taken(id, s)],
                        tasks := at.tasks[u := Done])
  {
    hide Reaches, AllCommit;
    var e := if commits then Removed(id, s) else Leaked(id, s);
    var db := if commits then at.db - {id} else at.db;
    var one := at.(db := db, log := at.log + [e], tasks := at.tasks[u := TakeCache(id, Some(s))]);
    var two := one.(cache := at.cache - {id}, tasks := at.tasks[u := TakeGive(id, Some(s))]);
    next := at.(cache := at.cache - {id}, db := db, log := at.log + [e, Taken(id, s)], tasks := at.tasks[u := Done]);
    more := OneMore(st, choices, at, u, commits);
    assert Step(at, Move(u, commits)) == one;
    more := OneMore(st, more, one, u, true);
    assert one.log + [] == one.log && one.tasks[u := two.tasks[u]] == two.tasks;
    assert Step(one, Move(u, true)) == two;
    more := OneMore(st, more, two, u, true);
    assert two.log + [Taken(id, s)] == next.log && two.tasks[u := Done] == next.tasks;
    assert Step(two, Move(u, true)) == next;
  }

  /** An append to the session that is there. */
  lemma AppendIt<I, C>(st: State<I, C>, choices: seq<Choice>, at: State<I, C>, a: nat, id: Id, c: C)
    returns (more: seq<Choice>, next: State<I, C>)
    requires Reaches(st, choices, at) && a < |at.tasks| && at.tasks[a] == AppendTx(id, c) && at.writer.None?
    requires id in at.db && !Expired(at.db[id], at.now)
    ensures Reaches(st, more, next) && (AllCommit(choices) ==> AllCommit(more))
    ensures var s := WithChunk(at.db[id], c);
      next == at.(cache := at.cache[id := s], db := at.db[id := s],
                  log := at.log + [Tried(id, c), Appended(id, c)], tasks := at.tasks[a := Done])
  {
    hide Reaches, AllCommit;
    var s := WithChunk(at.db[id], c);
    var mid := at.(cache := at.cache[id := s], log := at.log + [Tried(id, c)], writer := Some(a),
                   tasks := at.tasks[a := AppendCommit(id, c)]);
    next := at.(cache := at.cache[id := s], db := at.db[id := s],
                log := at.log + [Tried(id, c), Appended(id, c)], tasks := at.tasks[a := Done]);
    more := OneMore(st, choices, at, a, true);
    assert Step(at, Move(a, true)) == mid;
    more := OneMore(st, more, mid, a, true);
    assert mid.log + [Appended(id, c)] == next.log && mid.tasks[a := Done] == next.tasks;
    assert Step(mid, Move(a, true)) == next;
  }

  /** A caller that is to append finds the session in the cache. */
  lemma FindIt<I, C>(st: State<I, C>, choices: seq<Choice>, at: State<I, C>, a: nat, id: Id)
    returns (more: seq<Choice>, next: State<I, C>)
    requires Reaches(st, choices, at) && a < |at.tasks| && at.tasks[a].LookCache? && at.tasks[a].id == id
    requires at.tasks[a].goal.AppendTo? && id in at.cache && !Expired(at.cache[id], at.now)
    ensures Reaches(st, more, next) && (AllCommit(choices) ==> AllCommit(more))
    ensures next == at.(tasks := at.tasks[a := AppendTx(id, at.tasks[a].goal.chunk)])
  {
    hide Reaches, AllCommit;
    next := at.(tasks := at.tasks[a := AppendTx(id, at.tasks[a].goal.chunk)]);
    more := OneMore(st, choices, at, a, true);
    assert at.log + [] == at.log;
    assert Step(at, Move(a, true)) == next;
  }

  // ----- who takes part -----

  lemma {:induction false} SomePlayer<I, C>(tasks: seq<Task<I, C>>, r: Role, id: Id) returns (t: nat)
    requires Playing(tasks, r, id) >= 1
    ensures t < |tasks| && Plays(tasks[t], r, id)
  {
    hide Plays;
    var n := |tasks| - 1;
    if Plays(tasks[n], r, id) {
      t := n;
    } else {
      t := SomePlayer(tasks[..n], r, id);
    }
  }

  lemma {:induction false} TwoPlayers<I, C>(tasks: seq<Task<I, C>>, r: Role, id: Id) returns (t: nat, u: nat)
    requires Playing(tasks, r, id) >= 2
    ensures t < u < |tasks| && Plays(tasks[t], r, id) && Plays(tasks[u], r, id)
  {
    hide Plays;
    var n := |tasks| - 1;
    if Plays(tasks[n], r, id) {
      t := SomePlayer(tasks[..n], r, id);
      u := n;
    } else {
      t, u := TwoPlayers(tasks[..n], r, id);
    }
  }

  // ----- handed out twice -----

  ghost predicate TakenTwiceIn<I, C>(st: State<I, C>, choices: seq<Choice>, id: Id) {
    Count(Run(st, choices).log, Takes, id) >= 2
  }

  /** Two takes hand out one session when the first one's commit fails. */
  lemma LeakedTwice<I, C>(st: State<I, C>, id: Id) returns (choices: seq<Choice>)
    requires Initial(st)
    requires Playing(st.tasks, LivePutters(st.now), id) >= 1 && Playing(st.tasks, Takers, id) >= 2
    ensures TakenTwiceIn(st, choices, id)
  {
    hide Run, Playing, Reaches, Count, AllCommit;
    var t := SomePlayer(st.tasks, LivePutters(st.now), id);
    var u, v := TwoPlayers(st.tasks, Takers, id);
    var at, s, after;
    choices := [];
    RunStart(st);
    choices, at, s, after := Prepare(st, choices, st, t, id);
    choices, at := PutIt(st, choices, at, t, id, s, after);
    choices, at := TakeIt(st, choices, at, u, id, s, false);
    choices, at := TakeIt(st, choices, at, v, id, s, true);
    assert at.log[3] == Taken(id, s) && at.log[5] == Taken(id, s);
    CountAtLeast(at.log, Takes, id, 3, 5);
    ReachesMeans(st, choices, at);
  }

  /** Without a failing commit two takes hand out two sessions that were put one after the other. */
  lemma PutAndTakenTwice<I, C>(st: State<I, C>, id: Id) returns (choices: seq<Choice>)
    requires Initial(st)
    requires Playing(st.tasks, LivePutters(st.now), id) >= 2 && Playing(st.tasks, Takers, id) >= 2
    ensures TakenTwiceIn(st, choices, id) && AllCommit(choices)
  {
    hide Run, Playing, Reaches, Count, AllCommit;
    var t, t2 := TwoPlayers(st.tasks, LivePutters(st.now), id);
    var u, v := TwoPlayers(st.tasks, Takers, id);
    var at, s, after, s2, after2;
    choices := [];
    RunStart(st);
    choices, at, s, after := Prepare(st, choices, st, t, id);
    choices, at, s2, after2 := Prepare(st, choices, at, t2, id);
    choices, at := PutIt(st, choices, at, t, id, s, after);
    choices, at := TakeIt(st, choices, at, u, id, s, true);
    choices, at := PutIt(st, choices, at, t2, id, s2, after2);
    choices, at := TakeIt(st, choices, at, v, id, s2, true);
    assert at.log[3] == Taken(id, s) && at.log[7] == Taken(id, s2);
    CountAtLeast(at.log, Takes, id, 3, 7);
    ReachesMeans(st, choices, at);
  }

  lemma RunStart<I, C>(st: State<I, C>)
    ensures Reaches(st, [], st) && AllCommit([])
  {
  }

  lemma ReachesMeans<I, C>(st: State<I, C>, choices: seq<Choice>, at: State<I, C>)
    requires Reaches(st, choices, at)
    ensures Run(st, choices) == at
  {
    hide Run;
  }

  /** Some run hands an id out more often than once exactly when an operation of the start can put a session of it
      that is not expired, and two can take it. When no commit of a take fails, exactly when two can put one. */
  lemma TakenTwice<I, C>(st: State<I, C>, id: Id)
    requires Initial(st)
    ensures (exists choices :: TakenTwiceIn(st, choices, id)) <==>
      Playing(st.tasks, LivePutters(st.now), id) >= 1 && Playing(st.tasks, Takers, id) >= 2
    ensures (exists choices :: TakenTwiceIn(st, choices, id) && FailedTakes(st.tasks, choices, id) == 0) <==>
      Playing(st.tasks, LivePutters(st.now), id) >= 2 && Playing(st.tasks, Takers, id) >= 2
  {
    hide Run, Playing, Count, FailedTakes, Initial;
    var puts, takes := Playing(st.tasks, LivePutters(st.now), id), Playing(st.tasks, Takers, id);
    forall choices | TakenTwiceIn(st, choices, id)
      ensures puts >= 1 && takes >= 2 && (FailedTakes(st.tasks, choices, id) == 0 ==> puts >= 2)
    {
      RunLedger(st, choices, id);
    }
    if puts >= 1 && takes >= 2 {
      var choices := LeakedTwice(st, id);
    }
    if puts >= 2 && takes >= 2 {
      var choices := PutAndTakenTwice(st, id);
      NoFailedTakes(st.tasks, choices, id);
    }
  }

  // ----- a committed chunk lost -----

  /** A chunk was appended, then a session was put over the one that had it, and a take hands out the session put,
      with what was appended to that. */
  ghost predicate LostAt<I, C>(log: seq<Event<I, C>>, id: Id, i: nat, q: nat, r: nat, p: nat) {
    i < q < r < p < |log| && log[i].Appended? && log[i].id == id && log[q].Put? && log[q].id == id &&
    OnlyAppends(log[i + 1..q], id) && OnlyAppends(log[q + 1..r], id) &&
    (log[r].Removed? || log[r].Leaked?) && log[r].id == id && log[p] == Taken(id, log[r].session)
  }

  ghost predicate ChunkLostIn<I, C>(st: State<I, C>, choices: seq<Choice>, id: Id) {
    exists i, q, r, p :: LostAt(Run(st, choices).log, id, i, q, r, p)
  }

  /** What was read and extended is what the database held, not expired where it is extended or handed out. */
  ghost predicate Genuine<I, C>(st: State<I, C>, t0: nat) {
    t0 <= st.now &&
    (forall r :: 0 <= r < |st.log| ==> GenuineAt(st.log, r, t0)) &&
    (forall t :: 0 <= t < |st.tasks| && st.tasks[t].AppendCommit? ==> LiveIn(st.db, st.tasks[t].id, t0))
  }

  ghost predicate GenuineAt<I, C>(log: seq<Event<I, C>>, r: nat, t0: nat)
    requires r < |log|
  {
    var e, before := log[r], Replay(log[..r], log[r].id);
    (e.Removed? || e.Leaked? ==> before == Some(e.session)) &&
    (e.Appended? ==> before.Some? && !Expired(before.value, t0)) && (e.Taken? ==> !Expired(e.session, t0))
  }

  /** What a step logs is genuine. */
  lemma ActGenuine<I, C>(st: State<I, C>, task: Task<I, C>, commits: bool, t0: nat)
    requires t0 <= st.now && (task.AppendCommit? ==> LiveIn(st.db, task.id, t0))
    ensures var e := Act(st, task, commits);
      e.events != [] ==>
        var ev, before := e.events[0], InDb(st, e.events[0].id);
        (ev.Removed? || ev.Leaked? ==> before == Some(ev.session)) &&
        (ev.Appended? ==> before.Some? && !Expired(before.value, t0)) && (ev.Taken? ==> !Expired(ev.session, t0))
    ensures var e := Act(st, task, commits);
      e.task.AppendCommit? ==> e.db == st.db && LiveIn(st.db, e.task.id, t0)
  {
    hide WithExpiry, WithChunk;
  }

  /** Only one operation writes the database while another is about to commit. */
  lemma OthersKeep<I, C>(st: State<I, C>, t: nat, commits: bool)
    requires Moves(st, t) && WriterFits(st)
    ensures Act(st, st.tasks[t], commits).db == st.db || st.tasks[t].AppendCommit? || st.writer.None?
    ensures st.writer.None? ==> forall u :: 0 <= u < |st.tasks| ==> !st.tasks[u].AppendCommit?
    ensures st.tasks[t].AppendCommit? ==> forall u :: 0 <= u < |st.tasks| && u != t ==> !st.tasks[u].AppendCommit?
  {
    hide WithExpiry, WithChunk, Expired;
  }

  lemma GenuineMore<I, C>(log: seq<Event<I, C>>, more: seq<Event<I, C>>, r: nat, t0: nat)
    requires r < |log| && GenuineAt(log, r, t0)
    ensures GenuineAt(log + more, r, t0)
  {
    hide Replay;
    assert (log + more)[..r] == log[..r];
  }

  lemma GenuineStep<I, C>(st: State<I, C>, t: nat, commits: bool, t0: nat)
    requires Moves(st, t) && Genuine(st, t0) && WriterFits(st) && forall id :: Replay(st.log, id) == InDb(st, id)
    ensures Genuine(Step(st, Move(t, commits)), t0)
  {
    hide Act, Replay, GenuineAt, LiveIn, WriterFits;
    var task := st.tasks[t];
    var e, after := Act(st, task, commits), Step(st, Move(t, commits));
    EventsOfAct(st, task, commits);
    ActGenuine(st, task, commits, t0);
    OthersKeep(st, t, commits);
    forall r | 0 <= r < |after.log| ensures GenuineAt(after.log, r, t0) {
      if r < |st.log| {
        GenuineMore(st.log, e.events, r, t0);
      } else {
        GenuineNow(st.log, e.events[0], t0, InDb(st, e.events[0].id));
      }
    }
  }

  lemma GenuineNow<I, C>(log: seq<Event<I, C>>, ev: Event<I, C>, t0: nat, before: Option<Session<I, C>>)
    requires Replay(log, ev.id) == before
    requires (ev.Removed? || ev.Leaked? ==> before == Some(ev.session)) &&
             (ev.Appended? ==> before.Some? && !Expired(before.value, t0)) && (ev.Taken? ==> !Expired(ev.session, t0))
    ensures GenuineAt(log + [ev], |log|, t0)
  {
    hide Replay;
    assert (log + [ev])[..|log|] == log;
  }

  lemma {:induction false} RunGenuine<I, C>(st: State<I, C>, choices: seq<Choice>)
    requires Initial(st)
    ensures Genuine(Run(st, choices), st.now)
  {
    hide Act, Replay, WriterFits, Sound, Accounts, GenuineAt, LiveIn;
    if choices != [] {
      var n := |choices| - 1;
      var before, c := Run(st, choices[..n]), choices[n];
      RunGenuine(st, choices[..n]);
      RunKeeps(st, choices[..n]);
      if c.Move? && Moves(before, c.t) {
        GenuineStep(before, c.t, c.commits, st.now);
      } else {
        assert Step(before, c) == before.(now := Step(before, c).now);
      }
    }
  }

  /** A session that the log has left under an id was put, with the same expiry. */
  lemma PutBefore<I, C>(log: seq<Event<I, C>>, upTo: nat, id: Id, t0: nat) returns (q: nat)
    requires upTo <= |log| && Replay(log[..upTo], id).Some? && !Expired(Replay(log[..upTo], id).value, t0)
    ensures q < upTo && Is(log[q], LivePuts(t0)) && log[q].id == id && OnlyAppends(log[q + 1..upTo], id)
  {
    hide Replay, OnlyAppends, Chunks;
    q := ReplayMeans(log[..upTo], id);
    assert log[..upTo][q + 1..] == log[q + 1..upTo];
  }

  /** In a stretch of appends there is no put. */
  lemma NoPutBetween<I, C>(log: seq<Event<I, C>>, id: Id, from: nat, to: nat, q: nat)
    requires from <= q < to <= |log| && OnlyAppends(log[from..to], id)
    ensures !(log[q].Put? && log[q].id == id)
  {
    assert log[from..to][q - from] == log[q];
  }

  /** A lost chunk takes two puts of live sessions, an append and a take. */
  lemma LossNeeds<I, C>(st: State<I, C>, choices: seq<Choice>, id: Id, i: nat, q: nat, r: nat, p: nat)
    requires Initial(st) && LostAt(Run(st, choices).log, id, i, q, r, p)
    ensures var log := Run(st, choices).log;
      Count(log, LivePuts(st.now), id) >= 2 && Count(log, Appends, id) >= 1 && Count(log, Takes, id) >= 1
  {
    hide Run, Initial, Count, Replay, OnlyAppends;
    var log, t0 := Run(st, choices).log, st.now;
    RunGenuine(st, choices);
    assert GenuineAt(log, i, t0) && GenuineAt(log, r, t0) && GenuineAt(log, p, t0);
    var q0 := PutBefore(log, i, id, t0);
    var q1 := PutBefore(log, r, id, t0);
    if q1 < q { NoPutBetween(log, id, q1 + 1, r, q); }
    if q1 > q { NoPutBetween(log, id, q + 1, r, q1); }
    CountAtLeast(log, LivePuts(t0), id, q0, q);
    CountAtLeast(log, Appends, id, i, i);
    CountAtLeast(log, Takes, id, p, p);
  }

  /** A first operation puts a session, another is about to put one over it, and a chunk is appended in between. */
  lemma AppendBetween<I, C>(st: State<I, C>, id: Id, t: nat, t2: nat, a: nat)
    returns (choices: seq<Choice>, at: State<I, C>, s: Session<I, C>, s2: Session<I, C>, after2: Option<C>, c: C)
    requires Initial(st) && t < |st.tasks| && t2 < |st.tasks| && a < |st.tasks| && t != t2 && a != t2
    requires Plays(st.tasks[t], LivePutters(st.now), id) && Plays(st.tasks[t2], LivePutters(st.now), id)
    requires Plays(st.tasks[a], Appenders, id)
    ensures Reaches(st, choices, at) && AllCommit(choices) && at.now == st.now && at.writer.None?
    ensures |at.tasks| == |st.tasks| && at.tasks[t2 := st.tasks[t2]] == st.tasks[t := at.tasks[t]][a := Done]
    ensures at.tasks[t2] == PutCache(id, s2, after2) && !Expired(s2, at.now)
    ensures at.log == [Begun(id, s), Put(id, s), Tried(id, c), Appended(id, c)]
  {
    hide Run, Reaches, AllCommit, Expired;
    var after;
    choices := [];
    RunStart(st);
    choices, at, s, after := Prepare(st, choices, st, t, id);
    choices, at, s2, after2 := Prepare(st, choices, at, t2, id);
    choices, at := PutIt(st, choices, at, t, id, s, after);
    if a == t {
      c := after.value;
    } else if st.tasks[a].AppendTx? {
      c := st.tasks[a].chunk;
    } else {
      c := st.tasks[a].goal.chunk;
      choices, at := FindIt(st, choices, at, a, id);
    }
    choices, at := AppendIt(st, choices, at, a, id, c);
    assert at.log == [Begun(id, s), Put(id, s), Tried(id, c), Appended(id, c)];
  }

  lemma LoseChunk<I, C>(st: State<I, C>, id: Id) returns (choices: seq<Choice>)
    requires Initial(st) && Playing(st.tasks, LivePutters(st.now), id) >= 2
    requires Playing(st.tasks, Appenders, id) >= 1 && Playing(st.tasks, Takers, id) >= 1
    ensures ChunkLostIn(st, choices, id) && AllCommit(choices)
  {
    hide Run, Playing, Reaches, AllCommit, Expired, OnlyAppends;
    var t, t2 := TwoPlayers(st.tasks, LivePutters(st.now), id);
    var a := SomePlayer(st.tasks, Appenders, id);
    var u := SomePlayer(st.tasks, Takers, id);
    if a == t2 {
      t, t2 := t2, t;
    }
    var at, s, s2, after2, c;
    choices, at, s, s2, after2, c := AppendBetween(st, id, t, t2, a);
    assert u != t && u != t2 && u != a;
    assert at.tasks[u] == at.tasks[t2 := st.tasks[t2]][u] == st.tasks[t := at.tasks[t]][a := Done][u] == TakeTx(id);
    choices, at := PutIt(st, choices, at, t2, id, s2, after2);
    choices, at := TakeIt(st, choices, at, u, id, s2, true);
    LostHere(at.log, id, s, s2, c);
    ReachesMeans(st, choices, at);
  }

  lemma LostHere<I, C>(log: seq<Event<I, C>>, id: Id, s: Session<I, C>, s2: Session<I, C>, c: C)
    requires log == [Begun(id, s), Put(id, s), Tried(id, c), Appended(id, c)] + [Begun(id, s2), Put(id, s2)]
      + [Removed(id, s2), Taken(id, s2)]
    ensures LostAt(log, id, 3, 5, 6, 7)
  {
    assert log[4..5] == [Begun(id, s2)];
    var none: seq<Event<I, C>> := [];
    assert log[6..6] == none;
  }

  /** Some run loses a committed chunk exactly when two operations of the start can put a session that is not expired,
      one can append, and one can take; and then it does so without any commit failing. */
  lemma ChunkLost<I, C>(st: State<I, C>, id: Id)
    requires Initial(st)
    ensures (exists choices :: ChunkLostIn(st, choices, id)) <==>
      Playing(st.tasks, LivePutters(st.now), id) >= 2 && Playing(st.tasks, Appenders, id) >= 1 &&
      Playing(st.tasks, Takers, id) >= 1
    ensures (exists choices :: ChunkLostIn(st, choices, id)) <==>
      (exists choices :: ChunkLostIn(st, choices, id) && AllCommit(choices))
  {
    hide Run, Playing, Count, Initial, LostAt, AllCommit;
    var puts, takes := Playing(st.tasks, LivePutters(st.now), id), Playing(st.tasks, Takers, id);
    var appends := Playing(st.tasks, Appenders, id);
    forall choices | ChunkLostIn(st, choices, id) ensures puts >= 2 && appends >= 1 && takes >= 1 {
      var i, q, r, p :| LostAt(Run(st, choices).log, id, i, q, r, p);
      LossNeeds(st, choices, id, i, q, r, p);
      RunLedger(st, choices, id);
    }
    if puts >= 2 && appends >= 1 && takes >= 1 {
      var choices := LoseChunk(st, id);
    }
  }
}
