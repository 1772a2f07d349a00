/** The session store with a database under concurrency: any number of operations run interleaved, each in
    atomic steps on the cache or in database transactions, of which one can write at a time. */
module SessionRuns {
  import opened ErasureCode
  import opened Sessions

  // ----- operations in progress -----

  /** What a lookup is for: its caller wants the session, or wants to append a chunk to it, or to create
      it first. */
  datatype Goal<I, C> = Report | AppendTo(initial: Session<I, C>, chunk: C)

  datatype Task<I, C> =
    | PutCache(id: Id, session: Session<I, C>, after: Option<C>)
    | PutDb(id: Id, session: Session<I, C>, after: Option<C>)
    | PutUndo(id: Id)
    | LookCache(id: Id, goal: Goal<I, C>)
    | LookDb(id: Id, goal: Goal<I, C>)
    | Fill(id: Id, session: Session<I, C>, goal: Goal<I, C>)
    | EvictCache(id: Id)
    | EvictDb(id: Id)
    | AppendTx(id: Id, chunk: C)
    | AppendCommit(id: Id, chunk: C)
    | TakeTx(id: Id)
    | TakeCache(id: Id, got: Option<Session<I, C>>)
    | TakeGive(id: Id, got: Option<Session<I, C>>)
    | Done

  /** The first steps of the operations. */
  predicate Entry<I, C>(t: Task<I, C>) {
    (t.PutCache? && t.after.None?) || t.LookCache? || t.AppendTx? || t.TakeTx?
  }

  /** What happened, in the order of the steps: a put wrote the cache, a session was put, an append wrote the
      cache, a session got a chunk, was removed by a take, was read by a take whose commit failed, was dropped
      as expired, was handed out by a take, or was handed out by a lookup. */
  datatype Event<I, C> =
    | Begun(id: Id, session: Session<I, C>)
    | Put(id: Id, session: Session<I, C>)
    | Tried(id: Id, chunk: C)
    | Appended(id: Id, chunk: C)
    | Removed(id: Id, session: Session<I, C>)
    | Leaked(id: Id, session: Session<I, C>)
    | Dropped(id: Id)
    | Taken(id: Id, session: Session<I, C>)
    | Shown(id: Id, session: Session<I, C>)

  datatype State<I, C> = State(
    cache: map<Id, Session<I, C>>,
    db: map<Id, Session<I, C>>,
    now: nat,
    writer: Option<nat>,
    tasks: seq<Task<I, C>>,
    log: seq<Event<I, C>>)

  /** Time passes, or task t makes a step, in which a commit may fail. */
  datatype Choice = Tick(elapsed: nat) | Move(t: nat, commits: bool)

  predicate Waits<I, C>(t: Task<I, C>) {
    t.PutDb? || t.EvictDb? || t.AppendTx? || t.TakeTx?
  }

  function Reached<I, C>(goal: Goal<I, C>, id: Id): Task<I, C> {
    if goal.Report? then Done else AppendTx(id, goal.chunk)
  }

  function ShownTo<I, C>(goal: Goal<I, C>, id: Id, s: Session<I, C>): seq<Event<I, C>> {
    if goal.Report? then [Shown(id, s)] else []
  }

  /** What a step does: to the cache, to the database, to the operation, and to the log. */
  datatype Effect<I, C> = Effect(
    cache: map<Id, Session<I, C>>, db: map<Id, Session<I, C>>, task: Task<I, C>, events: seq<Event<I, C>>)

  function Act<I, C>(st: State<I, C>, task: Task<I, C>, commits: bool): Effect<I, C> {
    var cache, db := st.cache, st.db;
    match task
    case PutCache(id, s, after) => Effect(cache[id := s], db, PutDb(id, s, after), [Begun(id, s)])
    case PutDb(id, s, after) =>
      if !commits then Effect(cache, db, PutUndo(id), [])
      else Effect(cache, db[id := s], if after.None? then Done else AppendTx(id, after.value), [Put(id, s)])
    case PutUndo(id) => Effect(cache - {id}, db, Done, [])
    case LookCache(id, goal) =>
      if id !in cache then Effect(cache, db, LookDb(id, goal), [])
      else if Expired(cache[id], st.now) then Effect(cache, db, EvictCache(id), [])
      else Effect(cache, db, Reached(goal, id), ShownTo(goal, id, cache[id]))
    case LookDb(id, goal) =>
      if id !in db then
        Effect(cache, db, if goal.Report? then Done
                          else PutCache(id, WithExpiry(goal.initial, st.now), Some(goal.chunk)), [])
      else if Expired(db[id], st.now) then Effect(cache, db, EvictDb(id), [])
      else Effect(cache, db, Fill(id, db[id], goal), [])
    case Fill(id, s, goal) => Effect(cache[id := s], db, Reached(goal, id), ShownTo(goal, id, s))
    case EvictCache(id) => Effect(cache - {id}, db, EvictDb(id), [])
    case EvictDb(id) => if commits then Effect(cache, db - {id}, Done, [Dropped(id)]) else Effect(cache, db, Done, [])
    case AppendTx(id, c) =>
      if id !in db then Effect(cache, db, Done, [])
      else if Expired(db[id], st.now) then Effect(cache - {id}, db, Done, [])
      else Effect(cache[id := WithChunk(db[id], c)], db, AppendCommit(id, c), [Tried(id, c)])
    case AppendCommit(id, c) =>
      if commits && id in db then Effect(cache, db[id := WithChunk(db[id], c)], Done, [Appended(id, c)])
      else Effect(cache, db, Done, [])
    case TakeTx(id) =>
      if id !in db then Effect(cache, db, TakeCache(id, None), [])
      else if commits then Effect(cache, db - {id}, TakeCache(id, Some(db[id])), [Removed(id, db[id])])
      else Effect(cache, db, TakeCache(id, Some(db[id])), [Leaked(id, db[id])])
    case TakeCache(id, got) => Effect(cache - {id}, db, TakeGive(id, got), [])
    case TakeGive(id, got) =>
      if got.Some? && !Expired(got.value, st.now) then Effect(cache, db, Done, [Taken(id, got.value)])
      else Effect(cache, db, Done, [])
    case Done => Effect(cache, db, Done, [])
  }

  /** A step of the store. A transaction waits while another is open. */
  function Step<I, C>(st: State<I, C>, c: Choice): State<I, C> {
    match c
    case Tick(elapsed) => st.(now := st.now + elapsed)
    case Move(t, commits) =>
      if t >= |st.tasks| || (Waits(st.tasks[t]) && st.writer.Some?) then st
      else
        var e := Act(st, st.tasks[t], commits);
        st.(cache := e.cache, db := e.db, tasks := st.tasks[t := e.task], log := st.log + e.events,
            writer := if e.task.AppendCommit? then Some(t) else if st.tasks[t].AppendCommit? then None else st.writer)
  }

  function Run<I, C>(st: State<I, C>, choices: seq<Choice>): State<I, C> {
    if choices == [] then st else Step(Run(st, choices[..|choices| - 1]), choices[|choices| - 1])
  }

  /** Nothing stored yet, any operations about to start. */
  ghost predicate Initial<I, C>(st: State<I, C>) {
    st.cache == map[] && st.db == map[] && st.writer.None? && st.log == [] &&
    forall t :: 0 <= t < |st.tasks| ==> Entry(st.tasks[t])
  }

  // ----- what the log says -----

  /** The session that the transactions so far have left under an id. */
  function Replay<I, C>(log: seq<Event<I, C>>, id: Id): Option<Session<I, C>> {
    if log == [] then None
    else
      var before, e := Replay(log[..|log| - 1], id), log[|log| - 1];
      if e.id != id then before
      else match e
        case Put(_, s) => Some(s)
        case Appended(_, c) => if before.Some? then Some(WithChunk(before.value, c)) else None
        case Removed(_, _) => None
        case Dropped(_) => None
        case _ => before
  }

  /** Kinds of events; those of sessions that are not expired at some time. */
  datatype Kind =
    | Puts | Removals | Leaks | Takes | Appends
    | LivePuts(at: nat) | LiveRemovals(at: nat) | LiveLeaks(at: nat)

  function Is<I, C>(e: Event<I, C>, k: Kind): bool {
    match k
    case Puts => e.Put?
    case Removals => e.Removed?
    case Leaks => e.Leaked?
    case Takes => e.Taken?
    case Appends => e.Appended?
    case LivePuts(at) => e.Put? && !Expired(e.session, at)
    case LiveRemovals(at) => e.Removed? && !Expired(e.session, at)
    case LiveLeaks(at) => e.Leaked? && !Expired(e.session, at)
  }

  /** How many events of a kind the log has for an id. */
  function Count<I, C>(log: seq<Event<I, C>>, k: Kind, id: Id): nat {
    if log == [] then 0
    else
      var e := log[|log| - 1];
      Count(log[..|log| - 1], k, id) + if Is(e, k) && e.id == id then 1 else 0
  }

  predicate Holds<I, C>(t: Task<I, C>, id: Id) {
    (t.TakeCache? || t.TakeGive?) && t.id == id && t.got.Some?
  }

  /** An operation that may still put a session under an id. */
  predicate CanPut<I, C>(t: Task<I, C>, id: Id) {
    (t.PutCache? || t.PutDb? || ((t.LookCache? || t.LookDb?) && t.goal.AppendTo?)) && t.id == id
  }

  /** The session it may put, or what it may make it from. */
  function Offered<I, C>(t: Task<I, C>): Session<I, C>
    requires t.PutCache? || t.PutDb? || ((t.LookCache? || t.LookDb?) && t.goal.AppendTo?)
  {
    if t.PutCache? || t.PutDb? then t.session else t.goal.initial
  }

  /** An operation that may still append a chunk to an id. */
  predicate CanAppend<I, C>(t: Task<I, C>, id: Id) {
    (t.AppendTx? || t.AppendCommit? || ((t.LookCache? || t.LookDb? || t.Fill?) && t.goal.AppendTo?) ||
     ((t.PutCache? || t.PutDb?) && t.after.Some?)) && t.id == id
  }

  /** What operations can still do: hand out a session they hold, put one, do so with one that is not expired at some
      time, hand out one at all, append a chunk. */
  datatype Role = Holders | Putters | LiveHolders(at: nat) | LivePutters(at: nat) | Takers | Appenders

  predicate Plays<I, C>(t: Task<I, C>, r: Role, id: Id) {
    match r
    case Holders => Holds(t, id)
    case Putters => CanPut(t, id)
    case LiveHolders(at) => Holds(t, id) && !Expired(t.got.value, at)
    case LivePutters(at) => CanPut(t, id) && !Expired(Offered(t), at)
    case Takers => (t.TakeTx? || t.TakeCache? || t.TakeGive?) && t.id == id
    case Appenders => CanAppend(t, id)
  }

  /** How many operations play a role for an id. */
  function Playing<I, C>(tasks: seq<Task<I, C>>, r: Role, id: Id): nat {
    if tasks == [] then 0
    else Playing(tasks[..|tasks| - 1], r, id) + if Plays(tasks[|tasks| - 1], r, id) then 1 else 0
  }

  lemma {:induction false} PlayingUpdate<I, C>(tasks: seq<Task<I, C>>, t: nat, task: Task<I, C>, r: Role, id: Id)
    requires t < |tasks|
    ensures Playing(tasks[t := task], r, id)
      == Playing(tasks, r, id) - (if Plays(tasks[t], r, id) then 1 else 0) + (if Plays(task, r, id) then 1 else 0)
  {
    hide Plays;
    var n := |tasks| - 1;
    if t < n {
      PlayingUpdate(tasks[..n], t, task, r, id);
      assert tasks[t := task][..n] == tasks[..n][t := task];
    } else {
      assert tasks[t := task][..n] == tasks[..n];
    }
  }

  lemma {:induction false} NoneHeld<I, C>(tasks: seq<Task<I, C>>, id: Id)
    requires forall t :: 0 <= t < |tasks| ==> Entry(tasks[t])
    ensures Playing(tasks, Holders, id) == 0
  {
    if tasks != [] { NoneHeld(tasks[..|tasks| - 1], id); }
  }

  // ----- what every step keeps -----

  function InDb<I, C>(st: State<I, C>, id: Id): Option<Session<I, C>> {
    if id in st.db then Some(st.db[id]) else None
  }

  /** The task that has a transaction open is the one that is about to commit a chunk, and the session it
      extends is there. */
  ghost predicate WriterFits<I, C>(st: State<I, C>) {
    (forall t :: 0 <= t < |st.tasks| ==> (st.tasks[t].AppendCommit? <==> st.writer == Some(t))) &&
    (forall t :: 0 <= t < |st.tasks| && st.tasks[t].AppendCommit? ==> st.tasks[t].id in st.db)
  }

  /** The counts for one id. */
  ghost predicate Accounts<I, C>(st: State<I, C>, id: Id) {
    Count(st.log, Removals, id) + (if id in st.db then 1 else 0) <= Count(st.log, Puts, id) &&
    Count(st.log, Takes, id) + Playing(st.tasks, Holders, id) <= Count(st.log, Removals, id) + Count(st.log, Leaks, id)
  }

  /** A take got its session from the database. */
  ghost predicate Obtained<I, C>(log: seq<Event<I, C>>, upTo: nat, id: Id, s: Session<I, C>) {
    exists q :: 0 <= q < upTo && q < |log| && GotAt(log, q, id, s)
  }

  ghost predicate GotAt<I, C>(log: seq<Event<I, C>>, q: nat, id: Id, s: Session<I, C>)
    requires q < |log|
  {
    (log[q] == Removed(id, s) || log[q] == Leaked(id, s)) && Replay(log[..q], id) == Some(s)
  }

  ghost predicate Sound<I, C>(st: State<I, C>) {
    (forall t :: 0 <= t < |st.tasks| && (st.tasks[t].TakeCache? || st.tasks[t].TakeGive?) && st.tasks[t].got.Some? ==>
      Obtained(st.log, |st.log|, st.tasks[t].id, st.tasks[t].got.value)) &&
    (forall p :: 0 <= p < |st.log| && st.log[p].Taken? ==> Obtained(st.log, p, st.log[p].id, st.log[p].session)) &&
    (forall p :: 0 <= p < |st.log| && st.log[p].Appended? ==> Replay(st.log[..p], st.log[p].id).Some?)
  }

  ghost predicate Inv<I, C>(st: State<I, C>) {
    WriterFits(st) && Sound(st) && forall id :: Replay(st.log, id) == InDb(st, id) && Accounts(st, id)
  }

  /** A task that moves. */
  ghost predicate Moves<I, C>(st: State<I, C>, t: nat) {
    t < |st.tasks| && !(Waits(st.tasks[t]) && st.writer.Some?)
  }

  lemma ReplayMore<I, C>(log: seq<Event<I, C>>, e: Event<I, C>, id: Id)
    ensures Replay(log + [e], id) ==
      var before := Replay(log, id);
      if e.id != id then before
      else match e
        case Put(_, s) => Some(s)
        case Appended(_, c) => if before.Some? then Some(WithChunk(before.value, c)) else None
        case Removed(_, _) => None
        case Dropped(_) => None
        case _ => before
  {
    assert (log + [e])[..|log|] == log;
  }

  lemma CountMore<I, C>(log: seq<Event<I, C>>, e: Event<I, C>, k: Kind, id: Id)
    ensures Count(log + [e], k, id) == Count(log, k, id) + if Is(e, k) && e.id == id then 1 else 0
  {
    assert (log + [e])[..|log|] == log;
  }

  lemma EventsOfAct<I, C>(st: State<I, C>, task: Task<I, C>, commits: bool)
    ensures var events := Act(st, task, commits).events;
      events == [] || (|events| == 1 && events == [events[0]] && events[0].id == task.id)
  {
  }

  /** The log goes on telling what the database holds. */
  lemma ReplayKept<I, C>(st: State<I, C>, task: Task<I, C>, commits: bool, id: Id)
    requires Replay(st.log, id) == InDb(st, id)
    ensures var e := Act(st, task, commits);
      Replay(st.log + e.events, id) == if id in e.db then Some(e.db[id]) else None
  {
    hide Replay, Expired, WithChunk, WithExpiry;
    var e := Act(st, task, commits);
    EventsOfAct(st, task, commits);
    if e.events == [] {
      assert st.log + e.events == st.log;
    } else {
      ReplayMore(st.log, e.events[0], id);
    }
  }

  function One(b: bool): nat {
    if b then 1 else 0
  }

  /** What a step adds to the counts of one id. */
  lemma CountsOfAct<I, C>(st: State<I, C>, task: Task<I, C>, commits: bool, id: Id)
    ensures var e := Act(st, task, commits);
      forall k :: Count(st.log + e.events, k, id)
        == Count(st.log, k, id) + One(e.events != [] && Is(e.events[0], k) && e.events[0].id == id)
  {
    hide Count, Act;
    var e := Act(st, task, commits);
    EventsOfAct(st, task, commits);
    forall k ensures Count(st.log + e.events, k, id)
      == Count(st.log, k, id) + One(e.events != [] && Is(e.events[0], k) && e.events[0].id == id)
    {
      if e.events == [] {
        assert st.log + e.events == st.log;
      } else {
        CountMore(st.log, e.events[0], k, id);
      }
    }
  }

  /** A removal takes the session out of the database, and only a put brings one in. */
  lemma ActInDb<I, C>(st: State<I, C>, task: Task<I, C>, commits: bool, id: Id)
    ensures var e := Act(st, task, commits);
      One(e.events != [] && e.events[0].Removed? && e.events[0].id == id) + One(id in e.db)
        <= One(e.events != [] && e.events[0].Put? && e.events[0].id == id) + One(id in st.db)
  {
    hide Expired, WithChunk, WithExpiry;
  }

  /** A take holds a session only by removing or leaking it, and hands out only what it holds. */
  lemma ActHolding<I, C>(st: State<I, C>, task: Task<I, C>, commits: bool, id: Id)
    ensures var e := Act(st, task, commits);
      One(e.events != [] && e.events[0].Taken? && e.events[0].id == id) + One(Holds(e.task, id)) <=
        One(Holds(task, id)) +
        One(e.events != [] && e.events[0].Removed? && e.events[0].id == id) +
        One(e.events != [] && e.events[0].Leaked? && e.events[0].id == id)
  {
    hide Expired, WithChunk, WithExpiry;
  }

  lemma CountsKept<I, C>(st: State<I, C>, t: nat, commits: bool, id: Id)
    requires Moves(st, t) && Accounts(st, id)
    ensures Accounts(Step(st, Move(t, commits)), id)
  {
    hide Count, Playing, Act, Holds;
    var task := st.tasks[t];
    var e := Act(st, task, commits);
    CountsOfAct(st, task, commits, id);
    ActInDb(st, task, commits, id);
    ActHolding(st, task, commits, id);
    PlayingUpdate(st.tasks, t, e.task, Holders, id);
    assert Count(st.log + e.events, Puts, id) >= Count(st.log, Puts, id);
    assert Count(st.log + e.events, Leaks, id) >= Count(st.log, Leaks, id);
  }

  /** One writer at a time. */
  lemma WriterKept<I, C>(st: State<I, C>, t: nat, commits: bool)
    requires Moves(st, t) && WriterFits(st)
    ensures WriterFits(Step(st, Move(t, commits)))
  {
    hide Expired, WithChunk, WithExpiry;
  }

  lemma ObtainedMore<I, C>(log: seq<Event<I, C>>, more: seq<Event<I, C>>, upTo: nat, to: nat, id: Id, s: Session<I, C>)
    requires Obtained(log, upTo, id, s) && upTo <= to
    ensures Obtained(log + more, to, id, s)
  {
    hide Replay;
    var q :| 0 <= q < upTo && q < |log| && GotAt(log, q, id, s);
    assert (log + more)[..q] == log[..q];
    assert GotAt(log + more, q, id, s);
  }

  lemma ObtainedNow<I, C>(log: seq<Event<I, C>>, e: Event<I, C>, id: Id, s: Session<I, C>)
    requires (e == Removed(id, s) || e == Leaked(id, s)) && Replay(log, id) == Some(s)
    ensures Obtained(log + [e], |log| + 1, id, s)
  {
    hide Replay;
    assert (log + [e])[..|log|] == log;
    assert GotAt(log + [e], |log|, id, s);
  }

  /** What takes hold and hand out is what the database held. */
  lemma SoundKept<I, C>(st: State<I, C>, t: nat, commits: bool)
    requires Moves(st, t) && Sound(st) && forall id :: Replay(st.log, id) == InDb(st, id)
    ensures Sound(Step(st, Move(t, commits)))
  {
    hide Replay, Obtained, Expired, WithChunk, WithExpiry;
    var task := st.tasks[t];
    var e := Act(st, task, commits);
    var after := Step(st, Move(t, commits));
    EventsOfAct(st, task, commits);
    forall u | 0 <= u < |after.tasks| && (after.tasks[u].TakeCache? || after.tasks[u].TakeGive?) &&
               after.tasks[u].got.Some?
      ensures Obtained(after.log, |after.log|, after.tasks[u].id, after.tasks[u].got.value)
    {
      if u != t || !task.TakeTx? {
        ObtainedMore(st.log, e.events, |st.log|, |after.log|, after.tasks[u].id, after.tasks[u].got.value);
      } else {
        ObtainedNow(st.log, e.events[0], task.id, st.db[task.id]);
      }
    }
    forall p | 0 <= p < |after.log| && after.log[p].Taken?
      ensures Obtained(after.log, p, after.log[p].id, after.log[p].session)
    {
      if p < |st.log| {
        ObtainedMore(st.log, e.events, p, p, after.log[p].id, after.log[p].session);
      } else {
        ObtainedMore(st.log, e.events, |st.log|, p, after.log[p].id, after.log[p].session);
      }
    }
    forall p | 0 <= p < |after.log| && after.log[p].Appended? ensures Replay(after.log[..p], after.log[p].id).Some? {
      assert after.log[..|st.log|] == st.log;
      if p < |st.log| {
        assert after.log[..p] == st.log[..p];
      }
    }
  }

  /** Every step keeps the invariant. */
  lemma StepKeeps<I, C>(st: State<I, C>, c: Choice)
    requires Inv(st)
    ensures Inv(Step(st, c))
  {
    hide Act, Replay, Count, Playing, Sound, WriterFits;
    if c.Move? && Moves(st, c.t) {
      hide Accounts;
      SoundKept(st, c.t, c.commits);
      WriterKept(st, c.t, c.commits);
      var after := Step(st, c);
      forall id ensures Replay(after.log, id) == InDb(after, id) && Accounts(after, id) {
        ReplayKept(st, st.tasks[c.t], c.commits, id);
        CountsKept(st, c.t, c.commits, id);
      }
    } else {
      Unmoved(st, c);
    }
  }

  lemma Unmoved<I, C>(st: State<I, C>, c: Choice)
    requires Inv(st) && !(c.Move? && Moves(st, c.t))
    ensures Inv(Step(st, c))
  {
    hide Act, Replay, Count, Playing;
    var after := Step(st, c);
    assert after == st.(now := after.now);
    forall id ensures Replay(after.log, id) == InDb(after, id) && Accounts(after, id) {
      assert Accounts(st, id);
    }
  }

  lemma InitialHolds<I, C>(st: State<I, C>)
    requires Initial(st)
    ensures Inv(st)
  {
    hide Playing;
    forall id ensures Replay(st.log, id) == InDb(st, id) && Accounts(st, id) {
      NoneHeld(st.tasks, id);
    }
  }

  /** The invariant holds after any run. */
  lemma {:induction false} RunKeeps<I, C>(st: State<I, C>, choices: seq<Choice>)
    requires Initial(st)
    ensures Inv(Run(st, choices))
  {
    hide Inv, Step;
    if choices == [] {
      InitialHolds(st);
    } else {
      RunKeeps(st, choices[..|choices| - 1]);
      StepKeeps(Run(st, choices[..|choices| - 1]), choices[|choices| - 1]);
    }
  }

  // ----- what can be told before a run -----

  /** The steps in which a take of an id fails to commit. */
  function FailedTakes<I, C>(tasks: seq<Task<I, C>>, choices: seq<Choice>, id: Id): nat {
    if choices == [] then 0
    else
      var c := choices[|choices| - 1];
      FailedTakes(tasks, choices[..|choices| - 1], id) +
      if c.Move? && !c.commits && c.t < |tasks| && tasks[c.t] == TakeTx(id) then 1 else 0
  }

  /** A step puts a session only for an operation that could, which then no longer can, and leaks one only
      for a take whose commit fails. */
  lemma ActBounds<I, C>(st: State<I, C>, task: Task<I, C>, commits: bool, id: Id)
    ensures var e := Act(st, task, commits);
      One(e.events != [] && e.events[0].Put? && e.events[0].id == id) + One(CanPut(e.task, id)) <= One(CanPut(task, id))
    ensures var e := Act(st, task, commits);
      e.events != [] && e.events[0].Leaked? && e.events[0].id == id ==> !commits && task == TakeTx(id)
    ensures !Act(st, task, commits).task.TakeTx?
  {
    hide Expired, WithChunk, WithExpiry;
  }

  /** A take that has not begun is one of the operations of the start. */
  ghost predicate TakesLeft<I, C>(start: seq<Task<I, C>>, tasks: seq<Task<I, C>>) {
    |tasks| == |start| && forall t :: 0 <= t < |tasks| && tasks[t].TakeTx? ==> tasks[t] == start[t]
  }

  ghost predicate Bounded<I, C>(start: seq<Task<I, C>>, choices: seq<Choice>, st: State<I, C>, id: Id) {
    Count(st.log, Puts, id) + Playing(st.tasks, Putters, id) <= Playing(start, Putters, id) &&
    Count(st.log, Leaks, id) <= FailedTakes(start, choices, id)
  }

  lemma StepBounds<I, C>(start: seq<Task<I, C>>, choices: seq<Choice>, st: State<I, C>, c: Choice, id: Id)
    requires TakesLeft(start, st.tasks) && Bounded(start, choices, st, id)
    ensures TakesLeft(start, Step(st, c).tasks) && Bounded(start, choices + [c], Step(st, c), id)
  {
    hide Count, Playing, Act, Holds, CanPut;
    assert (choices + [c])[..|choices|] == choices;
    if c.Move? && Moves(st, c.t) {
      var task := st.tasks[c.t];
      var e := Act(st, task, c.commits);
      CountsOfAct(st, task, c.commits, id);
      ActBounds(st, task, c.commits, id);
      PlayingUpdate(st.tasks, c.t, e.task, Putters, id);
      assert Count(st.log + e.events, Puts, id)
          == Count(st.log, Puts, id) + One(e.events != [] && e.events[0].Put? && e.events[0].id == id);
      assert Count(st.log + e.events, Leaks, id)
          == Count(st.log, Leaks, id) + One(e.events != [] && e.events[0].Leaked? && e.events[0].id == id);
    }
  }

  /** An id is put at most by the operations that can, and leaked at most by the takes whose commit fails. */
  lemma {:induction false} RunBounds<I, C>(st: State<I, C>, choices: seq<Choice>, id: Id)
    requires Initial(st)
    ensures TakesLeft(st.tasks, Run(st, choices).tasks) && Bounded(st.tasks, choices, Run(st, choices), id)
  {
    hide Step;
    if choices != [] {
      var n := |choices| - 1;
      RunBounds(st, choices[..n], id);
      StepBounds(st.tasks, choices[..n], Run(st, choices[..n]), choices[n], id);
      assert choices[..n] + [choices[n]] == choices;
    }
  }

  // ----- over every interleaving -----

  /** However the operations interleave, a session is handed out by takes at most as often as its id was
      put, plus the takes whose commit failed; so at most as often as there are operations that can put it,
      plus the steps in which a take of it fails to commit. */
  lemma TakenAtMostOnce<I, C>(st: State<I, C>, choices: seq<Choice>, id: Id)
    requires Initial(st)
    ensures var log := Run(st, choices).log;
      Count(log, Takes, id) <= Count(log, Puts, id) + Count(log, Leaks, id)
    ensures Count(Run(st, choices).log, Takes, id)
      <= Playing(st.tasks, Putters, id) + FailedTakes(st.tasks, choices, id)
  {
    hide Run, Initial, Count;
    RunKeeps(st, choices);
    RunBounds(st, choices, id);
    assert Accounts(Run(st, choices), id);
  }

  /** The chunks appended to an id, in order. */
  function Chunks<I, C>(log: seq<Event<I, C>>, id: Id): seq<C> {
    if log == [] then []
    else
      var e := log[|log| - 1];
      Chunks(log[..|log| - 1], id) + if e.Appended? && e.id == id then [e.chunk] else []
  }

  /** In a stretch of the log nothing else happened to the session than chunks being appended. */
  ghost predicate OnlyAppends<I, C>(log: seq<Event<I, C>>, id: Id) {
    forall i :: 0 <= i < |log| && log[i].id == id ==> !log[i].Put? && !log[i].Removed? && !log[i].Dropped?
  }

  lemma MoreAppends<I, C>(log: seq<Event<I, C>>, e: Event<I, C>, id: Id)
    ensures Chunks(log + [e], id) == Chunks(log, id) + if e.Appended? && e.id == id then [e.chunk] else []
    ensures OnlyAppends(log, id) && !(e.id == id && (e.Put? || e.Removed? || e.Dropped?)) ==> OnlyAppends(log + [e], id)
  {
    assert (log + [e])[..|log|] == log;
  }

  /** A session in the database is the last one put under its id, with the chunks appended since. */
  lemma {:induction false} ReplayMeans<I, C>(log: seq<Event<I, C>>, id: Id) returns (q: nat)
    requires Replay(log, id).Some?
    ensures q < |log| && log[q].Put? && log[q].id == id && OnlyAppends(log[q + 1..], id)
    ensures Replay(log, id).value
      == log[q].session.(chunks := log[q].session.chunks + Chunks(log[q + 1..], id))
  {
    hide OnlyAppends, Chunks;
    var n := |log| - 1;
    var e := log[n];
    if e.id == id && e.Put? {
      q := n;
      assert log[q + 1..] == [];
      NoAppends<I, C>(id);
    } else {
      q := ReplayMeans(log[..n], id);
      assert log[q + 1..] == log[..n][q + 1..] + [e];
      MoreAppends(log[..n][q + 1..], e, id);
    }
  }

  lemma NoAppends<I, C>(id: Id)
    ensures Chunks<I, C>([], id) == [] && OnlyAppends<I, C>([], id)
  {
  }

  /** A session handed out by a take carries the chunks of exactly the appends that were committed between
      its put and the take's transaction, in their order. */
  lemma TakenIsComplete<I, C>(st: State<I, C>, choices: seq<Choice>, p: nat) returns (q: nat, r: nat)
    requires Initial(st) && p < |Run(st, choices).log| && Run(st, choices).log[p].Taken?
    ensures var log, e := Run(st, choices).log, Run(st, choices).log[p];
      q < r < p && log[q].Put? && log[q].id == e.id && OnlyAppends(log[q + 1..r], e.id) &&
      (log[r] == Removed(e.id, e.session) || log[r] == Leaked(e.id, e.session)) &&
      e.session == log[q].session.(chunks := log[q].session.chunks + Chunks(log[q + 1..r], e.id))
  {
    hide Run, Initial, Chunks, OnlyAppends, Replay;
    RunKeeps(st, choices);
    var log := Run(st, choices).log;
    var e := log[p];
    assert Obtained(log, p, e.id, e.session);
    r :| 0 <= r < p && r < |log| && GotAt(log, r, e.id, e.session);
    q := ReplayMeans(log[..r], e.id);
    assert log[..r][q + 1..] == log[q + 1..r];
  }

  lemma {:induction false} ChunksConcat<I, C>(a: seq<Event<I, C>>, b: seq<Event<I, C>>, id: Id)
    ensures Chunks(a + b, id) == Chunks(a, id) + Chunks(b, id)
  {
    if b == [] {
      assert a + b == a;
    } else {
      ChunksConcat(a, b[..|b| - 1], id);
      assert (a + b)[..|a + b| - 1] == a + b[..|b| - 1];
    }
  }

  lemma {:induction false} NoChunks<I, C>(log: seq<Event<I, C>>, id: Id)
    requires forall i :: 0 <= i < |log| ==> !(log[i].Appended? && log[i].id == id)
    ensures Chunks(log, id) == []
  {
    if log != [] { NoChunks(log[..|log| - 1], id); }
  }

  lemma {:induction false} CountAtLeast<I, C>(log: seq<Event<I, C>>, k: Kind, id: Id, i: nat, j: nat)
    requires i <= j < |log| && Is(log[i], k) && Is(log[j], k) && log[i].id == id == log[j].id
    ensures Count(log, k, id) >= 1 && (i < j ==> Count(log, k, id) >= 2)
  {
    hide Is;
    var n := |log| - 1;
    if j < n {
      CountAtLeast(log[..n], k, id, i, j);
    } else if i < n {
      CountAtLeast(log[..n], k, id, i, i);
    }
  }

  lemma RemovedBetween<I, C>(log: seq<Event<I, C>>, id: Id, q: nat, r: nat)
    requires q < |log| && OnlyAppends(log[q + 1..], id)
    ensures q < r < |log| ==> !(log[r].Removed? && log[r].id == id)
  {
    assert q < r < |log| ==> log[q + 1..][r - q - 1] == log[r];
  }

  /** When an id was put once and removed by a take, chunks were appended to it only in between. */
  lemma AppendsInBetween<I, C>(log: seq<Event<I, C>>, id: Id, q: nat, r: nat, i: nat)
    requires Count(log, Puts, id) <= 1 && q < r < |log| && i < |log|
    requires log[q].Put? && log[q].id == id && log[r].Removed? && log[r].id == id
    requires log[i].Appended? && log[i].id == id && Replay(log[..i], id).Some?
    ensures q < i < r
  {
    hide Replay, Chunks, Count;
    var put := ReplayMeans(log[..i], id);
    CountAtLeast(log, Puts, id, if put < q then put else q, if put < q then q else put);
    assert put == q && q < i;
    RemovedBetween(log[..i], id, put, r);
  }

  /** A session whose id was put once, and that no take leaked, is handed out with all its chunks. */
  lemma PutOnceIsComplete<I, C>(st: State<I, C>, choices: seq<Choice>, p: nat) returns (q: nat)
    requires Initial(st) && p < |Run(st, choices).log| && Run(st, choices).log[p].Taken?
    requires var log, id := Run(st, choices).log, Run(st, choices).log[p].id;
      Count(log, Puts, id) <= 1 && Count(log, Leaks, id) == 0
    ensures var log, e := Run(st, choices).log, Run(st, choices).log[p];
      q < p && log[q].Put? && log[q].id == e.id &&
      e.session == log[q].session.(chunks := log[q].session.chunks + Chunks(log, e.id))
  {
    hide Run, Initial, Chunks, OnlyAppends, Replay, Count;
    var log, e := Run(st, choices).log, Run(st, choices).log[p];
    RunKeeps(st, choices);
    var r;
    q, r := TakenIsComplete(st, choices, p);
    if log[r].Leaked? {
      CountAtLeast(log, Leaks, e.id, r, r);
    }
    assert log[r].Removed?;
    forall i | 0 <= i < |log| && log[i].Appended? && log[i].id == e.id ensures q < i < r {
      AppendsInBetween(log, e.id, q, r, i);
    }
    ChunksBetween(log, e.id, q, r);
  }

  lemma ChunksBetween<I, C>(log: seq<Event<I, C>>, id: Id, q: nat, r: nat)
    requires q < r < |log| && forall i :: 0 <= i < |log| && log[i].Appended? && log[i].id == id ==> q < i < r
    ensures Chunks(log, id) == Chunks(log[q + 1..r], id)
  {
    hide Chunks;
    var a, b, c := log[..q + 1], log[q + 1..r], log[r..];
    assert log == a + b + c;
    forall i | 0 <= i < |c| ensures c[i] == log[r + i] {
    }
    NoChunks(a, id);
    NoChunks(c, id);
    ChunksConcat(a + b, c, id);
    ChunksConcat(a, b, id);
  }

  /** When at most one operation can put an id, and no take of it fails to commit, it is handed out with all
      the chunks that were ever appended to it. */
  lemma FreshIsComplete<I, C>(st: State<I, C>, choices: seq<Choice>, p: nat) returns (q: nat)
    requires Initial(st) && p < |Run(st, choices).log| && Run(st, choices).log[p].Taken?
    requires var id := Run(st, choices).log[p].id;
      Playing(st.tasks, Putters, id) <= 1 && FailedTakes(st.tasks, choices, id) == 0
    ensures var log, e := Run(st, choices).log, Run(st, choices).log[p];
      q < p && log[q].Put? && log[q].id == e.id &&
      e.session == log[q].session.(chunks := log[q].session.chunks + Chunks(log, e.id))
  {
    hide Run, Initial, Chunks, Count, Playing, FailedTakes;
    RunBounds(st, choices, Run(st, choices).log[p].id);
    q := PutOnceIsComplete(st, choices, p);
  }

  // ----- what interleaving breaks -----

  lemma RunNothing<I, C>(st: State<I, C>)
    ensures Run(st, []) == st
  {
  }

  /** A run with one more step of task t. */
  lemma Then<I, C>(st: State<I, C>, choices: seq<Choice>, at: State<I, C>, t: nat, commits: bool, next: State<I, C>)
    returns (more: seq<Choice>)
    requires Run(st, choices) == at && t < |at.tasks| && !(Waits(at.tasks[t]) && at.writer.Some?)
    requires Leads(at, t, commits, next)
    ensures Run(st, more) == next
  {
    hide Act;
    more := choices + [Move(t, commits)];
    assert more[..|choices|] == choices;
  }

  ghost predicate Leads<I, C>(at: State<I, C>, t: nat, commits: bool, next: State<I, C>)
    requires t < |at.tasks|
  {
    var e := Act(at, at.tasks[t], commits);
    next.cache == e.cache && next.db == e.db && next.now == at.now &&
    next.tasks == at.tasks[t := e.task] && next.log == at.log + e.events &&
    next.writer == if e.task.AppendCommit? then Some(t) else if at.tasks[t].AppendCommit? then None else at.writer
  }

  /** A lookup that read the database before a take fills the cache after it, and later lookups show a session
      that was handed out. */
  lemma StaleLookup<I, C>(id: Id, s: Session<I, C>)
    returns (st: State<I, C>, choices: seq<Choice>)
    requires s.expiresAt == 0
    ensures Initial(st)
    ensures Run(st, choices).log
      == [Begun(id, s), Put(id, s), Removed(id, s), Taken(id, s), Shown(id, s), Shown(id, s)]
  {
    hide Run;
    st := State(map[], map[], 0, None,
      [LookCache(id, Report), PutCache(id, s, None), TakeTx(id), LookCache(id, Report)], []);
    choices := [];
    RunNothing(st);
    var s0 := st;
    var one := map[id := s];
    var s1 := State(map[], map[], 0, None,
      [LookDb(id, Report), PutCache(id, s, None), TakeTx(id), LookCache(id, Report)],
      []);
    choices := Then(st, choices, s0, 0, true, s1);
    var s2 := State(one, map[], 0, None,
      [LookDb(id, Report), PutDb(id, s, None), TakeTx(id), LookCache(id, Report)],
      [Begun(id, s)]);
    choices := Then(st, choices, s1, 1, true, s2);
    var s3 := State(one, one, 0, None,
      [LookDb(id, Report), Done, TakeTx(id), LookCache(id, Report)],
      [Begun(id, s), Put(id, s)]);
    choices := Then(st, choices, s2, 1, true, s3);
    var s4 := State(one, one, 0, None,
      [Fill(id, s, Report), Done, TakeTx(id), LookCache(id, Report)],
      [Begun(id, s), Put(id, s)]);
    choices := Then(st, choices, s3, 0, true, s4);
    var s5 := State(one, map[], 0, None,
      [Fill(id, s, Report), Done, TakeCache(id, Some(s)), LookCache(id, Report)],
      [Begun(id, s), Put(id, s), Removed(id, s)]);
    choices := Then(st, choices, s4, 2, true, s5);
    var s6 := State(map[], map[], 0, None,
      [Fill(id, s, Report), Done, TakeGive(id, Some(s)), LookCache(id, Report)],
      [Begun(id, s), Put(id, s), Removed(id, s)]);
    choices := Then(st, choices, s5, 2, true, s6);
    var s7 := State(map[], map[], 0, None,
      [Fill(id, s, Report), Done, Done, LookCache(id, Report)],
      [Begun(id, s), Put(id, s), Removed(id, s), Taken(id, s)]);
    choices := Then(st, choices, s6, 2, true, s7);
    var s8 := State(one, map[], 0, None,
      [Done, Done, Done, LookCache(id, Report)],
      [Begun(id, s), Put(id, s), Removed(id, s), Taken(id, s), Shown(id, s)]);
    choices := Then(st, choices, s7, 0, true, s8);
    var s9 := State(one, map[], 0, None,
      [Done, Done, Done, Done],
      [Begun(id, s), Put(id, s), Removed(id, s), Taken(id, s), Shown(id, s), Shown(id, s)]);
    choices := Then(st, choices, s8, 3, true, s9);
  }
}
