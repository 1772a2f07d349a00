/** An operation that runs while the others wait does what the store's operation does: to cache and database, and in
    what it hands out. */
module SessionAlone {
  import opened ErasureCode
  import opened Sessions
  import opened SessionRuns

  /** Cache and database of a state are those of a store. */
  ghost predicate Same<I, C>(st: State<I, C>, store: SessionStore<I, C>)
    reads store
  {
    store.cache == st.cache && store.db == Some(st.db)
  }

  /** A run in which only task t moves, up to its end. */
  ghost predicate Alone<I, C>(st: State<I, C>, choices: seq<Choice>, t: nat, events: seq<Event<I, C>>) {
    (forall i :: 0 <= i < |choices| ==> choices[i].Move? && choices[i].t == t) &&
    var end := Run(st, choices);
    t < |st.tasks| && end.tasks == st.tasks[t := Done] && end.now == st.now && end.writer == st.writer &&
    end.log == st.log + events
  }

  /** The run so far: task t has come to some point. */
  ghost predicate SoFar<I, C>(st: State<I, C>, choices: seq<Choice>, t: nat, at: State<I, C>,
                              events: seq<Event<I, C>>) {
    (forall i :: 0 <= i < |choices| ==> choices[i].Move? && choices[i].t == t) && Run(st, choices) == at &&
    t < |st.tasks| == |at.tasks| && at.tasks == st.tasks[t := at.tasks[t]] && at.now == st.now &&
    at.writer == (if at.tasks[t].AppendCommit? then Some(t) else None) && at.log == st.log + events
  }

  lemma Begin<I, C>(st: State<I, C>, t: nat)
    requires t < |st.tasks| && st.writer.None? && !st.tasks[t].AppendCommit?
    ensures SoFar(st, [], t, st, [])
  {
    assert st.tasks[t := st.tasks[t]] == st.tasks;
    assert st.log + [] == st.log;
  }

  /** One more step of task t. */
  lemma Next<I, C>(st: State<I, C>, choices: seq<Choice>, t: nat, at: State<I, C>, events: seq<Event<I, C>>,
                   commits: bool)
      returns (more: seq<Choice>, next: State<I, C>, all: seq<Event<I, C>>)
    requires SoFar(st, choices, t, at, events)
    ensures var e := Act(at, at.tasks[t], commits);
      SoFar(st, more, t, next, all) && all == events + e.events && next.cache == e.cache && next.db == e.db &&
      next.tasks[t] == e.task
  {
    hide Act;
    var e := Act(at, at.tasks[t], commits);
    next, more, all := Step(at, Move(t, commits)), choices + [Move(t, commits)], events + e.events;
    assert more[..|choices|] == choices;
    NoOther(at, t);
    assert at.log + e.events == st.log + all;
    assert next.tasks == st.tasks[t := e.task];
  }

  lemma NoOther<I, C>(at: State<I, C>, t: nat)
    requires t < |at.tasks| && at.writer == (if at.tasks[t].AppendCommit? then Some(t) else None)
    ensures Moves(at, t)
  {
  }

  lemma End<I, C>(st: State<I, C>, choices: seq<Choice>, t: nat, at: State<I, C>, events: seq<Event<I, C>>)
    requires SoFar(st, choices, t, at, events) && at.tasks[t].Done? && st.writer.None?
    ensures Alone(st, choices, t, events) && Run(st, choices).cache == at.cache && Run(st, choices).db == at.db
  {
    hide Run;
  }

  /** storeDownloadSession */
  method PutAlone<I, C>(store: SessionStore<I, C>, st: State<I, C>, t: nat, commits: bool)
      returns (ok: bool, ghost choices: seq<Choice>)
    requires Same(st, store) && store.Coherent() && st.writer.None?
    requires t < |st.tasks| && st.tasks[t].PutCache? && st.tasks[t].after.None?
    modifies store
    ensures Same(Run(st, choices), store)
    ensures var id, s := st.tasks[t].id, st.tasks[t].session;
      Alone(st, choices, t, [Begun(id, s)] + if ok then [Put(id, s)] else [])
  {
    var id, s := st.tasks[t].id, st.tasks[t].session;
    ok := store.Put(id, s, commits);
    hide Run, SoFar, Alone;
    Begin(st, t);
    ghost var at, events;
    choices, at, events := Next(st, [], t, st, [], commits);
    choices, at, events := Next(st, choices, t, at, events, commits);
    if !ok {
      choices, at, events := Next(st, choices, t, at, events, true);
    }
    assert events == [Begun(id, s)] + if ok then [Put(id, s)] else [];
    End(st, choices, t, at, events);
  }

  /** loadDownloadSession */
  method LoadAlone<I, C>(store: SessionStore<I, C>, st: State<I, C>, t: nat)
      returns (r: Loaded<I, C>, ghost choices: seq<Choice>)
    requires Same(st, store) && store.Coherent() && st.writer.None?
    requires t < |st.tasks| && st.tasks[t].LookCache? && st.tasks[t].goal.Report? && st.tasks[t].id != ""
    modifies store
    ensures Same(Run(st, choices), store)
    ensures var id := st.tasks[t].id;
      Alone(st, choices, t, match r case Found(s) => [Shown(id, s)] case IsExpired => [Dropped(id)] case NotFound => [])
  {
    var id := st.tasks[t].id;
    r := store.Load(id, st.now);
    hide Run, SoFar, Alone;
    Begin(st, t);
    ghost var at, events;
    choices, at, events := Next(st, [], t, st, [], true);
    if !at.tasks[t].Done? {
      choices, at, events := Next(st, choices, t, at, events, true);
    }
    if !at.tasks[t].Done? {
      choices, at, events := Next(st, choices, t, at, events, true);
    }
    assert events == match r case Found(s) => [Shown(id, s)] case IsExpired => [Dropped(id)] case NotFound => [];
    End(st, choices, t, at, events);
  }

  lemma TakeSteps<I, C>(st: State<I, C>, t: nat, id: Id, commits: bool) returns (choices: seq<Choice>)
    requires t < |st.tasks| && st.tasks[t] == TakeTx(id) && st.writer.None?
    ensures Run(st, choices).cache == st.cache - {id}
    ensures Run(st, choices).db == if commits then st.db - {id} else st.db
    ensures var read: seq<Event<I, C>> :=
        if id !in st.db then [] else if commits then [Removed(id, st.db[id])] else [Leaked(id, st.db[id])];
      Alone(st, choices, t, if id in st.db && !Expired(st.db[id], st.now) then read + [Taken(id, st.db[id])] else read)
  {
    hide Run, SoFar, Alone, Expired;
    Begin(st, t);
    var at, events;
    choices, at, events := Next(st, [], t, st, [], commits);
    var read := Act(st, TakeTx(id), commits).events;
    assert events == read;
    choices, at, events := Next(st, choices, t, at, events, true);
    assert events == read;
    Keeps(st, choices, t, at, events);
    assert at.tasks[t] == TakeGive(id, InDb(st, id));
    choices, at, events := Next(st, choices, t, at, events, true);
    End(st, choices, t, at, events);
  }

  lemma Keeps<I, C>(st: State<I, C>, choices: seq<Choice>, t: nat, at: State<I, C>, events: seq<Event<I, C>>)
    requires SoFar(st, choices, t, at, events)
    ensures t < |at.tasks| && at.now == st.now
  {
    hide Run;
  }

  /** takeDownloadSession */
  method TakeAlone<I, C>(store: SessionStore<I, C>, st: State<I, C>, t: nat, commits: bool)
      returns (r: Loaded<I, C>, ghost choices: seq<Choice>)
    requires Same(st, store) && store.Coherent() && st.writer.None?
    requires t < |st.tasks| && st.tasks[t].TakeTx? && st.tasks[t].id != ""
    modifies store
    ensures Same(Run(st, choices), store)
    ensures var id := st.tasks[t].id;
      var read: seq<Event<I, C>> :=
        if id !in st.db then [] else if commits then [Removed(id, st.db[id])] else [Leaked(id, st.db[id])];
      Alone(st, choices, t, if r.Found? then read + [Taken(id, r.session)] else read)
  {
    var id := st.tasks[t].id;
    r := store.Take(id, st.now, commits);
    hide Run, Alone;
    choices := TakeSteps(st, t, id, commits);
  }

  /** appendDownloadChunkToSession */
  method AppendAlone<I, C>(store: SessionStore<I, C>, st: State<I, C>, t: nat, commits: bool)
      returns (r: Loaded<I, C>, ok: bool, ghost choices: seq<Choice>)
    requires Same(st, store) && store.Coherent() && st.writer.None?
    requires t < |st.tasks| && st.tasks[t].AppendTx? && st.tasks[t].id != ""
    modifies store
    ensures Same(Run(st, choices), store)
    ensures var id, c := st.tasks[t].id, st.tasks[t].chunk;
      Alone(st, choices, t, if !r.Found? then [] else if ok then [Tried(id, c), Appended(id, c)] else [Tried(id, c)])
  {
    var id, c := st.tasks[t].id, st.tasks[t].chunk;
    r, ok := store.Append(id, c, st.now, commits);
    hide Run, SoFar, Alone;
    Begin(st, t);
    ghost var at, events;
    choices, at, events := Next(st, [], t, st, [], commits);
    if !at.tasks[t].Done? {
      choices, at, events := Next(st, choices, t, at, events, commits);
    }
    assert events == if !r.Found? then [] else if ok then [Tried(id, c), Appended(id, c)] else [Tried(id, c)];
    End(st, choices, t, at, events);
  }
}
