/** The session store of the gateway: an in-memory cache in front of a database that may be missing. A fetch
    session is one to which no chunk is ever appended. Here every operation runs on its own. */
module Sessions {
  import opened ErasureCode

  type Id = string

  /** expiresAt 0 means never */
  datatype Session<Info, Chunk> = Session(info: Info, expiresAt: nat, chunks: seq<Chunk>)

  predicate Expired<I, C>(s: Session<I, C>, now: nat) {
    s.expiresAt != 0 && now > s.expiresAt
  }

  function WithChunk<I, C>(s: Session<I, C>, c: C): Session<I, C> {
    s.(chunks := s.chunks + [c])
  }

  const HALF_AN_HOUR: nat := 1800

  function WithExpiry<I, C>(s: Session<I, C>, now: nat): Session<I, C> {
    if s.expiresAt == 0 then s.(expiresAt := now + HALF_AN_HOUR) else s
  }

  datatype Loaded<I, C> = Found(session: Session<I, C>) | NotFound | IsExpired

  class SessionStore<Info, Chunk> {
    var cache: map<Id, Session<Info, Chunk>>
    var db: Option<map<Id, Session<Info, Chunk>>>

    /** The sessions that exist. */
    ghost function Live(): map<Id, Session<Info, Chunk>>
      reads this
    {
      if db.Some? then db.value else cache
    }

    /** The cache holds nothing that the database does not hold. */
    ghost predicate Coherent()
      reads this
    {
      forall id :: id in cache ==> id in Live() && Live()[id] == cache[id]
    }

    constructor (withDb: bool)
      ensures Coherent() && Live() == map[] && db.Some? == withDb
    {
      cache, db := map[], if withDb then Some(map[]) else None;
    }

    /** One read-write transaction that puts a session; it may fail to commit. */
    method DbPut(id: Id, s: Session<Info, Chunk>, commits: bool) returns (ok: bool)
      requires db.Some?
      modifies this`db
      ensures ok == commits && db == Some(if commits then old(db.value)[id := s] else old(db.value))
    {
      if commits {
        db := Some(db.value[id := s]);
      }
      return commits;
    }

    /** storeFetchSession and storeDownloadSession, with the random id they draw: a session without expiry
        time is refused. */
    method Store(id: Id, s: Session<Info, Chunk>, commits: bool) returns (ok: bool)
      requires Coherent()
      modifies this
      ensures Coherent() && db.Some? == old(db.Some?)
      ensures ok <==> s.expiresAt != 0 && (commits || db.None?)
      ensures Live() == if ok then old(Live())[id := s] else old(Live())
      ensures cache == if ok then old(cache)[id := s] else if s.expiresAt == 0 then old(cache) else old(cache) - {id}
    {
      if s.expiresAt == 0 {
        return false;
      }
      ok := Put(id, s, commits);
    }

    /** storeDownloadSessionWithID: a session without expiry time gets half an hour. */
    method StoreWithId(id: Id, s: Session<Info, Chunk>, now: nat, commits: bool) returns (ok: bool)
      requires Coherent()
      modifies this
      ensures Coherent() && db.Some? == old(db.Some?)
      ensures ok <==> id != "" && (commits || db.None?)
      ensures Live() == if ok then old(Live())[id := WithExpiry(s, now)] else old(Live())
      ensures cache ==
        if ok then old(cache)[id := WithExpiry(s, now)] else if id == "" then old(cache) else old(cache) - {id}
    {
      if id == "" {
        return false;
      }
      ok := Put(id, WithExpiry(s, now), commits);
    }

    /** The cache first, then the database; should that fail, the cache forgets the session again. */
    method Put(id: Id, s: Session<Info, Chunk>, commits: bool) returns (ok: bool)
      requires Coherent()
      modifies this
      ensures Coherent() && db.Some? == old(db.Some?)
      ensures ok <==> commits || db.None?
      ensures Live() == if ok then old(Live())[id := s] else old(Live())
      ensures cache == if ok then old(cache)[id := s] else old(cache) - {id}
    {
      cache := cache[id := s];
      if db.Some? {
        ok := DbPut(id, s, commits);
        if !ok {
          cache := cache - {id};
        }
        return;
      }
      return true;
    }

    /** peekFetchSession and loadDownloadSession: the session that exists; an expired one is removed. */
    method Load(id: Id, now: nat) returns (r: Loaded<Info, Chunk>)
      requires Coherent()
      modifies this
      ensures Coherent() && db.Some? == old(db.Some?)
      ensures r ==
        if id == "" || id !in old(Live()) then NotFound
        else if Expired(old(Live())[id], now) then IsExpired
        else Found(old(Live())[id])
      ensures r.Found? <==>
        id != "" && id in old(Live()) && (old(Live())[id].expiresAt == 0 || now <= old(Live())[id].expiresAt)
      ensures Live() == if r.IsExpired? then old(Live()) - {id} else old(Live())
      ensures cache ==
        if r.Found? then old(cache)[id := r.session] else if r.IsExpired? then old(cache) - {id} else old(cache)
    {
      if id == "" {
        return NotFound;
      }
      if id in cache {
        var s := cache[id];
        if Expired(s, now) {
          cache := cache - {id};
          if db.Some? {
            db := Some(db.value - {id});
          }
          return IsExpired;
        }
        return Found(s);
      }
      if db.None? || id !in db.value {
        return NotFound;
      }
      var s := db.value[id];
      if Expired(s, now) {
        db := Some(db.value - {id});
        return IsExpired;
      }
      cache := cache[id := s];
      return Found(s);
    }

    /** takeFetchSession and takeDownloadSession. The outcome of the commit is not looked at: should it fail,
        the session is handed out and stays. */
    method Take(id: Id, now: nat, commits: bool) returns (r: Loaded<Info, Chunk>)
      requires Coherent()
      modifies this
      ensures Coherent() && db.Some? == old(db.Some?)
      ensures r ==
        if id == "" || id !in old(Live()) then NotFound
        else if Expired(old(Live())[id], now) then IsExpired
        else Found(old(Live())[id])
      ensures Live() == if id == "" || (db.Some? && !commits) then old(Live()) else old(Live()) - {id}
      ensures cache == if id == "" then old(cache) else old(cache) - {id}
    {
      if id == "" {
        return NotFound;
      }
      var s: Option<Session<Info, Chunk>> := None;
      if db.Some? {
        if id in db.value {
          s := Some(db.value[id]);
          if commits {
            db := Some(db.value - {id});
          }
        }
      } else if id in cache {
        s := Some(cache[id]);
      }
      cache := cache - {id};
      if s.None? {
        return NotFound;
      }
      if Expired(s.value, now) {
        return IsExpired;
      }
      return Found(s.value);
    }

    /** appendDownloadChunkToSession. The cache is written inside the transaction: should the commit fail,
        the cache is ahead of the database. Refusing an expired session rolls its deletion back. */
    method Append(id: Id, c: Chunk, now: nat, commits: bool) returns (r: Loaded<Info, Chunk>, ok: bool)
      requires Coherent()
      modifies this
      ensures db.Some? == old(db.Some?)
      ensures ok <==> r.Found? && (db.None? || commits)
      ensures r ==
        if id == "" || id !in old(Live()) then NotFound
        else if Expired(old(Live())[id], now) then IsExpired
        else Found(WithChunk(old(Live())[id], c))
      ensures Live() ==
        if ok then old(Live())[id := r.session]
        else if r.IsExpired? && db.None? then old(Live()) - {id}
        else old(Live())
      ensures cache ==
        if r.Found? then old(cache)[id := r.session] else if r.IsExpired? then old(cache) - {id} else old(cache)
      ensures Coherent() <==> !(r.Found? && !ok)
    {
      if id == "" {
        return NotFound, false;
      }
      if id !in (if db.Some? then db.value else cache) {
        return NotFound, false;
      }
      var s := (if db.Some? then db.value else cache)[id];
      if Expired(s, now) {
        cache := cache - {id};
        return IsExpired, false;
      }
      s := WithChunk(s, c);
      assert |s.chunks| == |Live()[id].chunks| + 1;
      if db.Some? && commits {
        db := Some(db.value[id := s]);
      }
      cache := cache[id := s];
      return Found(s), db.None? || commits;
    }

    /** A session stored under an id is found, by a lookup or by a take, up to and including the time it expires, which
        is half an hour after it was stored unless it says otherwise; and no later. */
    method StoreAndFind(id: Id, s: Session<Info, Chunk>, storedAt: nat, now: nat, takes: bool)
        returns (stored: bool, r: Loaded<Info, Chunk>)
      requires Coherent()
      modifies this
      ensures stored <==> id != ""
      ensures var deadline := if s.expiresAt == 0 then storedAt + 30 * 60 else s.expiresAt;
        stored ==> r == if now <= deadline then Found(s.(expiresAt := deadline)) else IsExpired
    {
      stored := StoreWithId(id, s, storedAt, true);
      r := NotFound;
      if stored && takes {
        r := Take(id, now, true);
      } else if stored {
        r := Load(id, now);
      }
    }

    /** appendDownloadChunkToSessionOrCreate: afterwards the session ends with the chunk, and an existing one
        keeps its chunks. Should it fail, an expired session is gone, and an initial one that was put stays. */
    method AppendOrCreate(id: Id, initial: Session<Info, Chunk>, c: Chunk, now: nat, putCommits: bool,
                          appendCommits: bool) returns (ok: bool)
      requires Coherent()
      modifies this
      ensures db.Some? == old(db.Some?)
      ensures var found := id in old(Live());
        var s := if found then old(Live())[id] else WithExpiry(initial, now);
        (ok <==> id != "" && !Expired(s, now) && (db.None? || (appendCommits && (found || putCommits)))) &&
        (ok ==> Live() == old(Live())[id := WithChunk(s, c)]) &&
        (Coherent() <==>
          !(id != "" && !Expired(s, now) && db.Some? && !appendCommits && (found || putCommits)))
      ensures !ok ==> var found := id in old(Live());
        Live() ==
          if id == "" then old(Live())
          else if found then if Expired(old(Live())[id], now) then old(Live()) - {id} else old(Live())
          else if db.Some? && putCommits then old(Live())[id := WithExpiry(initial, now)]
          else old(Live())
    {
      var loaded := Load(id, now);
      if loaded.NotFound? {
        ok := StoreWithId(id, initial, now, putCommits);
        if !ok {
          return false;
        }
      } else if loaded.IsExpired? {
        return false;
      }
      var r;
      r, ok := Append(id, c, now, appendCommits);
    }
  }
}
