/** The HTTP surface of the cache node, cmd/cachenode/server.go, serving one request at a time, and the
    operator's flush of cmd/cachenode/main.go.

    The server keeps a ghost log of what it wrote and removed. Its invariant says that the two-key store is
    the one-map store of that log, and that the log is lawful: no workspace ever touched another's live
    entry. Time passes, and Redis may fail, inside every request. */
module CacheServer {
  import opened Prelude
  import opened RedisModel
  import opened CacheKeys
  import opened CacheSpec
  import opened CacheStorage
  import opened SizeEstimate

  const Second: int := 1_000_000_000

  /** int64 multiplication wraps around. */
  function Wrap(n: int): Int64 { (n - MinInt64) % 0x1_0000_0000_0000_0000 + MinInt64 }

  /** The duration, in nanoseconds, that a POST asks Redis for. */
  function Lifetime(ttlSeconds: Int64): Int64 {
    Wrap((if ttlSeconds <= 0 then 3600 else ttlSeconds) * Second)
  }

  /** The longest ttl_seconds that fits in an int64 of nanoseconds. */
  const LongestTTL: Int64 := 9_223_372_036

  /** An entry lives as long as its POST asked exactly when the nanoseconds fit. */
  lemma LifetimeIsExact(ttlSeconds: Int64)
    requires ttlSeconds > 0
    ensures Lifetime(ttlSeconds) == ttlSeconds * Second <==> ttlSeconds <= LongestTTL
  {
  }

  /** Without a positive ttl_seconds an entry lives for an hour; with one that fits, for as many seconds. */
  predicate LivesAsAsked(e: Event, ttlSeconds: Int64) {
    && e.Wrote?
    && (ttlSeconds <= 0 ==> e.expiry == At(e.at + 3_600_000_000_000))
    && (0 < ttlSeconds <= 9_223_372_036 ==> e.expiry == At(e.at + ttlSeconds * 1_000_000_000))
  }

  lemma PostLivesAsAsked(key: string, ws: string, body: Body, now: int)
    requires body.Parsed?
    ensures LivesAsAsked(PostEvent(key, ws, body, now), body.ttlSeconds)
  {
    if body.ttlSeconds > 0 {
      LifetimeIsExact(body.ttlSeconds);
    }
  }

  /** One second more, and the entry never expires. */
  lemma OneSecondTooLong(now: int)
    ensures Deadline(now, Lifetime(LongestTTL + 1)) == Never
  {
  }

  /** Unreadable: reading the body failed. Malformed: it is not the JSON object expected. */
  datatype Body = Unreadable | Malformed | Parsed(value: string, ttlSeconds: Int64, ownerWorkspace: string)

  datatype Verb = GET | POST | DELETE | OtherVerb

  /** A missing header is "". */
  datatype Request = Request(verb: Verb, path: string, nodeSecret: string, workspace: string, body: Body)

  datatype Response = Response(status: int, value: string, owner: string)

  function Plain(status: int): Response { Response(status, "", "") }

  function KeyOf(req: Request): string { TrimPrefix(req.path, "/cache/") }

  /** What follows /cache/ is the key. */
  lemma KeyOfPath(req: Request, key: string)
    requires req.path == "/cache/" + key
    ensures KeyOf(req) == key
  {
  }

  // ---------------------------------------------------------------------------
  // Two keys for one entry

  /** `db` holds exactly the entries of `store`, each as a value key and an owner key with one lifetime. */
  ghost predicate Rep(db: Db, store: Store) {
    forall k: string :: RepAt(db, store, k)
  }

  predicate RepAt(db: Db, store: Store, k: string) {
    && (CacheKey(k) in db <==> k in store) && (OwnerKey(k) in db <==> k in store)
    && (k in store ==>
          && db[CacheKey(k)] == Cell(store[k].value, store[k].expiry)
          && db[OwnerKey(k)] == Cell(store[k].owner, store[k].expiry))
  }

  /** Keys of other services in the same Redis. */
  predicate Foreign(k: Key) { !(CachePrefix <= k) && !(OwnerPrefix <= k) }

  ghost predicate ForeignUntouched(before: Db, after: Db) {
    forall k | Foreign(k) :: (k in after <==> k in before) && (k in before ==> after[k] == before[k])
  }

  function PutEntry(db: Db, key: string, entry: Entry): Db {
    db[CacheKey(key) := Cell(entry.value, entry.expiry)][OwnerKey(key) := Cell(entry.owner, entry.expiry)]
  }

  lemma RepSet(db: Db, store: Store, key: string, value: string, owner: string, ttl: int, now: int)
    requires Rep(db, store) && owner != ""
    ensures Rep(RunAll(db, now, SetCommands(key, value, owner, ttl)),
                store[key := Entry(value, owner, Deadline(now, ttl))])
    ensures ForeignUntouched(db, RunAll(db, now, SetCommands(key, value, owner, ttl)))
  {
    SetEffect(db, now, key, value, owner, ttl);
    var entry := Entry(value, owner, Deadline(now, ttl));
    RepPut(db, store, key, entry);
    assert RunAll(db, now, SetCommands(key, value, owner, ttl)) == PutEntry(db, key, entry);
  }

  lemma RepPut(db: Db, store: Store, key: string, entry: Entry)
    requires Rep(db, store)
    ensures Rep(PutEntry(db, key, entry), store[key := entry]) && ForeignUntouched(db, PutEntry(db, key, entry))
  {
    var after := PutEntry(db, key, entry);
    var later := store[key := entry];
    HasPrefix(key);
    forall k ensures RepAt(after, later, k) {
      assert RepAt(db, store, k);
      KeysApart(k, key);
      KeysApart(key, k);
    }
  }

  lemma RepDelete(db: Db, store: Store, key: string)
    requires Rep(db, store)
    ensures Rep(db - {CacheKey(key), OwnerKey(key)}, store - {key})
    ensures ForeignUntouched(db, db - {CacheKey(key), OwnerKey(key)})
  {
    HasPrefix(key);
    forall k ensures RepAt(db - {CacheKey(key), OwnerKey(key)}, store - {key}, k) {
      assert RepAt(db, store, k);
      KeysApart(k, key);
      KeysApart(key, k);
    }
  }

  function EntriesOf(gone: set<Key>): set<string> { set g | g in gone :: TrimPrefix(g, CachePrefix) }

  lemma RepFlush(db: Db, store: Store, gone: set<Key>)
    requires Rep(db, store) && forall g | g in gone :: CachePrefix <= g
    ensures Rep(WithoutEntries(db, gone), store - EntriesOf(gone))
    ensures ForeignUntouched(db, WithoutEntries(db, gone))
  {
    var after := WithoutEntries(db, gone);
    forall k ensures RepAt(after, store - EntriesOf(gone), k) {
      assert RepAt(db, store, k);
      HasPrefix(k);
      assert TrimPrefix(CacheKey(k), CachePrefix) == k;
      assert k in EntriesOf(gone) <==> CacheKey(k) in gone by {
        if g :| g in gone && TrimPrefix(g, CachePrefix) == k {
          TrimFindsEntry(g);
        }
      }
      FlushedOwner(db, gone, k);
      KeysApart(k, k);
    }
    forall k | Foreign(k) ensures (k in after <==> k in db) && (k in db ==> after[k] == db[k]) {
      forall g | g in gone ensures k != g && k != OwnerKey(TrimPrefix(g, CachePrefix)) {
        HasPrefix(TrimPrefix(g, CachePrefix));
      }
    }
  }

  /** The prefix trim maps each value key to the owner key of its own entry. */
  lemma FlushedOwner(db: Db, gone: set<Key>, k: string)
    requires forall g | g in gone :: CachePrefix <= g
    ensures OwnerKey(k) in WithoutEntries(db, gone) <==> OwnerKey(k) in db && CacheKey(k) !in gone
    ensures CacheKey(k) in WithoutEntries(db, gone) <==> CacheKey(k) in db && CacheKey(k) !in gone
  {
    HasPrefix(k);
    forall g | g in gone
      ensures OwnerKey(TrimPrefix(g, CachePrefix)) == OwnerKey(k) <==> g == CacheKey(k)
      ensures OwnerKey(TrimPrefix(g, CachePrefix)) != CacheKey(k) && g != OwnerKey(k)
    {
      TrimFindsEntry(g);
      KeysApart(TrimPrefix(g, CachePrefix), k);
      KeysApart(k, TrimPrefix(g, CachePrefix));
    }
    if CacheKey(k) in gone {
      assert OwnerKey(k) == OwnerPrefix + TrimPrefix(CacheKey(k), CachePrefix);
    }
  }

  // ---------------------------------------------------------------------------
  // The server

  /** An empty configured secret admits nobody outside development. */
  predicate Authorized(secret: string, devNoSecret: bool, req: Request) {
    if secret == "" then devNoSecret else req.nodeSecret == secret
  }

  predicate Admitted(secret: string, devNoSecret: bool, req: Request) {
    Authorized(secret, devNoSecret, req) && KeyOf(req) != "" && req.workspace != ""
  }

  /** The statuses a verb can be answered with. */
  function Answers(verb: Verb): set<int> {
    match verb
    case GET => {200, 404, 500}
    case POST => {201, 400, 403, 500, 507}
    case DELETE => {204, 403, 500}
    case OtherVerb => {405}
  }

  class CacheServer {
    const storage: CacheStorage
    const secret: string
    const devNoSecret: bool
    const shareEnabled: bool
    ghost var log: seq<Event>
    /** How many GETs were answered 200. */
    ghost var served: nat

    ghost predicate Valid()
      reads this, storage, storage.rdb
    {
      && Rep(storage.rdb.db, Fold(log)) && Lawful(log)
      && (log != [] ==> log[|log| - 1].at <= storage.rdb.now)
      && storage.Counted() && served <= storage.hits
    }

    constructor (storage: CacheStorage, secret: string, devNoSecret: bool, shareEnabled: bool)
      requires storage.Counted()
      requires forall k | k in storage.rdb.db :: Foreign(k)
      ensures Valid() && log == [] && this.storage == storage
      ensures this.secret == secret && this.devNoSecret == devNoSecret && this.shareEnabled == shareEnabled
    {
      this.storage, this.secret := storage, secret;
      this.devNoSecret, this.shareEnabled := devNoSecret, shareEnabled;
      log, served := [], 0;
      new;
      forall k ensures RepAt(storage.rdb.db, Fold(log), k) {
        HasPrefix(k);
      }
    }

    /** Nothing was written or removed. */
    twostate predicate Unwritten()
      reads this, storage.rdb
    {
      log == old(log) && storage.rdb.db == old(storage.rdb.db)
    }

    /** The size check measured everything it sampled and estimated that `value` fits; and if SCAN listed each
        key once, the ceiling is kept as far as CeilingKept says. */
    twostate predicate Accepted(key: string, value: string, seen: Listing)
      reads storage.rdb
    {
      var before, since := old(storage.rdb.db), old(storage.rdb.now);
      && Accepts(before, since, storage.rdb.now, seen, value, storage.maxSizeMB)
      && (NoRepeats(seen.keys) ==>
            CeilingKept(before, since, storage.rdb.db, storage.rdb.now, key, storage.maxSizeMB))
    }

    /** The size check estimated that `value` does not fit; and if SCAN listed each key once, it did not. */
    twostate predicate Refused(value: string, seen: Listing)
      reads storage.rdb
    {
      var before, since := old(storage.rdb.db), old(storage.rdb.now);
      && Refuses(before, since, storage.rdb.now, seen, value, storage.maxSizeMB)
      && (NoRepeats(seen.keys) ==> Overfull(before, since, value, storage.maxSizeMB))
    }

    /** A 200 gives the value of the entry that was alive when the request began, and without sharing only to
        the workspace that last wrote it; a 404 means that there is no such entry. */
    twostate predicate GetTold(key: string, ws: string, resp: Response)
      reads this, storage.rdb
    {
      && (resp.status == 200 ==>
            && LiveEntry(Fold(log), key, old(storage.rdb.now)) && resp.value == Fold(log)[key].value
            && (LiveEntry(Fold(log), key, storage.rdb.now) ==> resp.owner == Fold(log)[key].owner)
            && (!shareEnabled ==> resp.owner == ws)
            && (!shareEnabled ==> LastWrote(log, key, ws, resp.value, storage.rdb.now)))
      && (resp.status == 404 ==>
            && (forall v :: !LastWrote(log, key, ws, v, storage.rdb.now))
            && (shareEnabled ==> !LiveEntry(Fold(log), key, storage.rdb.now)))
    }

    /** A 201 without a failed command means that the value was accepted; a 507 means that it was refused. */
    twostate predicate PostTold(key: string, body: Body, resp: Response, seen: Listing)
      reads storage.rdb
    {
      && (resp.status == 201 && storage.rdb.faults == old(storage.rdb.faults) ==>
            body.Parsed? && Accepted(key, body.value, seen))
      && (resp.status == 507 ==> body.Parsed? && Refused(body.value, seen))
    }

    twostate predicate Uncounted()
      reads this, storage
    {
      served == old(served) && storage.hits == old(storage.hits) && storage.misses == old(storage.misses)
    }

    /** What the answer to an admitted request tells of what was done. */
    twostate predicate Told(req: Request, resp: Response, seen: Listing)
      reads this, storage, storage.rdb
    {
      && ForeignUntouched(old(storage.rdb.db), storage.rdb.db)
      && (resp.status == 500 ==> storage.rdb.faults > old(storage.rdb.faults))
      // A request changes one entry at most, its own workspace's, on its own key.
      && (Unwritten() || IsByRequest(old(log), log, req))
      && (OtherOwns(Fold(old(log)), KeyOf(req), req.workspace, storage.rdb.now) ==> Unwritten())
      && (resp.status in {201, 204} ==> IsByRequest(old(log), log, req))
      && (resp.status in {200, 404} ==> Unwritten())
      && (resp.status == 405 ==> Unwritten())
      && GetTold(KeyOf(req), req.workspace, resp) && PostTold(KeyOf(req), req.body, resp, seen)
      // The counters.
      && served == old(served) + (if resp.status == 200 then 1 else 0)
      && storage.hits + storage.misses
         == old(storage.hits) + old(storage.misses) + if resp.status in {200, 404} then 1 else 0
    }

    method OtherOwner(key: string, ws: string) returns (other: bool, ok: bool)
      requires Valid()
      modifies storage.rdb`now, storage.rdb`faults
      ensures Valid() && storage.rdb.now >= old(storage.rdb.now)
      ensures storage.rdb.faults >= old(storage.rdb.faults) && (ok <==> storage.rdb.faults == old(storage.rdb.faults))
      ensures ok ==> (other <==> OtherOwns(Fold(log), key, ws, storage.rdb.now))
    {
      var owner;
      owner, ok := storage.Owner(key);
      other := owner != "" && owner != ws;
      assert RepAt(storage.rdb.db, Fold(log), key);
      if key in Fold(log) {
        EntriesWellFormed(log, key);
      }
    }

    method CacheGet(key: string, ws: string) returns (resp: Response)
      requires Valid() && ws != ""
      modifies this`served, storage, storage.rdb`now, storage.rdb`faults
      ensures Valid() && storage.rdb.now >= old(storage.rdb.now)
      ensures resp.status in {200, 404, 500}
      ensures storage.rdb.faults >= old(storage.rdb.faults)
      ensures resp.status != 500 <==> storage.rdb.faults == old(storage.rdb.faults)
      ensures GetTold(key, ws, resp)
      ensures resp.status == 200 ==>
                && (!shareEnabled ==> LiveEntry(Fold(log), key, storage.rdb.now) && Fold(log)[key].owner == ws)
                && (resp.owner != "" ==> resp.owner == Fold(log)[key].owner)
      ensures resp.status == 404 ==>
                !LiveEntry(Fold(log), key, storage.rdb.now) || (!shareEnabled && Fold(log)[key].owner != ws)
      ensures served == old(served) + if resp.status == 200 then 1 else 0
      ensures storage.hits + storage.misses
           == old(storage.hits) + old(storage.misses) + if resp.status == 500 then 0 else 1
    {
      ghost var store := Fold(log);
      assert RepAt(storage.rdb.db, store, key);
      if key in store {
        EntriesWellFormed(log, key);
      }
      var val, owner, ok, at := storage.Get(key);
      if !ok {
        return Plain(500);
      }
      LiveEntriesAreLastWrites(log, key, ws, storage.rdb.now);
      if val == "" || (owner != ws && !shareEnabled) {
        return Plain(404);
      }
      served := served + 1;
      resp := Response(200, val, owner);
    }

    /** `seen` is what the size check saw, if the request came that far. */
    method CachePost(key: string, ws: string, body: Body) returns (resp: Response, ghost seen: Listing)
      requires Valid() && ws != ""
      modifies this`log, storage.rdb
      ensures Valid() && storage.rdb.now >= old(storage.rdb.now) && storage.rdb.faults >= old(storage.rdb.faults)
      ensures ForeignUntouched(old(storage.rdb.db), storage.rdb.db)
      ensures resp.status in {201, 400, 403, 500, 507}
      ensures resp.status == 500 ==> storage.rdb.faults > old(storage.rdb.faults)
      ensures resp.status == 400 <==> !body.Parsed? || body.value == ""
      ensures resp.status in {400, 403, 507} ==> Unwritten()
      ensures body.Parsed? && body.value != "" && body.ownerWorkspace != "" && body.ownerWorkspace != ws ==>
                resp.status == 403
      ensures OtherOwns(Fold(old(log)), key, ws, storage.rdb.now) ==> Unwritten() && resp.status in {400, 403, 500}
      ensures resp.status == 403 ==>
                body.Parsed? && ((body.ownerWorkspace != "" && body.ownerWorkspace != ws) ||
                                 OtherOwns(Fold(log), key, ws, storage.rdb.now))
      ensures resp.status == 201 ==>
                && body.Parsed? && body.value != "" && log == old(log) + [PostEvent(key, ws, body, storage.rdb.now)]
                && LivesAsAsked(PostEvent(key, ws, body, storage.rdb.now), body.ttlSeconds)
      ensures resp.status == 500 ==>
                Unwritten() ||
                (body.Parsed? && body.value != "" && log == old(log) + [PostEvent(key, ws, body, storage.rdb.now)])
      ensures PostTold(key, body, resp, seen)
    {
      seen := Listing([], [], true);
      if body.Unreadable? || body.Malformed? {
        return Plain(400), seen;
      }
      if body.value == "" {
        return Plain(400), seen;
      }
      if body.ownerWorkspace != "" && body.ownerWorkspace != ws {
        return Plain(403), seen;
      }
      var other, ok := OtherOwner(key, ws);
      if !ok {
        return Plain(500), seen;
      }
      if other {
        return Plain(403), seen;
      }
      ghost var before, since, checkedAt := storage.rdb.db, old(storage.rdb.now), storage.rdb.now;
      var outcome;
      outcome, seen := WriteEntry(key, ws, body);
      resp := Plain(match outcome case Stored => 201 case CacheFull => 507 case Broken => 500);
      PostLivesAsAsked(key, ws, body, storage.rdb.now);
      if outcome.CacheFull? {
        RefusedSince(before, since, checkedAt, storage.rdb.now, seen, body.value, storage.maxSizeMB);
      } else if storage.rdb.faults == old(storage.rdb.faults) {
        AcceptedSince(before, since, checkedAt, storage.rdb.now, seen, key, body.value, ws, Lifetime(body.ttlSeconds),
                      storage.maxSizeMB);
      }
    }

    /** The write of a POST whose ownership check passed. */
    method WriteEntry(key: string, ws: string, body: Body) returns (outcome: SetOutcome, ghost seen: Listing)
      requires Valid() && ws != "" && body.Parsed? && body.value != ""
      requires !OtherOwns(Fold(log), key, ws, storage.rdb.now)
      modifies this`log, storage.rdb
      ensures Valid() && storage.rdb.now >= old(storage.rdb.now) && storage.rdb.faults >= old(storage.rdb.faults)
      ensures ForeignUntouched(old(storage.rdb.db), storage.rdb.db)
      ensures outcome.Broken? ==> storage.rdb.faults > old(storage.rdb.faults)
      ensures Unwritten() || log == old(log) + [PostEvent(key, ws, body, storage.rdb.now)]
      ensures outcome.CacheFull? ==>
                Unwritten() && Refuses(storage.rdb.db, old(storage.rdb.now), storage.rdb.now, seen, body.value,
                                       storage.maxSizeMB)
      ensures outcome.Stored? ==>
                && log == old(log) + [PostEvent(key, ws, body, storage.rdb.now)]
                && storage.rdb.db == RunAll(old(storage.rdb.db), storage.rdb.now,
                                            SetCommands(key, body.value, ws, Lifetime(body.ttlSeconds)))
      ensures outcome.Stored? && storage.rdb.faults == old(storage.rdb.faults) ==>
                Accepts(old(storage.rdb.db), old(storage.rdb.now), storage.rdb.now, seen, body.value, storage.maxSizeMB)
    {
      var ttl := Lifetime(body.ttlSeconds);
      ghost var before := storage.rdb.db;
      ghost var measured;
      outcome, measured, seen := storage.Set(key, body.value, ws, ttl);
      ghost var now := storage.rdb.now;
      ghost var e := PostEvent(key, ws, body, now);
      PostKept(before, log, key, ws, body, old(storage.rdb.now), now, e);
      if storage.rdb.db != before || outcome.Stored? {
        log := log + [e];
      }
    }

    method CacheDelete(key: string, ws: string) returns (resp: Response)
      requires Valid() && ws != ""
      modifies this`log, storage.rdb`now, storage.rdb`faults, storage.rdb`db
      ensures Valid() && storage.rdb.now >= old(storage.rdb.now)
      ensures ForeignUntouched(old(storage.rdb.db), storage.rdb.db)
      ensures resp.status in {204, 403, 500}
      ensures storage.rdb.faults >= old(storage.rdb.faults)
      ensures resp.status != 500 <==> storage.rdb.faults == old(storage.rdb.faults)
      ensures resp.status == 403 ==> Unwritten() && OtherOwns(Fold(log), key, ws, storage.rdb.now)
      ensures OtherOwns(Fold(old(log)), key, ws, storage.rdb.now) ==> Unwritten() && resp.status in {403, 500}
      ensures resp.status == 204 ==> log == old(log) + [Removed(key, ws, storage.rdb.now)]
      ensures resp.status == 500 ==> Unwritten() || log == old(log) + [Removed(key, ws, storage.rdb.now)]
    {
      var other, ok := OtherOwner(key, ws);
      if !ok {
        return Plain(500);
      }
      if other {
        return Plain(403);
      }
      ghost var before := storage.rdb.db;
      var done := storage.Delete(key);
      ghost var now := storage.rdb.now;
      RepDelete(before, Fold(log), key);
      FoldNext(log, Removed(key, ws, now));
      if done || storage.rdb.db != before {
        log := log + [Removed(key, ws, now)];
      }
      resp := Plain(if done then 204 else 500);
    }

    /** A request that was let in. */
    method Serve(req: Request) returns (resp: Response, ghost seen: Listing)
      requires Valid() && Admitted(secret, devNoSecret, req)
      modifies this`log, this`served, storage, storage.rdb
      ensures Valid() && storage.rdb.now >= old(storage.rdb.now)
      ensures resp.status in Answers(req.verb)
      ensures Told(req, resp, seen)
    {
      var key, ws := KeyOf(req), req.workspace;
      seen := Listing([], [], true);
      match req.verb {
        case GET => resp := CacheGet(key, ws);
        case POST => resp, seen := CachePost(key, ws, req.body);
        case DELETE => resp := CacheDelete(key, ws);
        case OtherVerb => resp := Plain(405);
      }
    }

    /** Everything under /cache/. */
    method HandleCache(req: Request) returns (resp: Response, ghost seen: Listing)
      requires Valid()
      modifies this`log, this`served, storage, storage.rdb
      ensures Valid() && storage.rdb.now >= old(storage.rdb.now)
      // Who is turned away before anything is looked up.
      ensures resp.status == 401 <==> (if secret == "" then !devNoSecret else req.nodeSecret != secret)
      ensures resp.status != 401 && (KeyOf(req) == "" || req.workspace == "") ==> resp.status == 400
      ensures Admitted(secret, devNoSecret, req) <==> resp.status != 401 && KeyOf(req) != "" && req.workspace != ""
      ensures !Admitted(secret, devNoSecret, req) ==> Unwritten() && Uncounted()
      // What happens to the others.
      ensures Admitted(secret, devNoSecret, req) ==> resp.status in Answers(req.verb) && Told(req, resp, seen)
    {
      seen := Listing([], [], true);
      if !Authorized(secret, devNoSecret, req) {
        return Plain(401), seen;
      }
      var key := KeyOf(req);
      if key == "" {
        return Plain(400), seen;
      }
      var ws := req.workspace;
      if ws == "" {
        return Plain(400), seen;
      }
      resp, seen := Serve(req);
    }

    /** The operator's flush, a process of its own on the same Redis. */
    method RunFlush(operator: CacheStorage)
      returns (count: nat, ok: bool, ghost flushed: set<string>, ghost repeated: bool)
      requires Valid() && operator.rdb == storage.rdb
      modifies this`log, storage.rdb
      ensures Valid() && storage.rdb.now >= old(storage.rdb.now)
      ensures ForeignUntouched(old(storage.rdb.db), storage.rdb.db)
      ensures log == old(log) + [Flushed(flushed, storage.rdb.now)]
      ensures flushed <= Fold(old(log)).Keys
      ensures storage.rdb.faults >= old(storage.rdb.faults) && (ok <==> storage.rdb.faults == old(storage.rdb.faults))
      ensures ok ==> forall k :: !LiveEntry(Fold(log), k, storage.rdb.now)
      ensures ok ==> count >= |flushed| && (count == |flushed| <==> !repeated)
    {
      ghost var gone;
      ghost var before, store := storage.rdb.db, Fold(log);
      count, ok, gone, repeated := operator.Flush();
      flushed := EntriesOf(gone);
      RepFlush(before, store, gone);
      FlushedWereThere(before, store, gone);
      ghost var e := Flushed(flushed, storage.rdb.now);
      FoldNext(log, e);
      log := log + [e];
      if ok {
        NothingLeft(storage.rdb.db, Fold(log), storage.rdb.now);
      }
    }
  }

  /** One more event, of the caller's own asking. */
  predicate IsByRequest(before: seq<Event>, after: seq<Event>, req: Request) {
    && |after| == |before| + 1 && after[..|before|] == before
    && match after[|before|] {
         case Wrote(k, v, w, x, at) =>
           && k == KeyOf(req) && w == req.workspace && req.verb.POST?
           && req.body.Parsed? && v == req.body.value && x == Deadline(at, Lifetime(req.body.ttlSeconds))
           && LivesAsAsked(after[|before|], req.body.ttlSeconds)
         case Removed(k, w, _) => k == KeyOf(req) && w == req.workspace && req.verb.DELETE?
         case Flushed(_, _) => false
       }
  }

  lemma NothingLeft(db: Db, store: Store, now: int)
    requires Rep(db, store) && forall k :: CachePrefix <= k ==> !Live(db, now, k)
    ensures forall k :: !LiveEntry(store, k, now)
  {
    forall k ensures !LiveEntry(store, k, now) {
      HasPrefix(k);
      assert RepAt(db, store, k);
      assert !Live(db, now, CacheKey(k));
    }
  }

  lemma FlushedWereThere(db: Db, store: Store, gone: set<Key>)
    requires Rep(db, store) && forall g | g in gone :: CachePrefix <= g && g in db
    ensures EntriesOf(gone) <= store.Keys && |EntriesOf(gone)| == |gone|
  {
    forall g | g in gone ensures TrimPrefix(g, CachePrefix) in store {
      TrimFindsEntry(g);
      assert RepAt(db, store, TrimPrefix(g, CachePrefix));
    }
    TrimKeepsCount(gone);
  }

  lemma {:induction false} TrimKeepsCount(gone: set<Key>)
    requires forall g | g in gone :: CachePrefix <= g
    ensures |EntriesOf(gone)| == |gone|
  {
    if gone != {} {
      var g :| g in gone;
      var rest := gone - {g};
      TrimKeepsCount(rest);
      TrimFindsEntry(g);
      forall h | h in rest ensures TrimPrefix(h, CachePrefix) != TrimPrefix(g, CachePrefix) {
        TrimFindsEntry(h);
      }
      assert EntriesOf(gone) == EntriesOf(rest) + {TrimPrefix(g, CachePrefix)};
    }
  }

  function PostEvent(key: string, ws: string, body: Body, now: int): Event
    requires body.Parsed?
  {
    Wrote(key, body.value, ws, Deadline(now, Lifetime(body.ttlSeconds)), now)
  }

  /** The pipeline of a POST carries out its event, when the entry was no one else's before. */
  lemma PostKept(before: Db, log: seq<Event>, key: string, ws: string, body: Body, since: int, now: int, e: Event)
    requires Rep(before, Fold(log)) && Lawful(log) && ws != "" && body.Parsed? && body.value != ""
    requires log != [] ==> log[|log| - 1].at <= since
    requires since <= now && !OtherOwns(Fold(log), key, ws, since)
    requires e == PostEvent(key, ws, body, now)
    ensures var after := RunAll(before, now, SetCommands(key, body.value, ws, Lifetime(body.ttlSeconds)));
            Rep(after, Fold(log + [e])) && ForeignUntouched(before, after)
    ensures Lawful(log + [e]) && (log + [e])[|log + [e]| - 1].at == now
  {
    RepSet(before, Fold(log), key, body.value, ws, Lifetime(body.ttlSeconds), now);
    FoldNext(log, e);
  }
}
