/** The cache node serving many requests at once (cmd/cachenode/server.go, cmd/cachenode/storage.go).

    A POST or DELETE checks the owner in one step and writes in a later one; a flush scans a batch in one step
    and deletes it in a later one. Each pipeline is one step. Anything may happen in between: other requests,
    the clock, other services' keys. The code itself says that the check and the write are not atomic. */
module CacheInterleaving {
  import opened RedisModel
  import opened CacheKeys
  import opened CacheSpec
  import opened CacheStorage
  import opened CacheServer

  /** A request between its two steps; `since` is how long the log was when it checked the owner. */
  datatype Flight =
    | PostChecked(key: string, value: string, ws: string, ttl: int, since: nat)
    | DeleteChecked(key: string, ws: string, since: nat)
    | BatchScanned(keys: seq<Key>)

  /** `log` is a history variable: the pipelines carried out so far, in order. */
  datatype State = State(db: Db, now: int, flights: multiset<Flight>, log: seq<Event>)

  datatype Move =
    | Tick(later: nat)
    | CheckPost(key: string, value: string, ws: string, ttl: int)
    | CheckDelete(key: string, ws: string)
    | ScanBatch(keys: seq<Key>)
    /** The second step. It is not carried out when the request dies, the cache is full or Redis loses it. */
    | Finish(flight: Flight, carriedOut: bool)
    | ForeignSet(key: Key, cell: Cell)
    | ForeignDel(key: Key)

  /** The owner an ownership check reads. */
  function OwnerSeen(s: State, key: string): string {
    if Live(s.db, s.now, OwnerKey(key)) then s.db[OwnerKey(key)].value else ""
  }

  predicate MayTouch(s: State, key: string, ws: string) {
    ws != "" && OwnerSeen(s, key) in {"", ws}
  }

  predicate Enabled(s: State, m: Move) {
    match m
    case Tick(_) => true
    case CheckPost(k, v, w, _) => v != "" && MayTouch(s, k, w)
    case CheckDelete(k, w) => MayTouch(s, k, w)
    case ScanBatch(keys) => forall k | k in keys :: CachePrefix <= k && Live(s.db, s.now, k)
    case Finish(f, _) => f in s.flights
    case ForeignSet(k, _) => Foreign(k)
    case ForeignDel(k) => Foreign(k)
  }

  /** What the second step of a request sends to Redis. */
  function Pipeline(f: Flight): seq<Command> {
    match f
    case PostChecked(k, v, w, ttl, _) => SetCommands(k, v, w, ttl)
    case DeleteChecked(k, _, _) => [DelKeys([CacheKey(k), OwnerKey(k)])]
    case BatchScanned(keys) => [DelKeys(keys), DelKeys(OwnerKeys(keys))]
  }

  function EventOf(f: Flight, now: int): Event {
    match f
    case PostChecked(k, v, w, ttl, _) => Wrote(k, v, w, Deadline(now, ttl), now)
    case DeleteChecked(k, w, _) => Removed(k, w, now)
    case BatchScanned(keys) => Flushed(EntriesOf(Elements(keys)), now)
  }

  function Next(s: State, m: Move): State
    requires Enabled(s, m)
  {
    match m
    case Tick(later) => s.(now := s.now + later)
    case CheckPost(k, v, w, ttl) => s.(flights := s.flights + multiset{PostChecked(k, v, w, ttl, |s.log|)})
    case CheckDelete(k, w) => s.(flights := s.flights + multiset{DeleteChecked(k, w, |s.log|)})
    case ScanBatch(keys) => s.(flights := s.flights + multiset{BatchScanned(keys)})
    case Finish(f, carriedOut) =>
      var rest := s.flights - multiset{f};
      if carriedOut then State(RunAll(s.db, s.now, Pipeline(f)), s.now, rest, s.log + [EventOf(f, s.now)])
      else s.(flights := rest)
    case ForeignSet(k, cell) => s.(db := s.db[k := cell])
    case ForeignDel(k) => s.(db := s.db - {k})
  }

  predicate Plays(s: State, moves: seq<Move>)
    decreases moves
  {
    moves == [] || (Enabled(s, moves[0]) && Plays(Next(s, moves[0]), moves[1..]))
  }

  function After(s: State, moves: seq<Move>): State
    requires Plays(s, moves)
    decreases moves
  {
    if moves == [] then s else After(Next(s, moves[0]), moves[1..])
  }

  predicate Initial(s: State) {
    s.flights == multiset{} && s.log == [] && forall k | k in s.db :: Foreign(k)
  }

  // ---------------------------------------------------------------------------
  // The invariant

  predicate WrittenSince(log: seq<Event>, key: string, entry: Entry, since: nat, i: int) {
    since <= i && WrittenAt(log, key, entry, i)
  }

  /** If another workspace's live entry now stands where `ws` checked, it was written after the check. */
  ghost predicate ChecksOut(log: seq<Event>, now: int, key: string, ws: string, since: nat) {
    OtherOwns(Fold(log), key, ws, now) ==> exists i :: WrittenSince(log, key, Fold(log)[key], since, i)
  }

  ghost predicate FlightOk(s: State, f: Flight) {
    match f
    case PostChecked(k, v, w, _, since) =>
      v != "" && w != "" && since <= |s.log| && ChecksOut(s.log, s.now, k, w, since)
    case DeleteChecked(k, w, since) => w != "" && since <= |s.log| && ChecksOut(s.log, s.now, k, w, since)
    case BatchScanned(keys) => forall k | k in keys :: CachePrefix <= k
  }

  predicate Owned(store: Store) { forall k | k in store :: store[k].owner != "" }

  ghost predicate Inv(s: State) {
    && Rep(s.db, Fold(s.log)) && Owned(Fold(s.log))
    && forall f | f in s.flights :: FlightOk(s, f)
  }

  lemma InitialInv(s: State)
    requires Initial(s)
    ensures Inv(s)
  {
  }

  lemma CheckedNow(s: State, key: string, ws: string)
    requires Inv(s) && MayTouch(s, key, ws)
    ensures ChecksOut(s.log, s.now, key, ws, |s.log|)
  {
    assert RepAt(s.db, Fold(s.log), key);
  }

  lemma ChecksOutLater(log: seq<Event>, e: Event, now: int, key: string, ws: string, since: nat)
    requires since <= |log| && ChecksOut(log, now, key, ws, since)
    ensures ChecksOut(log + [e], now, key, ws, since)
  {
    var after := log + [e];
    FoldNext(log, e);
    if OtherOwns(Fold(after), key, ws, now) {
      if About(e, key) {
        assert WrittenSince(after, key, Fold(after)[key], since, |log|);
      } else {
        var i :| WrittenSince(log, key, Fold(log)[key], since, i);
        assert WrittenSince(after, key, Fold(after)[key], since, i);
      }
    }
  }

  lemma FlightOkLater(s: State, t: State, f: Flight)
    requires FlightOk(s, f) && s.now <= t.now
    requires t.log == s.log || exists e :: t.log == s.log + [e]
    ensures FlightOk(t, f)
  {
    if t.log != s.log {
      var e :| t.log == s.log + [e];
      match f {
        case PostChecked(k, _, w, _, since) => ChecksOutLater(s.log, e, s.now, k, w, since);
        case DeleteChecked(k, w, since) => ChecksOutLater(s.log, e, s.now, k, w, since);
        case BatchScanned(_) =>
      }
    }
  }

  lemma PipelineKeepsRep(s: State, f: Flight)
    requires Rep(s.db, Fold(s.log)) && Owned(Fold(s.log)) && FlightOk(s, f)
    ensures var log := s.log + [EventOf(f, s.now)];
            Rep(RunAll(s.db, s.now, Pipeline(f)), Fold(log)) && Owned(Fold(log))
  {
    FoldNext(s.log, EventOf(f, s.now));
    match f {
      case PostChecked(k, v, w, ttl, _) =>
        RepSet(s.db, Fold(s.log), k, v, w, ttl, s.now);
      case DeleteChecked(k, _, _) =>
        var c := DelKeys([CacheKey(k), OwnerKey(k)]);
        RunTwo(s.db, s.now, c, c);
        assert Elements([CacheKey(k), OwnerKey(k)]) == {CacheKey(k), OwnerKey(k)};
        RepDelete(s.db, Fold(s.log), k);
      case BatchScanned(keys) =>
        RunTwo(s.db, s.now, DelKeys(keys), DelKeys(OwnerKeys(keys)));
        BatchDeletes(s.db, keys);
        RepFlush(s.db, Fold(s.log), Elements(keys));
    }
  }

  lemma ForeignKeepsRep(before: Db, after: Db, key: Key, store: Store)
    requires Rep(before, store) && Foreign(key)
    requires forall k | k != key :: (k in after <==> k in before) && (k in before ==> after[k] == before[k])
    ensures Rep(after, store)
  {
    forall k ensures RepAt(after, store, k) {
      HasPrefix(k);
      assert RepAt(before, store, k);
    }
  }

  lemma StepKeepsFlights(s: State, m: Move)
    requires Inv(s) && Enabled(s, m)
    ensures forall f | f in s.flights :: FlightOk(Next(s, m), f)
  {
    forall f | f in s.flights ensures FlightOk(Next(s, m), f) {
      FlightOkLater(s, Next(s, m), f);
    }
  }

  lemma StepInv(s: State, m: Move)
    requires Inv(s) && Enabled(s, m)
    ensures Inv(Next(s, m))
  {
    StepKeepsFlights(s, m);
    match m {
      case Tick(_) =>
      case CheckPost(k, v, w, ttl) =>
        CheckedNow(s, k, w);
        StartInv(s, PostChecked(k, v, w, ttl, |s.log|));
      case CheckDelete(k, w) =>
        CheckedNow(s, k, w);
        StartInv(s, DeleteChecked(k, w, |s.log|));
      case ScanBatch(keys) => StartInv(s, BatchScanned(keys));
      case Finish(f, carriedOut) => FinishInv(s, f, carriedOut);
      case ForeignSet(k, _) => ForeignKeepsRep(s.db, Next(s, m).db, k, Fold(s.log));
      case ForeignDel(k) => ForeignKeepsRep(s.db, Next(s, m).db, k, Fold(s.log));
    }
  }

  lemma StartInv(s: State, f: Flight)
    requires Inv(s) && FlightOk(s, f)
    ensures Inv(s.(flights := s.flights + multiset{f}))
  {
    var t := s.(flights := s.flights + multiset{f});
    forall g | g in t.flights ensures FlightOk(t, g) {
      assert g == f || g in s.flights;
      FlightOkLater(s, t, g);
    }
  }

  lemma FinishInv(s: State, f: Flight, carriedOut: bool)
    requires Inv(s) && f in s.flights
    requires forall g | g in s.flights :: FlightOk(Next(s, Finish(f, carriedOut)), g)
    ensures Inv(Next(s, Finish(f, carriedOut)))
  {
    if carriedOut {
      PipelineKeepsRep(s, f);
    }
  }

  lemma {:induction false} RunInv(s: State, moves: seq<Move>)
    requires Inv(s) && Plays(s, moves)
    ensures Inv(After(s, moves))
    decreases moves
  {
    if moves != [] {
      StepInv(s, moves[0]);
      RunInv(Next(s, moves[0]), moves[1..]);
    }
  }

  // ---------------------------------------------------------------------------
  // What every interleaving keeps, and what it does not

  /** A value key is live exactly when its owner key is, they expire together, and the tag is the workspace
      whose POST wrote that value. */
  lemma KeysStayPaired(start: State, moves: seq<Move>, k: string)
    requires Initial(start) && Plays(start, moves)
    ensures var s := After(start, moves);
            && (Live(s.db, s.now, CacheKey(k)) <==> Live(s.db, s.now, OwnerKey(k)))
            && (CacheKey(k) in s.db ==>
                  && OwnerKey(k) in s.db && s.db[OwnerKey(k)].expiry == s.db[CacheKey(k)].expiry
                  && var entry := Entry(s.db[CacheKey(k)].value, s.db[OwnerKey(k)].value, s.db[CacheKey(k)].expiry);
                     exists i :: WrittenAt(s.log, k, entry, i))
  {
    InitialInv(start);
    RunInv(start, moves);
    var s := After(start, moves);
    assert RepAt(s.db, Fold(s.log), k);
    if k in Fold(s.log) {
      StoreIsLastWrite(s.log, k, Fold(s.log)[k]);
    }
  }

  /** A write or a removal can hit another workspace's live entry only when that entry was written after the
      request's own ownership check. */
  lemma OnlyLaterWritesAreOvertaken(start: State, moves: seq<Move>, f: Flight)
    requires Initial(start) && Plays(start, moves)
    requires f in After(start, moves).flights && !f.BatchScanned?
    requires OtherOwns(Fold(After(start, moves).log), f.key, f.ws, After(start, moves).now)
    ensures var s := After(start, moves);
            exists i :: WrittenSince(s.log, f.key, Fold(s.log)[f.key], f.since, i)
  {
    InitialInv(start);
    RunInv(start, moves);
    var s := After(start, moves);
    assert FlightOk(s, f);
  }

  /** And then it does happen: two workspaces that both find a key free both get to write it, and the second
      replaces an entry the first still owns. */
  lemma SecondWriterOvertakes(start: State, key: string, a: string, b: string, v: string, w: string, ttl: int)
    returns (moves: seq<Move>)
    requires Initial(start) && a != "" && b != "" && a != b && v != "" && w != "" && ttl > 0
    ensures |moves| > 0 && Plays(start, moves) && Plays(start, moves[..|moves| - 1])
    ensures var s := After(start, moves[..|moves| - 1]);
            OtherOwns(Fold(s.log), key, b, s.now) && Fold(s.log)[key] == Entry(v, a, Deadline(start.now, ttl))
    ensures var t := After(start, moves);
            key in Fold(t.log) && Fold(t.log)[key] == Entry(w, b, Deadline(start.now, ttl))
  {
    var m0, m1 := CheckPost(key, v, a, ttl), CheckPost(key, w, b, ttl);
    var f, g := PostChecked(key, v, a, ttl, 0), PostChecked(key, w, b, ttl, 0);
    BothFindItFree(start, m0, m1, f, g);
    FourMoves(start, m0, m1, Finish(f, true), Finish(g, true));
    moves := [m0, m1, Finish(f, true)] + [Finish(g, true)];
    assert moves[..3] == [m0, m1, Finish(f, true)];
    FoldNext([], EventOf(f, start.now));
    FoldNext([EventOf(f, start.now)], EventOf(g, start.now));
  }

  lemma BothFindItFree(start: State, m0: Move, m1: Move, f: Flight, g: Flight)
    requires Initial(start) && m0.CheckPost? && m1.CheckPost? && m0.key == m1.key
    requires m0.value != "" && m0.ws != "" && m1.value != "" && m1.ws != ""
    requires f == PostChecked(m0.key, m0.value, m0.ws, m0.ttl, 0)
    requires g == PostChecked(m1.key, m1.value, m1.ws, m1.ttl, 0) && f != g
    ensures Enabled(start, m0) && Enabled(Next(start, m0), m1)
    ensures var s := Next(Next(start, m0), m1);
            && Enabled(s, Finish(f, true)) && Enabled(Next(s, Finish(f, true)), Finish(g, true))
            && Next(s, Finish(f, true)).log == [EventOf(f, start.now)] && s.now == start.now
            && Next(Next(s, Finish(f, true)), Finish(g, true)).log == [EventOf(f, start.now)] + [EventOf(g, start.now)]
  {
    HasPrefix(m0.key);
    assert OwnerKey(m0.key) !in start.db;
    var s := Next(Next(start, m0), m1);
    assert s.log == [];
    assert [] + [EventOf(f, start.now)] == [EventOf(f, start.now)];
  }

  lemma FourMoves(start: State, m0: Move, m1: Move, m2: Move, m3: Move)
    requires Enabled(start, m0) && Enabled(Next(start, m0), m1) && Enabled(Next(Next(start, m0), m1), m2)
    requires Enabled(Next(Next(Next(start, m0), m1), m2), m3)
    ensures Plays(start, [m0, m1, m2]) && Plays(start, [m0, m1, m2] + [m3])
    ensures After(start, [m0, m1, m2]) == Next(Next(Next(start, m0), m1), m2)
    ensures After(start, [m0, m1, m2] + [m3]) == Next(Next(Next(Next(start, m0), m1), m2), m3)
  {
    assert [] + [m0] == [m0] && [m0] + [m1] == [m0, m1] && [m0, m1] + [m2] == [m0, m1, m2];
    LastMove(start, [], m0);
    LastMove(start, [m0], m1);
    LastMove(start, [m0, m1], m2);
    LastMove(start, [m0, m1, m2], m3);
  }

  lemma {:induction false} LastMove(s: State, moves: seq<Move>, m: Move)
    requires Plays(s, moves) && Enabled(After(s, moves), m)
    ensures Plays(s, moves + [m]) && After(s, moves + [m]) == Next(After(s, moves), m)
    decreases moves
  {
    if moves == [] {
      assert moves + [m] == [m] && [m][1..] == [];
    } else {
      LastMove(Next(s, moves[0]), moves[1..], m);
      assert (moves + [m])[1..] == moves[1..] + [m];
    }
  }
}
