/** The persistence layer of the cache node, CacheStorage in cmd/cachenode/storage.go.

    Methods are specified by what they do to the Redis data; `ghost` results carry what a call saw. */
module CacheStorage {
  import opened Prelude
  import opened RedisModel
  import opened CacheKeys
  import opened SizeEstimate

  datatype SetOutcome = Stored | CacheFull | Broken

  datatype Stats = Stats(totalEntries: nat, sizeMB: real, maxSizeMB: real, hitRate: real,
                         hitsTotal: nat, missTotal: nat)

  /** What a Stats call made between `since` and `now` listed: only value keys that were live at `since`, none
      measured as larger than it is, those still live at `now` measured exactly, and, when the scan ran to its
      end, all of them. */
  ghost predicate Saw(db: Db, since: int, now: int, seen: Listing) {
    && |seen.lens| == SampleOf(|seen.keys|)
    && (|seen.keys| <= ScanCap ==> seen.complete)
    && Listed(db, since, seen.keys)
    && (seen.complete ==> forall k | CachePrefix <= k && Live(db, now, k) :: k in seen.keys)
    && SampledRight(db, now, seen.keys, seen.lens)
  }

  ghost predicate Listed(db: Db, since: int, keys: seq<Key>) {
    forall k | k in keys :: CachePrefix <= k && Live(db, since, k)
  }

  ghost predicate SampledRight(db: Db, now: int, keys: seq<Key>, lens: seq<Reply<nat>>)
    requires |lens| <= |keys|
  {
    forall i | 0 <= i < |lens| :: RightLength(db, now, keys[i], lens[i])
  }

  predicate RightLength(db: Db, now: int, k: Key, len: Reply<nat>) {
    len.Value? ==> len.v <= ValueSize(db)(k) && (Live(db, now, k) ==> len.v == ValueSize(db)(k))
  }

  lemma SawOver(db: Db, since: int, now: int, seen: Listing, earlier: int, later: int)
    requires Saw(db, since, now, seen) && earlier <= since && now <= later
    ensures Saw(db, earlier, later, seen)
  {
    forall i | 0 <= i < |seen.lens| ensures RightLength(db, later, seen.keys[i], seen.lens[i]) {
      assert RightLength(db, now, seen.keys[i], seen.lens[i]);
    }
  }

  lemma OneMoreSampled(db: Db, before: int, now: int, keys: seq<Key>, lens: seq<Reply<nat>>, n: Reply<nat>)
    requires |lens| < |keys| && before <= now
    requires SampledRight(db, before, keys, lens) && RightLength(db, now, keys[|lens|], n)
    ensures SampledRight(db, now, keys, lens + [n])
  {
    var longer := lens + [n];
    forall i | 0 <= i < |longer| ensures RightLength(db, now, keys[i], longer[i]) {
      if i < |lens| {
        assert RightLength(db, before, keys[i], lens[i]);
      }
    }
  }

  lemma OneMoreLength(lens: seq<Reply<nat>>, n: Reply<nat>)
    ensures SampledBytes(lens + [n]) == SampledBytes(lens) + Bytes(n)
    ensures AllMeasured(lens + [n]) <==> AllMeasured(lens) && n.Value?
  {
    var longer := lens + [n];
    assert longer[..|longer| - 1] == lens;
    assert n == longer[|lens|] && forall i | 0 <= i < |lens| :: lens[i] == longer[i];
  }

  lemma ScanThenSample(db: Db, since: int, scannedAt: int, now: int, seen: Listing)
    requires |seen.lens| == SampleOf(|seen.keys|) && scannedAt <= now
    requires (|seen.keys| <= ScanCap ==> seen.complete) && Listed(db, since, seen.keys)
    requires seen.complete ==> forall k | CachePrefix <= k && Live(db, scannedAt, k) :: k in seen.keys
    requires SampledRight(db, now, seen.keys, seen.lens)
    ensures Saw(db, since, now, seen)
  {
  }

  /** Stats measured everything it sampled, and estimated that `value` still fits. */
  ghost predicate Accepts(db: Db, since: int, now: int, seen: Listing, value: string, maxMB: real) {
    Saw(db, since, now, seen) && AllMeasured(seen.lens) && SizeMB(seen) + InMB(|value|) <= maxMB
  }

  /** Stats estimated that `value` does not fit. */
  ghost predicate Refuses(db: Db, since: int, now: int, seen: Listing, value: string, maxMB: real) {
    Saw(db, since, now, seen) && SizeMB(seen) + InMB(|value|) > maxMB
  }

  /** The pipeline of Set: the value, and the owner tag when there is an owner, with one lifetime. */
  function SetCommands(key: string, value: string, owner: string, ttl: int): seq<Command> {
    [SetCell(CacheKey(key), value, ttl)] + if owner != "" then [SetCell(OwnerKey(key), owner, ttl)] else []
  }

  function OwnerKeys(keys: seq<Key>): seq<Key> {
    seq(|keys|, i requires 0 <= i < |keys| => OwnerPrefix + TrimPrefix(keys[i], CachePrefix))
  }

  /** `db` after the value keys `gone` and their owner keys are deleted. */
  function WithoutEntries(db: Db, gone: set<Key>): Db {
    db - gone - set g | g in gone :: OwnerPrefix + TrimPrefix(g, CachePrefix)
  }

  class CacheStorage {
    const rdb: Client
    const maxSizeMB: real
    var hits: nat
    var misses: nat
    /** How many Get calls met no Redis error. */
    ghost var answered: nat

    constructor (rdb: Client, maxSizeGB: real)
      ensures this.rdb == rdb && maxSizeMB == maxSizeGB * 1024.0
      ensures Counted() && hits == misses == 0
    {
      this.rdb, maxSizeMB := rdb, maxSizeGB * 1024.0;
      hits, misses, answered := 0, 0, 0;
    }

    /** Every answered Get moved exactly one counter. */
    ghost predicate Counted()
      reads this
    {
      hits + misses == answered
    }

    /** `at` is when the value key was read. */
    method Get(key: string) returns (val: string, owner: string, ok: bool, ghost at: int)
      requires Counted()
      modifies this, rdb`now, rdb`faults
      ensures Counted() && old(rdb.now) <= at <= rdb.now
      ensures rdb.faults >= old(rdb.faults) && (ok <==> rdb.faults == old(rdb.faults))
      ensures !ok ==> val == owner == "" && hits == old(hits) && misses == old(misses)
      ensures ok && !Live(rdb.db, at, CacheKey(key)) ==>
                val == owner == "" && hits == old(hits) && misses == old(misses) + 1
      ensures ok && Live(rdb.db, at, CacheKey(key)) ==>
                && val == rdb.db[CacheKey(key)].value
                && owner == (if Live(rdb.db, rdb.now, OwnerKey(key)) then rdb.db[OwnerKey(key)].value else "")
                && hits == old(hits) + 1 && misses == old(misses)
    {
      val, owner, ok := "", "", false;
      var v := rdb.Get(CacheKey(key));
      at := rdb.now;
      if v.Nil? {
        misses, answered := misses + 1, answered + 1;
        ok := true;
        return;
      }
      if v.Failed? {
        return;
      }
      var o := rdb.Get(OwnerKey(key));
      if o.Failed? {
        return;
      }
      hits, answered := hits + 1, answered + 1;
      val, owner, ok := v.v, if o.Nil? then "" else o.v, true;
    }

    method Owner(key: string) returns (owner: string, ok: bool)
      modifies rdb`now, rdb`faults
      ensures rdb.now >= old(rdb.now)
      ensures rdb.faults >= old(rdb.faults) && (ok <==> rdb.faults == old(rdb.faults))
      ensures ok ==> owner == if Live(rdb.db, rdb.now, OwnerKey(key)) then rdb.db[OwnerKey(key)].value else ""
      ensures !ok ==> owner == ""
    {
      var o := rdb.Get(OwnerKey(key));
      owner, ok := if o.Value? then o.v else "", !o.Failed?;
    }

    method Delete(key: string) returns (ok: bool)
      modifies rdb`now, rdb`faults, rdb`db
      ensures rdb.now >= old(rdb.now)
      ensures rdb.faults >= old(rdb.faults) && (ok <==> rdb.faults == old(rdb.faults))
      ensures rdb.db == old(rdb.db) - {CacheKey(key), OwnerKey(key)} || (!ok && rdb.db == old(rdb.db))
    {
      ghost var before := rdb.db;
      var c := DelKeys([CacheKey(key), OwnerKey(key)]);
      ok := rdb.Exec([c]);
      RunTwo(before, rdb.now, c, c);
      assert Elements([CacheKey(key), OwnerKey(key)]) == {CacheKey(key), OwnerKey(key)};
    }

    /** Scans the value keys, giving up after 10,000 unless the scan is done. */
    method ScanKeys() returns (keys: seq<Key>, complete: bool, ok: bool)
      modifies rdb`now, rdb`faults, rdb`owed, rdb`rounds
      ensures rdb.now >= old(rdb.now)
      ensures rdb.faults >= old(rdb.faults) && (ok <==> rdb.faults == old(rdb.faults))
      ensures ok ==> (|keys| <= ScanCap ==> complete) && Listed(rdb.db, old(rdb.now), keys)
      ensures ok && complete ==> forall k | CachePrefix <= k && Live(rdb.db, rdb.now, k) :: k in keys
    {
      var cursor := 0;
      keys, complete := [], false;
      while true
        invariant rdb.now >= old(rdb.now) && rdb.faults == old(rdb.faults)
        invariant cursor != 0 ==> forall k | k in rdb.db && CachePrefix <= k :: k in rdb.owed || k in keys
        invariant cursor == 0 ==> keys == []
        invariant Listed(rdb.db, old(rdb.now), keys)
        decreases if cursor == 0 then 1 else 0, rdb.rounds
      {
        var batch, next, scanned := rdb.Scan(cursor, CachePrefix);
        if !scanned {
          ok := false;
          return;
        }
        keys := keys + batch;
        if next == 0 {
          complete := true;
          break;
        }
        cursor := next;
        if |keys| > ScanCap {
          break;
        }
      }
      ok := true;
    }

    method Sample(keys: seq<Key>) returns (lens: seq<Reply<nat>>, sampledBytes: nat)
      modifies rdb`now, rdb`faults
      ensures rdb.now >= old(rdb.now)
      ensures rdb.faults >= old(rdb.faults) && (AllMeasured(lens) <==> rdb.faults == old(rdb.faults))
      ensures |lens| == SampleOf(|keys|) && sampledBytes == SampledBytes(lens)
      ensures SampledRight(rdb.db, rdb.now, keys, lens)
    {
      var limit := SampleSize;
      if limit > |keys| {
        limit := |keys|;
      }
      lens, sampledBytes := [], 0;
      for i := 0 to limit
        invariant rdb.now >= old(rdb.now) && rdb.faults >= old(rdb.faults)
        invariant AllMeasured(lens) <==> rdb.faults == old(rdb.faults)
        invariant |lens| == i && sampledBytes == SampledBytes(lens)
        invariant SampledRight(rdb.db, rdb.now, keys, lens)
      {
        ghost var sampledAt := rdb.now;
        var n := rdb.StrLen(keys[i]);
        OneMoreSampled(rdb.db, sampledAt, rdb.now, keys, lens, n);
        OneMoreLength(lens, n);
        lens := lens + [n];
        if n.Value? {
          sampledBytes := sampledBytes + n.v;
        }
      }
    }

    method HitRate() returns (rate: real)
      requires Counted()
      ensures 0.0 <= rate <= 1.0 && rate * answered as real == hits as real
    {
      var total := hits + misses;
      rate := 0.0;
      if total > 0 {
        rate := hits as real / total as real;
        RateInRange(hits, total);
      }
    }

    method GetStats() returns (stats: Stats, ok: bool, ghost seen: Listing)
      requires Counted()
      modifies rdb`now, rdb`faults, rdb`owed, rdb`rounds
      ensures rdb.now >= old(rdb.now)
      ensures rdb.faults >= old(rdb.faults) && (ok && AllMeasured(seen.lens) <==> rdb.faults == old(rdb.faults))
      ensures ok ==> Saw(rdb.db, old(rdb.now), rdb.now, seen)
      ensures ok ==> stats.sizeMB == SizeMB(seen) && stats.totalEntries == |seen.keys|
      ensures stats.maxSizeMB == maxSizeMB
      ensures ok ==> stats.hitsTotal == hits && stats.missTotal == misses && 0.0 <= stats.hitRate <= 1.0
      ensures ok ==> stats.hitRate * answered as real == hits as real
    {
      stats := Stats(0, 0.0, maxSizeMB, 0.0, 0, 0);
      seen := Listing([], [], true);
      var keys, complete;
      keys, complete, ok := ScanKeys();
      if !ok {
        return;
      }
      ghost var scannedAt := rdb.now;
      var lens, sampledBytes := Sample(keys);
      seen := Listing(keys, lens, complete);
      var limit := SampleOf(|keys|);
      var size := 0.0;
      if limit > 0 {
        var avg := sampledBytes as real / limit as real;
        size := avg * |keys| as real / Mebibyte;
      }
      var rate := HitRate();
      stats := Stats(|keys|, size, maxSizeMB, rate, hits, misses);
      ScanThenSample(rdb.db, old(rdb.now), scannedAt, rdb.now, seen);
    }

    /** `seen` is what Stats saw, when it succeeded. */
    method Set(key: string, value: string, owner: string, ttl: int)
      returns (outcome: SetOutcome, ghost measured: bool, ghost seen: Listing)
      requires Counted()
      modifies rdb
      ensures rdb.now >= old(rdb.now)
      ensures rdb.faults >= old(rdb.faults) && (outcome.Broken? ==> rdb.faults > old(rdb.faults))
      ensures rdb.faults == old(rdb.faults) ==> measured && AllMeasured(seen.lens)
      ensures measured ==> Saw(old(rdb.db), old(rdb.now), rdb.now, seen)
      ensures outcome.CacheFull? <==> measured && SizeMB(seen) + InMB(|value|) > maxSizeMB
      ensures outcome.CacheFull? ==> rdb.db == old(rdb.db)
      ensures outcome.Stored? ==> rdb.db == RunAll(old(rdb.db), rdb.now, SetCommands(key, value, owner, ttl))
      ensures outcome.Broken? ==>
                rdb.db == old(rdb.db) || rdb.db == RunAll(old(rdb.db), rdb.now, SetCommands(key, value, owner, ttl))
      // What the check is worth, when no command failed and SCAN listed each key once.
      ensures rdb.faults == old(rdb.faults) && outcome.Stored? ==>
                Accepts(old(rdb.db), old(rdb.now), rdb.now, seen, value, maxSizeMB)
      ensures rdb.faults == old(rdb.faults) && outcome.Stored? && NoRepeats(seen.keys) ==>
                CeilingKept(old(rdb.db), old(rdb.now), rdb.db, rdb.now, key, maxSizeMB)
      ensures outcome.CacheFull? && NoRepeats(seen.keys) ==>
                Overfull(old(rdb.db), old(rdb.now), value, maxSizeMB)
    {
      var stats;
      stats, measured, seen := Probe();
      var full := stats.Some? && stats.value.sizeMB + |value| as real / Mebibyte > maxSizeMB;
      if full {
        outcome := CacheFull;
        RefusedOnlyWhenFull(rdb.db, old(rdb.now), rdb.now, seen, value, maxSizeMB);
        return;
      }
      var cmds := [SetCell(CacheKey(key), value, ttl)];
      if owner != "" {
        cmds := cmds + [SetCell(OwnerKey(key), owner, ttl)];
      }
      assert cmds == SetCommands(key, value, owner, ttl);
      ghost var before, probed := rdb.db, rdb.now;
      var ok := rdb.Exec(cmds);
      outcome := if ok then Stored else Broken;
      if measured {
        SawOver(before, old(rdb.now), probed, seen, old(rdb.now), rdb.now);
        if ok && AllMeasured(seen.lens) {
          AcceptedSetBounded(before, old(rdb.now), rdb.now, seen, key, value, owner, ttl, maxSizeMB);
        }
      }
    }

    /** Stats as Set uses it: an error means that nothing is enforced. */
    method Probe() returns (stats: Option<Stats>, ghost measured: bool, ghost seen: Listing)
      requires Counted()
      modifies rdb`now, rdb`faults, rdb`owed, rdb`rounds
      ensures rdb.now >= old(rdb.now)
      ensures rdb.faults >= old(rdb.faults) && (measured && AllMeasured(seen.lens) <==> rdb.faults == old(rdb.faults))
      ensures measured <==> stats.Some?
      ensures measured ==> Saw(rdb.db, old(rdb.now), rdb.now, seen) && stats.value.sizeMB == SizeMB(seen)
    {
      var s, ok;
      s, ok, seen := GetStats();
      stats := if ok then Some(s) else None;
      measured := ok;
    }

    /** One pipeline of Flush: the value keys and the owner keys that belong to them. */
    method DeleteEntries(keys: seq<Key>, ghost start: Db, ghost gone: set<Key>)
      returns (ok: bool, ghost gone': set<Key>)
      requires rdb.db == WithoutEntries(start, gone) && forall k | k in keys :: k in rdb.db
      modifies rdb`now, rdb`faults, rdb`db
      ensures rdb.now >= old(rdb.now)
      ensures rdb.faults >= old(rdb.faults) && (ok <==> rdb.faults == old(rdb.faults))
      ensures gone' == gone + Elements(keys) || (!ok && gone' == gone)
      ensures |gone + Elements(keys)| == |gone| + |Elements(keys)|
      ensures rdb.db == WithoutEntries(start, gone')
      ensures ok ==> rdb.db == WithoutEntries(old(rdb.db), Elements(keys))
    {
      ghost var before, found := rdb.db, Elements(keys);
      ok := rdb.Exec([DelKeys(keys), DelKeys(OwnerKeys(keys))]);
      RunTwo(before, rdb.now, DelKeys(keys), DelKeys(OwnerKeys(keys)));
      BatchDeletes(before, keys);
      BatchAfterBatch(start, gone, found);
      gone' := if ok || rdb.db != before then gone + found else gone;
      assert gone !! found;
    }

    /** How far a flush of `start` has come: `gone` are the value keys deleted, and `repeated` says whether
        some batch named a key twice. */
    ghost predicate Flushing(start: Db, gone: set<Key>, count: nat, repeated: bool)
      reads rdb
    {
      && (forall g | g in gone :: CachePrefix <= g && g in start)
      && rdb.db == WithoutEntries(start, gone)
      && count >= |gone| && (count == |gone| <==> !repeated)
    }

    ghost predicate AllOwed()
      reads rdb
    {
      forall k | k in rdb.db && CachePrefix <= k :: k in rdb.owed
    }

    /** Deletes a scanned batch, if it is not empty, and counts it. */
    method DeleteBatch(keys: seq<Key>, before: nat, ghost start: Db, ghost gone: set<Key>, ghost repeated: bool)
      returns (count: nat, ok: bool, ghost gone': set<Key>, ghost repeated': bool)
      requires Flushing(start, gone, before, repeated) && forall k | k in keys :: CachePrefix <= k && k in rdb.db
      modifies rdb`now, rdb`faults, rdb`db
      ensures rdb.now >= old(rdb.now)
      ensures rdb.faults >= old(rdb.faults) && (ok <==> rdb.faults == old(rdb.faults))
      ensures rdb.db == WithoutEntries(start, gone') && forall g | g in gone' :: CachePrefix <= g && g in start
      ensures ok ==> Flushing(start, gone', count, repeated')
      ensures ok ==> forall k | k in rdb.db :: k !in keys && k in old(rdb.db) && rdb.db[k] == old(rdb.db)[k]
    {
      gone', repeated', count, ok := gone, repeated, before, true;
      if |keys| > 0 {
        ok, gone' := DeleteEntries(keys, start, gone);
        BatchSize(keys);
        repeated' := repeated || !NoRepeats(keys);
        if ok {
          count := count + |keys|;
        }
      }
    }

    /** One turn of Flush: a batch is scanned and deleted. */
    method FlushBatch(cursor: nat, before: nat, ghost start: Db, ghost gone: set<Key>, ghost repeated: bool)
      returns (next: nat, count: nat, ok: bool, ghost gone': set<Key>, ghost repeated': bool)
      requires Flushing(start, gone, before, repeated) && (cursor != 0 ==> AllOwed())
      modifies rdb
      ensures rdb.now >= old(rdb.now)
      ensures rdb.faults >= old(rdb.faults) && (ok <==> rdb.faults == old(rdb.faults))
      ensures rdb.db == WithoutEntries(start, gone') && forall g | g in gone' :: CachePrefix <= g && g in start
      ensures ok ==> Flushing(start, gone', count, repeated')
      ensures ok && next != 0 ==> AllOwed() && (cursor != 0 ==> rdb.rounds < old(rdb.rounds))
      ensures ok && next == 0 ==> forall k :: CachePrefix <= k ==> !Live(rdb.db, rdb.now, k)
    {
      var keys;
      gone', repeated', count := gone, repeated, before;
      keys, next, ok := rdb.Scan(cursor, CachePrefix);
      if ok {
        assert forall k | k in rdb.db && CachePrefix <= k :: k in rdb.owed || k in keys;
        count, ok, gone', repeated' := DeleteBatch(keys, before, start, gone, repeated);
      }
    }

    /** Deletes every value key and its owner key, batch by batch. */
    method Flush() returns (count: nat, ok: bool, ghost gone: set<Key>, ghost repeated: bool)
      modifies rdb
      ensures rdb.now >= old(rdb.now)
      ensures rdb.faults >= old(rdb.faults) && (ok <==> rdb.faults == old(rdb.faults))
      ensures forall g | g in gone :: CachePrefix <= g && g in old(rdb.db)
      ensures rdb.db == WithoutEntries(old(rdb.db), gone)
      ensures ok ==> forall k :: CachePrefix <= k ==> !Live(rdb.db, rdb.now, k)
      ensures ok ==> count >= |gone| && (count == |gone| <==> !repeated)
    {
      var cursor, next := 0, 0;
      ghost var start := rdb.db;
      count, gone, repeated := 0, {}, false;
      while true
        invariant rdb.now >= old(rdb.now) && rdb.faults == old(rdb.faults)
        invariant Flushing(start, gone, count, repeated) && (cursor != 0 ==> AllOwed())
        decreases if cursor == 0 then 1 else 0, rdb.rounds
      {
        next, count, ok, gone, repeated := FlushBatch(cursor, count, start, gone, repeated);
        if !ok || next == 0 {
          return;
        }
        cursor := next;
      }
    }
  }

  // ---------------------------------------------------------------------------
  // The ceiling

  predicate AllMeasured(lens: seq<Reply<nat>>) { forall i | 0 <= i < |lens| :: lens[i].Value? }

  function ValueSize(db: Db): Key -> nat { (k: Key) => if k in db then |db[k].value| else 0 }

  ghost function LiveValues(db: Db, now: int): set<Key> { set k | k in db && CachePrefix <= k && Live(db, now, k) }

  ghost function StoredBytes(db: Db, now: int): nat { Total(LiveValues(db, now), ValueSize(db)) }

  ghost predicate SizesAtMost(db: Db, ks: set<Key>, most: nat) { forall k | k in ks :: ValueSize(db)(k) <= most }

  /** How many of `n` keys are not sampled. */
  function Unsampled(n: nat): nat { Beyond(n, SampleSize) }

  /** What a Set that took `before` to `after` keeps. With at most fifty live values at `since`, all values live
      afterwards, the new one included, fit under the ceiling; with at most 10,000 they exceed it by at most one
      largest other value for each live value beyond fifty. */
  ghost predicate CeilingKept(before: Db, since: int, after: Db, now: int, key: string, maxMB: real) {
    var n := |LiveValues(before, since)|;
    && (n <= 50 ==> StoredBytes(after, now) as real <= maxMB * 1048576.0)
    && (n <= 10_000 ==>
          forall most: nat | SizesAtMost(after, LiveValues(after, now) - {CacheKey(key)}, most) ::
            StoredBytes(after, now) as real <= maxMB * 1048576.0 + (Beyond(n, 50) * most) as real)
  }

  function Beyond(n: nat, most: nat): nat { if n > most then n - most else 0 }

  /** Why a value was refused: with at most fifty live values, all of them and it are over the ceiling; and in
      any case it and as many largest values as there are live ones are. */
  ghost predicate Overfull(db: Db, since: int, value: string, maxMB: real) {
    var n := |LiveValues(db, since)|;
    && (n <= 50 ==> (StoredBytes(db, since) + |value|) as real > maxMB * 1048576.0)
    && (forall most: nat | SizesAtMost(db, LiveValues(db, since), most) ::
          (n * most + |value|) as real > maxMB * 1048576.0)
  }

  /** A listing without repeats is no longer than the live values are many. */
  lemma ListedAreLive(db: Db, since: int, now: int, seen: Listing)
    requires Saw(db, since, now, seen) && NoRepeats(seen.keys)
    ensures Elements(seen.keys) <= LiveValues(db, since) && |seen.keys| <= |LiveValues(db, since)|
  {
    BatchSize(seen.keys);
    SmallerSet(Elements(seen.keys), LiveValues(db, since));
  }

  lemma {:induction false} SmallerSet<T>(small: set<T>, big: set<T>)
    requires small <= big
    ensures |small| <= |big|
  {
    assert big == small + (big - small);
  }

  lemma AcceptedSetBounded(db: Db, since: int, now: int, seen: Listing, key: string, value: string, owner: string,
                           ttl: int, maxMB: real)
    requires Accepts(db, since, now, seen, value, maxMB)
    ensures NoRepeats(seen.keys) ==>
              CeilingKept(db, since, RunAll(db, now, SetCommands(key, value, owner, ttl)), now, key, maxMB)
  {
    var after := RunAll(db, now, SetCommands(key, value, owner, ttl));
    var n := |LiveValues(db, since)|;
    if NoRepeats(seen.keys) && n <= ScanCap {
      ListedAreLive(db, since, now, seen);
      forall most: nat | SizesAtMost(after, LiveValues(after, now) - {CacheKey(key)}, most)
        ensures StoredBytes(after, now) as real <= maxMB * Mebibyte + (Unsampled(n) * most) as real
      {
        AcceptedListingBounded(db, since, now, seen, key, value, owner, ttl, maxMB, most);
        TimesMost(Unsampled(|seen.keys|), Unsampled(n), most);
      }
      SizesAtMostStored(after, now, LiveValues(after, now) - {CacheKey(key)});
    }
  }

  /** There always is a largest value. */
  lemma SizesAtMostStored(db: Db, now: int, ks: set<Key>)
    requires ks <= LiveValues(db, now)
    ensures SizesAtMost(db, ks, StoredBytes(db, now))
  {
    forall k | k in ks ensures ValueSize(db)(k) <= StoredBytes(db, now) {
      TotalWithout(LiveValues(db, now), k, ValueSize(db));
    }
  }

  lemma TimesMost(few: nat, many: nat, most: nat)
    requires few <= many
    ensures few * most <= many * most && (few * most) as real <= (many * most) as real
  {
  }

  /** The same in terms of what was listed, repeats and all. */
  lemma AcceptedListingBounded(db: Db, since: int, now: int, seen: Listing, key: string, value: string,
                               owner: string, ttl: int, maxMB: real, most: nat)
    requires Accepts(db, since, now, seen, value, maxMB) && |seen.keys| <= ScanCap
    requires var after := RunAll(db, now, SetCommands(key, value, owner, ttl));
             SizesAtMost(after, LiveValues(after, now) - {CacheKey(key)}, most)
    ensures var after := RunAll(db, now, SetCommands(key, value, owner, ttl));
            StoredBytes(after, now) as real <= maxMB * Mebibyte + (Unsampled(|seen.keys|) * most) as real
  {
    var after := RunAll(db, now, SetCommands(key, value, owner, ttl));
    var others := LiveValues(after, now) - {CacheKey(key)};
    var size := ValueSize(after);
    OthersWereListed(db, since, now, seen, key, value, owner, ttl);
    SampleAndRest(others, seen, size, most);
    SetEffect(db, now, key, value, owner, ttl);
    TotalWithout(LiveValues(after, now), CacheKey(key), size);
    AcceptedSample(seen, |value|, maxMB);
  }

  /** Every other value live after a Set was listed, and measured right if it was sampled. */
  lemma OthersWereListed(db: Db, since: int, now: int, seen: Listing, key: string, value: string, owner: string,
                         ttl: int)
    requires Saw(db, since, now, seen) && AllMeasured(seen.lens) && |seen.keys| <= ScanCap
    ensures var after := RunAll(db, now, SetCommands(key, value, owner, ttl));
            var others := LiveValues(after, now) - {CacheKey(key)};
            && others <= Elements(seen.keys)
            && forall i | 0 <= i < |seen.lens| :: seen.keys[i] in others ==>
                 seen.lens[i] == Value(ValueSize(after)(seen.keys[i]))
  {
    var after := RunAll(db, now, SetCommands(key, value, owner, ttl));
    var others := LiveValues(after, now) - {CacheKey(key)};
    forall k | k in others ensures k in seen.keys && k in db && after[k] == db[k] && Live(db, now, k) {
      OtherValueKey(db, now, key, value, owner, ttl, k);
    }
    forall i | 0 <= i < |seen.lens| && seen.keys[i] in others
      ensures seen.lens[i] == Value(ValueSize(after)(seen.keys[i]))
    {
      assert RightLength(db, now, seen.keys[i], seen.lens[i]);
    }
  }

  lemma RefusedOnlyWhenFull(db: Db, since: int, now: int, seen: Listing, value: string, maxMB: real)
    requires Refuses(db, since, now, seen, value, maxMB)
    ensures NoRepeats(seen.keys) ==> Overfull(db, since, value, maxMB)
  {
    var n := |LiveValues(db, since)|;
    if NoRepeats(seen.keys) {
      ListedAreLive(db, since, now, seen);
      if n <= SampleSize {
        SampleIsStored(db, since, now, seen);
        SmallEstimate(seen);
      }
      forall most: nat | SizesAtMost(db, LiveValues(db, since), most)
        ensures (n * most + |value|) as real > maxMB * Mebibyte
      {
        ListedEstimateAtMost(db, since, now, seen, most);
        TimesMost(|seen.keys|, n, most);
      }
    }
  }

  lemma ListedEstimateAtMost(db: Db, since: int, now: int, seen: Listing, most: nat)
    requires Saw(db, since, now, seen) && SizesAtMost(db, LiveValues(db, since), most)
    ensures SizeMB(seen) * Mebibyte <= (|seen.keys| * most) as real
  {
    forall i | 0 <= i < |seen.lens| ensures Bytes(seen.lens[i]) <= most {
      assert RightLength(db, now, seen.keys[i], seen.lens[i]);
      assert seen.keys[i] in seen.keys && seen.keys[i] in LiveValues(db, since);
    }
    EstimateAtMost(seen, most);
  }

  /** What holds of the live values when the size check began holds of those at any earlier time. */
  lemma AcceptedSince(db: Db, earlier: int, since: int, now: int, seen: Listing, key: string, value: string,
                      owner: string, ttl: int, maxMB: real)
    requires Accepts(db, since, now, seen, value, maxMB) && earlier <= since
    ensures Accepts(db, earlier, now, seen, value, maxMB)
    ensures NoRepeats(seen.keys) ==>
              CeilingKept(db, earlier, RunAll(db, now, SetCommands(key, value, owner, ttl)), now, key, maxMB)
  {
    SawOver(db, since, now, seen, earlier, now);
    AcceptedSetBounded(db, earlier, now, seen, key, value, owner, ttl, maxMB);
  }

  lemma RefusedSince(db: Db, earlier: int, since: int, now: int, seen: Listing, value: string, maxMB: real)
    requires Refuses(db, since, now, seen, value, maxMB) && earlier <= since
    ensures Refuses(db, earlier, now, seen, value, maxMB)
    ensures NoRepeats(seen.keys) ==> Overfull(db, earlier, value, maxMB)
  {
    SawOver(db, since, now, seen, earlier, now);
    RefusedOnlyWhenFull(db, earlier, now, seen, value, maxMB);
  }

  /** What was sampled is stored. */
  lemma SampleIsStored(db: Db, since: int, now: int, seen: Listing)
    requires Saw(db, since, now, seen) && NoRepeats(seen.keys) && |seen.keys| <= SampleSize
    ensures SampledBytes(seen.lens) <= StoredBytes(db, since)
  {
    var size := ValueSize(db);
    forall i | 0 <= i < |seen.lens| ensures Weights(seen.lens)[i] <= size(seen.keys[i]) {
      assert RightLength(db, now, seen.keys[i], seen.lens[i]);
    }
    ListWeighsAtMost(seen.keys, Weights(seen.lens), size);
    SumWeights(seen.lens);
    TotalOfSubset(Elements(seen.keys), LiveValues(db, since), size);
  }

  /** With at most fifty live values, each listed once and measured, and none expiring under the scan, the
      estimate is exact, and so is the decision of Set. */
  lemma SmallStoreExactly(db: Db, since: int, now: int, seen: Listing)
    requires Saw(db, since, now, seen) && AllMeasured(seen.lens) && NoRepeats(seen.keys)
    requires |LiveValues(db, since)| <= SampleSize && LiveValues(db, now) == LiveValues(db, since)
    ensures SizeMB(seen) == InMB(StoredBytes(db, now))
  {
    ListedAreLive(db, since, now, seen);
    SampleIsStored(db, since, now, seen);
    SmallEstimate(seen);
    var live := LiveValues(db, now);
    forall i | 0 <= i < |seen.keys| ensures ValueSize(db)(seen.keys[i]) <= Weights(seen.lens)[i] {
      assert RightLength(db, now, seen.keys[i], seen.lens[i]) && seen.keys[i] in Elements(seen.keys);
    }
    Covered(live, seen.keys, Weights(seen.lens), ValueSize(db));
    SumWeights(seen.lens);
  }

  /** Without its STRLEN a value is taken to be empty: next to a single value over the ceiling, Set accepts
      any other that fits by itself, and the store stays over the ceiling. */
  lemma FailedStrLenOverfills(db: Db, now: int, k: Key, key: string, value: string, owner: string, ttl: int,
                              maxMB: real)
    requires LiveValues(db, now) == {k} && k != CacheKey(key)
    requires InMB(|value|) <= maxMB && |db[k].value| as real > maxMB * Mebibyte
    ensures var seen := Listing([k], [Failed], true);
            Saw(db, now, now, seen) && NoRepeats(seen.keys) && SizeMB(seen) + InMB(|value|) <= maxMB
    ensures StoredBytes(RunAll(db, now, SetCommands(key, value, owner, ttl)), now) as real > maxMB * Mebibyte
  {
    var seen := Listing([k], [Failed], true);
    assert k in LiveValues(db, now);
    assert forall j | CachePrefix <= j && Live(db, now, j) :: j in LiveValues(db, now);
    assert SampledBytes(seen.lens) == 0;
    var after := RunAll(db, now, SetCommands(key, value, owner, ttl));
    OtherValueKey(db, now, key, value, owner, ttl, k);
    TotalWithout(LiveValues(after, now), k, ValueSize(after));
  }

  lemma SetEffect(db: Db, now: int, key: string, value: string, owner: string, ttl: int)
    ensures var after := RunAll(db, now, SetCommands(key, value, owner, ttl));
            && CacheKey(key) in after && after[CacheKey(key)] == Cell(value, Deadline(now, ttl))
            && (owner != "" ==> OwnerKey(key) in after && after[OwnerKey(key)] == Cell(owner, Deadline(now, ttl)))
            && (forall k | k != CacheKey(key) && k != OwnerKey(key) ::
                  (k in after <==> k in db) && (k in db ==> after[k] == db[k]))
  {
    KeysApart(key, key);
    var c, o := SetCell(CacheKey(key), value, ttl), SetCell(OwnerKey(key), owner, ttl);
    RunTwo(db, now, c, o);
    assert [c] + [o] == [c, o] && [c] + [] == [c];
  }

  lemma OtherValueKey(db: Db, now: int, key: string, value: string, owner: string, ttl: int, k: Key)
    requires CachePrefix <= k && k != CacheKey(key)
    ensures var after := RunAll(db, now, SetCommands(key, value, owner, ttl));
            (k in after <==> k in db) && (k in db ==> after[k] == db[k])
  {
    HasPrefix(key);
    SetEffect(db, now, key, value, owner, ttl);
  }

  lemma RateInRange(hits: nat, total: nat)
    requires 0 < total && hits <= total
    ensures 0.0 <= hits as real / total as real <= 1.0
    ensures hits as real / total as real * total as real == hits as real
  {
  }

  /** The two deletes of a batch remove the entries it names. */
  lemma BatchDeletes(db: Db, keys: seq<Key>)
    ensures db - Elements(keys) - Elements(OwnerKeys(keys)) == WithoutEntries(db, Elements(keys))
  {
    var owners := Elements(OwnerKeys(keys));
    forall o ensures o in owners <==> exists g :: g in Elements(keys) && o == OwnerPrefix + TrimPrefix(g, CachePrefix) {
      if o in owners {
        var i :| 0 <= i < |keys| && OwnerKeys(keys)[i] == o;
        assert keys[i] in Elements(keys);
      }
      if g :| g in Elements(keys) && o == OwnerPrefix + TrimPrefix(g, CachePrefix) {
        var i :| 0 <= i < |keys| && keys[i] == g;
        assert OwnerKeys(keys)[i] == o;
      }
    }
  }

  lemma BatchAfterBatch(db: Db, gone: set<Key>, more: set<Key>)
    ensures WithoutEntries(WithoutEntries(db, gone), more) == WithoutEntries(db, gone + more)
  {
  }

  lemma {:induction false} BatchSize(keys: seq<Key>)
    ensures |Elements(keys)| <= |keys|
    ensures |Elements(keys)| == |keys| <==> NoRepeats(keys)
  {
    if keys != [] {
      var n := |keys| - 1;
      var front, last := keys[..n], keys[n];
      assert keys == front + [last];
      BatchSize(front);
      assert Elements(keys) == Elements(front) + {last};
      if last in front {
        var i :| 0 <= i < n && front[i] == last;
        assert keys[i] == keys[n];
      } else {
        assert last !in Elements(front);
        assert NoRepeats(keys) <==> NoRepeats(front);
      }
    }
  }
}
