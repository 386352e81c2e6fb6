/** That the size check of Set (cmd/cachenode/storage.go) promises no more than CacheStorage.CeilingKept says:
    fifty live values are the most it protects, and the bound beyond fifty is reached. */
module CapacityBound {
  import opened Prelude
  import opened RedisModel
  import opened CacheKeys
  import opened SizeEstimate
  import opened CacheStorage

  /** A Set and what its Stats call saw. */
  datatype Attempt = Attempt(db: Db, since: int, now: int, seen: Listing, key: string, value: string, owner: string,
                             ttl: int, maxMB: real)

  ghost function AfterSet(a: Attempt): Db { RunAll(a.db, a.now, SetCommands(a.key, a.value, a.owner, a.ttl)) }

  /** Accepted with `n` live values before it, every STRLEN answered and each key listed once. */
  ghost predicate CleanlyAccepted(a: Attempt, n: nat) {
    && Accepts(a.db, a.since, a.now, a.seen, a.value, a.maxMB)
    && NoRepeats(a.seen.keys) && |LiveValues(a.db, a.since)| == n
  }

  ghost predicate UnderCeiling(a: Attempt) {
    StoredBytes(AfterSet(a), a.now) as real <= a.maxMB * 1048576.0
  }

  // ---------------------------------------------------------------------------
  // A store of n values of which the sampled fifty are empty

  function Letters(n: nat): string { seq(n, _ => 'x') }

  function ValueKeys(n: nat): seq<Key> { seq(n, i requires 0 <= i < n => CacheKey(Letters(i))) }

  function SizeAt(i: nat, most: nat): nat { if i < SampleSize then 0 else most }

  function Lopsided(n: nat, most: nat): Db {
    map k | k in ValueKeys(n) :: Cell(Letters(SizeAt(|k| - |CachePrefix|, most)), Never)
  }

  function ListingOf(n: nat): Listing
    requires n > SampleSize
  {
    Listing(ValueKeys(n), seq(SampleSize, _ => Value(0)), true)
  }

  lemma LopsidedAt(n: nat, most: nat, i: nat)
    requires i < n
    ensures ValueKeys(n)[i] in Lopsided(n, most)
    ensures ValueSize(Lopsided(n, most))(ValueKeys(n)[i]) == SizeAt(i, most)
  {
    assert ValueKeys(n)[i] in ValueKeys(n) && |ValueKeys(n)[i]| == |CachePrefix| + i;
  }

  lemma ValueKeysDistinct(n: nat)
    ensures NoRepeats(ValueKeys(n))
  {
    forall i, j | 0 <= i < j < n ensures ValueKeys(n)[i] != ValueKeys(n)[j] {
      assert |ValueKeys(n)[i]| == |CachePrefix| + i && |ValueKeys(n)[j]| == |CachePrefix| + j;
    }
  }

  lemma AllLive(n: nat, most: nat, now: int)
    ensures LiveValues(Lopsided(n, most), now) == Elements(ValueKeys(n))
    ensures |LiveValues(Lopsided(n, most), now)| == n
  {
    ValueKeysDistinct(n);
    BatchSize(ValueKeys(n));
    forall k | k in ValueKeys(n) ensures CachePrefix <= k && Live(Lopsided(n, most), now, k) {
      var i :| 0 <= i < n && ValueKeys(n)[i] == k;
      HasPrefix(Letters(i));
    }
  }

  lemma {:induction false} SumOfEqual(n: nat, b: nat)
    ensures Sum(seq(n, _ => b)) == n * b
  {
    if n > 0 {
      SumOfEqual(n - 1, b);
      assert seq(n, _ => b)[..n - 1] == seq(n - 1, _ => b);
      assert n * b == (n - 1) * b + b;
    }
  }

  /** Sizes that agree on the keys of a list weigh the keys as the list says. */
  lemma TotalIsSum(keys: seq<Key>, ws: seq<nat>, size: Key -> nat)
    requires |keys| == |ws| && NoRepeats(keys) && forall i | 0 <= i < |keys| :: size(keys[i]) == ws[i]
    ensures Total(Elements(keys), size) == Sum(ws)
  {
    Covered(Elements(keys), keys, ws, size);
    ListWeighsAtMost(keys, ws, size);
  }

  lemma LopsidedTotal(n: nat, most: nat, size: Key -> nat)
    requires n > SampleSize && forall i | 0 <= i < n :: size(ValueKeys(n)[i]) == SizeAt(i, most)
    ensures Total(Elements(ValueKeys(n)), size) == (n - SampleSize) * most
  {
    var sampled, rest := seq(SampleSize, _ => 0), seq(n - SampleSize, _ => most);
    ValueKeysDistinct(n);
    TotalIsSum(ValueKeys(n), sampled + rest, size);
    SumAppend(sampled, rest);
    SumOfEqual(SampleSize, 0);
    SumOfEqual(n - SampleSize, most);
  }

  lemma SampleIsEmpty(n: nat)
    requires n > SampleSize
    ensures AllMeasured(ListingOf(n).lens) && SizeMB(ListingOf(n)) == 0.0
  {
    SampleAtMost(ListingOf(n).lens, 0);
  }

  lemma SampleIsRight(n: nat, most: nat, now: int, lens: seq<Reply<nat>>)
    requires n > SampleSize && lens == seq(SampleSize, _ => Value(0))
    ensures SampledRight(Lopsided(n, most), now, ValueKeys(n), lens)
  {
    forall i | 0 <= i < |lens| ensures RightLength(Lopsided(n, most), now, ValueKeys(n)[i], lens[i]) {
      LopsidedAt(n, most, i);
    }
  }

  lemma LopsidedSeen(n: nat, most: nat, now: int)
    requires n > SampleSize
    ensures Saw(Lopsided(n, most), now, now, ListingOf(n))
  {
    AllLive(n, most, now);
    SampleIsRight(n, most, now, ListingOf(n).lens);
    AllListed(Lopsided(n, most), now, ListingOf(n));
  }

  /** A listing of exactly the live values, sampled right, is what Stats may see. */
  lemma AllListed(db: Db, now: int, seen: Listing)
    requires |seen.lens| == SampleOf(|seen.keys|) && seen.complete && Elements(seen.keys) == LiveValues(db, now)
    requires SampledRight(db, now, seen.keys, seen.lens)
    ensures Saw(db, now, now, seen)
  {
    assert forall k | CachePrefix <= k && Live(db, now, k) :: k in LiveValues(db, now);
    assert forall k | k in seen.keys :: k in Elements(seen.keys);
  }

  /** The new entry is none of the stored ones: its key is in another letter. */
  lemma NewKeyIsApart(n: nat, i: nat)
    requires i < n
    ensures ValueKeys(n)[i] != CacheKey("y")
  {
    KeysApart(Letters(i), "y");
    assert i > 0 ==> Letters(i)[0] == 'x';
  }

  lemma LopsidedAfter(n: nat, most: nat, value: string)
    requires n > SampleSize
    ensures var after := RunAll(Lopsided(n, most), 0, SetCommands("y", value, "w", 0));
            StoredBytes(after, 0) == |value| + (n - SampleSize) * most
  {
    var db := Lopsided(n, most);
    var after := RunAll(db, 0, SetCommands("y", value, "w", 0));
    SetEffect(db, 0, "y", value, "w", 0);
    HasPrefix("y");
    AllLive(n, most, 0);
    forall i | 0 <= i < n
      ensures ValueKeys(n)[i] in after && ValueSize(after)(ValueKeys(n)[i]) == SizeAt(i, most)
      ensures after[ValueKeys(n)[i]] == db[ValueKeys(n)[i]]
    {
      NewKeyIsApart(n, i);
      LopsidedAt(n, most, i);
      HasPrefix(Letters(i));
      OtherValueKey(db, 0, "y", value, "w", 0, ValueKeys(n)[i]);
    }
    LiveAfter(n, most, value, after);
    TotalWithout(LiveValues(after, 0), CacheKey("y"), ValueSize(after));
    LopsidedTotal(n, most, ValueSize(after));
  }

  lemma LiveAfter(n: nat, most: nat, value: string, after: Db)
    requires after == RunAll(Lopsided(n, most), 0, SetCommands("y", value, "w", 0))
    ensures CacheKey("y") in LiveValues(after, 0)
    ensures LiveValues(after, 0) - {CacheKey("y")} == Elements(ValueKeys(n))
  {
    SetEffect(Lopsided(n, most), 0, "y", value, "w", 0);
    HasPrefix("y");
    AllLive(n, most, 0);
    forall i | 0 <= i < n ensures ValueKeys(n)[i] != CacheKey("y") {
      NewKeyIsApart(n, i);
    }
    OthersLiveAfter(Lopsided(n, most), 0, "y", value, "w", 0);
  }

  /** A Set leaves every other value as live as it was. */
  lemma OthersLiveAfter(db: Db, now: int, key: string, value: string, owner: string, ttl: int)
    ensures LiveValues(RunAll(db, now, SetCommands(key, value, owner, ttl)), now) - {CacheKey(key)}
         == LiveValues(db, now) - {CacheKey(key)}
  {
    forall k | CachePrefix <= k && k != CacheKey(key)
      ensures k in LiveValues(RunAll(db, now, SetCommands(key, value, owner, ttl)), now) <==> k in LiveValues(db, now)
    {
      OtherValueKey(db, now, key, value, owner, ttl, k);
    }
  }

  // ---------------------------------------------------------------------------
  // Main results

  /** The bound of CeilingKept is reached: for every n > 50, every size of a largest value and every new value
      there is a cleanly accepted Set that ends exactly (n-50) times that size over the ceiling. */
  lemma BoundIsReached(n: nat, most: nat, value: string) returns (a: Attempt)
    requires n > 50
    ensures CleanlyAccepted(a, n) && a.value == value
    ensures SizesAtMost(AfterSet(a), LiveValues(AfterSet(a), a.now) - {CacheKey(a.key)}, most)
    ensures StoredBytes(AfterSet(a), a.now) as real == a.maxMB * 1048576.0 + ((n - 50) * most) as real
  {
    var db := Lopsided(n, most);
    a := Attempt(db, 0, 0, ListingOf(n), "y", value, "w", 0, InMB(|value|));
    LopsidedSeen(n, most, 0);
    SampleIsEmpty(n);
    AllLive(n, most, 0);
    ValueKeysDistinct(n);
    LopsidedAfter(n, most, value);
    LopsidedSizes(n, most, value, AfterSet(a));
    assert InMB(|value|) * Mebibyte == |value| as real;
  }

  lemma LopsidedSizes(n: nat, most: nat, value: string, after: Db)
    requires after == RunAll(Lopsided(n, most), 0, SetCommands("y", value, "w", 0))
    ensures SizesAtMost(after, LiveValues(after, 0) - {CacheKey("y")}, most)
  {
    LiveAfter(n, most, value, after);
    forall k | k in LiveValues(after, 0) - {CacheKey("y")} ensures ValueSize(after)(k) <= most {
      var i :| 0 <= i < n && ValueKeys(n)[i] == k;
      HasPrefix(Letters(i));
      NewKeyIsApart(n, i);
      OtherValueKey(Lopsided(n, most), 0, "y", value, "w", 0, k);
      LopsidedAt(n, most, i);
    }
  }

  /** Every cleanly accepted Set with n live values before it keeps the ceiling if and only if n is at most 50. */
  lemma FiftyExactly(n: nat)
    ensures (forall a: Attempt | CleanlyAccepted(a, n) :: UnderCeiling(a)) <==> n <= 50
  {
    if n <= SampleSize {
      forall a: Attempt | CleanlyAccepted(a, n) ensures UnderCeiling(a) {
        AcceptedSetBounded(a.db, a.since, a.now, a.seen, a.key, a.value, a.owner, a.ttl, a.maxMB);
      }
    } else {
      var a := BoundIsReached(n, 1, "");
      assert !UnderCeiling(a);
    }
  }

  /** A SCAN that repeats a key can hide another: with two live values, an empty one listed fifty times and one
      over the ceiling, any value that fits by itself is accepted and the store stays over the ceiling. */
  lemma RepeatsOverfill(db: Db, now: int, empty: Key, big: Key, key: string, value: string, owner: string, ttl: int,
                        maxMB: real)
    returns (seen: Listing)
    requires LiveValues(db, now) == {empty, big} && db[empty].value == "" && big != CacheKey(key)
    requires InMB(|value|) <= maxMB && |db[big].value| as real > maxMB * Mebibyte
    ensures Accepts(db, now, now, seen, value, maxMB) && !NoRepeats(seen.keys)
    ensures StoredBytes(RunAll(db, now, SetCommands(key, value, owner, ttl)), now) as real > maxMB * Mebibyte
  {
    seen := Listing(seq(SampleSize, _ => empty) + [big], seq(SampleSize, _ => Value(0)), true);
    assert seen.keys[0] == seen.keys[1];
    assert empty in LiveValues(db, now) && big in LiveValues(db, now);
    assert seen.keys[0] == empty && seen.keys[SampleSize] == big;
    assert Elements(seen.keys) == {empty, big};
    AllListed(db, now, seen);
    SampleAtMost(seen.lens, 0);
    var after := RunAll(db, now, SetCommands(key, value, owner, ttl));
    OtherValueKey(db, now, key, value, owner, ttl, big);
    TotalWithout(LiveValues(after, now), big, ValueSize(after));
  }
}
