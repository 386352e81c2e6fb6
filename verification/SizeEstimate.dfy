/** The sampled size estimate of CacheStorage.Stats (cmd/cachenode/storage.go) and how far a ceiling enforced
    with it can be overshot. Sizes are reals. */
module SizeEstimate {
  import opened Prelude
  import opened RedisModel

  const SampleSize: nat := 50
  const ScanCap: nat := 10_000
  const Mebibyte: real := 1048576.0

  /** What one Stats call saw: the scanned keys, the STRLEN replies of the sample, and whether the scan ran
      to its end. */
  datatype Listing = Listing(keys: seq<Key>, lens: seq<Reply<nat>>, complete: bool)

  function SampleOf(n: nat): nat { if n < SampleSize then n else SampleSize }

  /** STRLEN errors are skipped. */
  function Bytes(r: Reply<nat>): nat { if r.Value? then r.v else 0 }

  function SampledBytes(lens: seq<Reply<nat>>): nat {
    if lens == [] then 0 else SampledBytes(lens[..|lens| - 1]) + Bytes(lens[|lens| - 1])
  }

  function SizeMB(seen: Listing): real
    requires |seen.lens| == SampleOf(|seen.keys|)
  {
    if |seen.lens| > 0 then Extrapolated(SampledBytes(seen.lens), |seen.lens|, |seen.keys|) else 0.0
  }

  /** `n` keys, taken to hold as much each as the `limit` sampled ones do on average. */
  function Extrapolated(bytes: nat, limit: nat, n: nat): real
    requires limit > 0
  {
    bytes as real / limit as real * n as real / Mebibyte
  }

  function InMB(bytes: nat): real { bytes as real / Mebibyte }

  // ---------------------------------------------------------------------------
  // The estimate is never below the sample

  lemma EstimateAtLeastSample(seen: Listing)
    requires |seen.lens| == SampleOf(|seen.keys|)
    ensures SizeMB(seen) * Mebibyte >= SampledBytes(seen.lens) as real
  {
  }

  /** A write that the check let through keeps sample and value under the ceiling. */
  lemma AcceptedSample(seen: Listing, incoming: nat, maxMB: real)
    requires |seen.lens| == SampleOf(|seen.keys|)
    requires SizeMB(seen) + InMB(incoming) <= maxMB
    ensures (SampledBytes(seen.lens) + incoming) as real <= maxMB * Mebibyte
  {
    EstimateAtLeastSample(seen);
    assert InMB(incoming) * Mebibyte == incoming as real;
    assert (SizeMB(seen) + InMB(incoming)) * Mebibyte == SizeMB(seen) * Mebibyte + incoming as real;
  }

  // ---------------------------------------------------------------------------
  // What is stored is covered by what was scanned

  /** What the keys of a set weigh together. */
  ghost function Total(ks: set<Key>, size: Key -> nat): nat {
    if ks == {} then 0 else var k :| k in ks; size(k) + Total(ks - {k}, size)
  }

  /** Any key may be weighed first. */
  lemma {:induction false} TotalWithout(ks: set<Key>, k: Key, size: Key -> nat)
    requires k in ks
    ensures Total(ks, size) == size(k) + Total(ks - {k}, size)
    decreases ks
  {
    var c :| c in ks && Total(ks, size) == size(c) + Total(ks - {c}, size);
    if c != k {
      TotalWithout(ks - {c}, k, size);
      TotalWithout(ks - {k}, c, size);
      assert ks - {c} - {k} == ks - {k} - {c};
    }
  }

  lemma {:induction false} TotalOfSubset(ks: set<Key>, all: set<Key>, size: Key -> nat)
    requires ks <= all
    ensures Total(ks, size) <= Total(all, size)
    decreases all
  {
    if all != {} {
      var k :| k in all;
      TotalWithout(all, k, size);
      if k in ks {
        TotalWithout(ks, k, size);
      } else {
        assert ks - {k} == ks;
      }
      TotalOfSubset(ks - {k}, all - {k}, size);
    }
  }

  function Sum(ws: seq<nat>): nat {
    if ws == [] then 0 else Sum(ws[..|ws| - 1]) + ws[|ws| - 1]
  }

  /** Keys that all occur in a list weigh no more than the list, repeats and all. */
  lemma {:induction false} Covered(ks: set<Key>, keys: seq<Key>, ws: seq<nat>, size: Key -> nat)
    requires |keys| == |ws| && ks <= Elements(keys)
    requires forall i | 0 <= i < |keys| :: keys[i] in ks ==> size(keys[i]) <= ws[i]
    ensures Total(ks, size) <= Sum(ws)
    decreases |keys|
  {
    if keys == [] {
      assert ks == {};
    } else {
      var n := |keys| - 1;
      var last := keys[n];
      assert keys == keys[..n] + [last];
      if last in ks {
        TotalWithout(ks, last, size);
      } else {
        assert ks - {last} == ks;
      }
      Covered(ks - {last}, keys[..n], ws[..n], size);
    }
  }

  /** A list without repeats that gives each key at most its weight weighs no more than its keys. */
  lemma {:induction false} ListWeighsAtMost(keys: seq<Key>, ws: seq<nat>, size: Key -> nat)
    requires |keys| == |ws| && NoRepeats(keys)
    requires forall i | 0 <= i < |keys| :: ws[i] <= size(keys[i])
    ensures Sum(ws) <= Total(Elements(keys), size)
    decreases |keys|
  {
    if keys != [] {
      var n := |keys| - 1;
      var last := keys[n];
      assert keys == keys[..n] + [last];
      TotalWithout(Elements(keys), last, size);
      assert Elements(keys) - {last} == Elements(keys[..n]);
      ListWeighsAtMost(keys[..n], ws[..n], size);
    }
  }

  lemma {:induction false} SumAtMost(ws: seq<nat>, most: nat)
    requires forall i | 0 <= i < |ws| :: ws[i] <= most
    ensures Sum(ws) <= |ws| * most
  {
    if ws != [] {
      var n := |ws| - 1;
      SumAtMost(ws[..n], most);
      assert (n + 1) * most == n * most + most;
    }
  }

  lemma {:induction false} SumAppend(us: seq<nat>, vs: seq<nat>)
    ensures Sum(us + vs) == Sum(us) + Sum(vs)
  {
    if vs == [] {
      assert us + vs == us;
    } else {
      var n := |vs| - 1;
      assert (us + vs)[..|us| + n] == us + vs[..n];
      SumAppend(us, vs[..n]);
    }
  }

  function Weights(lens: seq<Reply<nat>>): seq<nat> {
    seq(|lens|, i requires 0 <= i < |lens| => Bytes(lens[i]))
  }

  lemma {:induction false} SumWeights(lens: seq<Reply<nat>>)
    ensures Sum(Weights(lens)) == SampledBytes(lens)
  {
    if lens != [] {
      var n := |lens| - 1;
      SumWeights(lens[..n]);
      assert Weights(lens)[..n] == Weights(lens[..n]);
    }
  }

  /** Keys found by a scan weigh at most the sample plus `most` for every listed key not sampled. */
  lemma SampleAndRest(ks: set<Key>, seen: Listing, size: Key -> nat, most: nat)
    requires |seen.lens| == SampleOf(|seen.keys|) && ks <= Elements(seen.keys)
    requires forall k | k in ks :: size(k) <= most
    requires forall i | 0 <= i < |seen.lens| :: seen.keys[i] in ks ==> seen.lens[i] == Value(size(seen.keys[i]))
    ensures Total(ks, size) <= SampledBytes(seen.lens) + (|seen.keys| - |seen.lens|) * most
  {
    var rest := seq(|seen.keys| - |seen.lens|, _ => most);
    Covered(ks, seen.keys, Weights(seen.lens) + rest, size);
    SumAppend(Weights(seen.lens), rest);
    SumWeights(seen.lens);
    SumAtMost(rest, most);
  }

  // ---------------------------------------------------------------------------
  // The estimate is never above what the listed keys can hold

  /** With at most fifty keys listed the estimate is the sample. */
  lemma SmallEstimate(seen: Listing)
    requires |seen.lens| == SampleOf(|seen.keys|) && |seen.keys| <= SampleSize
    ensures SizeMB(seen) == InMB(SampledBytes(seen.lens))
  {
    if seen.keys == [] {
      assert SampledBytes(seen.lens) == 0;
    } else {
      var s, n := SampledBytes(seen.lens) as real, |seen.keys| as real;
      assert s / n * n == s;
    }
  }

  lemma {:induction false} SampleAtMost(lens: seq<Reply<nat>>, most: nat)
    requires forall i | 0 <= i < |lens| :: Bytes(lens[i]) <= most
    ensures SampledBytes(lens) <= |lens| * most
  {
    if lens != [] {
      var n := |lens| - 1;
      SampleAtMost(lens[..n], most);
      assert (n + 1) * most == n * most + most;
    }
  }

  /** Listed keys of at most `most` bytes each are estimated at no more than that many times `most`. */
  lemma EstimateAtMost(seen: Listing, most: nat)
    requires |seen.lens| == SampleOf(|seen.keys|)
    requires forall i | 0 <= i < |seen.lens| :: Bytes(seen.lens[i]) <= most
    ensures SizeMB(seen) * Mebibyte <= (|seen.keys| * most) as real
  {
    SampleAtMost(seen.lens, most);
    if seen.lens != [] {
      ScaledDown(SampledBytes(seen.lens), |seen.lens|, |seen.keys|, most);
    }
  }

  lemma ScaledDown(s: nat, l: nat, n: nat, most: nat)
    requires s <= l * most && 0 < l
    ensures Extrapolated(s, l, n) * Mebibyte <= (n * most) as real
  {
    var avg := s as real / l as real;
    assert avg * l as real == s as real;
    AverageAtMost(avg, l, s, most);
    assert (n * most) as real == n as real * most as real;
    MultiplyBy(avg, most as real, n as real);
  }

  lemma AverageAtMost(avg: real, l: nat, s: nat, most: nat)
    requires avg * l as real == s as real && s <= l * most && 0 < l
    ensures avg <= most as real
  {
    assert (l * most) as real == l as real * most as real;
    if avg > most as real {
      MultiplyBy(most as real, avg, l as real);
    }
  }

  lemma MultiplyBy(a: real, b: real, n: real)
    requires a <= b && 0.0 <= n
    ensures a * n <= b * n
    ensures a < b && 0.0 < n ==> a * n < b * n
  {
  }
}
