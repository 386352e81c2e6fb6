/** The variant-count sweep of cmd/lens/d2qcheck.go: measuring a corpus, the best score with the first n
    variants, and the counts the sweep prints. Similarities are reals. */
module Pooling {
  import opened Prelude
  import opened Counting

  /** What the embedder, the generator and the deriver answered for one pair; None is an error. */
  datatype PairRun = PairRun(a: string, base: Option<real>, variants: Option<seq<Variant>>, allows: bool)

  datatype Variant = Variant(question: string, score: Option<real>)

  datatype Result = Result(baseline: real, best: real, bestVia: string, gateAllows: bool,
                           numVars: nat, varScores: seq<real>)

  /** The best of `base` and the first `n` scores. */
  function PrefixMax(base: real, scores: seq<real>, n: nat): real
    requires n <= |scores|
  {
    if n == 0 then base
    else
      var m := PrefixMax(base, scores, n - 1);
      if scores[n - 1] > m then scores[n - 1] else m
  }

  /** A count of variants, cut to those there are. */
  function Cut(n: int, most: nat): nat { if n <= 0 then 0 else if n < most then n else most }

  /** `base` or one of the first `n` scores is at least `th`. */
  predicate Reaches(base: real, scores: seq<real>, n: int, th: real) {
    base >= th || exists i :: 0 <= i < |scores| && i < n && scores[i] >= th
  }

  lemma {:induction false} PrefixMaxReaches(base: real, scores: seq<real>, n: nat, th: real)
    requires n <= |scores|
    ensures PrefixMax(base, scores, n) >= th <==> Reaches(base, scores, n, th)
  {
    if n > 0 {
      PrefixMaxReaches(base, scores, n - 1, th);
      if Reaches(base, scores, n, th) && !(base >= th) {
        var i :| 0 <= i < |scores| && i < n && scores[i] >= th;
        assert i < n - 1 ==> Reaches(base, scores, n - 1, th);
      }
    }
  }

  // ---------------------------------------------------------------------------
  // measureCorpus

  predicate Answered(run: PairRun) {
    run.base.Some? && run.variants.Some? &&
    forall i | 0 <= i < |run.variants.value| :: run.variants.value[i].score.Some?
  }

  function Scores(run: PairRun): (scores: seq<real>)
    requires Answered(run)
    ensures |scores| == |run.variants.value|
  {
    seq(|run.variants.value|, i requires 0 <= i < |run.variants.value| => run.variants.value[i].score.value)
  }

  /** `bestVia` names the pair's own question, or the first variant that reached the best score. */
  predicate ViaFirstBest(run: PairRun, best: real, via: string)
    requires Answered(run)
  {
    if best == run.base.value then via == run.a
    else exists i :: 0 <= i < |Scores(run)| && Scores(run)[i] == best && via == run.variants.value[i].question &&
                     forall j | 0 <= j < i :: Scores(run)[j] < best
  }

  predicate Measures(run: PairRun, r: Result)
    requires Answered(run)
  {
    && r.baseline == run.base.value && r.gateAllows == run.allows
    && r.varScores == Scores(run) && r.numVars == |r.varScores|
    && r.best == PrefixMax(r.baseline, r.varScores, r.numVars)
    && ViaFirstBest(run, r.best, r.bestVia)
  }

  lemma {:induction false} PrefixMaxAtLeast(base: real, scores: seq<real>, n: nat, i: nat)
    requires i < n <= |scores|
    ensures scores[i] <= PrefixMax(base, scores, n) && base <= PrefixMax(base, scores, n)
  {
    if i < n - 1 {
      PrefixMaxAtLeast(base, scores, n - 1, i);
    } else if n > 1 {
      PrefixMaxAtLeast(base, scores, n - 1, 0);
    }
  }

  method MeasurePair(run: PairRun) returns (r: Option<Result>)
    ensures r.Some? <==> Answered(run)
    ensures r.Some? ==> Measures(run, r.value)
  {
    if run.base.None? || run.variants.None? {
      return None;
    }
    var base, qs := run.base.value, run.variants.value;
    var best, via := base, run.a;
    var scores: seq<real> := [];
    ghost var at := -1;
    for i := 0 to |qs|
      invariant |scores| == i && forall j | 0 <= j < i :: qs[j].score == Some(scores[j])
      invariant best == PrefixMax(base, scores, i)
      invariant -1 <= at < i
      invariant if at == -1 then best == base && via == run.a
                else
                  && best > base && scores[at] == best && via == qs[at].question
                  && forall j | 0 <= j < at :: scores[j] < best
    {
      if qs[i].score.None? {
        return None;
      }
      var s := qs[i].score.value;
      ghost var before := scores;
      scores := scores + [s];
      SamePrefixMax(base, before, scores, i);
      if s > best {
        forall j | 0 <= j < i ensures scores[j] < s {
          PrefixMaxAtLeast(base, before, i, j);
        }
        if i > 0 {
          PrefixMaxAtLeast(base, before, i, 0);
        }
        best, via, at := s, qs[i].question, i;
      }
    }
    assert scores == Scores(run);
    r := Some(Result(base, best, via, run.allows, |qs|, scores));
  }

  lemma {:induction false} SamePrefixMax(base: real, xs: seq<real>, ys: seq<real>, n: nat)
    requires n <= |xs| && n <= |ys| && xs[..n] == ys[..n]
    ensures PrefixMax(base, xs, n) == PrefixMax(base, ys, n)
  {
    if n > 0 {
      assert xs[..n][n - 1] == ys[..n][n - 1];
      assert xs[..n - 1] == xs[..n][..n - 1] && ys[..n - 1] == ys[..n][..n - 1];
      SamePrefixMax(base, xs, ys, n - 1);
    }
  }

  /** One result a pair, in order; an error anywhere means no results at all. */
  method MeasureCorpus(runs: seq<PairRun>) returns (out: Option<seq<Result>>)
    ensures out.Some? <==> forall i | 0 <= i < |runs| :: Answered(runs[i])
    ensures out.Some? ==> |out.value| == |runs| && forall i | 0 <= i < |runs| :: Measures(runs[i], out.value[i])
  {
    var results: seq<Result> := [];
    for i := 0 to |runs|
      invariant |results| == i && forall j | 0 <= j < i :: Answered(runs[j]) && Measures(runs[j], results[j])
    {
      var r := MeasurePair(runs[i]);
      if r.None? {
        return None;
      }
      results := results + [r.value];
    }
    out := Some(results);
  }

  // ---------------------------------------------------------------------------
  // BestAtN, countAt, gateAllowed

  method BestAtN(r: Result, n: int) returns (best: real)
    ensures best == PrefixMax(r.baseline, r.varScores, Cut(n, |r.varScores|))
  {
    best := r.baseline;
    for i := 0 to |r.varScores|
      invariant i == 0 || i <= n
      invariant best == PrefixMax(r.baseline, r.varScores, i)
    {
      if i >= n {
        break;
      }
      if r.varScores[i] > best {
        best := r.varScores[i];
      }
    }
  }

  /** The score countAt compares with the threshold, shortcuts included. */
  function ScoreAt(r: Result, n: int): real {
    if n > 0 && r.numVars > 0 && r.best > r.baseline then
      if n >= r.numVars then r.best else PrefixMax(r.baseline, r.varScores, Cut(n, |r.varScores|))
    else r.baseline
  }

  function Served(n: int, th: real, gated: bool): Result -> bool {
    (r: Result) => (!gated || r.gateAllows) && ScoreAt(r, n) >= th
  }

  method CountAt(rs: seq<Result>, n: int, th: real, gated: bool) returns (c: nat)
    ensures c == Count(rs, Served(n, th, gated))
  {
    c := 0;
    for i := 0 to |rs|
      invariant c == Count(rs[..i], Served(n, th, gated))
    {
      var r := rs[i];
      CountNext(rs, Served(n, th, gated), i);
      if gated && !r.gateAllows {
        continue;
      }
      var s := r.baseline;
      if n > 0 && r.numVars > 0 && r.best > s {
        if n >= r.numVars {
          s := r.best;
        } else {
          s := BestAtN(r, n);
        }
      }
      if s >= th {
        c := c + 1;
      }
    }
    assert rs[..|rs|] == rs;
  }

  method GateAllowed(rs: seq<Result>) returns (n: nat)
    ensures n == Count(rs, (r: Result) => r.gateAllows)
  {
    n := 0;
    for i := 0 to |rs|
      invariant n == Count(rs[..i], (r: Result) => r.gateAllows)
    {
      CountNext(rs, (r: Result) => r.gateAllows, i);
      if rs[i].gateAllows {
        n := n + 1;
      }
    }
    assert rs[..|rs|] == rs;
  }

  // ---------------------------------------------------------------------------
  // What the sweep means

  /** What measureCorpus guarantees of a result. */
  predicate Built(r: Result) {
    r.numVars == |r.varScores| && r.best == PrefixMax(r.baseline, r.varScores, r.numVars)
  }

  predicate AllBuilt(rs: seq<Result>) { forall i | 0 <= i < |rs| :: Built(rs[i]) }

  /** For every n the shortcuts agree with the definition: a result is served when its baseline or one of
      its first n variants reaches the threshold. */
  lemma ShortcutAgrees(r: Result, n: int, th: real)
    requires Built(r)
    ensures ScoreAt(r, n) == PrefixMax(r.baseline, r.varScores, Cut(n, |r.varScores|))
    ensures ScoreAt(r, n) >= th <==> Reaches(r.baseline, r.varScores, n, th)
  {
    var k := Cut(n, |r.varScores|);
    PrefixMaxReaches(r.baseline, r.varScores, k, th);
    assert Reaches(r.baseline, r.varScores, k, th) <==> Reaches(r.baseline, r.varScores, n, th);
    if k > 0 && r.best <= r.baseline {
      PrefixMaxAtLeast(r.baseline, r.varScores, |r.varScores|, 0);
      FlatPrefix(r.baseline, r.varScores, k);
    }
  }

  lemma {:induction false} FlatPrefix(base: real, scores: seq<real>, k: nat)
    requires k <= |scores| && PrefixMax(base, scores, |scores|) <= base
    ensures PrefixMax(base, scores, k) == base
  {
    if k > 0 {
      FlatPrefix(base, scores, k - 1);
      PrefixMaxAtLeast(base, scores, |scores|, k - 1);
    }
  }

  function Reaching(n: int, th: real, gated: bool): Result -> bool {
    (r: Result) => (!gated || r.gateAllows) && Reaches(r.baseline, r.varScores, n, th)
  }

  /** countAt counts exactly the results that reach the threshold with their first n variants. */
  lemma CountAtMeans(rs: seq<Result>, n: int, th: real, gated: bool)
    requires AllBuilt(rs)
    ensures Count(rs, Served(n, th, gated)) == Count(rs, Reaching(n, th, gated))
  {
    forall i | 0 <= i < |rs| ensures Served(n, th, gated)(rs[i]) <==> Reaching(n, th, gated)(rs[i]) {
      ShortcutAgrees(rs[i], n, th);
    }
    CountSame(rs, Served(n, th, gated), Reaching(n, th, gated));
  }

  /** More variants or a lower threshold never serve fewer. */
  lemma SweepMonotone(rs: seq<Result>, n: int, more: int, low: real, th: real, gated: bool)
    requires AllBuilt(rs) && n <= more && low <= th
    ensures Count(rs, Served(n, th, gated)) <= Count(rs, Served(more, low, gated))
  {
    CountAtMeans(rs, n, th, gated);
    CountAtMeans(rs, more, low, gated);
    CountMonotone(rs, Reaching(n, th, gated), Reaching(more, low, gated));
  }

  /** The production count never passes the gate-allowed ceiling, nor the ungated count, at any threshold
      and any number of variants. */
  lemma {:induction false} CeilingIsCeiling(rs: seq<Result>, n: int, th: real)
    ensures Count(rs, Served(n, th, true)) <= Count(rs, (r: Result) => r.gateAllows)
    ensures Count(rs, Served(n, th, true)) <= Count(rs, Served(n, th, false))
  {
    CountMonotone(rs, Served(n, th, true), (r: Result) => r.gateAllows);
    CountMonotone(rs, Served(n, th, true), Served(n, th, false));
  }

  /** The ceiling is the least one: a low enough threshold reaches it. */
  lemma CeilingIsReached(rs: seq<Result>, n: int, th: real)
    requires AllBuilt(rs) && forall i | 0 <= i < |rs| :: rs[i].baseline >= th
    ensures Count(rs, Served(n, th, true)) == Count(rs, (r: Result) => r.gateAllows)
  {
    CountAtMeans(rs, n, th, true);
    CountSame(rs, Reaching(n, th, true), (r: Result) => r.gateAllows);
  }

  /** Sorting a lane by its best score first does not change what the sweep prints for it. */
  lemma SweepIgnoresOrder(rs: seq<Result>, sorted: seq<Result>, n: int, th: real, gated: bool)
    requires multiset(rs) == multiset(sorted)
    ensures Count(rs, Served(n, th, gated)) == Count(sorted, Served(n, th, gated))
  {
    CountOfPermutation(rs, sorted, Served(n, th, gated));
  }
}
