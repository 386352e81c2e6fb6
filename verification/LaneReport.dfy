/** The counting loop of reportLane in cmd/lens/canoncheck.go.

    A pair is given by its canonical keys on the two runs and by the folded words of its two first forms;
    canonq.Key and canonq.Fold are not modelled. An empty key is a rejected canonical form. */
module LaneReport {
  import opened Counting
  import opened WordDistance

  datatype Pair = Pair(name: string, first: Keys, second: Keys, wordsA: seq<string>, wordsB: seq<string>)

  datatype Keys = Keys(a: string, b: string)

  datatype Report = Report(collapsed: nat, rejected: nat, flipped: nat, oneWord: nat,
                           names: seq<string>, rejectedNames: seq<string>, misses: seq<Miss>)

  /** A miss as it is printed: the pair's name and how many words apart its forms are. */
  datatype Miss = Miss(name: string, apart: nat)

  predicate Unmeasured(k: Keys) { k.a == "" || k.b == "" }

  function Rejected(): Pair -> bool { (p: Pair) => Unmeasured(p.first) }

  function Collapsed(): Pair -> bool { (p: Pair) => !Unmeasured(p.first) && p.first.a == p.first.b }

  function Missed(): Pair -> bool { (p: Pair) => !Unmeasured(p.first) && p.first.a != p.first.b }

  function Flipped(): Pair -> bool {
    (p: Pair) => !Unmeasured(p.first) && !Unmeasured(p.second) &&
                 (p.second.a == p.second.b) != (p.first.a == p.first.b)
  }

  function OneWordMiss(): Pair -> bool { (p: Pair) => Missed()(p) && Distance(p.wordsA, p.wordsB) == 1 }

  /** The names of the pairs with a property, in order. */
  function Names(pairs: seq<Pair>, p: Pair -> bool): seq<string> {
    if pairs == [] then []
    else Names(pairs[..|pairs| - 1], p) + if p(pairs[|pairs| - 1]) then [pairs[|pairs| - 1].name] else []
  }

  /** Every miss, in order. */
  function Misses(pairs: seq<Pair>): (ms: seq<Miss>)
    ensures |ms| == Count(pairs, Missed())
  {
    if pairs == [] then []
    else
      var last := pairs[|pairs| - 1];
      Misses(pairs[..|pairs| - 1]) +
      if Missed()(last) then [Miss(last.name, Distance(last.wordsA, last.wordsB))] else []
  }

  /** The first six of a list. */
  function FirstSix(ms: seq<Miss>): seq<Miss> { if |ms| <= 6 then ms else ms[..6] }

  lemma NamesNext(pairs: seq<Pair>, p: Pair -> bool, i: nat)
    requires i < |pairs|
    ensures Names(pairs[..i + 1], p) == Names(pairs[..i], p) + if p(pairs[i]) then [pairs[i].name] else []
  {
    assert pairs[..i + 1][..i] == pairs[..i];
  }

  lemma MissesNext(pairs: seq<Pair>, i: nat)
    requires i < |pairs|
    ensures Misses(pairs[..i + 1]) ==
            Misses(pairs[..i]) +
            if Missed()(pairs[i]) then [Miss(pairs[i].name, Distance(pairs[i].wordsA, pairs[i].wordsB))] else []
  {
    assert pairs[..i + 1][..i] == pairs[..i];
  }

  /** What the report of a pair list must be. `want` tells the rephrase lane from the danger lane, whose
      misses are not looked at. */
  ghost predicate Reports(r: Report, pairs: seq<Pair>, want: bool) {
    && r.collapsed == Count(pairs, Collapsed()) && r.names == Names(pairs, Collapsed())
    && r.rejected == Count(pairs, Rejected()) && r.rejectedNames == Names(pairs, Rejected())
    && r.flipped == Count(pairs, Flipped())
    && r.oneWord == (if want then Count(pairs, OneWordMiss()) else 0)
    && r.misses == (if want then FirstSix(Misses(pairs)) else [])
  }

  /** One turn of the loop. */
  method Visit(r: Report, pairs: seq<Pair>, i: nat, want: bool) returns (r': Report)
    requires i < |pairs| && Reports(r, pairs[..i], want)
    ensures Reports(r', pairs[..i + 1], want)
  {
    CountNext(pairs, Collapsed(), i);
    CountNext(pairs, Rejected(), i);
    CountNext(pairs, Flipped(), i);
    CountNext(pairs, OneWordMiss(), i);
    NamesNext(pairs, Collapsed(), i);
    NamesNext(pairs, Rejected(), i);
    MissesNext(pairs, i);
    var p := pairs[i];
    if p.first.a == "" || p.first.b == "" {
      return r.(rejected := r.rejected + 1, rejectedNames := r.rejectedNames + [p.name]);
    }
    r' := r;
    var hit := p.first.a == p.first.b;
    if hit {
      r' := r'.(collapsed := r'.collapsed + 1, names := r'.names + [p.name]);
    } else if want {
      var d := WordDistance.WordDistance(p.wordsA, p.wordsB);
      if d == 1 {
        r' := r'.(oneWord := r'.oneWord + 1);
      }
      if |r'.misses| < 6 {
        r' := r'.(misses := r'.misses + [Miss(p.name, d)]);
      }
    }
    if p.second.a != "" && p.second.b != "" && (p.second.a == p.second.b) != hit {
      r' := r'.(flipped := r'.flipped + 1);
    }
  }

  method ReportSet(pairs: seq<Pair>, want: bool) returns (r: Report)
    ensures Reports(r, pairs, want)
  {
    r := Report(0, 0, 0, 0, [], [], []);
    assert pairs[..0] == [];
    for i := 0 to |pairs|
      invariant Reports(r, pairs[..i], want)
    {
      r := Visit(r, pairs, i, want);
    }
    assert pairs[..|pairs|] == pairs;
  }

  /** Collapsed, rejected and missed pairs partition the list, so the printed number that did not collapse
      is the number of misses; the one-word count is the misses at distance one, and on the rephrase lane
      the misses listed are the first six. */
  lemma ReportAddsUp(r: Report, pairs: seq<Pair>, want: bool)
    requires Reports(r, pairs, want)
    ensures r.collapsed + r.rejected + Count(pairs, Missed()) == |pairs|
    ensures |pairs| - r.collapsed - r.rejected == |Misses(pairs)|
    ensures r.oneWord <= |Misses(pairs)|
    ensures want ==> |r.misses| == if |Misses(pairs)| < 6 then |Misses(pairs)| else 6
    ensures r.flipped + r.rejected <= |pairs|
  {
    CountPartition(pairs, Collapsed(), Rejected(), Missed());
    CountMonotone(pairs, OneWordMiss(), Missed());
    var kept := (p: Pair) => !Rejected()(p) && !Flipped()(p);
    CountPartition(pairs, Flipped(), Rejected(), kept);
  }

  /** The verdicts on a pair: collapsed with one key on both sides, missed with two, rejected without. */
  lemma VerdictMeans(p: Pair)
    ensures Collapsed()(p) <==> p.first.a == p.first.b != ""
    ensures Missed()(p) <==> p.first.a != "" && p.first.b != "" && p.first.a != p.first.b
    ensures Rejected()(p) <==> "" in {p.first.a, p.first.b}
  {
  }

  /** The pair as the other run saw it. */
  function Swapped(p: Pair): Pair { p.(first := p.second, second := p.first) }

  function CollapsedThenMissed(): Pair -> bool { (p: Pair) => Collapsed()(p) && Missed()(Swapped(p)) }

  function MissedThenCollapsed(): Pair -> bool { (p: Pair) => Missed()(p) && Collapsed()(Swapped(p)) }

  /** The printed number of changed verdicts is the pairs that collapsed on one run and were missed on the
      other. */
  lemma {:induction false} FlippedMeans(pairs: seq<Pair>)
    ensures Count(pairs, Flipped()) == Count(pairs, CollapsedThenMissed()) + Count(pairs, MissedThenCollapsed())
  {
    if pairs != [] {
      var n := |pairs| - 1;
      FlippedMeans(pairs[..n]);
      FlippedPair(pairs[n]);
    }
  }

  lemma FlippedPair(p: Pair)
    ensures Flipped()(p) <==> CollapsedThenMissed()(p) || MissedThenCollapsed()(p)
    ensures !(CollapsedThenMissed()(p) && MissedThenCollapsed()(p))
  {
    var q := Swapped(p);
    assert q.first == p.second;
    assert Collapsed()(q) <==> !Unmeasured(p.second) && p.second.a == p.second.b;
    assert Missed()(q) <==> !Unmeasured(p.second) && p.second.a != p.second.b;
  }

  lemma {:induction false} OneWordMissesAtDistanceOne(pairs: seq<Pair>)
    ensures Count(pairs, OneWordMiss()) == Count(Misses(pairs), (m: Miss) => m.apart == 1)
  {
    var one := (m: Miss) => m.apart == 1;
    if pairs != [] {
      var n := |pairs| - 1;
      var front, last := Misses(pairs[..n]), pairs[n];
      OneWordMissesAtDistanceOne(pairs[..n]);
      if Missed()(last) {
        CountOfAppend(front, [Miss(last.name, Distance(last.wordsA, last.wordsB))], one);
      } else {
        assert Misses(pairs) == front;
      }
    }
  }
}
