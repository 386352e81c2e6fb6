/** The hit-rate table of cmd/hitrate/main.go: scoring pairs, the three counts, and the entity-gate ceiling.

    discriminator.Canon and cache.PooledPromptKey are arbitrary functions here; discriminator.Match is as
    internal/discriminator/discriminator.go defines it from Canon. Similarities are reals. */
module HitRate {
  import opened Counting

  datatype Pair = Pair(name: string, a: string, b: string, similarity: real)

  datatype Scored = Scored(name: string, sim: real, entityOK: bool, writtenOK: bool, canonA: string, canonB: string)

  /** discriminator.Match: the same entities, and some entity at all. */
  predicate Match(canon: string -> string, a: string, b: string) {
    canon(a) != "" && canon(b) != "" && canon(a) == canon(b)
  }

  function Verdict(canon: string -> string, key: string -> string, p: Pair): Scored {
    Scored(p.name, p.similarity, Match(canon, p.a, p.b),
           Match(canon, p.a, p.b) && (canon(key(p.a)) == canon(p.b) || canon(key(p.b)) == canon(p.a)),
           canon(p.a), canon(p.b))
  }

  predicate Descending(ss: seq<Scored>) {
    forall i, j | 0 <= i < j < |ss| :: ss[i].sim >= ss[j].sim
  }

  method SwapBack(a: array<Scored>, k: nat)
    requires 0 < k < a.Length
    modifies a
    ensures a[..] == old(a[..])[k - 1 := old(a[k])][k := old(a[k - 1])]
    ensures multiset(a[..]) == multiset(old(a[..]))
  {
    a[k - 1], a[k] := a[k], a[k - 1];
  }

  /** Everything among the first `n` and the one at `n` is in order, but for the one at `k`. */
  predicate DescendingBut(ss: seq<Scored>, n: nat, k: nat)
    requires n < |ss|
  {
    forall i, j | 0 <= i < j <= n && j != k :: ss[i].sim >= ss[j].sim
  }

  lemma OneBack(ss: seq<Scored>, n: nat, k: nat)
    requires 0 < k <= n < |ss| && DescendingBut(ss, n, k) && ss[k - 1].sim < ss[k].sim
    ensures DescendingBut(ss[k - 1 := ss[k]][k := ss[k - 1]], n, k - 1)
  {
  }

  /** Moves element `n` up to its place among the first `n`, already descending. */
  method MoveUp(a: array<Scored>, n: nat)
    requires n < a.Length && Descending(a[..n])
    modifies a
    ensures Descending(a[..n + 1]) && multiset(a[..]) == multiset(old(a[..]))
  {
    var k := n;
    while k > 0 && a[k - 1].sim < a[k].sim
      invariant 0 <= k <= n && DescendingBut(a[..], n, k)
      invariant multiset(a[..]) == multiset(old(a[..]))
    {
      OneBack(a[..], n, k);
      SwapBack(a, k);
      k := k - 1;
    }
    InPlace(a[..], n, k);
  }

  lemma InPlace(ss: seq<Scored>, n: nat, k: nat)
    requires k <= n < |ss| && DescendingBut(ss, n, k) && (k > 0 ==> ss[k - 1].sim >= ss[k].sim)
    ensures Descending(ss[..n + 1])
  {
  }

  /** sort.Slice by falling similarity, in place; which of two equals comes first is unspecified. */
  method SortBySimilarity(a: array<Scored>)
    modifies a
    ensures Descending(a[..]) && multiset(a[..]) == multiset(old(a[..]))
  {
    for n := 0 to a.Length
      invariant Descending(a[..n])
      invariant multiset(a[..]) == multiset(old(a[..]))
    {
      MoveUp(a, n);
    }
    assert a[..a.Length] == a[..];
  }

  function Verdicts(canon: string -> string, key: string -> string, pairs: seq<Pair>): seq<Scored> {
    seq(|pairs|, i requires 0 <= i < |pairs| => Verdict(canon, key, pairs[i]))
  }

  method Score(canon: string -> string, key: string -> string, pairs: seq<Pair>) returns (out: array<Scored>)
    ensures fresh(out) && Descending(out[..])
    ensures multiset(out[..]) == multiset(Verdicts(canon, key, pairs))
    ensures FromScore(canon, key, out[..])
  {
    out := new Scored[|pairs|](i requires 0 <= i < |pairs| => Verdict(canon, key, pairs[i]));
    assert out[..] == Verdicts(canon, key, pairs);
    SortBySimilarity(out);
    RowsAreVerdicts(canon, key, pairs, out[..]);
  }

  lemma RowsAreVerdicts(canon: string -> string, key: string -> string, pairs: seq<Pair>, ss: seq<Scored>)
    requires multiset(ss) == multiset(Verdicts(canon, key, pairs))
    ensures FromScore(canon, key, ss)
  {
    forall i | 0 <= i < |ss| ensures IsVerdict(canon, key, ss[i]) {
      assert ss[i] in multiset(ss);
      assert ss[i] in Verdicts(canon, key, pairs);
    }
  }

  function SimOnly(t: real): Scored -> bool { (s: Scored) => s.sim >= t }

  function Production(t: real): Scored -> bool { (s: Scored) => s.sim >= t && s.entityOK }

  function AsWritten(t: real): Scored -> bool { (s: Scored) => s.sim >= t && s.writtenOK }

  function EntityOK(): Scored -> bool { (s: Scored) => s.entityOK }

  function BothEmpty(): Scored -> bool { (s: Scored) => s.canonA == "" && s.canonB == "" }

  method CountAbove(ss: seq<Scored>, t: real) returns (simOnly: nat, production: nat, asWritten: nat)
    ensures simOnly == Count(ss, SimOnly(t))
    ensures production == Count(ss, Production(t))
    ensures asWritten == Count(ss, AsWritten(t))
  {
    simOnly, production, asWritten := 0, 0, 0;
    for i := 0 to |ss|
      invariant simOnly == Count(ss[..i], SimOnly(t))
      invariant production == Count(ss[..i], Production(t))
      invariant asWritten == Count(ss[..i], AsWritten(t))
    {
      CountNext(ss, SimOnly(t), i);
      CountNext(ss, Production(t), i);
      CountNext(ss, AsWritten(t), i);
      if ss[i].sim >= t {
        simOnly := simOnly + 1;
        if ss[i].entityOK {
          production := production + 1;
        }
        if ss[i].writtenOK {
          asWritten := asWritten + 1;
        }
      }
    }
    assert ss[..|ss|] == ss;
  }

  method EntityCeiling(ss: seq<Scored>) returns (n: nat)
    ensures n == Count(ss, EntityOK())
  {
    n := 0;
    for i := 0 to |ss|
      invariant n == Count(ss[..i], EntityOK())
    {
      CountNext(ss, EntityOK(), i);
      if ss[i].entityOK {
        n := n + 1;
      }
    }
    assert ss[..|ss|] == ss;
  }

  // ---------------------------------------------------------------------------
  // What the columns mean

  /** Every row is the verdict on some pair. */
  ghost predicate FromScore(canon: string -> string, key: string -> string, ss: seq<Scored>) {
    forall i | 0 <= i < |ss| :: IsVerdict(canon, key, ss[i])
  }

  ghost predicate IsVerdict(canon: string -> string, key: string -> string, s: Scored) {
    exists p :: s == Verdict(canon, key, p)
  }

  /** What the verdict on a pair says: the gate passes it when both sides name the same entities, and some; and
      it counts as written when, besides, the pooled key of one side keeps that side's entities. */
  lemma VerdictMeans(canon: string -> string, key: string -> string, p: Pair)
    ensures var s := Verdict(canon, key, p);
            && s.name == p.name && s.sim == p.similarity && s.canonA == canon(p.a) && s.canonB == canon(p.b)
            && (s.entityOK <==> canon(p.a) == canon(p.b) != "")
            && (s.writtenOK <==> s.entityOK && (canon(key(p.a)) == canon(p.a) || canon(key(p.b)) == canon(p.b)))
  {
  }

  /** A row is in the production or as-written column when it is in the sim-only one and passed that gate. */
  lemma ColumnsMeet(s: Scored, t: real)
    ensures Production(t)(s) <==> SimOnly(t)(s) && s.entityOK
    ensures AsWritten(t)(s) <==> SimOnly(t)(s) && s.writtenOK
  {
  }

  /** as-written <= production <= sim-only, and no threshold lifts production above the ceiling. */
  lemma {:induction false} ColumnsNested(canon: string -> string, key: string -> string, ss: seq<Scored>, t: real)
    requires FromScore(canon, key, ss)
    ensures Count(ss, AsWritten(t)) <= Count(ss, Production(t)) <= Count(ss, SimOnly(t)) <= |ss|
    ensures Count(ss, Production(t)) <= Count(ss, EntityOK())
  {
    forall i | 0 <= i < |ss| ensures ss[i].writtenOK ==> ss[i].entityOK {
      assert IsVerdict(canon, key, ss[i]);
      var p :| ss[i] == Verdict(canon, key, p);
    }
    CountMonotone(ss, AsWritten(t), Production(t));
    CountMonotone(ss, Production(t), SimOnly(t));
    CountMonotone(ss, Production(t), EntityOK());
    CountMonotone(ss, SimOnly(t), SimOnly(t));
  }

  /** Raising the threshold never raises a column. */
  lemma {:induction false} ColumnsAntitone(ss: seq<Scored>, t: real, higher: real)
    requires t <= higher
    ensures Count(ss, SimOnly(higher)) <= Count(ss, SimOnly(t))
    ensures Count(ss, Production(higher)) <= Count(ss, Production(t))
    ensures Count(ss, AsWritten(higher)) <= Count(ss, AsWritten(t))
  {
    CountMonotone(ss, SimOnly(higher), SimOnly(t));
    CountMonotone(ss, Production(higher), Production(t));
    CountMonotone(ss, AsWritten(higher), AsWritten(t));
  }

  /** The descending sort changes no column and not the ceiling. */
  lemma ColumnsIgnoreOrder(ss: seq<Scored>, sorted: seq<Scored>, t: real)
    requires multiset(ss) == multiset(sorted)
    ensures Count(ss, SimOnly(t)) == Count(sorted, SimOnly(t))
    ensures Count(ss, Production(t)) == Count(sorted, Production(t))
    ensures Count(ss, AsWritten(t)) == Count(sorted, AsWritten(t))
    ensures Count(ss, EntityOK()) == Count(sorted, EntityOK())
  {
    CountOfPermutation(ss, sorted, SimOnly(t));
    CountOfPermutation(ss, sorted, Production(t));
    CountOfPermutation(ss, sorted, AsWritten(t));
    CountOfPermutation(ss, sorted, EntityOK());
  }

  /** On a descending list the sim-only column is a cut: exactly the first rows clear the threshold. */
  lemma {:induction false} SimOnlyIsPrefix(ss: seq<Scored>, t: real, i: nat)
    requires Descending(ss) && i < |ss|
    ensures ss[i].sim >= t <==> i < Count(ss, SimOnly(t))
  {
    var n := |ss| - 1;
    if i < n {
      SimOnlyIsPrefix(ss[..n], t, i);
    } else {
      if ss[n].sim >= t {
        CountMonotoneAll(ss, t);
      } else {
        CountMonotone(ss[..n], SimOnly(t), SimOnly(t));
      }
    }
    if i < n && ss[n].sim >= t {
      CountMonotoneAll(ss, t);
    }
  }

  lemma {:induction false} CountMonotoneAll(ss: seq<Scored>, t: real)
    requires forall i | 0 <= i < |ss| :: ss[i].sim >= t
    ensures Count(ss, SimOnly(t)) == |ss|
  {
    if ss != [] {
      CountMonotoneAll(ss[..|ss| - 1], t);
    }
  }

  /** The empty pairs of the vacuity line and the pairs the gate passed are different pairs: Match refuses
      a side that names nothing. */
  lemma {:induction false} EmptyPairsNeverPass(canon: string -> string, key: string -> string, ss: seq<Scored>)
    requires FromScore(canon, key, ss)
    ensures Count(ss, BothEmpty()) + Count(ss, EntityOK()) <= |ss|
  {
    var neither := (s: Scored) => !s.entityOK && !(s.canonA == "" && s.canonB == "");
    forall i | 0 <= i < |ss| ensures !(BothEmpty()(ss[i]) && EntityOK()(ss[i])) {
      assert IsVerdict(canon, key, ss[i]);
      var p :| ss[i] == Verdict(canon, key, p);
    }
    CountPartition(ss, BothEmpty(), EntityOK(), neither);
  }
}
