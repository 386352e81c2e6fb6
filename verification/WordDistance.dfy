/** The word-level Levenshtein distance of cmd/lens/canoncheck.go.

    `WordDistance` is the two-row table of the source. `Distance` is the textbook recurrence it
    computes; the lemmas show that the recurrence is the least number of single-word edits and that it
    is a metric. Sentences are the word sequences that strings.Fields yields. */
module WordDistance {
  /** One single-word edit of a sentence. */
  datatype Edit<W> =
    | Insert(at: nat, word: W)
    | Delete(at: nat)
    | Replace(at: nat, word: W)

  predicate Fits<W>(e: Edit<W>, s: seq<W>) {
    match e
    case Insert(at, _) => at <= |s|
    case Delete(at) => at < |s|
    case Replace(at, _) => at < |s|
  }

  function Apply<W>(e: Edit<W>, s: seq<W>): seq<W>
    requires Fits(e, s)
  {
    match e
    case Insert(at, w) => s[..at] + [w] + s[at..]
    case Delete(at) => s[..at] + s[at + 1..]
    case Replace(at, w) => s[at := w]
  }

  /** Performing the edits of `script` one after another turns `x` into `y`. */
  predicate Turns<W(==)>(script: seq<Edit<W>>, x: seq<W>, y: seq<W>)
    decreases |script|
  {
    if script == [] then x == y
    else Fits(script[0], x) && Turns(script[1..], Apply(script[0], x), y)
  }

  function Cost<W(==)>(a: W, b: W): nat { if a == b then 0 else 1 }

  function Min(a: nat, b: nat): nat { if a < b then a else b }

  /** The distance between the first `i` words of `x` and the first `j` words of `y`. */
  function Table<W(==)>(x: seq<W>, y: seq<W>, i: nat, j: nat): nat
    requires i <= |x| && j <= |y|
  {
    if i == 0 then j
    else if j == 0 then i
    else Min(Table(x, y, i - 1, j) + 1,
             Min(Table(x, y, i, j - 1) + 1,
                 Table(x, y, i - 1, j - 1) + Cost(x[i - 1], y[j - 1])))
  }

  function Distance<W(==)>(x: seq<W>, y: seq<W>): nat {
    Table(x, y, |x|, |y|)
  }

  // ---------------------------------------------------------------------------
  // The two-row program

  method WordDistance<W(==)>(x: seq<W>, y: seq<W>) returns (d: nat)
    ensures d == Distance(x, y)
  {
    var prev := new nat[|y| + 1];
    var cur := new nat[|y| + 1];
    for j := 0 to prev.Length
      invariant forall k | 0 <= k < j :: prev[k] == k
    {
      prev[j] := j;
    }
    for i := 1 to |x| + 1
      invariant prev != cur && prev.Length == cur.Length == |y| + 1
      invariant fresh(prev) && fresh(cur)
      invariant forall j {:trigger prev[j]} | 0 <= j <= |y| :: prev[j] == Table(x, y, i - 1, j)
    {
      cur[0] := i;
      for j := 1 to |y| + 1
        invariant forall k {:trigger prev[k]} | 0 <= k <= |y| :: prev[k] == Table(x, y, i - 1, k)
        invariant forall k {:trigger cur[k]} | 0 <= k < j :: cur[k] == Table(x, y, i, k)
      {
        var cost := 1;
        if x[i - 1] == y[j - 1] {
          cost := 0;
        }
        ghost var row := cur[..j];
        cur[j] := Min(prev[j] + 1, Min(cur[j - 1] + 1, prev[j - 1] + cost));
        TableEntry(x, y, i, j, prev[j], cur[j - 1], prev[j - 1], cost);
        assert forall k {:trigger cur[k]} | 0 <= k < j :: cur[k] == row[k];
      }
      prev, cur := cur, prev;
    }
    d := prev[|y|];
  }

  // ---------------------------------------------------------------------------
  // A metric

  lemma {:induction false} TableBounds<W>(x: seq<W>, y: seq<W>, i: nat, j: nat)
    requires i <= |x| && j <= |y|
    ensures i - j <= Table(x, y, i, j) && j - i <= Table(x, y, i, j)
    ensures Table(x, y, i, j) <= if i < j then j else i
  {
    if i > 0 && j > 0 {
      TableBounds(x, y, i - 1, j);
      TableBounds(x, y, i, j - 1);
      TableBounds(x, y, i - 1, j - 1);
    }
  }

  lemma {:induction false} TableSymmetric<W>(x: seq<W>, y: seq<W>, i: nat, j: nat)
    requires i <= |x| && j <= |y|
    ensures Table(x, y, i, j) == Table(y, x, j, i)
  {
    if i > 0 && j > 0 {
      TableSymmetric(x, y, i - 1, j);
      TableSymmetric(x, y, i, j - 1);
      TableSymmetric(x, y, i - 1, j - 1);
      var up, left, paired := Table(x, y, i - 1, j), Table(x, y, i, j - 1), Table(x, y, i - 1, j - 1);
      var cost := Cost(x[i - 1], y[j - 1]);
      TableEntry(x, y, i, j, up, left, paired, cost);
      TableEntry(y, x, j, i, left, up, paired, cost);
    }
  }

  lemma TableEntry<W>(x: seq<W>, y: seq<W>, i: nat, j: nat, up: nat, left: nat, paired: nat, cost: nat)
    requires 0 < i <= |x| && 0 < j <= |y|
    requires up == Table(x, y, i - 1, j) && left == Table(x, y, i, j - 1) && paired == Table(x, y, i - 1, j - 1)
    requires cost == Cost(x[i - 1], y[j - 1])
    ensures Table(x, y, i, j) == Min(up + 1, Min(left + 1, paired + cost))
  {
  }

  lemma {:induction false} TableZero<W>(x: seq<W>, y: seq<W>, i: nat, j: nat)
    requires i <= |x| && j <= |y|
    ensures Table(x, y, i, j) == 0 <==> x[..i] == y[..j]
  {
    if i > 0 && j > 0 {
      TableZero(x, y, i - 1, j - 1);
      assert x[..i] == x[..i - 1] + [x[i - 1]];
      assert y[..j] == y[..j - 1] + [y[j - 1]];
    }
  }

  lemma {:induction false} TableTriangle<W>(x: seq<W>, y: seq<W>, z: seq<W>, i: nat, j: nat, k: nat)
    requires i <= |x| && j <= |y| && k <= |z|
    ensures Table(x, z, i, k) <= Table(x, y, i, j) + Table(y, z, j, k)
    decreases i + j + k, 3
  {
    if i == 0 || j == 0 || k == 0 {
      TableBounds(x, y, i, j);
      TableBounds(y, z, j, k);
      TableBounds(x, z, i, k);
    } else if Table(x, y, i, j) == Table(x, y, i - 1, j) + 1 {
      TableTriangle(x, y, z, i - 1, j, k);
    } else if Table(y, z, j, k) == Table(y, z, j, k - 1) + 1 {
      TableTriangle(x, y, z, i, j, k - 1);
    } else {
      TriangleByLastWord(x, y, z, i, j, k);
    }
  }

  /** The case in which neither side drops the last word of `x` nor adds the last word of `z`. */
  lemma {:induction false} TriangleByLastWord<W>(x: seq<W>, y: seq<W>, z: seq<W>, i: nat, j: nat, k: nat)
    requires 0 < i <= |x| && 0 < j <= |y| && 0 < k <= |z|
    requires Table(x, y, i, j) != Table(x, y, i - 1, j) + 1
    requires Table(y, z, j, k) != Table(y, z, j, k - 1) + 1
    ensures Table(x, z, i, k) <= Table(x, y, i, j) + Table(y, z, j, k)
    decreases i + j + k, 2
  {
    if Table(x, y, i, j) == Table(x, y, i, j - 1) + 1 {
      AddThenAny(x, y, z, i, j, k);
    } else {
      LastWordsPaired(x, y, i, j);
      PairThenAny(x, y, z, i, j, k);
    }
  }

  lemma {:induction false} AddThenAny<W>(x: seq<W>, y: seq<W>, z: seq<W>, i: nat, j: nat, k: nat)
    requires 0 < i <= |x| && 0 < j <= |y| && 0 < k <= |z|
    requires Table(x, y, i, j) == Table(x, y, i, j - 1) + 1
    requires Table(y, z, j, k) != Table(y, z, j, k - 1) + 1
    ensures Table(x, z, i, k) <= Table(x, y, i, j) + Table(y, z, j, k)
    decreases i + j + k, 0
  {
    if Table(y, z, j, k) == Table(y, z, j - 1, k) + 1 {
      TableTriangle(x, y, z, i, j - 1, k);
    } else {
      LastWordsPaired(y, z, j, k);
      TableTriangle(x, y, z, i, j - 1, k - 1);
    }
  }

  lemma {:induction false} PairThenAny<W>(x: seq<W>, y: seq<W>, z: seq<W>, i: nat, j: nat, k: nat)
    requires 0 < i <= |x| && 0 < j <= |y| && 0 < k <= |z|
    requires Table(x, y, i, j) == Table(x, y, i - 1, j - 1) + Cost(x[i - 1], y[j - 1])
    requires Table(y, z, j, k) != Table(y, z, j, k - 1) + 1
    ensures Table(x, z, i, k) <= Table(x, y, i, j) + Table(y, z, j, k)
    decreases i + j + k, 1
  {
    if Table(y, z, j, k) == Table(y, z, j - 1, k) + 1 {
      TableTriangle(x, y, z, i - 1, j - 1, k);
      OneMoreWord(x, z, i, k);
    } else {
      LastWordsPaired(y, z, j, k);
      PairThenPair(x, y, z, i, j, k);
    }
  }

  lemma {:induction false} PairThenPair<W>(x: seq<W>, y: seq<W>, z: seq<W>, i: nat, j: nat, k: nat)
    requires 0 < i <= |x| && 0 < j <= |y| && 0 < k <= |z|
    requires Table(x, y, i, j) == Table(x, y, i - 1, j - 1) + Cost(x[i - 1], y[j - 1])
    requires Table(y, z, j, k) == Table(y, z, j - 1, k - 1) + Cost(y[j - 1], z[k - 1])
    ensures Table(x, z, i, k) <= Table(x, y, i, j) + Table(y, z, j, k)
    decreases i + j + k, 0
  {
    var a, b, c := x[i - 1], y[j - 1], z[k - 1];
    TableTriangle(x, y, z, i - 1, j - 1, k - 1);
    PairedWords(x, z, i, k, Cost(a, c));
    CostTriangle(a, b, c);
  }

  lemma CostTriangle<W>(a: W, b: W, c: W)
    ensures Cost(a, c) <= Cost(a, b) + Cost(b, c)
  {
  }

  lemma PairedWords<W>(x: seq<W>, y: seq<W>, i: nat, j: nat, cost: nat)
    requires 0 < i <= |x| && 0 < j <= |y| && cost == Cost(x[i - 1], y[j - 1])
    ensures Table(x, y, i, j) <= Table(x, y, i - 1, j - 1) + cost
  {
  }

  lemma LastWordsPaired<W>(x: seq<W>, y: seq<W>, i: nat, j: nat)
    requires 0 < i <= |x| && 0 < j <= |y|
    requires Table(x, y, i, j) != Table(x, y, i - 1, j) + 1
    requires Table(x, y, i, j) != Table(x, y, i, j - 1) + 1
    ensures Table(x, y, i, j) == Table(x, y, i - 1, j - 1) + Cost(x[i - 1], y[j - 1])
  {
  }

  lemma OneMoreWord<W>(x: seq<W>, y: seq<W>, i: nat, j: nat)
    requires 0 < i <= |x| && 0 < j <= |y|
    ensures Table(x, y, i, j) <= Table(x, y, i - 1, j) + 1
    ensures Table(x, y, i, j) <= Table(x, y, i, j - 1) + 1
    ensures Table(x, y, i, j) <= Table(x, y, i - 1, j - 1) + Cost(x[i - 1], y[j - 1])
  {
  }

  /** The distance is a metric, lying between the length difference and the longer length. */
  lemma DistanceIsMetric<W>(x: seq<W>, y: seq<W>, z: seq<W>)
    ensures Distance(x, y) == 0 <==> x == y
    ensures Distance(x, y) == Distance(y, x)
    ensures Distance(x, z) <= Distance(x, y) + Distance(y, z)
    ensures |x| - |y| <= Distance(x, y) <= if |x| < |y| then |y| else |x|
    ensures |y| - |x| <= Distance(x, y)
  {
    TableZero(x, y, |x|, |y|);
    assert x[..|x|] == x && y[..|y|] == y;
    TableSymmetric(x, y, |x|, |y|);
    TableTriangle(x, y, z, |x|, |y|, |z|);
    TableBounds(x, y, |x|, |y|);
  }

  // ---------------------------------------------------------------------------
  // The least number of edits

  /** Words `i` onwards of `x` and `j` onwards of `y` agree pairwise, so the distance cannot grow. */
  lemma {:induction false} CommonSuffix<W>(x: seq<W>, y: seq<W>, i: nat, j: nat, n: nat)
    requires i + n <= |x| && j + n <= |y|
    requires x[i..i + n] == y[j..j + n]
    ensures Table(x, y, i + n, j + n) <= Table(x, y, i, j)
  {
    if n > 0 {
      var u, v := x[i..i + n], y[j..j + n];
      assert x[i + n - 1] == u[n - 1] && y[j + n - 1] == v[n - 1];
      assert x[i..i + n - 1] == u[..n - 1];
      assert y[j..j + n - 1] == v[..n - 1];
      CommonSuffix(x, y, i, j, n - 1);
    }
  }

  /** Two sentences that agree except for one word at `p` of either, or of both, are at most one apart. */
  lemma OneWordApart<W>(x: seq<W>, y: seq<W>, p: nat, i: nat, j: nat)
    requires p <= i <= p + 1 && p <= j <= p + 1 && i <= |x| && j <= |y|
    requires x[..p] == y[..p] && x[i..] == y[j..]
    ensures Distance(x, y) <= 1
  {
    TableZero(x, y, p, p);
    OneStepFromZero(x, y, p, i, j);
    var n := |x| - i;
    assert |x[i..]| == |y[j..]| && x[i..i + n] == x[i..] && y[j..j + n] == y[j..];
    CommonSuffix(x, y, i, j, n);
  }

  lemma OneStepFromZero<W>(x: seq<W>, y: seq<W>, p: nat, i: nat, j: nat)
    requires p <= i <= p + 1 && p <= j <= p + 1 && i <= |x| && j <= |y| && Table(x, y, p, p) == 0
    ensures Table(x, y, i, j) <= 1
  {
  }

  /** One edit moves a sentence by at most one. */
  lemma OneEditDistance<W>(e: Edit<W>, x: seq<W>)
    requires Fits(e, x)
    ensures Distance(x, Apply(e, x)) <= 1
  {
    match e
    case Insert(p, _) => OneWordApart(x, Apply(e, x), p, p, p + 1);
    case Delete(p) => OneWordApart(x, Apply(e, x), p, p + 1, p);
    case Replace(p, _) => OneWordApart(x, Apply(e, x), p, p + 1, p + 1);
  }

  /** No edit script from `x` to `y` is shorter than the distance. */
  lemma {:induction false} NoShorterScript<W>(script: seq<Edit<W>>, x: seq<W>, y: seq<W>)
    requires Turns(script, x, y)
    ensures Distance(x, y) <= |script|
    decreases |script|
  {
    if script == [] {
      DistanceIsMetric(x, y, y);
    } else {
      var next := Apply(script[0], x);
      OneEditDistance(script[0], x);
      NoShorterScript(script[1..], next, y);
      DistanceIsMetric(x, next, y);
    }
  }

  lemma ApplyUnderSuffix<W>(e: Edit<W>, x: seq<W>, tail: seq<W>)
    requires Fits(e, x)
    ensures Fits(e, x + tail) && Apply(e, x + tail) == Apply(e, x) + tail
  {
    var p := e.at;
    assert (x + tail)[..p] == x[..p];
    match e
    case Insert(_, w) =>
      assert (x + tail)[p..] == x[p..] + tail;
      assert x[..p] + [w] + (x[p..] + tail) == x[..p] + [w] + x[p..] + tail;
    case Delete(_) =>
      assert (x + tail)[p + 1..] == x[p + 1..] + tail;
      assert x[..p] + (x[p + 1..] + tail) == x[..p] + x[p + 1..] + tail;
    case Replace(_, w) =>
      assert (x + tail)[p := w] == x[p := w] + tail;
  }

  /** A script still works when words are appended behind everything it touches. */
  lemma {:induction false} ScriptUnderSuffix<W>(script: seq<Edit<W>>, x: seq<W>, y: seq<W>, tail: seq<W>)
    requires Turns(script, x, y)
    ensures Turns(script, x + tail, y + tail)
    decreases |script|
  {
    if script != [] {
      ApplyUnderSuffix(script[0], x, tail);
      ScriptUnderSuffix(script[1..], Apply(script[0], x), y, tail);
    }
  }

  lemma {:induction false} ScriptThenEdit<W>(script: seq<Edit<W>>, x: seq<W>, mid: seq<W>, e: Edit<W>)
    requires Turns(script, x, mid) && Fits(e, mid)
    ensures Turns(script + [e], x, Apply(e, mid))
    decreases |script|
  {
    if script == [] {
      assert (script + [e])[1..] == [];
    } else {
      ScriptThenEdit(script[1..], Apply(script[0], x), mid, e);
      assert (script + [e])[1..] == script[1..] + [e];
    }
  }

  lemma DropLast<W>(script: seq<Edit<W>>, front: seq<W>, a: W, x: seq<W>, y: seq<W>)
    requires x == front + [a] && Turns(script, front, y)
    ensures Turns(script + [Delete(|y|)], x, y)
  {
    ScriptUnderSuffix(script, front, y, [a]);
    ScriptThenEdit(script, x, y + [a], Delete(|y|));
    assert Apply(Delete(|y|), y + [a]) == y;
  }

  lemma AddLast<W>(script: seq<Edit<W>>, x: seq<W>, front: seq<W>, b: W, y: seq<W>)
    requires y == front + [b] && Turns(script, x, front)
    ensures Turns(script + [Insert(|front|, b)], x, y)
  {
    ScriptThenEdit(script, x, front, Insert(|front|, b));
    assert Apply(Insert(|front|, b), front) == y;
  }

  lemma PairLast<W>(script: seq<Edit<W>>, x': seq<W>, a: W, x: seq<W>, y': seq<W>, b: W, y: seq<W>)
    returns (longer: seq<Edit<W>>)
    requires x == x' + [a] && y == y' + [b] && Turns(script, x', y')
    ensures |longer| == |script| + Cost(a, b) && Turns(longer, x, y)
  {
    longer := script;
    ScriptUnderSuffix(script, x', y', [a]);
    if a != b {
      longer := script + [Replace(|y'|, b)];
      ScriptThenEdit(script, x, y' + [a], Replace(|y'|, b));
      assert Apply(Replace(|y'|, b), y' + [a]) == y;
    }
  }

  /** `script` turns the first `i` words of `x` into the first `j` of `y`. */
  predicate TurnsPrefix<W(==)>(script: seq<Edit<W>>, x: seq<W>, y: seq<W>, i: nat, j: nat) {
    i <= |x| && j <= |y| && Turns(script, x[..i], y[..j])
  }

  lemma DropWord<W>(script: seq<Edit<W>>, x: seq<W>, y: seq<W>, i: nat, j: nat) returns (longer: seq<Edit<W>>)
    requires 0 < i <= |x| && TurnsPrefix(script, x, y, i - 1, j)
    ensures |longer| == |script| + 1 && TurnsPrefix(longer, x, y, i, j)
  {
    var xs, ys := x[..i], y[..j];
    longer := script + [Delete(|ys|)];
    assert xs == x[..i - 1] + [x[i - 1]];
    DropLast(script, x[..i - 1], x[i - 1], xs, ys);
  }

  lemma AddWord<W>(script: seq<Edit<W>>, x: seq<W>, y: seq<W>, i: nat, j: nat) returns (longer: seq<Edit<W>>)
    requires 0 < j <= |y| && TurnsPrefix(script, x, y, i, j - 1)
    ensures |longer| == |script| + 1 && TurnsPrefix(longer, x, y, i, j)
  {
    var front, ys := y[..j - 1], y[..j];
    longer := script + [Insert(|front|, y[j - 1])];
    assert ys == front + [y[j - 1]];
    AddLast(script, x[..i], front, y[j - 1], ys);
  }

  lemma PairWord<W>(script: seq<Edit<W>>, x: seq<W>, y: seq<W>, i: nat, j: nat) returns (longer: seq<Edit<W>>)
    requires 0 < i <= |x| && 0 < j <= |y| && TurnsPrefix(script, x, y, i - 1, j - 1)
    ensures |longer| == |script| + Cost(x[i - 1], y[j - 1]) && TurnsPrefix(longer, x, y, i, j)
  {
    var xs, ys := x[..i], y[..j];
    assert xs == x[..i - 1] + [x[i - 1]] && ys == y[..j - 1] + [y[j - 1]];
    longer := PairLast(script, x[..i - 1], x[i - 1], xs, y[..j - 1], y[j - 1], ys);
  }

  /** A script whose length is the table entry, read back from the table. */
  lemma {:induction false} ShortestScript<W>(x: seq<W>, y: seq<W>, i: nat, j: nat) returns (script: seq<Edit<W>>)
    requires i <= |x| && j <= |y|
    ensures |script| == Table(x, y, i, j) && TurnsPrefix(script, x, y, i, j)
  {
    if i == 0 && j == 0 {
      script := [];
    } else if i > 0 && (j == 0 || Table(x, y, i, j) == Table(x, y, i - 1, j) + 1) {
      script := ShortestScript(x, y, i - 1, j);
      script := DropWord(script, x, y, i, j);
    } else if i == 0 || Table(x, y, i, j) == Table(x, y, i, j - 1) + 1 {
      script := ShortestScript(x, y, i, j - 1);
      script := AddWord(script, x, y, i, j);
    } else {
      LastWordsPaired(x, y, i, j);
      script := ShortestScript(x, y, i - 1, j - 1);
      script := PairWord(script, x, y, i, j);
    }
  }

  /** The distance is the minimum number of single-word edits: attained, and never beaten. */
  lemma DistanceIsMinimum<W>(x: seq<W>, y: seq<W>)
    ensures exists script :: Turns(script, x, y) && |script| == Distance(x, y)
    ensures forall script | Turns(script, x, y) :: Distance(x, y) <= |script|
  {
    var best := ShortestScript(x, y, |x|, |y|);
    assert x[..|x|] == x && y[..|y|] == y;
    assert Turns(best, x, y);
    forall script | Turns(script, x, y) ensures Distance(x, y) <= |script| {
      NoShorterScript(script, x, y);
    }
  }
}
