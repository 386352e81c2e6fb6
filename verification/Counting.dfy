/** How many elements of a sequence have a property. */
module Counting {
  function Count<T>(xs: seq<T>, p: T -> bool): nat {
    if xs == [] then 0 else Count(xs[..|xs| - 1], p) + if p(xs[|xs| - 1]) then 1 else 0
  }

  lemma CountNext<T>(xs: seq<T>, p: T -> bool, i: nat)
    requires i < |xs|
    ensures Count(xs[..i + 1], p) == Count(xs[..i], p) + if p(xs[i]) then 1 else 0
  {
    assert xs[..i + 1][..i] == xs[..i];
  }

  lemma {:induction false} CountUpdate<T>(xs: seq<T>, p: T -> bool, i: nat, x: T)
    requires i < |xs|
    ensures Count(xs[i := x], p) == Count(xs, p) - (if p(xs[i]) then 1 else 0) + (if p(x) then 1 else 0)
  {
    var n := |xs| - 1;
    if i < n {
      CountUpdate(xs[..n], p, i, x);
      assert xs[i := x][..n] == xs[..n][i := x];
    } else {
      assert xs[i := x][..n] == xs[..n];
    }
  }

  lemma {:induction false} CountFinds<T>(xs: seq<T>, p: T -> bool)
    ensures Count(xs, p) > 0 <==> exists i :: 0 <= i < |xs| && p(xs[i])
  {
    if xs != [] {
      var n := |xs| - 1;
      CountFinds(xs[..n], p);
      if Count(xs[..n], p) > 0 {
        var i :| 0 <= i < n && p(xs[..n][i]);
        assert p(xs[i]);
      }
      if i :| 0 <= i < |xs| && p(xs[i]) && i < n {
        assert p(xs[..n][i]);
      }
    }
  }

  lemma {:induction false} CountMonotone<T>(xs: seq<T>, p: T -> bool, q: T -> bool)
    requires forall i | 0 <= i < |xs| :: p(xs[i]) ==> q(xs[i])
    ensures Count(xs, p) <= Count(xs, q) <= |xs|
  {
    if xs != [] {
      CountMonotone(xs[..|xs| - 1], p, q);
    }
  }

  lemma {:induction false} CountSame<T>(xs: seq<T>, p: T -> bool, q: T -> bool)
    requires forall i | 0 <= i < |xs| :: p(xs[i]) <==> q(xs[i])
    ensures Count(xs, p) == Count(xs, q)
  {
    CountMonotone(xs, p, q);
    CountMonotone(xs, q, p);
  }

  /** Properties of which exactly one holds of each element split the sequence. */
  lemma {:induction false} CountPartition<T>(xs: seq<T>, p: T -> bool, q: T -> bool, r: T -> bool)
    requires forall i | 0 <= i < |xs| ::
               (p(xs[i]) || q(xs[i]) || r(xs[i])) &&
               !(p(xs[i]) && q(xs[i])) && !(p(xs[i]) && r(xs[i])) && !(q(xs[i]) && r(xs[i]))
    ensures Count(xs, p) + Count(xs, q) + Count(xs, r) == |xs|
  {
    if xs != [] {
      var n := |xs| - 1;
      assert xs[n] == xs[|xs| - 1];
      CountPartition(xs[..n], p, q, r);
    }
  }

  lemma {:induction false} CountOfAppend<T>(xs: seq<T>, ys: seq<T>, p: T -> bool)
    ensures Count(xs + ys, p) == Count(xs, p) + Count(ys, p)
  {
    if ys == [] {
      assert xs + ys == xs;
    } else {
      var n := |ys| - 1;
      assert (xs + ys)[..|xs| + n] == xs + ys[..n];
      CountOfAppend(xs, ys[..n], p);
    }
  }

  /** A count does not depend on the order. */
  lemma {:induction false} CountOfPermutation<T>(xs: seq<T>, ys: seq<T>, p: T -> bool)
    requires multiset(xs) == multiset(ys)
    ensures Count(xs, p) == Count(ys, p)
  {
    assert |multiset(xs)| == |xs| && |multiset(ys)| == |ys|;
    if xs != [] {
      var n := |xs| - 1;
      var x := xs[n];
      assert x in multiset(ys);
      var k :| 0 <= k < |ys| && ys[k] == x;
      var front, back := ys[..k], ys[k + 1..];
      assert ys == front + [x] + back;
      assert xs == xs[..n] + [x];
      WithoutEqual(xs[..n], front, x, back);
      CountOfPermutation(xs[..n], front + back, p);
      CountWithout(front, x, back, p);
    }
  }

  lemma WithoutEqual<T>(xs: seq<T>, front: seq<T>, x: T, back: seq<T>)
    requires multiset(xs + [x]) == multiset(front + [x] + back)
    ensures multiset(xs) == multiset(front + back)
  {
    assert multiset(xs) == multiset(xs + [x]) - multiset{x};
  }

  lemma CountWithout<T>(front: seq<T>, x: T, back: seq<T>, p: T -> bool)
    ensures Count(front + [x] + back, p) == Count(front + back, p) + if p(x) then 1 else 0
  {
    CountOfAppend(front, back, p);
    CountOfAppend(front + [x], back, p);
    CountOfAppend(front, [x], p);
    assert [x][..0] == [];
  }
}
