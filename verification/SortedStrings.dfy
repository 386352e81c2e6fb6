/** sort.Strings, strings.Join and strings.Split as the canonical forms use them: byte order, sorted
    permutations and their uniqueness, and splitting as the inverse of joining. */
module SortedStrings {
  const Bar: char := '|'

  /** Go's string order: lexicographic, a proper prefix first. */
  predicate Leq(a: string, b: string) {
    if a == "" then true
    else if b == "" then false
    else a[0] < b[0] || (a[0] == b[0] && Leq(a[1..], b[1..]))
  }

  lemma {:induction false} LeqTotal(a: string, b: string)
    ensures Leq(a, b) || Leq(b, a)
  {
    if a != "" && b != "" {
      LeqTotal(a[1..], b[1..]);
    }
  }

  lemma {:induction false} LeqAntisymmetric(a: string, b: string)
    requires Leq(a, b) && Leq(b, a)
    ensures a == b
  {
    if a != "" && b != "" {
      LeqAntisymmetric(a[1..], b[1..]);
      assert a == [a[0]] + a[1..] && b == [b[0]] + b[1..];
    }
  }

  lemma {:induction false} LeqTransitive(a: string, b: string, c: string)
    requires Leq(a, b) && Leq(b, c)
    ensures Leq(a, c)
  {
    if a != "" && a[0] == b[0] == c[0] {
      LeqTransitive(a[1..], b[1..], c[1..]);
    }
  }

  predicate Sorted(xs: seq<string>) {
    forall i | 0 < i < |xs| :: Leq(xs[i - 1], xs[i])
  }

  function Insert(x: string, xs: seq<string>): (ys: seq<string>)
    ensures multiset(ys) == multiset(xs) + multiset{x}
  {
    if xs == [] then [x]
    else if Leq(x, xs[0]) then
      [x] + xs
    else
      assert xs == [xs[0]] + xs[1..];
      [xs[0]] + Insert(x, xs[1..])
  }

  /** The sorted rearrangement of `xs`. */
  function Sort(xs: seq<string>): (ys: seq<string>)
    ensures multiset(ys) == multiset(xs)
  {
    if xs == [] then []
    else
      assert xs == [xs[0]] + xs[1..];
      Insert(xs[0], Sort(xs[1..]))
  }

  lemma {:induction false} InsertSorted(x: string, xs: seq<string>)
    requires Sorted(xs)
    ensures Sorted(Insert(x, xs))
    ensures Insert(x, xs)[0] == if xs != [] && !Leq(x, xs[0]) then xs[0] else x
  {
    if xs != [] && !Leq(x, xs[0]) {
      LeqTotal(x, xs[0]);
      assert Sorted(xs[1..]) by {
        forall i | 0 < i < |xs[1..]| ensures Leq(xs[1..][i - 1], xs[1..][i]) {
          assert Leq(xs[i], xs[i + 1]);
        }
      }
      InsertSorted(x, xs[1..]);
      if |xs| > 1 {
        assert Leq(xs[0], xs[1]);
      }
      Prepended(xs[0], Insert(x, xs[1..]));
    } else {
      if xs != [] {
        Prepended(x, xs);
      }
    }
  }

  lemma Prepended(x: string, xs: seq<string>)
    requires Sorted(xs) && xs != [] && Leq(x, xs[0])
    ensures Sorted([x] + xs)
  {
  }

  lemma {:induction false} SortIsSorted(xs: seq<string>)
    ensures Sorted(Sort(xs))
  {
    if xs != [] {
      SortIsSorted(xs[1..]);
      InsertSorted(xs[0], Sort(xs[1..]));
    }
  }

  lemma {:induction false} SortedHeadIsLeast(xs: seq<string>, i: nat)
    requires Sorted(xs) && i < |xs|
    ensures Leq(xs[0], xs[i])
  {
    if i == 0 {
      LeqTotal(xs[0], xs[0]);
    } else {
      SortedHeadIsLeast(xs, i - 1);
      LeqTransitive(xs[0], xs[i - 1], xs[i]);
    }
  }

  lemma SortedHeadsAgree(xs: seq<string>, ys: seq<string>)
    requires Sorted(xs) && Sorted(ys) && xs != [] && ys != []
    requires xs[0] in ys && ys[0] in xs
    ensures xs[0] == ys[0]
  {
    var i :| 0 <= i < |ys| && ys[i] == xs[0];
    var j :| 0 <= j < |xs| && xs[j] == ys[0];
    SortedHeadIsLeast(ys, i);
    SortedHeadIsLeast(xs, j);
    LeqAntisymmetric(xs[0], ys[0]);
  }

  lemma MultisetOfTail(xs: seq<string>)
    requires xs != []
    ensures multiset(xs[1..]) == multiset(xs) - multiset{xs[0]}
  {
    assert xs == [xs[0]] + xs[1..];
  }

  /** A sorted rearrangement is unique, so it does not matter which sorting algorithm runs. */
  lemma {:induction false} SortedUnique(xs: seq<string>, ys: seq<string>)
    requires Sorted(xs) && Sorted(ys) && multiset(xs) == multiset(ys)
    ensures xs == ys
  {
    assert |xs| == |multiset(xs)| == |multiset(ys)| == |ys|;
    if xs != [] {
      assert xs[0] in multiset(ys) && ys[0] in multiset(xs);
      SortedHeadsAgree(xs, ys);
      MultisetOfTail(xs);
      MultisetOfTail(ys);
      TailSorted(xs);
      TailSorted(ys);
      SortedUnique(xs[1..], ys[1..]);
      assert xs == [xs[0]] + xs[1..];
      assert ys == [ys[0]] + ys[1..];
    }
  }

  lemma TailSorted(xs: seq<string>)
    requires Sorted(xs) && xs != []
    ensures Sorted(xs[1..])
  {
  }

  lemma SortOfPermutation(xs: seq<string>, ys: seq<string>)
    requires multiset(xs) == multiset(ys)
    ensures Sort(xs) == Sort(ys)
  {
    SortIsSorted(xs);
    SortIsSorted(ys);
    SortedUnique(Sort(xs), Sort(ys));
  }

  // ---------------------------------------------------------------------------
  // Join and Split

  function Join(xs: seq<string>): string {
    if xs == [] then ""
    else if |xs| == 1 then xs[0]
    else xs[0] + [Bar] + Join(xs[1..])
  }

  /** The components of `s` between bars; there is always at least one. */
  function Split(s: string): (xs: seq<string>)
    ensures xs != []
  {
    if s == "" then [""]
    else if s[0] == Bar then [""] + Split(s[1..])
    else
      var rest := Split(s[1..]);
      [[s[0]] + rest[0]] + rest[1..]
  }

  function SplitAll(xs: seq<string>): seq<string> {
    if xs == [] then [] else Split(xs[0]) + SplitAll(xs[1..])
  }

  lemma {:induction false} SplitPlain(s: string)
    requires Bar !in s
    ensures Split(s) == [s]
  {
    if s != "" {
      SplitPlain(s[1..]);
      assert s[0] in s;
      assert [s[0]] + s[1..] == s;
    }
  }

  lemma HeadOfSum(c: char, front: seq<string>, back: seq<string>)
    requires front != []
    ensures [""] + (front + back) == ([""] + front) + back
    ensures [[c] + (front + back)[0]] + (front + back)[1..] == ([[c] + front[0]] + front[1..]) + back
  {
  }

  lemma {:induction false} SplitAtBar(s: string, t: string)
    ensures Split(s + [Bar] + t) == Split(s) + Split(t)
  {
    var u := s + [Bar] + t;
    if s == "" {
      assert u[1..] == t;
    } else {
      SplitAtBar(s[1..], t);
      assert u[0] == s[0] && u[1..] == s[1..] + [Bar] + t;
      HeadOfSum(s[0], Split(s[1..]), Split(t));
    }
  }

  /** Splitting what was joined gives the components of the parts, in order. */
  lemma {:induction false} SplitJoin(xs: seq<string>)
    requires xs != []
    ensures Split(Join(xs)) == SplitAll(xs)
  {
    if |xs| == 1 {
      assert SplitAll(xs[1..]) == [];
    } else {
      SplitJoin(xs[1..]);
      SplitAtBar(xs[0], Join(xs[1..]));
    }
  }

  lemma {:induction false} JoinSplit(s: string)
    ensures Join(Split(s)) == s
  {
    if s != "" {
      var rest := Split(s[1..]);
      JoinSplit(s[1..]);
      if s[0] == Bar {
        assert ([""] + rest)[1..] == rest;
      } else {
        assert ([[s[0]] + rest[0]] + rest[1..])[1..] == rest[1..];
      }
    }
  }

  /** Two strings with the same components are the same string. */
  lemma SplitInjective(s: string, t: string)
    requires Split(s) == Split(t)
    ensures s == t
  {
    JoinSplit(s);
    JoinSplit(t);
  }
}
