/** What equality of prototype forms means (protoMatch in cmd/conscheck/proto.go), and when the prototype
    tier only ever refines the live gate. */
module ProtoMatch {
  import opened Prelude
  import opened SortedStrings
  import opened ProtoCanon
  import opened ProtoWords

  predicate Classed(t: string) {
    "who:" <= t || "animal:" <= t || "juris:" <= t || "role:" <= t || "when:" <= t || "topic:" <= t
  }

  /** A component that could be a prototype token. */
  predicate IsProto(t: string) { "unit:" <= t || Classed(t) }

  /** No component of a live form could be read as a prototype token. */
  predicate Clean(live: string) { AllPlain(Split(live)) }

  predicate AllPlain(cs: seq<string>) {
    forall i | 0 <= i < |cs| :: !IsProto(cs[i])
  }

  /** What the regular expressions and the tables guarantee: no bar in what they yield. */
  predicate BarFreeTable(table: ClassTable) {
    forall i | 0 <= i < |table| :: Bar !in table[i].1
  }

  predicate BarFreeLexicon(lex: Lexicon) {
    BarFreeTable(lex.person) && BarFreeTable(lex.animal) && BarFreeTable(lex.jurisdiction) &&
    BarFreeTable(lex.role) && BarFreeTable(lex.alias)
  }

  predicate BarFree(p: Prompt) {
    && (forall i | 0 <= i < |p.units| :: Bar !in p.units[i].figure && Bar !in p.units[i].unit)
    && (forall i | 0 <= i < |p.words| :: Bar !in p.words[i])
  }

  lemma ConsumerLexiconBarFree()
    ensures BarFreeLexicon(Consumer)
  {
    PeopleAndAnimalsBarFree();
    PlacesBarFree();
    RolesAndTopicsBarFree();
  }

  lemma PeopleAndAnimalsBarFree()
    ensures BarFreeTable(PersonClass) && BarFreeTable(AnimalClass)
  {
  }

  lemma PlacesBarFree()
    ensures BarFreeTable(Jurisdiction)
  {
  }

  lemma RolesAndTopicsBarFree()
    ensures BarFreeTable(RelationRole) && BarFreeTable(TopicAlias)
  {
  }

  // ---------------------------------------------------------------------------
  // The tokens

  predicate ClassedPlain(t: string) { Classed(t) && Bar !in t }

  lemma {:induction false} LookupBarFree(table: ClassTable, w: string)
    requires BarFreeTable(table)
    ensures Bar !in Lookup(table, w)
  {
    if table != [] {
      assert BarFreeTable(table[1..]) by {
        forall i | 0 <= i < |table[1..]| ensures Bar !in table[1..][i].1 {
          assert table[1..][i] == table[i + 1];
        }
      }
      LookupBarFree(table[1..], w);
    }
  }

  lemma LowerBarFree(s: string)
    requires Bar !in s
    ensures Bar !in Lower(s)
  {
  }

  lemma WhoTokenPlain(lex: Lexicon, lw: string)
    requires BarFreeLexicon(lex)
    ensures forall t | t in WhoToken(lex, lw) :: ClassedPlain(t)
  {
    LookupBarFree(lex.person, lw);
    LookupBarFree(lex.animal, lw);
    LookupBarFree(lex.jurisdiction, lw);
    LookupBarFree(lex.role, lw);
  }

  lemma FoldedBarFree(lex: Lexicon, w: string)
    requires BarFreeLexicon(lex) && Bar !in w
    ensures Bar !in Folded(lex, w) && Bar !in Lower(w)
  {
    LookupBarFree(lex.alias, Lower(w));
    LowerBarFree(w);
  }

  lemma OfferedPlain(lex: Lexicon, p: Prompt, i: nat)
    requires BarFreeLexicon(lex) && BarFree(p) && i < |p.words|
    ensures forall t | t in Offered(lex, p.words, i) :: ClassedPlain(t)
  {
    var who := WhoToken(lex, Folded(lex, p.words[i]));
    var when, topic := WhenToken(lex, p.words, i), TopicToken(lex, p.words[i]);
    WhoTokenPlain(lex, Folded(lex, p.words[i]));
    FoldedBarFree(lex, p.words[i]);
    if i + 1 < |p.words| {
      FoldedBarFree(lex, p.words[i + 1]);
    }
    assert forall t | t in when :: ClassedPlain(t);
    assert forall t | t in topic :: ClassedPlain(t);
  }

  lemma {:induction false} AddNewDistinct(acc: seq<string>, ts: seq<string>)
    requires NoRepeats(acc)
    ensures NoRepeats(AddNew(acc, ts))
    decreases ts
  {
    if ts != [] {
      AddNewDistinct(if ts[0] in acc then acc else acc + [ts[0]], ts[1..]);
    }
  }

  /** One of the first `n` offers holds `t`. */
  predicate OfferedBy(offers: seq<seq<string>>, n: nat, t: string)
    requires n <= |offers|
  {
    exists i :: 0 <= i < n && t in offers[i]
  }

  lemma {:induction false} GatheredMembers(offers: seq<seq<string>>, n: nat, t: string)
    requires n <= |offers|
    ensures t in Gathered(offers, n) <==> OfferedBy(offers, n, t)
  {
    if n > 0 {
      GatheredMembers(offers, n - 1, t);
      AddNewMembers(Gathered(offers, n - 1), offers[n - 1], t);
    }
  }

  lemma {:induction false} GatheredDistinct(offers: seq<seq<string>>, n: nat)
    requires n <= |offers|
    ensures NoRepeats(Gathered(offers, n))
  {
    if n > 0 {
      GatheredDistinct(offers, n - 1);
      AddNewDistinct(Gathered(offers, n - 1), offers[n - 1]);
    }
  }

  /** Some word of `p` gives the class token `t`. */
  ghost predicate Names(lex: Lexicon, p: Prompt, t: string) {
    exists i :: 0 <= i < |p.words| && WordGives(lex, p.words, i, t)
  }

  /** The class tokens of a prompt are exactly those some word gives, each once. */
  lemma ClassTokensAreNamed(lex: Lexicon, p: Prompt, t: string)
    ensures t in ClassTokens(lex, p.words) <==> Names(lex, p, t)
    ensures NoRepeats(ClassTokens(lex, p.words))
  {
    var offers := Offers(lex, p.words);
    GatheredMembers(offers, |p.words|, t);
    GatheredDistinct(offers, |p.words|);
    forall i | 0 <= i < |p.words| ensures t in offers[i] <==> WordGives(lex, p.words, i, t) {
      OffersAt(lex, p.words, i);
      OfferedExactly(lex, p.words, i, t);
    }
  }

  lemma ClassTokensPlain(lex: Lexicon, p: Prompt)
    requires BarFreeLexicon(lex) && BarFree(p)
    ensures forall t | t in ClassTokens(lex, p.words) :: ClassedPlain(t)
  {
    forall t | t in ClassTokens(lex, p.words) ensures ClassedPlain(t) {
      ClassTokensAreNamed(lex, p, t);
      var i :| 0 <= i < |p.words| && WordGives(lex, p.words, i, t);
      OfferedExactly(lex, p.words, i, t);
      OfferedPlain(lex, p, i);
    }
  }

  lemma UnitTokensPlain(p: Prompt)
    requires BarFree(p)
    ensures forall t | t in UnitTokens(p.units) :: "unit:" <= t && Bar !in t
  {
  }

  predicate ProtoPlain(t: string) { IsProto(t) && Bar !in t }

  lemma TokensPlain(lex: Lexicon, p: Prompt)
    requires BarFreeLexicon(lex) && BarFree(p)
    ensures forall t | t in Tokens(lex, p) :: ProtoPlain(t)
  {
    ClassTokensPlain(lex, p);
    UnitTokensPlain(p);
  }

  // ---------------------------------------------------------------------------
  // Reading a canonical form back

  function Protos(cs: seq<string>): seq<string> {
    if cs == [] then [] else (if IsProto(cs[0]) then [cs[0]] else []) + Protos(cs[1..])
  }

  function Plains(cs: seq<string>): seq<string> {
    if cs == [] then [] else (if IsProto(cs[0]) then [] else [cs[0]]) + Plains(cs[1..])
  }

  lemma {:induction false} ProtosAppend(cs: seq<string>, ds: seq<string>)
    ensures Protos(cs + ds) == Protos(cs) + Protos(ds)
  {
    if cs == [] {
      assert cs + ds == ds;
    } else {
      assert (cs + ds)[1..] == cs[1..] + ds;
      ProtosAppend(cs[1..], ds);
    }
  }

  lemma {:induction false} PlainsAppend(cs: seq<string>, ds: seq<string>)
    ensures Plains(cs + ds) == Plains(cs) + Plains(ds)
  {
    if cs == [] {
      assert cs + ds == ds;
    } else {
      assert (cs + ds)[1..] == cs[1..] + ds;
      PlainsAppend(cs[1..], ds);
    }
  }

  lemma FilterAppend(cs: seq<string>, ds: seq<string>)
    ensures Protos(cs + ds) == Protos(cs) + Protos(ds)
    ensures Plains(cs + ds) == Plains(cs) + Plains(ds)
  {
    ProtosAppend(cs, ds);
    PlainsAppend(cs, ds);
  }

  lemma {:induction false} FilterClean(cs: seq<string>)
    requires forall i | 0 <= i < |cs| :: !IsProto(cs[i])
    ensures Protos(cs) == [] && Plains(cs) == cs
  {
    if cs != [] {
      forall i | 0 <= i < |cs[1..]| ensures !IsProto(cs[1..][i]) {
        assert cs[1..][i] == cs[i + 1];
      }
      FilterClean(cs[1..]);
      assert cs == [cs[0]] + cs[1..];
    }
  }

  lemma FilterToken(t: string)
    requires ProtoPlain(t)
    ensures Protos(Split(t)) == [t] && Plains(Split(t)) == []
  {
    SplitPlain(t);
    assert [t][1..] == [];
  }

  lemma {:induction false} FilterTokens(parts: seq<string>)
    requires forall t | t in parts :: ProtoPlain(t)
    ensures Plains(SplitAll(parts)) == [] && Protos(SplitAll(parts)) == parts
  {
    if parts != [] {
      assert forall t | t in parts[1..] :: t in parts;
      FilterTokens(parts[1..]);
      FilterToken(parts[0]);
      FilterAppend(Split(parts[0]), SplitAll(parts[1..]));
      assert parts == [parts[0]] + parts[1..];
    }
  }

  lemma SplitOff(parts: seq<string>)
    requires parts != []
    ensures multiset(parts) == multiset{parts[0]} + multiset(parts[1..])
    ensures Plains(SplitAll(parts)) == Plains(Split(parts[0])) + Plains(SplitAll(parts[1..]))
    ensures Protos(SplitAll(parts)) == Protos(Split(parts[0])) + Protos(SplitAll(parts[1..]))
  {
    assert parts == [parts[0]] + parts[1..];
    FilterAppend(Split(parts[0]), SplitAll(parts[1..]));
  }

  lemma LiveFirst(parts: seq<string>, live: string, tokens: multiset<string>)
    requires Clean(live) && parts != [] && parts[0] == live && multiset(parts[1..]) == tokens
    requires forall t | t in tokens :: ProtoPlain(t)
    ensures Plains(SplitAll(parts)) == Split(live)
    ensures multiset(Protos(SplitAll(parts))) == tokens
  {
    forall t | t in parts[1..] ensures ProtoPlain(t) {
      assert t in multiset(parts[1..]);
    }
    SplitOff(parts);
    FilterClean(Split(live));
    FilterTokens(parts[1..]);
  }

  lemma TokenFirst(t: string, rest: seq<string>, tokens: multiset<string>)
    requires ProtoPlain(t) && t in tokens
    requires multiset(Protos(SplitAll(rest))) == tokens - multiset{t}
    ensures Plains(SplitAll([t] + rest)) == Plains(SplitAll(rest))
    ensures multiset(Protos(SplitAll([t] + rest))) == tokens
  {
    assert ([t] + rest)[1..] == rest;
    SplitOff([t] + rest);
    FilterToken(t);
    var back := Protos(SplitAll(rest));
    assert multiset([t] + back) == multiset{t} + multiset(back);
  }

  lemma HeadAndRest(parts: seq<string>, live: string, tokens: multiset<string>)
    requires multiset(parts) == multiset{live} + tokens
    ensures parts != [] && parts == [parts[0]] + parts[1..]
    ensures parts[0] == live ==> multiset(parts[1..]) == tokens
    ensures parts[0] != live ==>
              parts[0] in tokens && multiset(parts[1..]) == multiset{live} + (tokens - multiset{parts[0]})
  {
    assert live in multiset(parts);
    MultisetOfTail(parts);
    assert parts[0] in multiset(parts);
  }

  /** Wherever sorting puts the live form, its components and the tokens can be told apart again. */
  lemma {:induction false} PartsRecovered(parts: seq<string>, live: string, tokens: multiset<string>)
    requires Clean(live) && multiset(parts) == multiset{live} + tokens
    requires forall t | t in tokens :: ProtoPlain(t)
    ensures Plains(SplitAll(parts)) == Split(live)
    ensures multiset(Protos(SplitAll(parts))) == tokens
    decreases |parts|
  {
    HeadAndRest(parts, live, tokens);
    var t, rest := parts[0], parts[1..];
    if t == live {
      LiveFirst(parts, live, tokens);
    } else {
      PartsRecovered(rest, live, tokens - multiset{t});
      TokenFirst(t, rest, tokens);
    }
  }

  lemma CanonRecovered(lex: Lexicon, p: Prompt)
    requires BarFreeLexicon(lex) && BarFree(p) && Clean(p.live)
    ensures Plains(Split(Canon(lex, p))) == Split(p.live)
    ensures multiset(Protos(Split(Canon(lex, p)))) == multiset(Tokens(lex, p))
  {
    var parts := Sort([p.live] + Tokens(lex, p));
    assert multiset(parts) == multiset{p.live} + multiset(Tokens(lex, p));
    assert |multiset(parts)| >= 1;
    SplitJoin(parts);
    TokensPlain(lex, p);
    PartsRecovered(parts, p.live, multiset(Tokens(lex, p)));
  }

  // ---------------------------------------------------------------------------
  // The main results

  /** Same live form, same multiset of unit tokens, same set of class tokens. */
  ghost predicate SameTokens(lex: Lexicon, a: Prompt, b: Prompt) {
    && a.live == b.live
    && multiset(UnitTokens(a.units)) == multiset(UnitTokens(b.units))
    && (forall t :: Names(lex, a, t) <==> Names(lex, b, t))
  }

  /** Same live form, the same figures with the same units as often, and the same class tokens. */
  ghost predicate SameEntities(lex: Lexicon, a: Prompt, b: Prompt) {
    && a.live == b.live
    && multiset(Measures(a.units)) == multiset(Measures(b.units))
    && (forall t :: Names(lex, a, t) <==> Names(lex, b, t))
  }

  lemma {:induction false} DistinctMultiset(xs: seq<string>, t: string)
    requires NoRepeats(xs)
    ensures multiset(xs)[t] == if t in xs then 1 else 0
  {
    if xs != [] {
      assert xs == [xs[0]] + xs[1..];
      DistinctMultiset(xs[1..], t);
    }
  }

  lemma UnitIsNotClassed(t: string)
    requires "unit:" <= t
    ensures !Classed(t)
  {
    assert t[0] == 'u';
  }

  /** Rearranging two kinds of token together rearranges each kind. */
  lemma KindsApart(us: seq<string>, cs: seq<string>, us': seq<string>, cs': seq<string>)
    requires multiset(us + cs) == multiset(us' + cs')
    requires forall t | t in us || t in us' :: "unit:" <= t
    requires forall t | t in cs || t in cs' :: Classed(t)
    ensures multiset(us) == multiset(us') && multiset(cs) == multiset(cs')
  {
    assert multiset(us + cs) == multiset(us) + multiset(cs);
    assert multiset(us' + cs') == multiset(us') + multiset(cs');
    forall t: string ensures multiset(us)[t] == multiset(us')[t] && multiset(cs)[t] == multiset(cs')[t] {
      assert (multiset(us) + multiset(cs))[t] == (multiset(us') + multiset(cs'))[t];
      if t in us || t in us' {
        UnitIsNotClassed(t);
      }
    }
  }

  lemma TokensSplitByKind(lex: Lexicon, a: Prompt, b: Prompt)
    requires BarFreeLexicon(lex) && BarFree(a) && BarFree(b)
    requires multiset(Tokens(lex, a)) == multiset(Tokens(lex, b))
    ensures multiset(UnitTokens(a.units)) == multiset(UnitTokens(b.units))
    ensures multiset(ClassTokens(lex, a.words)) == multiset(ClassTokens(lex, b.words))
  {
    UnitTokensPlain(a);
    UnitTokensPlain(b);
    ClassTokensPlain(lex, a);
    ClassTokensPlain(lex, b);
    KindsApart(UnitTokens(a.units), ClassTokens(lex, a.words), UnitTokens(b.units), ClassTokens(lex, b.words));
  }

  /** protoMatch is equality of what was extracted, and so it only ever refines equality of live forms. */
  lemma MatchIsSameEntities(lex: Lexicon, a: Prompt, b: Prompt)
    requires BarFreeLexicon(lex) && BarFree(a) && BarFree(b)
    requires AllMeasured(a.units) && AllMeasured(b.units)
    requires Clean(a.live) && Clean(b.live)
    ensures Match(lex, a, b) <==> SameEntities(lex, a, b)
  {
    MatchIsSameTokens(lex, a, b);
    UnitTokensExactly(a.units, b.units);
  }

  /** The same in terms of the unit tokens, whatever figures and units look like. */
  lemma MatchIsSameTokens(lex: Lexicon, a: Prompt, b: Prompt)
    requires BarFreeLexicon(lex) && BarFree(a) && BarFree(b)
    requires Clean(a.live) && Clean(b.live)
    ensures Match(lex, a, b) <==> SameTokens(lex, a, b)
  {
    SameClassTokens(lex, a, b);
    if Match(lex, a, b) {
      MatchSeparates(lex, a, b);
    }
    if SameTokens(lex, a, b) {
      SameTokensMatch(lex, a, b);
    }
  }

  lemma SameTokensMatch(lex: Lexicon, a: Prompt, b: Prompt)
    requires a.live == b.live
    requires multiset(UnitTokens(a.units)) == multiset(UnitTokens(b.units))
    requires multiset(ClassTokens(lex, a.words)) == multiset(ClassTokens(lex, b.words))
    ensures Match(lex, a, b)
  {
    PermutedParts(a.live, UnitTokens(a.units), ClassTokens(lex, a.words),
                  UnitTokens(b.units), ClassTokens(lex, b.words));
    SortOfPermutation([a.live] + Tokens(lex, a), [b.live] + Tokens(lex, b));
  }

  lemma PermutedParts(live: string, us: seq<string>, cs: seq<string>, us': seq<string>, cs': seq<string>)
    requires multiset(us) == multiset(us') && multiset(cs) == multiset(cs')
    ensures multiset([live] + (us + cs)) == multiset([live] + (us' + cs'))
  {
  }

  lemma MatchSeparates(lex: Lexicon, a: Prompt, b: Prompt)
    requires BarFreeLexicon(lex) && BarFree(a) && BarFree(b)
    requires Clean(a.live) && Clean(b.live) && Match(lex, a, b)
    ensures a.live == b.live
    ensures multiset(UnitTokens(a.units)) == multiset(UnitTokens(b.units))
    ensures multiset(ClassTokens(lex, a.words)) == multiset(ClassTokens(lex, b.words))
  {
    CanonRecovered(lex, a);
    CanonRecovered(lex, b);
    SplitInjective(a.live, b.live);
    TokensSplitByKind(lex, a, b);
  }

  lemma SameClassTokens(lex: Lexicon, a: Prompt, b: Prompt)
    ensures multiset(ClassTokens(lex, a.words)) == multiset(ClassTokens(lex, b.words)) <==>
            forall t :: Names(lex, a, t) <==> Names(lex, b, t)
  {
    var ca, cb := ClassTokens(lex, a.words), ClassTokens(lex, b.words);
    forall t ensures (t in ca <==> Names(lex, a, t)) && (t in cb <==> Names(lex, b, t)) {
      ClassTokensAreNamed(lex, a, t);
      ClassTokensAreNamed(lex, b, t);
    }
    ClassTokensAreNamed(lex, a, "");
    ClassTokensAreNamed(lex, b, "");
    SameDistinctMembers(ca, cb);
  }

  lemma SameDistinctMembers(xs: seq<string>, ys: seq<string>)
    requires NoRepeats(xs) && NoRepeats(ys)
    ensures multiset(xs) == multiset(ys) <==> forall t :: t in xs <==> t in ys
  {
    if multiset(xs) == multiset(ys) {
      forall t ensures t in xs <==> t in ys {
        assert t in multiset(xs) <==> t in multiset(ys);
      }
    }
    if forall t :: t in xs <==> t in ys {
      forall t ensures multiset(xs)[t] == multiset(ys)[t] {
        DistinctMultiset(xs, t);
        DistinctMultiset(ys, t);
      }
    }
  }

  /** A match with a clean prompt keeps the live verdict exactly when the other prompt is clean too. */
  lemma RefinesLiveGateIffClean(lex: Lexicon, a: Prompt, b: Prompt)
    requires BarFreeLexicon(lex) && BarFree(a) && BarFree(b)
    requires Clean(a.live) && Match(lex, a, b)
    ensures a.live == b.live <==> Clean(b.live)
  {
    if Clean(b.live) {
      MatchIsSameTokens(lex, a, b);
    }
  }

  // ---------------------------------------------------------------------------
  // Without any condition on the live forms

  predicate AllBarFree(ts: seq<string>) { forall t | t in ts :: Bar !in t }

  lemma {:induction false} SplitAllOfPlain(ts: seq<string>)
    requires AllBarFree(ts)
    ensures SplitAll(ts) == ts
  {
    if ts != [] {
      assert ts == [ts[0]] + ts[1..];
      SplitPlain(ts[0]);
      SplitAllOfPlain(ts[1..]);
    }
  }

  lemma TokenThenParts(t: string, parts: seq<string>)
    requires Bar !in t
    ensures multiset(SplitAll([t] + parts)) == multiset{t} + multiset(SplitAll(parts))
  {
    SplitPlain(t);
    assert ([t] + parts)[1..] == parts;
  }

  lemma LiveThenTokens(live: string, ts: seq<string>)
    requires AllBarFree(ts)
    ensures multiset(SplitAll([live] + ts)) == multiset(Split(live)) + multiset(ts)
  {
    SplitAllOfPlain(ts);
    assert ([live] + ts)[1..] == ts;
  }

  /** The components of a form are those of the live form and the tokens. */
  lemma {:induction false} SplitInserted(live: string, ts: seq<string>)
    requires AllBarFree(ts)
    ensures multiset(SplitAll(Insert(live, ts))) == multiset(Split(live)) + multiset(ts)
  {
    if ts == [] || Leq(live, ts[0]) {
      LiveThenTokens(live, ts);
      assert Insert(live, ts) == [live] + ts;
    } else {
      SplitInserted(live, ts[1..]);
      TokenThenParts(ts[0], Insert(live, ts[1..]));
      assert ts == [ts[0]] + ts[1..];
    }
  }

  lemma {:induction false} PrefixIsLeq(a: string, b: string)
    requires a <= b
    ensures Leq(a, b)
  {
    if a != "" {
      PrefixIsLeq(a[1..], b[1..]);
    }
  }

  lemma JoinCons(x: string, xs: seq<string>)
    requires xs != []
    ensures Join([x] + xs) == x + ([Bar] + Join(xs))
  {
    assert ([x] + xs)[1..] == xs;
    assert x + [Bar] + Join(xs) == x + ([Bar] + Join(xs));
  }

  lemma CancelBack(a: string, b: string, back: string)
    requires a + back == b + back
    ensures a == b
  {
    assert |a + back| == |b + back|;
    assert a == (a + back)[..|a|] && b == (b + back)[..|b|];
  }

  lemma CancelFront(front: string, a: string, b: string)
    requires front + ([Bar] + a) == front + ([Bar] + b)
    ensures a == b
  {
    assert a == (front + ([Bar] + a))[|front| + 1..];
    assert b == (front + ([Bar] + b))[|front| + 1..];
  }

  /** What is followed by the same bars starts with the same plain component. */
  lemma StartsWithPlain(x: string, back: string, t: string, rest: string)
    requires x + ([Bar] + back) == t + ([Bar] + rest) && Bar !in t
    ensures t <= x
  {
    var s := x + ([Bar] + back);
    assert s[|x|] == Bar && forall i | 0 <= i < |t| :: s[i] == t[i];
    assert x[..|t|] == s[..|t|] == t;
  }

  lemma FirstIsToken(x: string, back: string, t: string, rest: string)
    requires x + ([Bar] + back) == t + ([Bar] + rest) && Bar !in t && Leq(x, t)
    ensures x == t && back == rest
  {
    StartsWithPlain(x, back, t, rest);
    PrefixIsLeq(t, x);
    LeqAntisymmetric(x, t);
    CancelFront(t, back, rest);
  }

  lemma HeadInserted(ts: seq<string>)
    requires Sorted(ts) && ts != []
    ensures Insert(ts[0], ts[1..]) == ts
  {
    assert |ts| > 1 ==> Leq(ts[0], ts[1]);
    assert [ts[0]] + ts[1..] == ts;
  }

  /** `l1` goes before all tokens and `l2` behind the first. */
  lemma EitherSide(l1: string, l2: string, ts: seq<string>)
    requires AllBarFree(ts) && ts != [] && Leq(l1, ts[0]) && !Leq(l2, ts[0])
    requires Join(Insert(l1, ts)) == Join(Insert(l2, ts))
    ensures l1 == ts[0] && Join(ts) == Join(Insert(l2, ts[1..]))
  {
    JoinCons(l1, ts);
    JoinCons(ts[0], Insert(l2, ts[1..]));
    FirstIsToken(l1, Join(ts), ts[0], Join(Insert(l2, ts[1..])));
  }

  /** Where two live forms sort to different sides of the least token, they still are one. */
  lemma {:induction false} LiveBeforeToken(l1: string, l2: string, ts: seq<string>)
    requires Sorted(ts) && AllBarFree(ts) && ts != [] && Leq(l1, ts[0]) && !Leq(l2, ts[0])
    requires Join(Insert(l1, ts)) == Join(Insert(l2, ts))
    ensures l1 == l2
    decreases |ts|, 0
  {
    EitherSide(l1, l2, ts);
    TailSorted(ts);
    HeadInserted(ts);
    OneLiveForm(l1, l2, ts[1..]);
  }

  /** Two live forms that make the same string with the same tokens are the same. */
  lemma {:induction false} OneLiveForm(l1: string, l2: string, ts: seq<string>)
    requires Sorted(ts) && AllBarFree(ts) && Join(Insert(l1, ts)) == Join(Insert(l2, ts))
    ensures l1 == l2
    decreases |ts|, 1
  {
    if ts != [] {
      var t, rest := ts[0], ts[1..];
      if Leq(l1, t) && Leq(l2, t) {
        JoinCons(l1, ts);
        JoinCons(l2, ts);
        CancelBack(l1, l2, [Bar] + Join(ts));
      } else if Leq(l1, t) {
        LiveBeforeToken(l1, l2, ts);
      } else if Leq(l2, t) {
        LiveBeforeToken(l2, l1, ts);
      } else {
        JoinCons(t, Insert(l1, rest));
        JoinCons(t, Insert(l2, rest));
        CancelFront(t, Join(Insert(l1, rest)), Join(Insert(l2, rest)));
        TailSorted(ts);
        OneLiveForm(l1, l2, rest);
      }
    }
  }

  lemma CanonInserts(lex: Lexicon, p: Prompt)
    ensures Canon(lex, p) == Join(Insert(p.live, Sort(Tokens(lex, p))))
  {
    assert ([p.live] + Tokens(lex, p))[1..] == Tokens(lex, p);
  }

  lemma SortedTokens(lex: Lexicon, p: Prompt)
    requires BarFreeLexicon(lex) && BarFree(p)
    ensures Sorted(Sort(Tokens(lex, p))) && AllBarFree(Sort(Tokens(lex, p)))
  {
    TokensPlain(lex, p);
    SortedPlain(Tokens(lex, p));
  }

  lemma SortedPlain(ts: seq<string>)
    requires AllBarFree(ts)
    ensures Sorted(Sort(ts)) && AllBarFree(Sort(ts))
  {
    SortIsSorted(ts);
    forall t | t in Sort(ts) ensures Bar !in t {
      assert t in multiset(Sort(ts));
    }
  }

  /** Whatever their live forms look like, two prompts that match have the same live form exactly when the
      same tokens were extracted from them. */
  lemma MatchRefinesExactly(lex: Lexicon, a: Prompt, b: Prompt)
    requires BarFreeLexicon(lex) && BarFree(a) && BarFree(b) && Match(lex, a, b)
    ensures a.live == b.live <==> multiset(Tokens(lex, a)) == multiset(Tokens(lex, b))
  {
    var ts, us := Sort(Tokens(lex, a)), Sort(Tokens(lex, b));
    CanonInserts(lex, a);
    CanonInserts(lex, b);
    SortedTokens(lex, a);
    SortedTokens(lex, b);
    if a.live == b.live {
      SameTokensExtracted(a.live, ts, us);
    }
    if multiset(ts) == multiset(us) {
      SortedUnique(ts, us);
      OneLiveForm(a.live, b.live, ts);
    }
  }

  lemma SameTokensExtracted(live: string, ts: seq<string>, us: seq<string>)
    requires AllBarFree(ts) && AllBarFree(us) && Join(Insert(live, ts)) == Join(Insert(live, us))
    ensures multiset(ts) == multiset(us)
  {
    SplitInserted(live, ts);
    SplitInserted(live, us);
    assert live in multiset(Insert(live, ts)) && live in multiset(Insert(live, us));
    SplitJoin(Insert(live, ts));
    SplitJoin(Insert(live, us));
    CancelCommon(multiset(Split(live)), multiset(ts), multiset(us));
  }

  lemma CancelCommon(common: multiset<string>, a: multiset<string>, b: multiset<string>)
    requires common + a == common + b
    ensures a == b
  {
    assert a == common + a - common && b == common + b - common;
  }
}
