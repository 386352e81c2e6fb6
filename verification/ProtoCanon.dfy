/** The prototype consumer canonical form of cmd/conscheck/proto.go.

    A prompt is what the regular expressions and the live gate extract from it: the live canonical form,
    the figure-with-unit matches, and the words. */
module ProtoCanon {
  import opened SortedStrings
  import opened ProtoWords

  // ---------------------------------------------------------------------------
  // The canonical form

  function AddNew(acc: seq<string>, ts: seq<string>): seq<string>
    decreases ts
  {
    if ts == [] then acc
    else AddNew(if ts[0] in acc then acc else acc + [ts[0]], ts[1..])
  }

  lemma {:induction false} AddNewMembers(acc: seq<string>, ts: seq<string>, t: string)
    ensures t in AddNew(acc, ts) <==> t in acc || t in ts
    decreases ts
  {
    if ts != [] {
      AddNewMembers(if ts[0] in acc then acc else acc + [ts[0]], ts[1..], t);
      assert ts == [ts[0]] + ts[1..];
    }
  }

  /** The first `n` values of `f`. */
  function Collect<T>(f: nat -> T, n: nat): (ts: seq<T>)
    ensures |ts| == n
  {
    if n == 0 then [] else Collect(f, n - 1) + [f(n - 1)]
  }

  lemma {:induction false} CollectAt<T>(f: nat -> T, n: nat, i: nat)
    requires i < n
    ensures Collect(f, n)[i] == f(i)
  {
    if i < n - 1 {
      CollectAt(f, n - 1, i);
    }
  }

  /** What each word offers. */
  function Offers(lex: Lexicon, words: seq<string>): (offers: seq<seq<string>>)
    ensures |offers| == |words|
  {
    Collect(OfferOf(lex, words), |words|)
  }

  function OfferOf(lex: Lexicon, words: seq<string>): nat -> seq<string> {
    (i: nat) => if i < |words| then Offered(lex, words, i) else []
  }

  lemma OffersAt(lex: Lexicon, words: seq<string>, i: nat)
    requires i < |words|
    ensures Offers(lex, words)[i] == Offered(lex, words, i)
  {
    CollectAt(OfferOf(lex, words), |words|, i);
  }

  /** What the first `n` offers hold, each token kept where it first occurs. */
  function Gathered(offers: seq<seq<string>>, n: nat): seq<string>
    requires n <= |offers|
  {
    if n == 0 then [] else AddNew(Gathered(offers, n - 1), offers[n - 1])
  }

  function ClassTokens(lex: Lexicon, words: seq<string>): seq<string> {
    Gathered(Offers(lex, words), |words|)
  }

  function Tokens(lex: Lexicon, p: Prompt): seq<string> { UnitTokens(p.units) + ClassTokens(lex, p.words) }

  function Canon(lex: Lexicon, p: Prompt): string { Join(Sort([p.live] + Tokens(lex, p))) }

  predicate Match(lex: Lexicon, a: Prompt, b: Prompt) { Canon(lex, a) == Canon(lex, b) }

  // ---------------------------------------------------------------------------
  // The program

  /** sort.Strings leaves the parts sorted; which algorithm ran cannot be told from the result. */
  method SortStrings(parts: seq<string>) returns (sorted: seq<string>)
    ensures Sorted(sorted) && multiset(sorted) == multiset(parts)
  {
    SortIsSorted(parts);
    sorted := Sort(parts);
  }

  /** The `add` closure: append class:v unless v is empty or the token was seen. */
  method Add(parts: seq<string>, seen: set<string>, class_: string, v: string,
             ghost before: seq<string>, ghost kept: seq<string>)
    returns (parts': seq<string>, seen': set<string>)
    requires Tracks(parts, seen, before, kept)
    ensures Tracks(parts', seen', before, AddNew(kept, if v == "" then [] else [class_ + ":" + v]))
  {
    var k := class_ + ":" + v;
    parts', seen' := parts, seen;
    AddNewOne(kept, k);
    if v == "" || k in seen {
      return;
    }
    seen' := seen + {k};
    parts' := parts + [k];
  }

  /** `parts` ends in the class tokens `kept`, and `seen` holds exactly those. */
  ghost predicate Tracks(parts: seq<string>, seen: set<string>, before: seq<string>, kept: seq<string>) {
    parts == before + kept && forall t :: t in seen <==> t in kept
  }

  method AddWho(lex: Lexicon, parts: seq<string>, seen: set<string>, lw: string,
                ghost before: seq<string>, ghost kept: seq<string>)
    returns (parts': seq<string>, seen': set<string>)
    requires Tracks(parts, seen, before, kept)
    ensures Tracks(parts', seen', before, AddNew(kept, WhoToken(lex, lw)))
  {
    parts', seen' := parts, seen;
    if Lookup(lex.person, lw) != "" {
      parts', seen' := Add(parts, seen, "who", Lookup(lex.person, lw), before, kept);
    } else if Lookup(lex.animal, lw) != "" {
      parts', seen' := Add(parts, seen, "animal", Lookup(lex.animal, lw), before, kept);
    } else if Lookup(lex.jurisdiction, lw) != "" {
      parts', seen' := Add(parts, seen, "juris", Lookup(lex.jurisdiction, lw), before, kept);
    } else if Lookup(lex.role, lw) != "" {
      parts', seen' := Add(parts, seen, "role", Lookup(lex.role, lw), before, kept);
    }
  }

  method AddWhen(lex: Lexicon, parts: seq<string>, seen: set<string>, words: seq<string>, i: nat, lw: string,
                 ghost before: seq<string>, ghost kept: seq<string>)
    returns (parts': seq<string>, seen': set<string>)
    requires i < |words| && lw == Folded(lex, words[i]) && Tracks(parts, seen, before, kept)
    ensures Tracks(parts', seen', before, AddNew(kept, WhenToken(lex, words, i)))
  {
    parts', seen' := parts, seen;
    if lw in lex.deixis && i + 1 < |words| && Lower(words[i + 1]) in lex.timeNoun {
      parts', seen' := Add(parts, seen, "when", lw + "-" + Lower(words[i + 1]), before, kept);
    }
  }

  method AddTopic(lex: Lexicon, parts: seq<string>, seen: set<string>, w: string, lw: string,
                  ghost before: seq<string>, ghost kept: seq<string>)
    returns (parts': seq<string>, seen': set<string>)
    requires lw == Folded(lex, w) && Tracks(parts, seen, before, kept)
    ensures Tracks(parts', seen', before, AddNew(kept, TopicToken(lex, w)))
  {
    parts', seen' := parts, seen;
    if Listed(lex.alias, Lower(w)) {
      parts', seen' := Add(parts, seen, "topic", Lookup(lex.alias, Lower(w)), before, kept);
    } else if lw in lex.plainTopics {
      parts', seen' := Add(parts, seen, "topic", lw, before, kept);
    }
  }

  /** One turn of the loop over the words. */
  method AddWord(lex: Lexicon, parts: seq<string>, seen: set<string>, words: seq<string>, i: nat,
                 ghost before: seq<string>, ghost offers: seq<seq<string>>)
    returns (parts': seq<string>, seen': set<string>)
    requires i < |words| && offers == Offers(lex, words)
    requires Tracks(parts, seen, before, Gathered(offers, i))
    ensures Tracks(parts', seen', before, Gathered(offers, i + 1))
    ensures forall t :: t in parts'[|before|..] <==> t in parts[|before|..] || WordGives(lex, words, i, t)
  {
    var w := words[i];
    var lw := Lower(w);
    if Listed(lex.alias, lw) {
      lw := Lookup(lex.alias, lw);
    }
    OffersAt(lex, words, i);
    ghost var kept := Gathered(offers, i);
    ghost var who, when, topic := WhoToken(lex, lw), WhenToken(lex, words, i), TopicToken(lex, w);
    parts', seen' := AddWho(lex, parts, seen, lw, before, kept);
    parts', seen' := AddWhen(lex, parts', seen', words, i, lw, before, AddNew(kept, who));
    parts', seen' := AddTopic(lex, parts', seen', w, lw, before, AddNew(AddNew(kept, who), when));
    AddNewInSteps(kept, who, when, topic);
    TurnAdds(lex, words, i, offers);
    assert parts[|before|..] == kept && parts'[|before|..] == Gathered(offers, i + 1);
  }

  lemma TurnAdds(lex: Lexicon, words: seq<string>, i: nat, offers: seq<seq<string>>)
    requires i < |words| && offers == Offers(lex, words)
    ensures forall t :: t in Gathered(offers, i + 1) <==> t in Gathered(offers, i) || WordGives(lex, words, i, t)
  {
    OffersAt(lex, words, i);
    forall t ensures t in Gathered(offers, i + 1) <==> t in Gathered(offers, i) || WordGives(lex, words, i, t) {
      AddNewMembers(Gathered(offers, i), offers[i], t);
      OfferedExactly(lex, words, i, t);
    }
  }

  method ProtoCanon(lex: Lexicon, p: Prompt) returns (canon: string)
    ensures canon == Canon(lex, p)
  {
    var parts := [p.live];
    for u := 0 to |p.units|
      invariant parts == [p.live] + UnitTokens(p.units)[..u]
    {
      parts := parts + [UnitToken(p.units[u])];
    }
    assert parts == [p.live] + UnitTokens(p.units);
    parts := AddClasses(lex, p.words, parts);
    var sorted := SortStrings(parts);
    CanonOfSorted(lex, p, UnitTokens(p.units), ClassTokens(lex, p.words), sorted);
    canon := Join(sorted);
  }

  lemma CanonOfSorted(lex: Lexicon, p: Prompt, us: seq<string>, cs: seq<string>, sorted: seq<string>)
    requires us == UnitTokens(p.units) && cs == ClassTokens(lex, p.words)
    requires Sorted(sorted) && multiset(sorted) == multiset([p.live] + us + cs)
    ensures Join(sorted) == Canon(lex, p)
  {
    var parts := [p.live] + (us + cs);
    assert [p.live] + us + cs == parts;
    SortedParts(lex, p, parts, sorted);
  }

  lemma SortedParts(lex: Lexicon, p: Prompt, parts: seq<string>, sorted: seq<string>)
    requires parts == [p.live] + Tokens(lex, p)
    requires Sorted(sorted) && multiset(sorted) == multiset(parts)
    ensures Join(sorted) == Canon(lex, p)
  {
    SortedIsSort(sorted, parts);
  }

  method AddClasses(lex: Lexicon, words: seq<string>, before: seq<string>) returns (parts: seq<string>)
    ensures parts == before + ClassTokens(lex, words)
  {
    parts := before;
    ghost var offers := Offers(lex, words);
    var seen: set<string> := {};
    for i := 0 to |words|
      invariant Tracks(parts, seen, before, Gathered(offers, i))
    {
      parts, seen := AddWord(lex, parts, seen, words, i, before, offers);
    }
  }

  lemma SortedIsSort(sorted: seq<string>, parts: seq<string>)
    requires Sorted(sorted) && multiset(sorted) == multiset(parts)
    ensures sorted == Sort(parts)
  {
    SortIsSorted(parts);
    SortedUnique(sorted, Sort(parts));
  }

  lemma AddNewOne(acc: seq<string>, t: string)
    ensures AddNew(acc, [t]) == if t in acc then acc else acc + [t]
  {
  }

  lemma {:induction false} AddNewAppend(acc: seq<string>, ts: seq<string>, us: seq<string>)
    ensures AddNew(acc, ts + us) == AddNew(AddNew(acc, ts), us)
    decreases ts
  {
    if ts == [] {
      assert ts + us == us;
    } else {
      assert (ts + us)[1..] == ts[1..] + us;
      AddNewAppend(if ts[0] in acc then acc else acc + [ts[0]], ts[1..], us);
    }
  }

  lemma AddNewInSteps(acc: seq<string>, ts: seq<string>, us: seq<string>, vs: seq<string>)
    ensures AddNew(acc, ts + us + vs) == AddNew(AddNew(AddNew(acc, ts), us), vs)
  {
    AddNewAppend(acc, ts + us, vs);
    AddNewAppend(acc, ts, us);
  }
}
