/** The live canonical form (internal/discriminator/discriminator.go) as far as the prototype tier meets it:
    which live forms could be mistaken for prototype tokens, and a pair of prompts for which they are. */
module LiveForm {
  import opened Prelude
  import opened SortedStrings
  import opened ProtoCanon
  import opened ProtoMatch
  import opened ProtoWords

  datatype LiveToken = LiveToken(class_: string, value: string)

  const LiveClasses: set<string> := {"q", "num", "code", "caps", "propn", "id", "tech", "scope", "cmd"}

  function Render(t: LiveToken): string { t.class_ + ":" + t.value }

  function Rendered(tokens: seq<LiveToken>): seq<string> {
    seq(|tokens|, i requires 0 <= i < |tokens| => Render(tokens[i]))
  }

  /** discriminator.Canon, from the tokens Extract found. */
  function Live(tokens: seq<LiveToken>): string { Join(Sort(Rendered(tokens))) }

  /** No bar in `s` is directly followed by a prototype prefix. */
  predicate NoProtoAfterBar(s: string) {
    forall k | 0 <= k < |s| && s[k] == Bar :: !IsProto(s[k + 1..])
  }

  lemma {:induction false} PrefixOfFirst(p: string, s: string)
    requires Bar !in p
    ensures p <= s <==> p <= Split(s)[0]
  {
    if p != "" && s != "" && s[0] != Bar {
      assert p[0] in p;
      PrefixOfFirst(p[1..], s[1..]);
      var first := Split(s)[0];
      assert first == [s[0]] + Split(s[1..])[0];
      PrefixByHead(p, s);
      PrefixByHead(p, first);
      assert first[1..] == Split(s[1..])[0];
    } else if p != "" {
      assert p[0] in p;
    }
  }

  lemma PrefixByHead(p: string, s: string)
    requires p != "" && s != ""
    ensures p <= s <==> p[0] == s[0] && p[1..] <= s[1..]
  {
  }

  lemma ProtoOfFirst(s: string)
    ensures IsProto(s) <==> IsProto(Split(s)[0])
  {
    PrefixOfFirst("unit:", s);
    PrefixOfFirst("who:", s);
    PrefixOfFirst("animal:", s);
    PrefixOfFirst("juris:", s);
    PrefixOfFirst("role:", s);
    PrefixOfFirst("when:", s);
    PrefixOfFirst("topic:", s);
  }

  predicate LaterPlain(cs: seq<string>) {
    forall i | 0 < i < |cs| :: !IsProto(cs[i])
  }

  lemma HeadAndLater(cs: seq<string>)
    requires cs != []
    ensures AllPlain(cs) <==> !IsProto(cs[0]) && LaterPlain(cs)
    ensures LaterPlain([""] + cs) <==> AllPlain(cs)
  {
    var ds := [""] + cs;
    if LaterPlain(ds) {
      forall i | 0 <= i < |cs| ensures !IsProto(cs[i]) {
        assert ds[i + 1] == cs[i];
      }
    }
  }

  lemma AfterBarByHead(s: string)
    requires s != ""
    ensures NoProtoAfterBar(s) <==> (s[0] == Bar ==> !IsProto(s[1..])) && NoProtoAfterBar(s[1..])
  {
  }

  lemma {:induction false} LaterIffAfterBar(s: string)
    ensures LaterPlain(Split(s)) <==> NoProtoAfterBar(s)
  {
    if s != "" {
      var rest := Split(s[1..]);
      LaterIffAfterBar(s[1..]);
      AfterBarByHead(s);
      if s[0] == Bar {
        ProtoOfFirst(s[1..]);
        HeadAndLater(rest);
      } else {
        SameLater(rest, [[s[0]] + rest[0]] + rest[1..]);
      }
    }
  }

  lemma SameLater(cs: seq<string>, ds: seq<string>)
    requires |cs| == |ds| && cs != [] && cs[1..] == ds[1..]
    ensures LaterPlain(cs) <==> LaterPlain(ds)
  {
  }

  /** A live form is clean exactly when it neither starts with a prototype prefix nor has one after a bar. */
  lemma CleanIffNoProtoPrefix(s: string)
    ensures Clean(s) <==> !IsProto(s) && NoProtoAfterBar(s)
  {
    HeadAndLater(Split(s));
    ProtoOfFirst(s);
    LaterIffAfterBar(s);
  }

  // ---------------------------------------------------------------------------
  // Live forms built from tokens

  lemma {:induction false} AllPlainOfParts(parts: seq<string>)
    ensures AllPlain(SplitAll(parts)) <==> forall i | 0 <= i < |parts| :: Clean(parts[i])
  {
    if parts != [] {
      var first, rest := Split(parts[0]), SplitAll(parts[1..]);
      AllPlainOfParts(parts[1..]);
      AllPlainAppend(first, rest);
      assert forall i | 0 <= i < |parts[1..]| :: parts[1..][i] == parts[i + 1];
      if forall i | 0 <= i < |parts[1..]| :: Clean(parts[1..][i]) {
        forall i | 0 < i < |parts| ensures Clean(parts[i]) {
          assert parts[i] == parts[1..][i - 1];
        }
      }
    }
  }

  lemma AllPlainAppend(cs: seq<string>, ds: seq<string>)
    ensures AllPlain(cs + ds) <==> AllPlain(cs) && AllPlain(ds)
  {
    if AllPlain(cs + ds) {
      forall i | 0 <= i < |cs| ensures !IsProto(cs[i]) {
        assert (cs + ds)[i] == cs[i];
      }
      forall i | 0 <= i < |ds| ensures !IsProto(ds[i]) {
        assert (cs + ds)[|cs| + i] == ds[i];
      }
    }
  }

  lemma RenderPlain(t: LiveToken)
    requires t.class_ in LiveClasses
    ensures !IsProto(Render(t)) && Bar !in t.class_ + ":"
  {
    var r := Render(t);
    assert r[0] == t.class_[0] && r[1] == (t.class_ + ":")[1];
    assert r[0] == 't' ==> t.class_ == "tech" && r[1] == 'e';
    assert r[0] in {'q', 'n', 'c', 'p', 'i', 't', 's'};
  }

  lemma RenderClean(t: LiveToken)
    requires t.class_ in LiveClasses
    ensures Clean(Render(t)) <==> NoProtoAfterBar(t.value)
  {
    RenderPlain(t);
    CleanIffNoProtoPrefix(Render(t));
    AfterBarAppend(t.class_ + ":", t.value);
  }

  lemma {:induction false} AfterBarAppend(head: string, tail: string)
    requires Bar !in head
    ensures NoProtoAfterBar(head + tail) <==> NoProtoAfterBar(tail)
  {
    if head == "" {
      assert head + tail == tail;
    } else {
      assert (head + tail)[1..] == head[1..] + tail;
      assert head[0] in head;
      AfterBarByHead(head + tail);
      AfterBarAppend(head[1..], tail);
    }
  }

  /** The live form of a prompt is clean exactly when no token value has a bar directly followed by a
      prototype prefix; in particular whenever no value has a bar at all. */
  lemma LiveFormClean(tokens: seq<LiveToken>)
    requires forall i | 0 <= i < |tokens| :: tokens[i].class_ in LiveClasses
    ensures Clean(Live(tokens)) <==> forall i | 0 <= i < |tokens| :: NoProtoAfterBar(tokens[i].value)
  {
    var parts := Sort(Rendered(tokens));
    assert |multiset(parts)| == |tokens|;
    if tokens == [] {
      CleanIffNoProtoPrefix("");
    } else {
      SplitJoin(parts);
      AllPlainOfParts(parts);
      SortedAlike(tokens, parts);
      forall i | 0 <= i < |tokens|
        ensures Clean(Render(tokens[i])) <==> NoProtoAfterBar(tokens[i].value)
      {
        RenderClean(tokens[i]);
      }
    }
  }

  lemma SortedAlike(tokens: seq<LiveToken>, parts: seq<string>)
    requires multiset(parts) == multiset(Rendered(tokens))
    ensures (forall i | 0 <= i < |parts| :: Clean(parts[i])) <==>
            (forall i | 0 <= i < |tokens| :: Clean(Render(tokens[i])))
  {
    var rendered := Rendered(tokens);
    if forall i | 0 <= i < |parts| :: Clean(parts[i]) {
      forall i | 0 <= i < |tokens| ensures Clean(Render(tokens[i])) {
        assert rendered[i] in multiset(rendered);
        assert rendered[i] in parts;
      }
    }
    if forall i | 0 <= i < |tokens| :: Clean(Render(tokens[i])) {
      forall i | 0 <= i < |parts| ensures Clean(parts[i]) {
        assert parts[i] in multiset(parts);
        assert parts[i] in rendered;
      }
    }
  }

  // ---------------------------------------------------------------------------
  // The prototype tier is not always an extension

  /** What is extracted from the prompt "x x x|when:this-year" (in double quotes, as shown). */
  predicate IsQuoted(p: Prompt, t: LiveToken) {
    && t == LiveToken("q", "x x x|when:this-year") && p.live == Live([t])
    && p.units == [] && p.words == ["x", "x", "x", "when", "this-year"]
  }

  /** What is extracted from the prompt "x x x" this year (with the first three words in double quotes). */
  predicate IsPlain(p: Prompt, t: LiveToken) {
    && t == LiveToken("q", "x x x") && p.live == Live([t])
    && p.units == [] && p.words == ["x", "x", "x", "this", "year"]
  }

  const TestWords: set<string> := {"x", "when", "this-year", "this", "year"}

  lemma {:induction false} LookupMiss(table: ClassTable, w: string)
    requires forall i | 0 <= i < |table| :: w !in table[i].0
    ensures Lookup(table, w) == ""
  {
    if table != [] {
      assert forall i | 0 <= i < |table[1..]| :: table[1..][i] == table[i + 1];
      LookupMiss(table[1..], w);
    }
  }

  predicate Misses(table: ClassTable, w: string) {
    forall i | 0 <= i < |table| :: w !in table[i].0
  }

  lemma PeopleMiss(w: string)
    requires w in TestWords
    ensures Misses(PersonClass, w)
  {
    MinorsMiss(w, PersonClass[0].0);
    AdultsMiss(w, PersonClass[1..]);
    forall i | 0 < i < |PersonClass| ensures w !in PersonClass[i].0 {
      assert PersonClass[i] == PersonClass[1..][i - 1];
    }
  }

  lemma MinorsMiss(w: string, minors: seq<string>)
    requires w in TestWords && minors == PersonClass[0].0
    ensures w !in minors
  {
    FirstLetters(w);
    forall i | 0 <= i < |minors| ensures minors[i] != w {
      assert minors[i] == "teenager" || minors[i] == "teen" || minors[i] == "toddler" || minors[i][0] in "ckbinm";
    }
  }

  lemma FirstLetters(w: string)
    requires w in TestWords
    ensures w != "" && w[0] in "xwty" && (w[0] == 't' ==> |w| > 1 && w[1] == 'h')
  {
  }

  lemma AdultsMiss(w: string, table: ClassTable)
    requires w in TestWords && table == PersonClass[1..]
    ensures Misses(table, w)
  {
  }

  lemma AnimalsMiss(w: string)
    requires w in TestWords
    ensures Misses(AnimalClass, w)
  {
  }

  lemma RolesMiss(w: string)
    requires w in TestWords
    ensures Misses(RelationRole, w)
  {
  }

  lemma PlacesMiss(w: string)
    requires w in TestWords
    ensures Misses(Jurisdiction, w)
  {
  }

  lemma TopicsMiss(w: string)
    requires w in TestWords
    ensures Misses(TopicAlias, w) && w !in PlainTopics
  {
  }

  lemma LowerFixed(w: string)
    requires forall i | 0 <= i < |w| :: !('A' <= w[i] <= 'Z') && w[i] != Kelvin
    ensures Lower(w) == w
  {
  }

  /** `w` is in lower case and no table but the time ones knows it. */
  predicate Unlisted(lex: Lexicon, w: string) {
    && Lower(w) == w && w !in lex.plainTopics && !Listed(lex.alias, w)
    && Lookup(lex.person, w) == "" && Lookup(lex.animal, w) == ""
    && Lookup(lex.jurisdiction, w) == "" && Lookup(lex.role, w) == ""
  }

  lemma TestWordUnlisted(w: string)
    requires w in TestWords
    ensures Unlisted(Consumer, w)
  {
    LowerFixed(w);
    PeopleMiss(w);
    AnimalsMiss(w);
    RolesMiss(w);
    PlacesMiss(w);
    TopicsMiss(w);
    LookupMiss(PersonClass, w);
    LookupMiss(AnimalClass, w);
    LookupMiss(Jurisdiction, w);
    LookupMiss(RelationRole, w);
  }

  /** Word `i` qualifies a time noun. */
  predicate Deictic(lex: Lexicon, words: seq<string>, i: nat)
    requires i < |words|
  {
    words[i] in lex.deixis && i + 1 < |words| && words[i + 1] in lex.timeNoun
  }

  lemma OffersOfUnlisted(lex: Lexicon, words: seq<string>, i: nat)
    requires i < |words| && forall j | 0 <= j < |words| :: Unlisted(lex, words[j])
    ensures Offered(lex, words, i) ==
            if Deictic(lex, words, i) then ["when" + ":" + (words[i] + "-" + words[i + 1])] else []
  {
  }

  lemma NoTokens(lex: Lexicon, p: Prompt)
    requires p.units == []
    requires forall i | 0 <= i < |p.words| :: Unlisted(lex, p.words[i]) && !Deictic(lex, p.words, i)
    ensures Tokens(lex, p) == []
  {
    var found := ClassTokens(lex, p.words);
    if found != [] {
      ClassTokensAreNamed(lex, p, found[0]);
      var i :| 0 <= i < |p.words| && WordGives(lex, p.words, i, found[0]);
      OfferedExactly(lex, p.words, i, found[0]);
      OffersOfUnlisted(lex, p.words, i);
    }
  }

  lemma NamesOne(lex: Lexicon, p: Prompt, n: nat, t: string, u: string)
    requires n + 1 < |p.words|
    requires forall i | 0 <= i < |p.words| :: Unlisted(lex, p.words[i]) && (Deictic(lex, p.words, i) <==> i == n)
    requires t == "when" + ":" + (p.words[n] + "-" + p.words[n + 1])
    ensures Names(lex, p, u) <==> u == t
  {
    OffersOfUnlisted(lex, p.words, n);
    OfferedExactly(lex, p.words, n, t);
    if Names(lex, p, u) {
      var i :| 0 <= i < |p.words| && WordGives(lex, p.words, i, u);
      OfferedExactly(lex, p.words, i, u);
      OffersOfUnlisted(lex, p.words, i);
    }
  }

  lemma OneToken(lex: Lexicon, p: Prompt, n: nat, t: string)
    requires p.units == [] && n + 1 < |p.words|
    requires forall i | 0 <= i < |p.words| :: Unlisted(lex, p.words[i]) && (Deictic(lex, p.words, i) <==> i == n)
    requires t == "when" + ":" + (p.words[n] + "-" + p.words[n + 1])
    ensures Tokens(lex, p) == [t]
  {
    forall u ensures u in ClassTokens(lex, p.words) <==> u == t {
      ClassTokensAreNamed(lex, p, u);
      NamesOne(lex, p, n, t, u);
    }
    ClassTokensAreNamed(lex, p, t);
    OnlyMember(ClassTokens(lex, p.words), t);
  }

  lemma OnlyMember(xs: seq<string>, t: string)
    requires NoRepeats(xs) && forall u :: u in xs <==> u == t
    ensures xs == [t]
  {
    DistinctMultiset(xs, t);
    assert multiset(xs) == multiset{t} by {
      forall u ensures multiset(xs)[u] == multiset{t}[u] {
        DistinctMultiset(xs, u);
      }
    }
    assert |multiset(xs)| == 1;
  }

  lemma TokensOfQuoted(p: Prompt)
    requires p.units == [] && p.words == ["x", "x", "x", "when", "this-year"]
    ensures Tokens(Consumer, p) == []
  {
    forall i | 0 <= i < 5 ensures Unlisted(Consumer, p.words[i]) && !Deictic(Consumer, p.words, i) {
      TestWordUnlisted(p.words[i]);
      assert p.words[i] !in TimeDeixis;
    }
    NoTokens(Consumer, p);
  }

  lemma OnlyThisIsDeictic(words: seq<string>, i: nat)
    requires words == ["x", "x", "x", "this", "year"] && i < 5
    ensures words[i] in TimeDeixis <==> i == 3
    ensures words[4] in TimeNoun
  {
  }

  lemma PlainWords(words: seq<string>)
    requires words == ["x", "x", "x", "this", "year"]
    ensures forall i | 0 <= i < |words| :: Unlisted(Consumer, words[i]) && (Deictic(Consumer, words, i) <==> i == 3)
  {
    forall i | 0 <= i < |words|
      ensures Unlisted(Consumer, words[i]) && (Deictic(Consumer, words, i) <==> i == 3)
    {
      assert words[i] in TestWords;
      TestWordUnlisted(words[i]);
      OnlyThisIsDeictic(words, i);
    }
  }

  lemma TokensOfPlain(p: Prompt)
    requires p.units == [] && p.words == ["x", "x", "x", "this", "year"]
    ensures Tokens(Consumer, p) == ["when:this-year"]
  {
    PlainWords(p.words);
    TokensOfThisYear(Consumer, p);
  }

  lemma TokensOfThisYear(lex: Lexicon, p: Prompt)
    requires p.units == [] && p.words == ["x", "x", "x", "this", "year"]
    requires forall i | 0 <= i < |p.words| :: Unlisted(lex, p.words[i]) && (Deictic(lex, p.words, i) <==> i == 3)
    ensures Tokens(lex, p) == ["when:this-year"]
  {
    OneToken(lex, p, 3, "when:this-year");
  }

  lemma SortOne(x: string)
    ensures Join(Sort([x])) == x
  {
    assert [x][1..] == [];
  }

  lemma SortTwo(x: string, y: string)
    requires Leq(x, y)
    ensures Join(Sort([x, y])) == x + "|" + y
  {
    SortedIsSort([x, y], [x, y]);
    assert [x, y][1..] == [y];
  }

  lemma LiveOfQuoted(p: Prompt, t: LiveToken)
    requires IsQuoted(p, t)
    ensures p.live == "q:x x x|when:this-year"
  {
    LiveOfOne(t, "q:x x x|when:this-year");
  }

  lemma LiveOfPlain(p: Prompt, t: LiveToken)
    requires IsPlain(p, t)
    ensures p.live == "q:x x x"
  {
    LiveOfOne(t, "q:x x x");
  }

  lemma QuotedIsLonger(quoted: string, plain: string, t: string)
    requires quoted == "q:x x x|when:this-year" && plain == "q:x x x" && t == "when:this-year"
    ensures quoted == plain + "|" + t && Leq(plain, t) && quoted != plain
  {
    assert plain[0] < t[0];
  }

  lemma TwoFormsMatch(lex: Lexicon, a: Prompt, b: Prompt, t: string)
    requires a.live == "q:x x x|when:this-year" && b.live == "q:x x x" && t == "when:this-year"
    requires Tokens(lex, a) == [] && Tokens(lex, b) == [t]
    ensures a.live != b.live && Match(lex, a, b)
  {
    QuotedIsLonger(a.live, b.live, t);
    MatchOnConcatenation(lex, a, b, t);
  }

  /** A bar inside a quoted span makes two prompts match although the live gate tells them apart. */
  lemma NotAlwaysAnExtension(a: Prompt, b: Prompt, s: LiveToken, t: LiveToken)
    requires IsQuoted(a, s) && IsPlain(b, t)
    ensures a.live != b.live && Match(Consumer, a, b)
  {
    LiveOfQuoted(a, s);
    LiveOfPlain(b, t);
    TokensOfQuoted(a);
    TokensOfPlain(b);
    TwoFormsMatch(Consumer, a, b, "when:this-year");
  }

  lemma LiveOfOne(t: LiveToken, s: string)
    requires Render(t) == s
    ensures Live([t]) == s
  {
    SortOne(s);
    assert Rendered([t]) == [s];
  }

  lemma MatchOnConcatenation(lex: Lexicon, a: Prompt, b: Prompt, t: string)
    requires Tokens(lex, a) == [] && Tokens(lex, b) == [t]
    requires a.live == b.live + "|" + t && Leq(b.live, t)
    ensures Match(lex, a, b)
  {
    SortOne(a.live);
    SortTwo(b.live, t);
    CanonOfParts(lex, a, [a.live]);
    CanonOfParts(lex, b, [b.live, t]);
  }

  lemma CanonOfParts(lex: Lexicon, p: Prompt, parts: seq<string>)
    requires parts == [p.live] + Tokens(lex, p)
    ensures Canon(lex, p) == Join(Sort(parts))
  {
  }
}
