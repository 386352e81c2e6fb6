/** What the prototype tier of cmd/conscheck/proto.go reads in a prompt: the hand-maintained tables, the tokens
    a word gives, and the token of a figure with its unit.

    `Offered` follows the program. `WordGives` says the same by membership in the rows of the tables. */
module ProtoWords {
  datatype Unit = Unit(figure: string, unit: string)

  datatype Prompt = Prompt(live: string, units: seq<Unit>, words: seq<string>)

  // ---------------------------------------------------------------------------
  // The closed classes

  /** A row lists the words that stand for one class. */
  type ClassTable = seq<(seq<string>, string)>

  /** The hand-maintained tables. What is proved below holds whatever they list. */
  datatype Lexicon = Lexicon(
    person: ClassTable,
    animal: ClassTable,
    jurisdiction: ClassTable,
    role: ClassTable,
    alias: ClassTable,
    deixis: seq<string>,
    timeNoun: seq<string>,
    plainTopics: seq<string>)

  const PersonClass: ClassTable := [
    (["child", "children", "kid", "kids", "baby", "babies", "infant", "newborn",
      "toddler", "teenager", "teen", "minor"], "minor"),
    (["adult", "adults", "grown-up"], "adult"),
    (["pregnant", "pregnancy", "breastfeeding"], "pregnant"),
    (["elderly", "senior", "pensioner"], "elderly"),
    (["diabetic"], "diabetic"), (["asthmatic"], "asthmatic")]

  const AnimalClass: ClassTable := [
    (["dog", "dogs", "puppy", "puppies"], "dog"), (["cat", "cats", "kitten", "kittens"], "cat"),
    (["horse"], "horse"), (["rabbit"], "rabbit"), (["hamster"], "hamster"), (["bird"], "bird"),
    (["pet", "pets"], "pet")]

  const Jurisdiction: ClassTable := [
    (["uk", "britain", "british", "england", "english"], "uk"),
    (["scotland", "scottish"], "scotland"), (["wales", "welsh"], "wales"),
    (["us", "usa", "america", "american"], "us"),
    (["ireland"], "ireland"), (["canada"], "canada"), (["australia"], "australia"), (["eu"], "eu")]

  const RelationRole: ClassTable := [
    (["landlord"], "landlord"), (["tenant"], "tenant"), (["employer"], "employer"), (["employee"], "employee"),
    (["buyer", "customer", "consumer"], "buyer"), (["seller", "shop", "retailer"], "seller")]

  const TopicAlias: ClassTable := [
    (["coronavirus", "covid-19", "covid19"], "covid"), (["acetaminophen", "tylenol"], "paracetamol"),
    (["advil", "nurofen"], "ibuprofen"), (["faucet"], "tap"), (["tyre"], "tire")]

  const TimeDeixis: seq<string> := ["this", "last", "next", "current", "previous"]

  const TimeNoun: seq<string> := ["year", "month", "week", "season", "tax-year"]

  const PlainTopics: seq<string> := ["covid", "flu", "paracetamol", "ibuprofen"]

  const Consumer: Lexicon := Lexicon(PersonClass, AnimalClass, Jurisdiction, RelationRole, TopicAlias,
                                     TimeDeixis, TimeNoun, PlainTopics)

  /** Some row of the table holds `w`. */
  predicate Listed(table: ClassTable, w: string) { exists i :: 0 <= i < |table| && w in table[i].0 }

  /** The class of `w`, "" for a word the table does not hold. */
  function Lookup(table: ClassTable, w: string): string {
    if table == [] then "" else if w in table[0].0 then table[0].1 else Lookup(table[1..], w)
  }

  // ---------------------------------------------------------------------------
  // Tokens

  /** The Kelvin sign, which a case-blind k also matches. */
  const Kelvin: char := '\U{212A}'

  /** strings.ToLower on the characters that the expressions for words and units yield. */
  function LowerChar(c: char): char {
    if 'A' <= c <= 'Z' then (c as int + 32) as char else if c == Kelvin then 'k' else c
  }

  function Lower(s: string): string { seq(|s|, i requires 0 <= i < |s| => LowerChar(s[i])) }

  function UnitToken(u: Unit): string { "unit:" + u.figure + Lower(u.unit) }

  function UnitTokens(units: seq<Unit>): seq<string> {
    seq(|units|, i requires 0 <= i < |units| => UnitToken(units[i]))
  }

  function Folded(lex: Lexicon, w: string): string {
    if Listed(lex.alias, Lower(w)) then Lookup(lex.alias, Lower(w)) else Lower(w)
  }

  function WhoToken(lex: Lexicon, lw: string): seq<string> {
    if Lookup(lex.person, lw) != "" then ["who" + ":" + Lookup(lex.person, lw)]
    else if Lookup(lex.animal, lw) != "" then ["animal" + ":" + Lookup(lex.animal, lw)]
    else if Lookup(lex.jurisdiction, lw) != "" then ["juris" + ":" + Lookup(lex.jurisdiction, lw)]
    else if Lookup(lex.role, lw) != "" then ["role" + ":" + Lookup(lex.role, lw)]
    else []
  }

  /** Time deixis counts only when it qualifies a time noun. */
  function WhenToken(lex: Lexicon, words: seq<string>, i: nat): seq<string>
    requires i < |words|
  {
    var lw := Folded(lex, words[i]);
    if lw in lex.deixis && i + 1 < |words| && Lower(words[i + 1]) in lex.timeNoun
    then ["when" + ":" + (lw + "-" + Lower(words[i + 1]))] else []
  }

  function TopicToken(lex: Lexicon, w: string): seq<string> {
    var topic := Folded(lex, w);
    if topic != "" && (Listed(lex.alias, Lower(w)) || topic in lex.plainTopics) then ["topic" + ":" + topic] else []
  }

  /** Every class token word `i` offers, before repeats are dropped. */
  function Offered(lex: Lexicon, words: seq<string>, i: nat): seq<string>
    requires i < |words|
  {
    WhoToken(lex, Folded(lex, words[i])) + WhenToken(lex, words, i) + TopicToken(lex, words[i])
  }

  // ---------------------------------------------------------------------------
  // What a word gives, by membership in the rows

  /** The first row of the table that holds `w` is one of the class `v`. */
  predicate HasClass(table: ClassTable, w: string, v: string) {
    exists i :: 0 <= i < |table| && IsFirstRow(table, w, i) && table[i].1 == v
  }

  predicate IsFirstRow(table: ClassTable, w: string, i: nat)
    requires i < |table|
  {
    w in table[i].0 && forall j | 0 <= j < i :: w !in table[j].0
  }

  /** The empty class stands for no class. */
  predicate Classifies(table: ClassTable, w: string, v: string) { v != "" && HasClass(table, w, v) }

  ghost predicate Silent(table: ClassTable, w: string) { forall v :: !Classifies(table, w, v) }

  /** The loop reads the word `w` as `lw`: its alias where there is one, else the word in lower case. */
  predicate ReadAs(lex: Lexicon, w: string, lw: string) {
    HasClass(lex.alias, Lower(w), lw) || (!Listed(lex.alias, Lower(w)) && lw == Lower(w))
  }

  /** `t` is made of the prefix and the class of `w`. */
  ghost predicate Yields(table: ClassTable, w: string, prefix: string, t: string) {
    exists v :: Classifies(table, w, v) && t == prefix + v
  }

  /** A person before an animal, before a jurisdiction, before a role. */
  ghost predicate WhoGives(lex: Lexicon, lw: string, t: string) {
    || Yields(lex.person, lw, "who:", t)
    || (Silent(lex.person, lw) && Yields(lex.animal, lw, "animal:", t))
    || (Silent(lex.person, lw) && Silent(lex.animal, lw) && Yields(lex.jurisdiction, lw, "juris:", t))
    || (Silent(lex.person, lw) && Silent(lex.animal, lw) && Silent(lex.jurisdiction, lw) &&
        Yields(lex.role, lw, "role:", t))
  }

  /** A word for a relative time, right before a noun for a span of time. */
  predicate WhenGives(lex: Lexicon, lw: string, words: seq<string>, i: nat, t: string)
    requires i < |words|
  {
    lw in lex.deixis && i + 1 < |words| && Lower(words[i + 1]) in lex.timeNoun &&
    t == "when:" + lw + "-" + Lower(words[i + 1])
  }

  /** Every alias, and of the other words the plain topics. */
  ghost predicate TopicGives(lex: Lexicon, w: string, t: string) {
    || Yields(lex.alias, Lower(w), "topic:", t)
    || (!Listed(lex.alias, Lower(w)) && Lower(w) in lex.plainTopics && Lower(w) != "" && t == "topic:" + Lower(w))
  }

  /** Word `i` gives the token `t`. */
  ghost predicate WordGives(lex: Lexicon, words: seq<string>, i: nat, t: string)
    requires i < |words|
  {
    || TopicGives(lex, words[i], t)
    || exists lw :: ReadAs(lex, words[i], lw) && (WhoGives(lex, lw, t) || WhenGives(lex, lw, words, i, t))
  }

  lemma {:induction false} LookupClass(table: ClassTable, w: string)
    ensures if Listed(table, w) then HasClass(table, w, Lookup(table, w)) else Lookup(table, w) == ""
  {
    if table != [] && w in table[0].0 {
      assert IsFirstRow(table, w, 0);
    } else if table != [] {
      LookupClass(table[1..], w);
      if Listed(table[1..], w) {
        var i :| 0 <= i < |table[1..]| && IsFirstRow(table[1..], w, i) && table[1..][i].1 == Lookup(table, w);
        LaterRow(table, w, i);
      }
      if Listed(table, w) {
        var i :| 0 <= i < |table| && w in table[i].0;
        assert table[1..][i - 1] == table[i];
      }
    }
  }

  lemma LaterRow(table: ClassTable, w: string, i: nat)
    requires i < |table| - 1 && w !in table[0].0 && IsFirstRow(table[1..], w, i)
    ensures IsFirstRow(table, w, i + 1) && table[i + 1] == table[1..][i]
  {
    forall j | 0 <= j < i + 1 ensures w !in table[j].0 {
      assert j == 0 || table[j] == table[1..][j - 1];
    }
  }

  lemma OneClass(table: ClassTable, w: string, v: string, v': string)
    requires HasClass(table, w, v) && HasClass(table, w, v')
    ensures v == v'
  {
    var i :| 0 <= i < |table| && IsFirstRow(table, w, i) && table[i].1 == v;
    var j :| 0 <= j < |table| && IsFirstRow(table, w, j) && table[j].1 == v';
    assert i == j;
  }

  /** What `Lookup` finds is the class, and there is no other. */
  lemma LookupExactly(table: ClassTable, w: string, v: string)
    ensures HasClass(table, w, v) <==> Listed(table, w) && Lookup(table, w) == v
    ensures Classifies(table, w, v) <==> v != "" && Lookup(table, w) == v
    ensures Silent(table, w) <==> Lookup(table, w) == ""
  {
    LookupClass(table, w);
    forall v' | HasClass(table, w, v') ensures v' == Lookup(table, w) {
      OneClass(table, w, v', Lookup(table, w));
    }
    assert Lookup(table, w) != "" ==> Classifies(table, w, Lookup(table, w));
  }

  lemma YieldsExactly(table: ClassTable, w: string, prefix: string, t: string)
    ensures Yields(table, w, prefix, t) <==> Lookup(table, w) != "" && t == prefix + Lookup(table, w)
    ensures Silent(table, w) <==> Lookup(table, w) == ""
  {
    forall v ensures Classifies(table, w, v) <==> v != "" && Lookup(table, w) == v {
      LookupExactly(table, w, v);
    }
    LookupExactly(table, w, "");
  }

  lemma WhoExactly(lex: Lexicon, lw: string, t: string)
    ensures t in WhoToken(lex, lw) <==> WhoGives(lex, lw, t)
  {
    YieldsExactly(lex.person, lw, "who:", t);
    YieldsExactly(lex.animal, lw, "animal:", t);
    YieldsExactly(lex.jurisdiction, lw, "juris:", t);
    YieldsExactly(lex.role, lw, "role:", t);
    assert "who" + ":" == "who:" && "animal" + ":" == "animal:" && "juris" + ":" == "juris:" && "role" + ":" == "role:";
  }

  lemma ReadExactly(lex: Lexicon, w: string, lw: string)
    ensures ReadAs(lex, w, lw) <==> lw == Folded(lex, w)
  {
    LookupExactly(lex.alias, Lower(w), lw);
  }

  lemma TopicExactly(lex: Lexicon, w: string, t: string)
    ensures t in TopicToken(lex, w) <==> TopicGives(lex, w, t)
  {
    YieldsExactly(lex.alias, Lower(w), "topic:", t);
    LookupClass(lex.alias, Lower(w));
    assert "topic" + ":" == "topic:";
  }

  lemma WhenExactly(lex: Lexicon, words: seq<string>, i: nat, t: string)
    requires i < |words|
    ensures t in WhenToken(lex, words, i) <==> WhenGives(lex, Folded(lex, words[i]), words, i, t)
  {
    var lw := Folded(lex, words[i]);
    if i + 1 < |words| {
      var noun := Lower(words[i + 1]);
      assert "when:" + lw + "-" + noun == "when" + ":" + (lw + "-" + noun);
    }
  }

  /** For any tables: what the program offers for a word is what the rows of the tables give. */
  lemma OfferedExactly(lex: Lexicon, words: seq<string>, i: nat, t: string)
    requires i < |words|
    ensures t in Offered(lex, words, i) <==> WordGives(lex, words, i, t)
  {
    var lw := Folded(lex, words[i]);
    WhoExactly(lex, lw, t);
    WhenExactly(lex, words, i, t);
    TopicExactly(lex, words[i], t);
    forall w ensures ReadAs(lex, words[i], w) <==> w == lw {
      ReadExactly(lex, words[i], w);
    }
  }

  const UpperLetters: string := "ABCDEFGHIJKLMNOPQRSTUVWXYZ"
  const LowerLetters: string := "abcdefghijklmnopqrstuvwxyz"

  /** A letter of the alphabet loses its case, the Kelvin sign is a k, and nothing else changes. */
  lemma LowerMeans(s: string, i: nat, k: nat)
    requires i < |s| && k < 26
    ensures s[i] == UpperLetters[k] ==> Lower(s)[i] == LowerLetters[k]
    ensures s[i] !in UpperLetters ==> Lower(s)[i] == if s[i] == '\U{212A}' then 'k' else s[i]
  {
    LettersInOrder(k);
    if 'A' <= s[i] <= 'Z' {
      LettersInOrder(s[i] as int - 'A' as int);
    }
  }

  lemma LettersInOrder(k: nat)
    requires k < 26
    ensures UpperLetters[k] as int == 'A' as int + k && LowerLetters[k] as int == 'a' as int + k
  {
  }

  // ---------------------------------------------------------------------------
  // Figures and units

  predicate Numeric(c: char) { '0' <= c <= '9' || c == '.' }

  /** As the expression for figures with units yields them: digits and a point, then a unit of another kind. */
  predicate Measured(u: Unit) {
    && (forall i | 0 <= i < |u.figure| :: Numeric(u.figure[i]))
    && (u.unit != "" ==> !Numeric(u.unit[0]))
  }

  predicate AllMeasured(units: seq<Unit>) {
    forall i | 0 <= i < |units| :: Measured(units[i])
  }

  /** The figure and the unit in lower case. */
  function Measure(u: Unit): (string, string) { (u.figure, Lower(u.unit)) }

  function Map<A, B>(f: A -> B, xs: seq<A>): (ys: seq<B>)
    ensures |ys| == |xs|
  {
    seq(|xs|, i requires 0 <= i < |xs| => f(xs[i]))
  }

  function Measures(units: seq<Unit>): seq<(string, string)> { Map(Measure, units) }

  function MeasureToken(m: (string, string)): string { "unit:" + m.0 + m.1 }

  function NumericLength(s: string): nat {
    if s == "" || !Numeric(s[0]) then 0 else 1 + NumericLength(s[1..])
  }

  lemma {:induction false} NumericLengthBounded(s: string)
    ensures NumericLength(s) <= |s|
  {
    if s != "" && Numeric(s[0]) {
      NumericLengthBounded(s[1..]);
    }
  }

  /** The measure a token was made of. */
  function TokenMeasure(t: string): (string, string) {
    NumericLengthBounded(if |t| < 5 then "" else t[5..]);
    if |t| < 5 then ("", "") else (t[5..][..NumericLength(t[5..])], t[5..][NumericLength(t[5..])..])
  }

  lemma {:induction false} NumericPrefix(figure: string, unit: string)
    requires forall i | 0 <= i < |figure| :: Numeric(figure[i])
    requires unit != "" ==> !Numeric(unit[0])
    ensures NumericLength(figure + unit) == |figure|
  {
    if figure == "" {
      assert figure + unit == unit;
    } else {
      assert (figure + unit)[1..] == figure[1..] + unit;
      NumericPrefix(figure[1..], unit);
    }
  }

  lemma MeasureReadBack(u: Unit)
    requires Measured(u)
    ensures UnitToken(u) == MeasureToken(Measure(u)) && TokenMeasure(UnitToken(u)) == Measure(u)
  {
    var unit := Lower(u.unit);
    NumericPrefix(u.figure, unit);
    assert UnitToken(u)[5..] == u.figure + unit;
    assert (u.figure + unit)[..|u.figure|] == u.figure && (u.figure + unit)[|u.figure|..] == unit;
  }

  lemma MapWithout<A, B>(f: A -> B, xs: seq<A>, j: nat)
    requires j < |xs|
    ensures multiset(xs) == multiset{xs[j]} + multiset(xs[..j] + xs[j + 1..])
    ensures multiset(Map(f, xs)) == multiset{f(xs[j])} + multiset(Map(f, xs[..j] + xs[j + 1..]))
  {
    var rest := xs[..j] + xs[j + 1..];
    var ys := Map(f, xs);
    assert xs == xs[..j] + [xs[j]] + xs[j + 1..];
    assert ys == ys[..j] + [ys[j]] + ys[j + 1..];
    assert Map(f, rest) == ys[..j] + ys[j + 1..];
  }

  lemma {:induction false} MapRearranged<A, B>(f: A -> B, xs: seq<A>, ys: seq<A>)
    requires multiset(xs) == multiset(ys)
    ensures multiset(Map(f, xs)) == multiset(Map(f, ys))
    decreases |xs|
  {
    assert |multiset(xs)| == |xs| && |multiset(ys)| == |ys|;
    if xs != [] {
      var j := Find(xs[0], ys, multiset(xs));
      var xs', ys' := xs[..0] + xs[0 + 1..], ys[..j] + ys[j + 1..];
      MapWithout(f, xs, 0);
      MapWithout(f, ys, j);
      SameRest(xs[0], multiset(xs'), multiset(ys'));
      MapRearranged(f, xs', ys');
    }
  }

  lemma Find<A>(x: A, ys: seq<A>, all: multiset<A>) returns (j: nat)
    requires x in all && all == multiset(ys)
    ensures j < |ys| && ys[j] == x
  {
    j :| 0 <= j < |ys| && ys[j] == x;
  }

  lemma SameRest<A>(x: A, a: multiset<A>, b: multiset<A>)
    requires multiset{x} + a == multiset{x} + b
    ensures a == b
  {
    assert a == multiset{x} + a - multiset{x} && b == multiset{x} + b - multiset{x};
  }

  lemma TokensAreMeasures(units: seq<Unit>)
    requires AllMeasured(units)
    ensures UnitTokens(units) == Map(MeasureToken, Measures(units))
    ensures Measures(units) == Map(TokenMeasure, UnitTokens(units))
  {
    forall i | 0 <= i < |units|
      ensures UnitTokens(units)[i] == MeasureToken(Measures(units)[i])
      ensures Measures(units)[i] == TokenMeasure(UnitTokens(units)[i])
    {
      MeasureReadBack(units[i]);
    }
  }

  /** The unit tokens of two prompts are the same exactly when their figures with units are. */
  lemma UnitTokensExactly(us: seq<Unit>, vs: seq<Unit>)
    requires AllMeasured(us) && AllMeasured(vs)
    ensures multiset(UnitTokens(us)) == multiset(UnitTokens(vs)) <==> multiset(Measures(us)) == multiset(Measures(vs))
  {
    TokensAreMeasures(us);
    TokensAreMeasures(vs);
    if multiset(Measures(us)) == multiset(Measures(vs)) {
      MapRearranged(MeasureToken, Measures(us), Measures(vs));
    }
    if multiset(UnitTokens(us)) == multiset(UnitTokens(vs)) {
      MapRearranged(TokenMeasure, UnitTokens(us), UnitTokens(vs));
    }
  }
}
