/** The tables of cmd/conscheck/proto.go at work: which prompts name a landlord, and that such a prompt never
    matches one that names none. */
module ProtoRoles {
  import opened ProtoCanon
  import opened ProtoMatch
  import opened ProtoWords

  const Landlord: string := "landlord"

  predicate Mentions(words: seq<string>, w: string) { exists i :: 0 <= i < |words| && Lower(words[i]) == w }

  lemma NoPersonIsLandlord()
    ensures !Listed(PersonClass, Landlord)
  {
    NoMinorIsLandlord(PersonClass[0].0);
    forall i | 0 < i < |PersonClass| ensures Landlord !in PersonClass[i].0 {
      assert forall w | w in PersonClass[i].0 :: w[0] != 'l';
    }
  }

  lemma NoMinorIsLandlord(minors: seq<string>)
    requires minors == PersonClass[0].0
    ensures Landlord !in minors
  {
    assert forall w | w in minors :: w[0] != 'l';
  }

  lemma NoAnimalIsLandlord()
    ensures !Listed(AnimalClass, Landlord)
  {
    assert forall i, w | 0 <= i < |AnimalClass| && w in AnimalClass[i].0 :: w[0] != 'l';
  }

  lemma NoPlaceIsLandlord()
    ensures !Listed(Jurisdiction, Landlord)
  {
    assert forall i, w | 0 <= i < |Jurisdiction| && w in Jurisdiction[i].0 :: w[0] != 'l';
  }

  lemma LandlordHasNoAlias()
    ensures !Listed(TopicAlias, Landlord)
  {
    assert forall i, w | 0 <= i < |TopicAlias| && w in TopicAlias[i].0 :: w[0] != 'l';
  }

  lemma LandlordIsARole(w: string)
    ensures HasClass(RelationRole, w, Landlord) <==> w == Landlord
  {
    assert RelationRole[0] == ([Landlord], Landlord);
    assert w == Landlord ==> IsFirstRow(RelationRole, w, 0);
    assert forall i | 0 < i < |RelationRole| :: RelationRole[i].1[0] != 'l';
  }

  lemma NoAliasIsLandlord(w: string)
    ensures !HasClass(TopicAlias, w, Landlord)
  {
    assert forall i | 0 <= i < |TopicAlias| :: TopicAlias[i].1[0] != 'l';
  }

  lemma LandlordRead(w: string)
    ensures ReadAs(Consumer, w, Landlord) <==> Lower(w) == Landlord
  {
    NoAliasIsLandlord(Lower(w));
    LandlordHasNoAlias();
  }

  lemma OtherPrefix(table: ClassTable, w: string, prefix: string, t: string)
    requires prefix != "" && t != "" && prefix[0] != t[0]
    ensures !Yields(table, w, prefix, t)
  {
  }

  lemma LandlordYielded(lw: string, t: string)
    requires t == "role:landlord"
    ensures Yields(RelationRole, lw, "role:", t) <==> lw == Landlord
  {
    LandlordIsARole(lw);
    assert t == "role:" + Landlord;
    forall v | t == "role:" + v ensures v == Landlord {
      assert v == t[5..];
    }
    assert lw == Landlord ==> Classifies(RelationRole, lw, Landlord);
  }

  lemma OnlyRoleLeft(lex: Lexicon, lw: string, t: string)
    requires t != "" && t[0] == 'r'
    requires Yields(lex.role, lw, "role:", t) ==>
               !Listed(lex.person, lw) && !Listed(lex.animal, lw) && !Listed(lex.jurisdiction, lw)
    ensures WhoGives(lex, lw, t) <==> Yields(lex.role, lw, "role:", t)
  {
    OtherPrefix(lex.person, lw, "who:", t);
    OtherPrefix(lex.animal, lw, "animal:", t);
    OtherPrefix(lex.jurisdiction, lw, "juris:", t);
  }

  lemma LandlordGivesRole(lw: string)
    ensures WhoGives(Consumer, lw, "role:landlord") <==> lw == Landlord
  {
    LandlordYielded(lw, "role:landlord");
    NoPersonIsLandlord();
    NoAnimalIsLandlord();
    NoPlaceIsLandlord();
    OnlyRoleLeft(Consumer, lw, "role:landlord");
  }

  lemma GivenAsRole(lex: Lexicon, words: seq<string>, i: nat, lw: string, t: string)
    requires i < |words| && t != "" && t[0] == 'r'
    requires forall w :: WhoGives(lex, w, t) <==> w == lw
    ensures WordGives(lex, words, i, t) <==> ReadAs(lex, words[i], lw)
  {
    OtherPrefix(lex.alias, Lower(words[i]), "topic:", t);
  }

  lemma LandlordGiven(words: seq<string>, i: nat)
    requires i < |words|
    ensures WordGives(Consumer, words, i, "role:landlord") <==> Lower(words[i]) == Landlord
  {
    LandlordRead(words[i]);
    forall lw ensures WhoGives(Consumer, lw, "role:landlord") <==> lw == Landlord {
      LandlordGivesRole(lw);
    }
    GivenAsRole(Consumer, words, i, Landlord, "role:landlord");
  }

  /** A prompt names a landlord exactly when one of its words is that word, whatever its case. */
  lemma LandlordNamed(p: Prompt)
    ensures Names(Consumer, p, "role:landlord") <==> Mentions(p.words, Landlord)
  {
    forall i | 0 <= i < |p.words|
      ensures WordGives(Consumer, p.words, i, "role:landlord") <==> Lower(p.words[i]) == Landlord
    {
      LandlordGiven(p.words, i);
    }
  }

  /** Two prompts, only one of which mentions a landlord, never match: their answers are mirror images. */
  lemma SidesNeverMatch(a: Prompt, b: Prompt)
    requires BarFree(a) && BarFree(b) && Clean(a.live) && Clean(b.live)
    requires Mentions(a.words, Landlord) && !Mentions(b.words, Landlord)
    ensures !Match(Consumer, a, b)
  {
    ConsumerLexiconBarFree();
    LandlordNamed(a);
    LandlordNamed(b);
    NamedApart(Consumer, a, b, "role:landlord");
  }

  lemma NamedApart(lex: Lexicon, a: Prompt, b: Prompt, t: string)
    requires BarFreeLexicon(lex) && BarFree(a) && BarFree(b) && Clean(a.live) && Clean(b.live)
    requires Names(lex, a, t) && !Names(lex, b, t)
    ensures !Match(lex, a, b)
  {
    MatchIsSameTokens(lex, a, b);
  }
}
