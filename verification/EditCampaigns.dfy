/** One control of the two positive-control campaigns that edit several anchors:
    scripts/w64-credential-leak-controls.py stages every edit and then writes,
    scripts/w610-public-node-discovery-controls-v9c2.py writes as it goes.

    The tests a control runs see the tree and change nothing; what they saw is the ghost result `shown`. */
module EditCampaigns {
  import opened Prelude
  import opened TextFiles

  datatype Edit = Edit(path: Path, anchor: string, replacement: string)

  /** Crashed: a file to edit does not exist. RestoreFailed: the w610 script exits with status 2. */
  datatype Outcome = Ran | AnchorFailed | Crashed | RestoreFailed

  function Touched(edits: seq<Edit>): set<Path> { set e | e in edits :: e.path }

  predicate AllPresent(files: Files, edits: seq<Edit>) { Touched(edits) <= files.Keys }

  /** Every file as it reads in text mode. */
  function TextOf(files: Files): Files { map p | p in files :: ReadText(files[p]) }

  /** `files` with the named paths replaced by their text in `texts`. */
  function Overlay(files: Files, texts: Files, paths: set<Path>): Files
    requires files.Keys <= texts.Keys
  {
    map p | p in files :: if p in paths then texts[p] else files[p]
  }

  /** All edits on text held in memory; None when an anchor does not count exactly one. */
  function ApplyEdits(view: Files, edits: seq<Edit>): (r: Option<Files>)
    requires Touched(edits) <= view.Keys
    ensures r.Some? ==> r.value.Keys == view.Keys
  {
    if edits == [] then Some(view)
    else
      var e := edits[0];
      assert e.path in Touched(edits) && Touched(edits[1..]) <= Touched(edits);
      if Count(view[e.path], e.anchor) != 1 then None
      else ApplyEdits(view[e.path := ReplaceFirst(view[e.path], e.anchor, e.replacement)], edits[1..])
  }

  /** All edits on files, each read back from disk before the next edit. */
  function EditOnDisk(view: Files, edits: seq<Edit>): (r: Option<Files>)
    requires Touched(edits) <= view.Keys
    ensures r.Some? ==> r.value.Keys == view.Keys
  {
    if edits == [] then Some(view)
    else
      var e := edits[0];
      assert e.path in Touched(edits) && Touched(edits[1..]) <= Touched(edits);
      var cur := ReadText(view[e.path]);
      if Count(cur, e.anchor) != 1 then None
      else EditOnDisk(view[e.path := ReplaceFirst(cur, e.anchor, e.replacement)], edits[1..])
  }

  class WorkTree {
    var files: Files

    constructor (files: Files)
      ensures this.files == files
    {
      this.files := files;
    }
  }

  /** The keys of a dictionary in insertion order. */
  predicate Lists(order: seq<Path>, texts: Files) {
    texts.Keys == set p | p in order
  }

  /** A dictionary that holds what `all` holds under its keys. */
  predicate Part(texts: Files, all: Files) {
    texts.Keys <= all.Keys && forall p | p in texts :: texts[p] == all[p]
  }

  method WriteAll(tree: WorkTree, order: seq<Path>, texts: Files)
    requires Lists(order, texts)
    modifies tree
    ensures tree.files == old(tree.files) + texts
  {
    for i := 0 to |order|
      invariant tree.files == old(tree.files) + map p | p in order[..i] :: texts[p]
    {
      tree.files := tree.files[order[i] := texts[order[i]]];
      assert order[..i + 1] == order[..i] + [order[i]];
    }
    assert order[..|order|] == order;
  }

  lemma TouchedNext(edits: seq<Edit>, i: nat)
    requires i < |edits|
    ensures Touched(edits[..i + 1]) == Touched(edits[..i]) + {edits[i].path}
    ensures edits[..i + 1] == edits[..i] + [edits[i]]
  {
  }

  /** The dictionaries of one control: the texts and hashes of the files in `paths` before any edit. */
  ghost predicate Remembers(start: Files, order: seq<Path>, originals: Files, hashed: Files, paths: set<Path>) {
    && originals.Keys == hashed.Keys == paths && Lists(order, originals)
    && Part(originals, TextOf(start)) && Part(hashed, start)
    && NoRepeats(order)
  }

  lemma RememberOneMore(start: Files, order: seq<Path>, originals: Files, hashed: Files, paths: set<Path>, p: Path)
    requires Remembers(start, order, originals, hashed, paths) && p in start && p !in paths
    ensures Remembers(start, order + [p], originals[p := ReadText(start[p])], hashed[p := start[p]], paths + {p})
  {
    assert forall q :: q in order + [p] <==> q in order || q == p;
  }

  // ---------------------------------------------------------------------------
  // Stage, then write

  /** Reads every file the control touches, once, before anything is written. */
  method Snapshot(tree: WorkTree, edits: seq<Edit>)
    returns (ok: bool, order: seq<Path>, befores: Files, hashed: Files)
    ensures ok <==> AllPresent(tree.files, edits)
    ensures ok ==> Remembers(tree.files, order, befores, hashed, Touched(edits))
  {
    order, befores, hashed := [], map[], map[];
    assert Touched(edits[..0]) == {};
    for i := 0 to |edits|
      invariant Remembers(tree.files, order, befores, hashed, Touched(edits[..i]))
    {
      var path := edits[i].path;
      TouchedNext(edits, i);
      if path !in befores {
        if path !in tree.files {
          assert path in Touched(edits);
          ok := false;
          return;
        }
        RememberOneMore(tree.files, order, befores, hashed, Touched(edits[..i]), path);
        befores := befores[path := ReadText(tree.files[path])];
        hashed := hashed[path := tree.files[path]];
        order := order + [path];
      } else {
        assert Touched(edits[..i + 1]) == Touched(edits[..i]);
      }
    }
    assert edits[..|edits|] == edits;
    ok := true;
  }

  /** Edits the texts in memory, cumulatively. */
  method Stage(befores: Files, edits: seq<Edit>) returns (staged: Option<Files>)
    requires Touched(edits) <= befores.Keys
    ensures staged == ApplyEdits(befores, edits)
  {
    var texts := befores;
    for i := 0 to |edits|
      invariant texts.Keys == befores.Keys
      invariant Touched(edits[i..]) <= texts.Keys
      invariant ApplyEdits(texts, edits[i..]) == ApplyEdits(befores, edits)
    {
      var e := edits[i];
      assert edits[i..][0] == e && edits[i..][1..] == edits[i + 1..];
      assert e.path in Touched(edits[i..]) && Touched(edits[i + 1..]) <= Touched(edits[i..]);
      if Count(texts[e.path], e.anchor) != 1 {
        return None;
      }
      texts := texts[e.path := ReplaceFirst(texts[e.path], e.anchor, e.replacement)];
    }
    assert edits[|edits|..] == [];
    staged := Some(texts);
  }

  /** Files no edit touches do not matter. */
  lemma {:induction false} ApplyEditsPart(part: Files, all: Files, edits: seq<Edit>)
    requires Touched(edits) <= part.Keys && Part(part, all)
    ensures ApplyEdits(part, edits).Some? <==> ApplyEdits(all, edits).Some?
    ensures ApplyEdits(part, edits).Some? ==> Part(ApplyEdits(part, edits).value, ApplyEdits(all, edits).value)
  {
    if edits != [] {
      var e := edits[0];
      assert e.path in Touched(edits) && Touched(edits[1..]) <= Touched(edits);
      if Count(part[e.path], e.anchor) == 1 {
        var text := ReplaceFirst(part[e.path], e.anchor, e.replacement);
        ApplyEditsPart(part[e.path := text], all[e.path := text], edits[1..]);
      }
    }
  }

  /** Compares every file with its hash from before. */
  method AnyChanged(tree: WorkTree, order: seq<Path>, hashed: Files) returns (changed: bool)
    requires hashed.Keys <= tree.files.Keys && Lists(order, hashed)
    ensures changed <==> exists p :: p in hashed && tree.files[p] != hashed[p]
  {
    changed := false;
    for i := 0 to |order|
      invariant changed <==> exists p :: p in order[..i] && tree.files[p] != hashed[p]
    {
      if tree.files[order[i]] != hashed[order[i]] {
        changed := true;
      }
      assert order[..i + 1] == order[..i] + [order[i]];
    }
    assert order[..|order|] == order;
  }

  lemma WritesAreOverlay(start: Files, texts: Files, all: Files)
    requires Part(texts, all) && all.Keys == start.Keys
    ensures start + texts == Overlay(start, all, texts.Keys)
  {
  }

  lemma SecondWrite(start: Files, texts: Files, others: Files)
    requires texts.Keys == others.Keys
    ensures (start + others) + texts == start + texts
  {
  }

  lemma ChangedOnlyThere(start: Files, texts: Files, hashed: Files)
    requires texts.Keys == hashed.Keys && Part(hashed, start)
    ensures start + texts != start <==> exists p :: p in hashed && (start + texts)[p] != hashed[p]
  {
  }

  method StageThenWrite(tree: WorkTree, edits: seq<Edit>)
    returns (outcome: Outcome, restoreFailed: bool, ghost shown: Files)
    modifies tree
    ensures outcome.Crashed? <==> !AllPresent(old(tree.files), edits)
    ensures AllPresent(old(tree.files), edits) ==>
              && outcome == (if ApplyEdits(TextOf(old(tree.files)), edits).Some? then Ran else AnchorFailed)
              && (outcome.Ran? ==>
                    shown == Overlay(old(tree.files), ApplyEdits(TextOf(old(tree.files)), edits).value, Touched(edits)))
              && (outcome.Ran? ==> tree.files == Overlay(old(tree.files), TextOf(old(tree.files)), Touched(edits)))
    ensures !outcome.Ran? ==> tree.files == old(tree.files)
    ensures restoreFailed <==> tree.files != old(tree.files)
  {
    ghost var start := tree.files;
    shown := tree.files;
    var ok, order, befores, hashed := Snapshot(tree, edits);
    if !ok {
      return Crashed, false, shown;
    }
    var staged := Stage(befores, edits);
    ApplyEditsPart(befores, TextOf(start), edits);
    if staged.None? {
      return AnchorFailed, false, shown;
    }
    WritesAreOverlay(start, staged.value, ApplyEdits(TextOf(start), edits).value);
    WritesAreOverlay(start, befores, TextOf(start));
    WriteAll(tree, order, staged.value);
    shown := tree.files;
    WriteAll(tree, order, befores);
    SecondWrite(start, befores, staged.value);
    ChangedOnlyThere(start, befores, hashed);
    restoreFailed := AnyChanged(tree, order, hashed);
    outcome := Ran;
  }

  // ---------------------------------------------------------------------------
  // Write as you go

  lemma {:induction false} EditOnDiskSnoc(view: Files, edits: seq<Edit>, e: Edit)
    requires Touched(edits) <= view.Keys && e.path in view
    ensures Touched(edits + [e]) <= view.Keys
    ensures EditOnDisk(view, edits + [e]) ==
            match EditOnDisk(view, edits) {
              case None => None
              case Some(v) =>
                var cur := ReadText(v[e.path]);
                if Count(cur, e.anchor) != 1 then None
                else Some(v[e.path := ReplaceFirst(cur, e.anchor, e.replacement)])
            }
  {
    assert Touched(edits + [e]) == Touched(edits) + {e.path};
    if edits == [] {
      assert edits + [e] == [e] && [e][1..] == [];
    } else {
      var d := edits[0];
      assert d.path in Touched(edits) && Touched(edits[1..]) <= Touched(edits);
      assert (edits + [e])[1..] == edits[1..] + [e];
      var cur := ReadText(view[d.path]);
      if Count(cur, d.anchor) == 1 {
        EditOnDiskSnoc(view[d.path := ReplaceFirst(cur, d.anchor, d.replacement)], edits[1..], e);
      }
    }
  }

  /** `now` is what `edits` leave on disk, all of them having applied. */
  ghost predicate Edited(start: Files, now: Files, edits: seq<Edit>) {
    && AllPresent(start, edits)
    && EditOnDisk(TextOf(start), edits).Some?
    && now == Overlay(start, EditOnDisk(TextOf(start), edits).value, Touched(edits))
  }

  /** Some anchor of `edits` does not count one when it is reached. */
  ghost predicate AnchorFails(start: Files, edits: seq<Edit>) {
    AllPresent(start, edits) && EditOnDisk(TextOf(start), edits).None?
  }

  /** A file no edit has touched still reads as its text. */
  lemma {:induction false} UntouchedText(view: Files, edits: seq<Edit>, p: Path)
    requires Touched(edits) <= view.Keys && p in view && p !in Touched(edits)
    requires EditOnDisk(view, edits).Some?
    ensures EditOnDisk(view, edits).value[p] == view[p]
  {
    if edits != [] {
      var e := edits[0];
      assert e.path in Touched(edits) && Touched(edits[1..]) <= Touched(edits);
      var cur := ReadText(view[e.path]);
      UntouchedText(view[e.path := ReplaceFirst(cur, e.anchor, e.replacement)], edits[1..], p);
    }
  }

  lemma ReadsAsText(start: Files, now: Files, edits: seq<Edit>, p: Path)
    requires Edited(start, now, edits) && p in start
    ensures ReadText(now[p]) == ReadText(EditOnDisk(TextOf(start), edits).value[p])
  {
    if p !in Touched(edits) {
      UntouchedText(TextOf(start), edits, p);
      ReadTextExactly(start[p]);
    }
  }

  lemma OverlayStep(start: Files, texts: Files, paths: set<Path>, p: Path, text: string)
    requires start.Keys <= texts.Keys && p in start
    ensures Overlay(start, texts, paths)[p := text] == Overlay(start, texts[p := text], paths + {p})
  {
  }

  /** One edit on disk is one more step of EditOnDisk. */
  lemma NextEdit(start: Files, now: Files, edits: seq<Edit>, e: Edit)
    requires Edited(start, now, edits) && e.path in start
    ensures var cur := ReadText(now[e.path]);
            if Count(cur, e.anchor) != 1 then AnchorFails(start, edits + [e])
            else Edited(start, now[e.path := ReplaceFirst(cur, e.anchor, e.replacement)], edits + [e])
  {
    var v := EditOnDisk(TextOf(start), edits).value;
    var cur := ReadText(now[e.path]);
    assert Touched(edits + [e]) == Touched(edits) + {e.path};
    EditOnDiskSnoc(TextOf(start), edits, e);
    ReadsAsText(start, now, edits, e.path);
    OverlayStep(start, v, Touched(edits), e.path, ReplaceFirst(cur, e.anchor, e.replacement));
  }

  /** One turn of the loop: the first `i` edits are already written. */
  method EditOne(tree: WorkTree, edits: seq<Edit>, i: nat, order: seq<Path>, originals: Files, hashed: Files,
                 ghost start: Files)
    returns (outcome: Outcome, order': seq<Path>, originals': Files, hashed': Files)
    requires i < |edits| && Edited(start, tree.files, edits[..i])
    requires Remembers(start, order, originals, hashed, Touched(edits[..i]))
    modifies tree
    ensures outcome in {Ran, AnchorFailed, Crashed}
    ensures outcome.Crashed? ==>
              edits[i].path !in start && order' == order && originals' == originals && hashed' == hashed
    ensures !outcome.Crashed? ==> Remembers(start, order', originals', hashed', Touched(edits[..i + 1]))
    ensures outcome.AnchorFailed? ==> AnchorFails(start, edits[..i + 1])
    ensures if outcome.Ran? then Edited(start, tree.files, edits[..i + 1]) else tree.files == old(tree.files)
  {
    var e := edits[i];
    ghost var done := edits[..i];
    TouchedNext(edits, i);
    order', originals', hashed' := order, originals, hashed;
    if e.path !in originals {
      if e.path !in tree.files {
        outcome := Crashed;
        return;
      }
      RememberOneMore(start, order, originals, hashed, Touched(done), e.path);
      originals' := originals[e.path := ReadText(tree.files[e.path])];
      hashed' := hashed[e.path := tree.files[e.path]];
      order' := order + [e.path];
    } else {
      assert Touched(done) + {e.path} == Touched(done);
    }
    NextEdit(start, tree.files, done, e);
    var cur := ReadText(tree.files[e.path]);
    if Count(cur, e.anchor) != 1 {
      outcome := AnchorFailed;
      return;
    }
    tree.files := tree.files[e.path := ReplaceFirst(cur, e.anchor, e.replacement)];
    outcome := Ran;
  }

  method EditInPlace(tree: WorkTree, edits: seq<Edit>)
    returns (outcome: Outcome, order: seq<Path>, originals: Files, hashed: Files, ghost reached: nat)
    modifies tree
    ensures outcome in {Ran, AnchorFailed, Crashed} && reached <= |edits| && (outcome.Ran? <==> reached == |edits|)
    ensures Edited(old(tree.files), tree.files, edits[..reached])
    ensures outcome.Crashed? ==> edits[reached].path !in old(tree.files)
    ensures outcome.AnchorFailed? ==> AnchorFails(old(tree.files), edits[..reached + 1])
    ensures Remembers(old(tree.files), order, originals, hashed,
                      Touched(edits[..if outcome.AnchorFailed? then reached + 1 else reached]))
  {
    ghost var start := tree.files;
    order, originals, hashed := [], map[], map[];
    assert Touched(edits[..0]) == {} && edits[..0] == [];
    for i := 0 to |edits|
      invariant Edited(start, tree.files, edits[..i])
      invariant Remembers(start, order, originals, hashed, Touched(edits[..i]))
    {
      outcome, order, originals, hashed := EditOne(tree, edits, i, order, originals, hashed, start);
      if outcome != Ran {
        reached := i;
        return;
      }
    }
    outcome, reached := Ran, |edits|;
  }

  /** Writing the saved texts in order, stopping after the first file that does not hash as before. */
  function RestoreInOrder(files: Files, order: seq<Path>, texts: Files, before: Files): Files
    requires forall p | p in order :: p in texts && p in before
    decreases order
  {
    if order == [] then files
    else
      var p := order[0];
      if texts[p] != before[p] then files[p := texts[p]]
      else RestoreInOrder(files[p := texts[p]], order[1..], texts, before)
  }

  method RestoreOrExit(tree: WorkTree, order: seq<Path>, originals: Files, hashed: Files) returns (ok: bool)
    requires Lists(order, originals) && Lists(order, hashed)
    modifies tree
    ensures tree.files == RestoreInOrder(old(tree.files), order, originals, hashed)
    ensures ok <==> originals == hashed
  {
    for i := 0 to |order|
      invariant RestoreInOrder(tree.files, order[i..], originals, hashed) ==
                RestoreInOrder(old(tree.files), order, originals, hashed)
      invariant forall p | p in order[..i] :: originals[p] == hashed[p]
    {
      var p := order[i];
      assert order[i..][0] == p && order[i..][1..] == order[i + 1..];
      tree.files := tree.files[p := originals[p]];
      if tree.files[p] != hashed[p] {
        return false;
      }
      assert order[..i + 1] == order[..i] + [p];
    }
    assert order[..|order|] == order && order[|order|..] == [];
    ok := true;
  }

  method WriteAsYouGo(tree: WorkTree, edits: seq<Edit>)
    returns (outcome: Outcome, ghost shown: Files, ghost reached: nat, ghost order: seq<Path>)
    modifies tree
    ensures reached <= |edits| && (reached == |edits| <==> outcome.Ran? || outcome.RestoreFailed?)
    ensures Edited(old(tree.files), shown, edits[..reached])
    ensures outcome.Crashed? ==> edits[reached].path !in old(tree.files) && tree.files == shown
    ensures outcome.AnchorFailed? ==>
              AnchorFails(old(tree.files), edits[..reached + 1]) &&
              tree.files == Overlay(old(tree.files), TextOf(old(tree.files)), Touched(edits[..reached + 1]))
    ensures reached == |edits| ==>
              AllPresent(old(tree.files), edits) && (forall p :: p in order <==> p in Touched(edits)) &&
              NoRepeats(order) &&
              tree.files == RestoreInOrder(shown, order, TextOf(old(tree.files)), old(tree.files))
    ensures outcome.Ran? ==> tree.files == old(tree.files)
    ensures reached == |edits| ==>
              (outcome.Ran? <==> forall p | p in Touched(edits) :: ReadText(old(tree.files)[p]) == old(tree.files)[p])
  {
    ghost var start := tree.files;
    var r, paths, originals, hashed;
    r, paths, originals, hashed, reached := EditInPlace(tree, edits);
    shown, order := tree.files, paths;
    if r == Crashed {
      return r, shown, reached, order;
    }
    if r == AnchorFailed {
      TouchedNext(edits, reached);
      RestoredOverlay(start, shown, edits[..reached], originals);
      WriteAll(tree, paths, originals);
      return r, shown, reached, order;
    }
    assert edits[..reached] == edits;
    RestoreKnown(start, shown, edits, paths, originals, hashed);
    var ok := RestoreOrExit(tree, paths, originals, hashed);
    outcome := if ok then Ran else RestoreFailed;
  }

  lemma RestoreKnown(start: Files, shown: Files, edits: seq<Edit>, order: seq<Path>, originals: Files, hashed: Files)
    requires Edited(start, shown, edits) && Remembers(start, order, originals, hashed, Touched(edits))
    ensures forall p :: p in order <==> p in Touched(edits)
    ensures Lists(order, hashed)
    ensures RestoreInOrder(shown, order, originals, hashed) == RestoreInOrder(shown, order, TextOf(start), start)
    ensures originals == hashed ==> RestoreInOrder(shown, order, originals, hashed) == start
    ensures originals == hashed <==> forall p | p in Touched(edits) :: ReadText(start[p]) == start[p]
  {
    SameDictionaries(shown, order, originals, hashed, TextOf(start), start);
    if originals == hashed {
      AllRestored(start, shown, edits, order, originals);
    }
  }

  lemma AllRestored(start: Files, shown: Files, edits: seq<Edit>, order: seq<Path>, originals: Files)
    requires Edited(start, shown, edits) && Lists(order, originals) && originals.Keys == Touched(edits)
    requires Part(originals, TextOf(start)) && Part(originals, start)
    ensures RestoreInOrder(shown, order, originals, originals) == start
  {
    RestoreListed(shown, order, originals);
    RestoredOverlay(start, shown, edits, originals);
  }

  lemma RestoreListed(files: Files, order: seq<Path>, texts: Files)
    requires Lists(order, texts)
    ensures RestoreInOrder(files, order, texts, texts) == files + texts
  {
    RestoreAll(files, order, texts, texts);
    assert (map p | p in order :: texts[p]) == texts;
  }

  lemma RestoredOverlay(start: Files, now: Files, edits: seq<Edit>, originals: Files)
    requires Edited(start, now, edits) && Part(originals, TextOf(start)) && Touched(edits) <= originals.Keys
    ensures now + originals == Overlay(start, TextOf(start), originals.Keys)
    ensures (forall p | p in originals :: originals[p] == start[p]) ==> now + originals == start
  {
    EditedOnlyThere(start, now, edits);
    PutBack(start, now, originals);
    WritesOver(start, now, TextOf(start), originals);
  }

  lemma EditedOnlyThere(start: Files, now: Files, edits: seq<Edit>)
    requires Edited(start, now, edits)
    ensures now.Keys == start.Keys && forall p | p in start && p !in Touched(edits) :: now[p] == start[p]
  {
  }

  lemma WritesOver(start: Files, now: Files, texts: Files, originals: Files)
    requires now.Keys == start.Keys == texts.Keys && Part(originals, texts)
    requires forall p | p in start && p !in originals :: now[p] == start[p]
    ensures now + originals == Overlay(start, texts, originals.Keys)
  {
  }

  lemma PutBack(start: Files, now: Files, originals: Files)
    requires now.Keys == start.Keys && originals.Keys <= start.Keys
    requires forall p | p in start && p !in originals :: now[p] == start[p]
    ensures (forall p | p in originals :: originals[p] == start[p]) ==> now + originals == start
  {
  }

  lemma {:induction false} SameDictionaries(files: Files, order: seq<Path>, texts: Files, hashed: Files,
                                             texts': Files, before: Files)
    requires forall p | p in order :: p in texts && p in hashed && p in texts' && p in before
    requires forall p | p in order :: texts[p] == texts'[p] && hashed[p] == before[p]
    ensures RestoreInOrder(files, order, texts, hashed) == RestoreInOrder(files, order, texts', before)
    decreases order
  {
    if order != [] {
      SameDictionaries(files[order[0] := texts[order[0]]], order[1..], texts, hashed, texts', before);
    }
  }

  lemma {:induction false} RestoreAll(files: Files, order: seq<Path>, texts: Files, before: Files)
    requires forall p | p in order :: p in texts && p in before && texts[p] == before[p]
    ensures RestoreInOrder(files, order, texts, before) == files + map p | p in order :: texts[p]
    decreases order
  {
    if order != [] {
      var p := order[0];
      RestoreAll(files[p := texts[p]], order[1..], texts, before);
      assert forall q :: q in order <==> q == p || q in order[1..];
    }
  }

  // ---------------------------------------------------------------------------
  // The two campaigns compared

  /** A carriage return is only written by the last edit of a file. */
  predicate ReturnsComeLast(edits: seq<Edit>) {
    forall i, j | 0 <= i < j < |edits| && edits[i].path == edits[j].path :: '\r' !in edits[i].replacement
  }

  function Returns(s: string): nat { multiset(s)['\r'] }

  lemma {:induction false} ReplaceKeepsRest(s: string, anchor: string, replacement: string)
    requires Count(s, anchor) > 0
    ensures multiset(ReplaceFirst(s, anchor, replacement)) + multiset(anchor) == multiset(s) + multiset(replacement)
    ensures forall c | c in anchor :: c in s
    decreases |s|
  {
    if anchor <= s {
      assert s == anchor + s[|anchor|..];
    } else {
      CountInTail(s, anchor);
      ReplaceKeepsRest(s[1..], anchor, replacement);
      var tail := ReplaceFirst(s[1..], anchor, replacement);
      assert s == [s[0]] + s[1..];
      assert ReplaceFirst(s, anchor, replacement) == [s[0]] + tail;
      var head := multiset([s[0]]);
      assert multiset(s) + multiset(replacement) == head + (multiset(s[1..]) + multiset(replacement));
      assert multiset([s[0]] + tail) + multiset(anchor) == head + (multiset(tail) + multiset(anchor));
    }
  }

  /** Where the anchor is found, the carriage returns are those of the text and of the replacement. */
  lemma ReturnsAfterReplace(s: string, anchor: string, replacement: string)
    requires Count(s, anchor) > 0 && '\r' !in anchor
    ensures Returns(ReplaceFirst(s, anchor, replacement)) == Returns(s) + Returns(replacement)
  {
    ReplaceKeepsRest(s, anchor, replacement);
    var replaced := ReplaceFirst(s, anchor, replacement);
    assert (multiset(replaced) + multiset(anchor))['\r'] == Returns(replaced) + Returns(anchor);
    assert (multiset(s) + multiset(replacement))['\r'] == Returns(s) + Returns(replacement);
  }

  /** A text with more returns in memory than on disk keeps them: no anchor can name them on disk. */
  lemma {:induction false} NeverMeetAgain(staged: Files, disk: Files, edits: seq<Edit>, p: Path)
    requires Touched(edits) <= staged.Keys && Touched(edits) <= disk.Keys && p in staged && p in disk
    requires ApplyEdits(staged, edits).Some? && EditOnDisk(disk, edits).Some?
    requires Returns(staged[p]) > Returns(disk[p])
    ensures Returns(ApplyEdits(staged, edits).value[p]) > Returns(EditOnDisk(disk, edits).value[p])
  {
    if edits != [] {
      var e := edits[0];
      assert e.path in Touched(edits) && Touched(edits[1..]) <= Touched(edits);
      var text, cur := staged[e.path], ReadText(disk[e.path]);
      OneEditOnBoth(text, disk[e.path], e);
      NeverMeetAgain(staged[e.path := ReplaceFirst(text, e.anchor, e.replacement)],
                     disk[e.path := ReplaceFirst(cur, e.anchor, e.replacement)], edits[1..], p);
    }
  }

  lemma OneEditOnBoth(staged: string, disk: string, e: Edit)
    requires Count(staged, e.anchor) == 1 && Count(ReadText(disk), e.anchor) == 1
    ensures Returns(ReplaceFirst(staged, e.anchor, e.replacement)) == Returns(staged) + Returns(e.replacement)
    ensures Returns(ReplaceFirst(ReadText(disk), e.anchor, e.replacement)) == Returns(e.replacement)
  {
    ReadTextHasNoReturn(disk);
    ReplaceKeepsRest(ReadText(disk), e.anchor, e.replacement);
    ReturnsAfterReplace(staged, e.anchor, e.replacement);
    ReturnsAfterReplace(ReadText(disk), e.anchor, e.replacement);
  }

  predicate ReadClean(view: Files, edits: seq<Edit>)
    requires Touched(edits) <= view.Keys
  {
    forall i | 0 <= i < |edits| :: '\r' !in ViewOf(view, edits, i)
  }

  function ViewOf(view: Files, edits: seq<Edit>, i: nat): string
    requires Touched(edits) <= view.Keys && i < |edits|
  {
    assert edits[i].path in Touched(edits);
    view[edits[i].path]
  }

  /** Reading back from disk changes nothing while only last edits write carriage returns. */
  lemma {:induction false} OnDiskAsInMemory(view: Files, edits: seq<Edit>)
    requires Touched(edits) <= view.Keys && ReadClean(view, edits) && ReturnsComeLast(edits)
    ensures EditOnDisk(view, edits) == ApplyEdits(view, edits)
  {
    if edits != [] {
      var e, rest := edits[0], edits[1..];
      assert e.path in Touched(edits) && Touched(rest) <= Touched(edits);
      assert ViewOf(view, edits, 0) == view[e.path];
      ReadTextExactly(view[e.path]);
      if Count(view[e.path], e.anchor) == 1 {
        CleanAfterFirst(view, edits);
        OnDiskAsInMemory(view[e.path := ReplaceFirst(view[e.path], e.anchor, e.replacement)], rest);
      }
    }
  }

  lemma CleanAfterFirst(view: Files, edits: seq<Edit>)
    requires Touched(edits) <= view.Keys && edits != [] && ReadClean(view, edits) && ReturnsComeLast(edits)
    requires Touched([edits[0]]) <= view.Keys && Touched(edits[1..]) <= view.Keys
    requires edits[0].path in view && Count(view[edits[0].path], edits[0].anchor) == 1
    ensures var e := edits[0];
            ReadClean(view[e.path := ReplaceFirst(view[e.path], e.anchor, e.replacement)], edits[1..])
            && ReturnsComeLast(edits[1..])
  {
    var e, rest := edits[0], edits[1..];
    assert forall i | 0 <= i < |rest| :: rest[i] == edits[i + 1];
    var after := view[e.path := ReplaceFirst(view[e.path], e.anchor, e.replacement)];
    ReplaceKeepsRest(view[e.path], e.anchor, e.replacement);
    forall i | 0 <= i < |rest| ensures '\r' !in ViewOf(after, rest, i) {
      assert '\r' !in ViewOf(view, edits, i + 1) && '\r' !in ViewOf(view, edits, 0);
      if rest[i].path == e.path {
        assert '\r' !in e.replacement;
        assert '\r' !in multiset(view[e.path]) + multiset(e.replacement);
      }
    }
  }

  /** ... and only then. */
  lemma {:induction false} OnDiskOnlyThen(view: Files, edits: seq<Edit>)
    requires Touched(edits) <= view.Keys && ApplyEdits(view, edits).Some?
    requires EditOnDisk(view, edits) == ApplyEdits(view, edits)
    ensures ReadClean(view, edits) && ReturnsComeLast(edits)
  {
    if edits != [] {
      var e, rest := edits[0], edits[1..];
      assert e.path in Touched(edits) && Touched(rest) <= Touched(edits);
      var text, cur := view[e.path], ReadText(view[e.path]);
      OneEditOnBoth(text, text, e);
      var staged := view[e.path := ReplaceFirst(text, e.anchor, e.replacement)];
      if Returns(text) > 0 {
        NeverMeetAgain(staged, view[e.path := ReplaceFirst(cur, e.anchor, e.replacement)], rest, e.path);
        assert false;
      }
      ReadTextExactly(text);
      OnDiskOnlyThen(staged, rest);
      FirstIsClean(view, edits, staged);
    }
  }

  lemma FirstIsClean(view: Files, edits: seq<Edit>, staged: Files)
    requires Touched(edits) <= view.Keys && edits != [] && Touched(edits[1..]) <= view.Keys
    requires edits[0].path in view && '\r' !in view[edits[0].path]
    requires staged.Keys == view.Keys && forall p | p in view && p != edits[0].path :: staged[p] == view[p]
    requires Returns(staged[edits[0].path]) == Returns(edits[0].replacement)
    requires ReadClean(staged, edits[1..]) && ReturnsComeLast(edits[1..])
    ensures ReadClean(view, edits) && ReturnsComeLast(edits)
  {
    var e, rest := edits[0], edits[1..];
    assert forall i | 0 <= i < |rest| :: rest[i] == edits[i + 1];
    forall i | 0 <= i < |edits| ensures '\r' !in ViewOf(view, edits, i) {
      assert i > 0 ==> '\r' !in ViewOf(staged, rest, i - 1);
    }
    forall i, j | 0 <= i < j < |edits| && edits[i].path == edits[j].path ensures '\r' !in edits[i].replacement {
      assert '\r' !in ViewOf(staged, rest, j - 1);
      if i > 0 {
        assert rest[i - 1].path == rest[j - 1].path;
      } else {
        assert Returns(staged[e.path]) == 0;
      }
    }
  }

  lemma {:induction false} UntouchedInMemory(view: Files, edits: seq<Edit>, p: Path)
    requires Touched(edits) <= view.Keys && p in view && p !in Touched(edits)
    requires ApplyEdits(view, edits).Some?
    ensures ApplyEdits(view, edits).value[p] == view[p]
  {
    if edits != [] {
      var e := edits[0];
      assert e.path in Touched(edits) && Touched(edits[1..]) <= Touched(edits);
      UntouchedInMemory(view[e.path := ReplaceFirst(view[e.path], e.anchor, e.replacement)], edits[1..], p);
    }
  }

  /** When both campaigns apply an edit list, they show the tests the same tree exactly when a carriage
      return is only ever written by the last edit of its file, however many edits share a file. */
  lemma SameTreeShown(start: Files, edits: seq<Edit>, shown64: Files, shown610: Files)
    requires AllPresent(start, edits)
    requires ApplyEdits(TextOf(start), edits).Some?
    requires shown64 == Overlay(start, ApplyEdits(TextOf(start), edits).value, Touched(edits))
    requires Edited(start, shown610, edits)
    ensures shown64 == shown610 <==> ReturnsComeLast(edits)
  {
    TextReadsClean(start, edits);
    if ReturnsComeLast(edits) {
      OnDiskAsInMemory(TextOf(start), edits);
    }
    if shown64 == shown610 {
      SameShownSameViews(start, edits, shown64);
      OnDiskOnlyThen(TextOf(start), edits);
    }
  }

  lemma SameShownSameViews(start: Files, edits: seq<Edit>, shown: Files)
    requires AllPresent(start, edits)
    requires ApplyEdits(TextOf(start), edits).Some?
    requires shown == Overlay(start, ApplyEdits(TextOf(start), edits).value, Touched(edits))
    requires Edited(start, shown, edits)
    ensures EditOnDisk(TextOf(start), edits) == ApplyEdits(TextOf(start), edits)
  {
    var view := TextOf(start);
    var inMemory, onDisk := ApplyEdits(view, edits).value, EditOnDisk(view, edits).value;
    forall p | p in view ensures inMemory[p] == onDisk[p] {
      if p in Touched(edits) {
        assert shown[p] == inMemory[p];
      } else {
        UntouchedInMemory(view, edits, p);
        UntouchedText(view, edits, p);
      }
    }
    assert inMemory == onDisk;
  }

  /** Then they also fail on the same edit lists. */
  lemma SameAnchorsFail(start: Files, edits: seq<Edit>)
    requires AllPresent(start, edits) && ReturnsComeLast(edits)
    ensures AnchorFails(start, edits) <==> ApplyEdits(TextOf(start), edits).None?
  {
    TextReadsClean(start, edits);
    OnDiskAsInMemory(TextOf(start), edits);
  }

  lemma TextReadsClean(start: Files, edits: seq<Edit>)
    requires AllPresent(start, edits)
    ensures ReadClean(TextOf(start), edits)
  {
    forall i | 0 <= i < |edits| ensures '\r' !in ViewOf(TextOf(start), edits, i) {
      assert edits[i].path in Touched(edits);
      ReadTextHasNoReturn(start[edits[i].path]);
    }
  }

  /** A replacement with a carriage return: staging keeps it, writing and reading back turns it into a
      newline, and the two campaigns show different trees. */
  lemma ReturnsInReplacementsMatter(p: Path, files: Files, edits: seq<Edit>)
    requires files == map[p := ['a', 'b']] && edits == [Edit(p, ['a'], ['\r']), Edit(p, ['b'], ['c'])]
    ensures AllPresent(files, edits)
    ensures ApplyEdits(TextOf(files), edits) == Some(map[p := ['\r', 'c']])
    ensures EditOnDisk(TextOf(files), edits) == Some(map[p := ['\n', 'c']])
  {
    var second := edits[1];
    assert Touched(edits) == {p} && edits[1..] == [second];
    ReadTextExactly(['a', 'b']);
    assert TextOf(files) == files;
    PairEdit('a', 'b', '\r');
    SecondOfPair(p, ['\r', 'b'], second);
    assert files[p := ReplaceFirst(['a', 'b'], ['a'], ['\r'])] == map[p := ['\r', 'b']];
  }

  lemma SecondOfPair(p: Path, text: string, second: Edit)
    requires text == ['\r', 'b'] && second == Edit(p, ['b'], ['c'])
    ensures ApplyEdits(map[p := text], [second]) == Some(map[p := ['\r', 'c']])
    ensures EditOnDisk(map[p := text], [second]) == Some(map[p := ['\n', 'c']])
  {
    assert Touched([second]) == {p} && [second][1..] == [];
    PairEdit('\r', 'b', 'c');
    PairEdit('\n', 'b', 'c');
    ReadReturnPair();
    var view := map[p := text];
    assert view[p := ReplaceFirst(text, ['b'], ['c'])] == map[p := ['\r', 'c']];
    assert view[p := ReplaceFirst(['\n', 'b'], ['b'], ['c'])] == map[p := ['\n', 'c']];
  }

  lemma ReadReturnPair()
    ensures ReadText(['\r', 'b']) == ['\n', 'b']
  {
  }

  lemma OneCharPrefix(c: char, s: string)
    ensures [c] <= s <==> s != "" && s[0] == c
  {
  }

  /** Each letter of a two-letter text counts once, and replacing it replaces that letter. */
  lemma PairEdit(c: char, d: char, x: char)
    requires c != d
    ensures Count([c, d], [c]) == 1 && Count([c, d], [d]) == 1
    ensures ReplaceFirst([c, d], [c], [x]) == [x, d] && ReplaceFirst([c, d], [d], [x]) == [c, x]
  {
    var s := [c, d];
    assert s[1..] == [d] && [d][1..] == [];
    OneCharPrefix(d, s);
    OneCharPrefix(c, [d]);
    assert Count([d], [c]) == 0 && Count([d], [d]) == 1;
    assert ReplaceFirst([d], [d], [x]) == [x];
  }

  /** Putting the texts back restores the tree exactly when no touched file holds a carriage return; then
      the staged campaign leaves every file equal to its original, and so does the other. */
  lemma RestoredExactly(start: Files, edits: seq<Edit>)
    requires AllPresent(start, edits)
    ensures Overlay(start, TextOf(start), Touched(edits)) == start <==>
            forall p | p in Touched(edits) :: '\r' !in start[p]
  {
    var back := Overlay(start, TextOf(start), Touched(edits));
    forall p | p in Touched(edits) ensures back[p] == start[p] <==> '\r' !in start[p] {
      ReadTextExactly(start[p]);
    }
    if forall p | p in Touched(edits) :: '\r' !in start[p] {
      assert forall p | p in start :: back[p] == start[p];
      assert back.Keys == start.Keys;
    }
  }

  /** The write-as-you-go campaign stops restoring at the first file that held a carriage return: the files up
      to and including that one are put back as text, and every file later in its order keeps the mutated text
      it was shown with. */
  lemma {:induction false} LaterFilesStayMutated(shown: Files, order: seq<Path>, texts: Files, before: Files,
                                                  k: nat, j: nat)
    requires k < |order| && j < |order| && forall p | p in order :: p in texts && p in before && p in shown
    requires NoRepeats(order)
    requires texts[order[k]] != before[order[k]]
    requires forall i | 0 <= i < k :: texts[order[i]] == before[order[i]]
    ensures order[j] in RestoreInOrder(shown, order, texts, before)
    ensures RestoreInOrder(shown, order, texts, before)[order[j]] ==
            if j <= k then texts[order[j]] else shown[order[j]]
  {
    var p := order[0];
    if k > 0 {
      var tail := order[1..];
      assert forall i | 0 <= i < |tail| :: tail[i] == order[i + 1];
      if j > 0 {
        LaterFilesStayMutated(shown[p := texts[p]], tail, texts, before, k - 1, j - 1);
      } else {
        assert p !in tail;
        RestoreTouchesListed(shown[p := texts[p]], tail, texts, before, p);
      }
    }
  }

  lemma {:induction false} RestoreTouchesListed(files: Files, order: seq<Path>, texts: Files, before: Files, p: Path)
    requires p in files && p !in order && forall q | q in order :: q in texts && q in before
    ensures p in RestoreInOrder(files, order, texts, before)
    ensures RestoreInOrder(files, order, texts, before)[p] == files[p]
    decreases order
  {
    if order != [] {
      RestoreTouchesListed(files[order[0] := texts[order[0]]], order[1..], texts, before, p);
    }
  }
}
