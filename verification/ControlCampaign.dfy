/** The campaign of scripts/w631-background-job-classification-controls.py as steps that a signal can fall
    between: read a backup, install the handler, mutate, test, restore in `finally`.

    Rewriting a file is two steps, because open(path, "w") empties it before the text arrives. A signal is
    SIGTERM, SIGINT or SIGHUP; it may come at any time, inside the handler too. */
module ControlCampaign {
  import opened Prelude
  import opened TextFiles

  datatype Control = Control(path: Path, anchor: string, replacement: string)

  /** What restore_on_signal was last given. */
  datatype Snapshot = Snapshot(path: Path, text: string)

  datatype Phase =
    | Next(k: nat)                                     // before control k, or after the last one
    | BackedUp(k: nat, backup: string)                 // the handler is still the previous control's
    | Guarded(k: nat, backup: string)                  // handler installed, inside try
    | Emptied(k: nat, backup: string, text: string)    // the mutated text is on its way to the file
    | Testing(k: nat, backup: string)
    | Leaving(k: nat, backup: string, raised: bool)    // about to run finally
    | Restoring(k: nat, backup: string, raised: bool)  // finally has emptied the file
    | Handling                                         // the handler is about to rewrite its file
    | HandlerEmptied
    | Resending                                        // about to die of the signal
    | Exited                                           // the script's own sys.exit
    | Raised                                           // an exception nobody caught
    | Died                                             // killed by the signal

  datatype State = State(phase: Phase, files: Files, handler: Option<Snapshot>)

  /** Proceed is the next step of the script; Throw is an exception from the tests. */
  datatype Move = Proceed | Throw | Signal

  function Init(files: Files): State { State(Next(0), files, None) }

  predicate Over(s: State) { s.phase.Exited? || s.phase.Raised? || s.phase.Died? }

  /** The control a phase belongs to is one of the list. */
  predicate Indexed(controls: seq<Control>, s: State) {
    match s.phase
    case Next(k) => k <= |controls|
    case BackedUp(k, _) => k < |controls|
    case Guarded(k, _) => k < |controls| && controls[k].path in s.files
    case Emptied(k, _, _) => k < |controls|
    case Testing(k, _) => k < |controls|
    case Leaving(k, _, _) => k < |controls|
    case Restoring(k, _, _) => k < |controls|
    case _ => true
  }

  function Step(controls: seq<Control>, s: State, m: Move): State
    requires Indexed(controls, s)
  {
    if Over(s) then s
    else if m.Signal? then
      s.(phase := if s.handler.Some? then Handling else Died)
    else if m.Throw? && s.phase.Testing? then
      s.(phase := Leaving(s.phase.k, s.phase.backup, true))
    else match s.phase
      case Next(k) =>
        if k == |controls| then s.(phase := Exited)
        else if controls[k].path !in s.files then s.(phase := Raised)
        else s.(phase := BackedUp(k, ReadText(s.files[controls[k].path])))
      case BackedUp(k, backup) =>
        s.(phase := if controls[k].path in s.files then Guarded(k, backup) else Raised,
           handler := Some(Snapshot(controls[k].path, backup)))
      case Guarded(k, backup) =>
        var c, text := controls[k], ReadText(s.files[controls[k].path]);
        if Count(text, c.anchor) != 1 then s.(phase := Leaving(k, backup, false))
        else
          s.(phase := Emptied(k, backup, ReplaceFirst(text, c.anchor, c.replacement)), files := s.files[c.path := ""])
      case Emptied(k, backup, text) =>
        s.(phase := Testing(k, backup), files := s.files[controls[k].path := text])
      case Testing(k, backup) => s.(phase := Leaving(k, backup, false))
      case Leaving(k, backup, raised) =>
        s.(phase := Restoring(k, backup, raised), files := s.files[controls[k].path := ""])
      case Restoring(k, backup, raised) =>
        s.(phase := if raised then Raised else Next(k + 1), files := s.files[controls[k].path := backup])
      case Handling =>
        s.(phase := HandlerEmptied, files := if s.handler.Some? then s.files[s.handler.value.path := ""] else s.files)
      case HandlerEmptied =>
        s.(phase := Resending,
           files := if s.handler.Some? then s.files[s.handler.value.path := s.handler.value.text] else s.files)
      case Resending => s.(phase := Died)
      case _ => s
  }

  // ---------------------------------------------------------------------------
  // The invariant

  predicate IsTarget(controls: seq<Control>, n: nat, p: Path)
    requires n <= |controls|
  {
    exists j :: 0 <= j < n && controls[j].path == p
  }

  /** File `p` is as it was, or as text mode read it when its control took a backup. */
  predicate Settled(orig: Files, controls: seq<Control>, files: Files, p: Path)
    requires p in orig && files.Keys == orig.Keys
  {
    files[p] == orig[p] || (IsTarget(controls, |controls|, p) && files[p] == ReadText(orig[p]))
  }

  predicate SettledBut(orig: Files, controls: seq<Control>, files: Files, except: Option<Path>)
    requires files.Keys == orig.Keys
  {
    forall p | p in orig && except != Some(p) :: Settled(orig, controls, files, p)
  }

  /** The targets of the first `k` controls have been rewritten, but for `except`. */
  predicate Rewritten(orig: Files, controls: seq<Control>, files: Files, k: nat, except: Option<Path>)
    requires k <= |controls| && files.Keys == orig.Keys
  {
    forall j | 0 <= j < k && except != Some(controls[j].path) ::
      controls[j].path in orig && files[controls[j].path] == ReadText(orig[controls[j].path])
  }

  /** Control `k` is under way: its backup is good and the handler holds it. */
  predicate UnderWay(orig: Files, controls: seq<Control>, s: State, k: nat, backup: string)
    requires s.files.Keys == orig.Keys
  {
    && k < |controls|
    && var p := controls[k].path;
       && p in orig && backup == ReadText(orig[p]) && s.handler == Some(Snapshot(p, backup))
       && SettledBut(orig, controls, s.files, Some(p))
       && Rewritten(orig, controls, s.files, k, Some(p))
  }

  /** `text` is `old` with the leftmost occurrence of the anchor replaced. */
  ghost predicate Mutated(was: string, c: Control, text: string) {
    exists q :: Leftmost(was, c.anchor, q) && q + |c.anchor| <= |was| &&
                text == was[..q] + c.replacement + was[q + |c.anchor|..]
  }

  lemma ReplacementMutates(was: string, c: Control)
    requires Count(was, c.anchor) == 1
    ensures Mutated(was, c, ReplaceFirst(was, c.anchor, c.replacement))
  {
    var q := 0;
    if c.anchor == "" {
      LeftmostAtStart(was, c.anchor, q);
    } else {
      q := LeftmostOccurrence(was, c.anchor);
    }
    ReplacedAtLeftmost(was, c.anchor, c.replacement, q);
  }

  predicate HandlerGood(orig: Files, controls: seq<Control>, s: State) {
    s.handler.Some? ==>
      var p := s.handler.value.path;
      p in orig && s.handler.value.text == ReadText(orig[p]) && IsTarget(controls, |controls|, p)
  }

  function HandlerPath(s: State): Option<Path> {
    if s.handler.Some? then Some(s.handler.value.path) else None
  }

  ghost predicate Inv(orig: Files, controls: seq<Control>, s: State) {
    && s.files.Keys == orig.Keys
    && HandlerGood(orig, controls, s)
    && match s.phase {
         case Next(k) =>
           k <= |controls| && SettledBut(orig, controls, s.files, None) && Rewritten(orig, controls, s.files, k, None)
         case BackedUp(k, backup) =>
           && k < |controls| && controls[k].path in orig && backup == ReadText(orig[controls[k].path])
           && SettledBut(orig, controls, s.files, None) && Rewritten(orig, controls, s.files, k, None)
         case Guarded(k, backup) =>
           UnderWay(orig, controls, s, k, backup) && SettledBut(orig, controls, s.files, None)
         case Emptied(k, backup, text) =>
           UnderWay(orig, controls, s, k, backup) && Mutated(backup, controls[k], text)
         case Testing(k, backup) =>
           UnderWay(orig, controls, s, k, backup) && Mutated(backup, controls[k], s.files[controls[k].path])
         case Leaving(k, backup, _) => UnderWay(orig, controls, s, k, backup)
         case Restoring(k, backup, _) => UnderWay(orig, controls, s, k, backup)
         case Handling => s.handler.Some? && SettledBut(orig, controls, s.files, HandlerPath(s))
         case HandlerEmptied => s.handler.Some? && SettledBut(orig, controls, s.files, HandlerPath(s))
         case Resending => SettledBut(orig, controls, s.files, None)
         case Exited =>
           SettledBut(orig, controls, s.files, None) && Rewritten(orig, controls, s.files, |controls|, None)
         case Raised => SettledBut(orig, controls, s.files, None)
         case Died => SettledBut(orig, controls, s.files, None)
       }
  }

  lemma SettledReads(orig: Files, controls: seq<Control>, files: Files, p: Path)
    requires p in orig && files.Keys == orig.Keys && Settled(orig, controls, files, p)
    ensures ReadText(files[p]) == ReadText(orig[p])
  {
    ReadTextExactly(orig[p]);
  }

  lemma BetweenStepInv(orig: Files, controls: seq<Control>, s: State, m: Move)
    requires Inv(orig, controls, s) && !m.Signal? && (s.phase.Next? || s.phase.BackedUp?)
    ensures Inv(orig, controls, Step(controls, s, m))
  {
    match s.phase
    case Next(k) =>
      if k < |controls| && controls[k].path in s.files {
        SettledReads(orig, controls, s.files, controls[k].path);
      }
    case BackedUp(k, _) =>
      assert IsTarget(controls, |controls|, controls[k].path);
  }

  predicate InTry(s: State) {
    s.phase.Guarded? || s.phase.Emptied? || s.phase.Testing? || s.phase.Leaving? || s.phase.Restoring?
  }

  lemma GuardedStepInv(orig: Files, controls: seq<Control>, s: State, m: Move)
    requires Inv(orig, controls, s) && !m.Signal? && s.phase.Guarded?
    ensures Inv(orig, controls, Step(controls, s, m))
  {
    var c := controls[s.phase.k];
    SettledReads(orig, controls, s.files, c.path);
    if Count(s.phase.backup, c.anchor) == 1 {
      ReplacementMutates(s.phase.backup, c);
    }
  }

  lemma TryStepInv(orig: Files, controls: seq<Control>, s: State, m: Move)
    requires Inv(orig, controls, s) && !m.Signal? && InTry(s)
    ensures Inv(orig, controls, Step(controls, s, m))
  {
    if s.phase.Restoring? {
      RestoredInv(orig, controls, s, s.phase.k, s.phase.backup);
    } else if s.phase.Guarded? {
      GuardedStepInv(orig, controls, s, m);
    }
  }

  lemma HandlerStepInv(orig: Files, controls: seq<Control>, s: State, m: Move)
    requires Inv(orig, controls, s) && !m.Signal? && (s.phase.Handling? || s.phase.HandlerEmptied?)
    ensures Inv(orig, controls, Step(controls, s, m))
  {
  }

  lemma ScriptStepInv(orig: Files, controls: seq<Control>, s: State, m: Move)
    requires Inv(orig, controls, s) && !m.Signal?
    ensures Indexed(controls, s) && Inv(orig, controls, Step(controls, s, m))
  {
    if s.phase.Next? || s.phase.BackedUp? {
      BetweenStepInv(orig, controls, s, m);
    } else if InTry(s) {
      TryStepInv(orig, controls, s, m);
    } else if s.phase.Handling? || s.phase.HandlerEmptied? {
      HandlerStepInv(orig, controls, s, m);
    }
  }

  lemma RestoredInv(orig: Files, controls: seq<Control>, s: State, k: nat, backup: string)
    requires s.files.Keys == orig.Keys && UnderWay(orig, controls, s, k, backup)
    ensures SettledBut(orig, controls, s.files[controls[k].path := backup], None)
    ensures Rewritten(orig, controls, s.files[controls[k].path := backup], k + 1, None)
  {
  }

  lemma StepInv(orig: Files, controls: seq<Control>, s: State, m: Move)
    requires Inv(orig, controls, s)
    ensures Indexed(controls, s) && Inv(orig, controls, Step(controls, s, m))
  {
    if !m.Signal? {
      ScriptStepInv(orig, controls, s, m);
    }
  }

  // ---------------------------------------------------------------------------
  // Whole runs

  /** The state after a schedule of moves; Inv keeps every step within the control list. */
  function After(orig: Files, controls: seq<Control>, s: State, moves: seq<Move>): (r: State)
    requires Inv(orig, controls, s)
    ensures Inv(orig, controls, r)
    decreases |moves|
  {
    if moves == [] then s
    else
      StepInv(orig, controls, s, moves[0]);
      After(orig, controls, Step(controls, s, moves[0]), moves[1..])
  }

  lemma InitInv(orig: Files, controls: seq<Control>)
    ensures Inv(orig, controls, Init(orig))
  {
  }

  /** The campaign over the files `orig`. */
  function Run(orig: Files, controls: seq<Control>, moves: seq<Move>): (r: State)
    ensures Inv(orig, controls, r)
  {
    InitInv(orig, controls);
    After(orig, controls, Init(orig), moves)
  }

  /** However the campaign ends, and wherever signals arrived, every file holds its starting contents or
      those contents as text mode read them; a file without carriage returns holds its starting contents. */
  lemma EveryExitRestores(orig: Files, controls: seq<Control>, moves: seq<Move>)
    requires Over(Run(orig, controls, moves))
    ensures var s := Run(orig, controls, moves);
            && s.files.Keys == orig.Keys
            && (forall p | p in orig ::
                  (s.files[p] == orig[p] || s.files[p] == ReadText(orig[p])) &&
                  ('\r' !in orig[p] || !IsTarget(controls, |controls|, p) ==> s.files[p] == orig[p]))
  {
    var s := Run(orig, controls, moves);
    forall p | p in orig
      ensures s.files[p] == orig[p] || s.files[p] == ReadText(orig[p])
      ensures '\r' !in orig[p] || !IsTarget(controls, |controls|, p) ==> s.files[p] == orig[p]
    {
      assert Settled(orig, controls, s.files, p);
      ReadTextExactly(orig[p]);
    }
  }

  /** A campaign that runs through leaves the tree as it was exactly when no target holds a carriage return. */
  lemma FinishedExactly(orig: Files, controls: seq<Control>, moves: seq<Move>)
    requires Run(orig, controls, moves).phase.Exited?
    ensures Run(orig, controls, moves).files == orig <==>
            forall j | 0 <= j < |controls| :: controls[j].path in orig && '\r' !in orig[controls[j].path]
  {
    var s := Run(orig, controls, moves);
    forall j | 0 <= j < |controls|
      ensures controls[j].path in orig
      ensures s.files[controls[j].path] == orig[controls[j].path] <==> '\r' !in orig[controls[j].path]
    {
      ReadTextExactly(orig[controls[j].path]);
    }
    if forall j | 0 <= j < |controls| :: '\r' !in orig[controls[j].path] {
      forall p | p in orig ensures s.files[p] == orig[p] {
        assert Settled(orig, controls, s.files, p);
      }
    }
  }

  /** Whenever the tests run, they see the target's text with the leftmost occurrence of the anchor replaced,
      and every other file as it was, or as text mode read it. */
  lemma TestsSeeTheMutation(orig: Files, controls: seq<Control>, moves: seq<Move>)
    requires Run(orig, controls, moves).phase.Testing?
    ensures var s := Run(orig, controls, moves);
            && s.phase.k < |controls| && s.files.Keys == orig.Keys
            && var c := controls[s.phase.k];
            && c.path in orig && Mutated(ReadText(orig[c.path]), c, s.files[c.path])
            && forall p | p in orig && p != c.path :: Settled(orig, controls, s.files, p)
  {
  }

  /** Inside the try block, a control that is left alone comes to its tests exactly when its anchor counts one;
      otherwise it goes straight to the restoration with nothing written. */
  lemma TestedExactly(orig: Files, controls: seq<Control>, s: State)
    requires Inv(orig, controls, s) && s.phase.Guarded?
    ensures var c := controls[s.phase.k];
            var counts := Count(ReadText(orig[c.path]), c.anchor);
            var next, later := Step(controls, s, Proceed), After(orig, controls, s, [Proceed, Proceed]);
            && (later.phase == Testing(s.phase.k, s.phase.backup) <==> counts == 1)
            && (counts != 1 ==> next.phase == Leaving(s.phase.k, s.phase.backup, false) && next.files == s.files)
  {
    var c := controls[s.phase.k];
    SettledReads(orig, controls, s.files, c.path);
    StepInv(orig, controls, s, Proceed);
    var next := Step(controls, s, Proceed);
    StepInv(orig, controls, next, Proceed);
    assert [Proceed, Proceed][1..] == [Proceed] && [Proceed][1..] == [];
    assert After(orig, controls, next, [Proceed]) == Step(controls, next, Proceed);
  }

  /** On its way to the script's own exit: no signal and no exception so far. */
  predicate OnTrack(s: State) {
    match s.phase
    case Leaving(_, _, raised) => !raised
    case Restoring(_, _, raised) => !raised
    case Handling => false
    case HandlerEmptied => false
    case Resending => false
    case Raised => false
    case Died => false
    case _ => true
  }

  /** How many steps are left at most. */
  function StepsLeft(n: nat, s: State): int {
    match s.phase
    case Next(k) => 7 * (n - k) + 1
    case BackedUp(k, _) => 7 * (n - k)
    case Guarded(k, _) => 7 * (n - k) - 1
    case Emptied(k, _, _) => 7 * (n - k) - 2
    case Testing(k, _) => 7 * (n - k) - 3
    case Leaving(k, _, _) => 7 * (n - k) - 4
    case Restoring(k, _, _) => 7 * (n - k) - 5
    case _ => 0
  }

  predicate AllTargetsThere(orig: Files, controls: seq<Control>) {
    forall j | 0 <= j < |controls| :: controls[j].path in orig
  }

  lemma OneStepOn(orig: Files, controls: seq<Control>, s: State)
    requires Inv(orig, controls, s) && OnTrack(s) && !s.phase.Exited? && AllTargetsThere(orig, controls)
    ensures Indexed(controls, s) && OnTrack(Step(controls, s, Proceed))
    ensures 0 <= StepsLeft(|controls|, Step(controls, s, Proceed)) < StepsLeft(|controls|, s)
  {
    StepInv(orig, controls, s, Proceed);
  }

  /** Left alone, a campaign whose targets exist runs through. */
  lemma {:induction false} RunsThrough(orig: Files, controls: seq<Control>, s: State) returns (moves: seq<Move>)
    requires Inv(orig, controls, s) && OnTrack(s) && AllTargetsThere(orig, controls)
    ensures After(orig, controls, s, moves).phase.Exited?
    decreases StepsLeft(|controls|, s)
  {
    if s.phase.Exited? {
      moves := [];
    } else {
      OneStepOn(orig, controls, s);
      StepInv(orig, controls, s, Proceed);
      var rest := RunsThrough(orig, controls, Step(controls, s, Proceed));
      moves := [Proceed] + rest;
      assert moves[1..] == rest;
    }
  }

  predicate Unchanged(orig: Files, controls: seq<Control>, moves: seq<Move>) {
    Over(Run(orig, controls, moves)) ==> Run(orig, controls, moves).files == orig
  }

  /** When its targets exist, a campaign leaves the tree as it was however it ends and wherever signals and
      exceptions arrive, exactly when no target holds a carriage return. */
  lemma UnchangedExactly(orig: Files, controls: seq<Control>)
    requires AllTargetsThere(orig, controls)
    ensures (forall moves :: Unchanged(orig, controls, moves)) <==>
            forall j | 0 <= j < |controls| :: '\r' !in orig[controls[j].path]
  {
    if forall moves :: Unchanged(orig, controls, moves) {
      InitInv(orig, controls);
      var moves := RunsThrough(orig, controls, Init(orig));
      assert Unchanged(orig, controls, moves);
      FinishedExactly(orig, controls, moves);
    }
    if forall j | 0 <= j < |controls| :: '\r' !in orig[controls[j].path] {
      forall moves ensures Unchanged(orig, controls, moves) {
        if Over(Run(orig, controls, moves)) {
          EveryExitRestores(orig, controls, moves);
          assert forall p | p in orig :: Run(orig, controls, moves).files[p] == orig[p];
        }
      }
    }
  }

  /** A signal is fatal: with no further signal the process is dead three steps later. */
  lemma SignalKills(orig: Files, controls: seq<Control>, s: State)
    requires Inv(orig, controls, s) && !Over(s)
    ensures After(orig, controls, s, [Signal, Proceed, Proceed, Proceed]).phase.Died?
  {
    var moves := [Signal, Proceed, Proceed, Proceed];
    assert moves[1..] == [Proceed, Proceed, Proceed];
    assert [Proceed, Proceed, Proceed][1..] == [Proceed, Proceed];
    assert [Proceed, Proceed][1..] == [Proceed];
    assert [Proceed][1..] == [];
    StepInv(orig, controls, s, Signal);
    var s1 := Step(controls, s, Signal);
    StepInv(orig, controls, s1, Proceed);
    var s2 := Step(controls, s1, Proceed);
    StepInv(orig, controls, s2, Proceed);
    var s3 := Step(controls, s2, Proceed);
    StepInv(orig, controls, s3, Proceed);
    assert After(orig, controls, s3, [Proceed]) == Step(controls, s3, Proceed);
    assert After(orig, controls, s2, [Proceed, Proceed]) == After(orig, controls, s3, [Proceed]);
    assert After(orig, controls, s1, [Proceed, Proceed, Proceed]) == After(orig, controls, s2, [Proceed, Proceed]);
  }
}
