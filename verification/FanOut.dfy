/** The concurrent fan-out of canonicaliseTwice in cmd/lens/canoncheck.go.

    One goroutine per prompt, a channel of capacity 8 used as a semaphore, an error slot guarded by a
    mutex, and a wait group. A `Move` says who acts next; the answer of a canonicaliser call is chosen by
    the move, so a schedule (a sequence of moves) is one interleaving together with every reply and every
    failure in it. All theorems hold for all schedules. */
module FanOut {
  import opened Prelude
  import opened Counting

  /** A reply, with the number of the call that produced it. */
  datatype Response = Response(prompt: string, call: nat)

  type Error = string

  datatype CanonRun = CanonRun(prompt: string, first: Response, second: Response)

  /** Where a goroutine stands: what it does next. */
  datatype Place =
    | Unspawned
    | Acquire                                // sem <- struct{}{}
    | CallFirst
    | CallSecond(a: Response)
    | LockMutex(err: Error)
    | Record(err: Error)                     // holds the mutex, tests firstErr
    | Assign(err: Error)                     // holds the mutex, found firstErr nil
    | UnlockMutex                            // holds the mutex
    | Store(a: Response, b: Response)
    | ReleaseSlot                            // the inner defer: <-sem
    | SignalDone                             // the outer defer: wg.Done()
    | Gone

  datatype Main =
    | Spawning(next: nat)
    | Waiting                                // wg.Wait()
    | Returned(err: Option<Error>)

  /** Who made a call to the canonicaliser, and how it answered. */
  datatype Call = Call(who: nat, answer: Answer)

  /** Two history variables: `calls` in the order they were made, and `recorded`, the errors in the order in
      which goroutines tested firstErr. */
  datatype State = State(
    main: Main,
    places: seq<Place>,
    sem: nat,
    waiting: nat,
    mutex: Option<nat>,
    firstErr: Option<Error>,
    out: seq<Option<CanonRun>>,
    calls: seq<Call>,
    recorded: seq<Error>)

  datatype Answer = Ok | Err(err: Error)

  datatype Move = MainMoves | GoroutineMoves(who: nat, answer: Answer)

  const Capacity: nat := 8

  function Init(prompts: seq<string>): State {
    State(Spawning(0), seq(|prompts|, _ => Unspawned), 0, 0, None, None,
          seq(|prompts|, _ => None), [], [])
  }

  predicate Enabled(s: State, m: Move) {
    match m
    case MainMoves =>
      s.main.Spawning? || (s.main.Waiting? && s.waiting == 0)
    case GoroutineMoves(g, _) =>
      && g < |s.places|
      && match s.places[g] {
           case Unspawned => false
           case Gone => false
           case Acquire => s.sem < Capacity
           case LockMutex(_) => s.mutex.None?
           case ReleaseSlot => s.sem > 0        // receiving from an empty channel blocks
           case SignalDone => s.waiting > 0     // a negative wait group panics
           case _ => true
         }
  }

  /** The effect of an enabled move. */
  function Step(prompts: seq<string>, s: State, m: Move): State
    requires |s.places| == |s.out| == |prompts|
    requires Enabled(s, m)
  {
    match m
    case MainMoves => MainStep(s)
    case GoroutineMoves(g, answer) => GoroutineStep(prompts, s, g, answer)
  }

  function MainStep(s: State): State
    requires Enabled(s, MainMoves)
  {
    match s.main
    case Spawning(k) =>
      if k < |s.places|
      then s.(places := s.places[k := Acquire], waiting := s.waiting + 1, main := Spawning(k + 1))
      else s.(main := Waiting)
    case Waiting => s.(main := Returned(s.firstErr))
  }

  function GoroutineStep(prompts: seq<string>, s: State, g: nat, answer: Answer): State
    requires |s.places| == |s.out| == |prompts|
    requires Enabled(s, GoroutineMoves(g, answer))
  {
    match s.places[g]
    case Acquire => s.(sem := s.sem + 1, places := s.places[g := CallFirst])
    case CallFirst =>
      var next := if answer.Ok? then CallSecond(Response(prompts[g], |s.calls|)) else LockMutex(answer.err);
      s.(calls := s.calls + [Call(g, answer)], places := s.places[g := next])
    case CallSecond(a) =>
      var next := if answer.Ok? then Store(a, Response(prompts[g], |s.calls|)) else LockMutex(answer.err);
      s.(calls := s.calls + [Call(g, answer)], places := s.places[g := next])
    case LockMutex(e) => s.(mutex := Some(g), places := s.places[g := Record(e)])
    case Record(e) =>
      s.(recorded := s.recorded + [e],
         places := s.places[g := if s.firstErr.None? then Assign(e) else UnlockMutex])
    case Assign(e) => s.(firstErr := Some(e), places := s.places[g := UnlockMutex])
    case UnlockMutex => s.(mutex := None, places := s.places[g := ReleaseSlot])
    case Store(a, b) =>
      s.(out := s.out[g := Some(CanonRun(prompts[g], a, b))], places := s.places[g := ReleaseSlot])
    case ReleaseSlot =>
      s.(sem := s.sem - 1, places := s.places[g := SignalDone])
    case SignalDone =>
      s.(waiting := s.waiting - 1, places := s.places[g := Gone])
  }

  /** `schedule` can be played from `s`, each move enabled when its turn comes. */
  predicate Plays(prompts: seq<string>, s: State, schedule: seq<Move>)
    requires |s.places| == |s.out| == |prompts|
    decreases |schedule|
  {
    schedule != [] ==>
      Enabled(s, schedule[0]) && Plays(prompts, Step(prompts, s, schedule[0]), schedule[1..])
  }

  function After(prompts: seq<string>, s: State, schedule: seq<Move>): (r: State)
    requires |s.places| == |s.out| == |prompts|
    requires Plays(prompts, s, schedule)
    ensures |r.places| == |r.out| == |prompts|
    decreases |schedule|
  {
    if schedule == [] then s else After(prompts, Step(prompts, s, schedule[0]), schedule[1..])
  }

  // ---------------------------------------------------------------------------
  // Counting goroutines

  /** Between acquire and release. */
  predicate InSection(p: Place) {
    p.CallFirst? || p.CallSecond? || p.LockMutex? || HoldsMutex(p) || p.Store? || p.ReleaseSlot?
  }

  predicate HoldsMutex(p: Place) { p.Record? || p.Assign? || p.UnlockMutex? }

  /** Counted in by wg.Add and not yet out by wg.Done. */
  predicate Pending(p: Place) { !p.Unspawned? && !p.Gone? }

  predicate OnTheWayOut(p: Place) { p.ReleaseSlot? || p.SignalDone? || p.Gone? }

  // ---------------------------------------------------------------------------
  // The invariant

  /** `r` holds two replies to prompt `i`, of two different calls that goroutine `i` made itself. */
  predicate Separate(prompts: seq<string>, i: nat, r: CanonRun, calls: seq<Call>)
    requires i < |prompts|
  {
    && r.prompt == r.first.prompt == r.second.prompt == prompts[i]
    && r.first.call < r.second.call && OwnCall(i, r.first, calls) && OwnCall(i, r.second, calls)
  }

  predicate OwnCall(i: nat, r: Response, calls: seq<Call>) {
    r.call < |calls| && calls[r.call] == Call(i, Ok)
  }

  predicate SpawnOrder(s: State) {
    match s.main
    case Spawning(k) => k <= |s.places| && forall i | 0 <= i < |s.places| :: s.places[i].Unspawned? <==> k <= i
    case Waiting => forall i | 0 <= i < |s.places| :: !s.places[i].Unspawned?
    case Returned(err) => err == s.firstErr && forall i | 0 <= i < |s.places| :: s.places[i].Gone?
  }

  predicate MutexHeldByOne(s: State) {
    && (s.mutex.Some? ==> s.mutex.value < |s.places|)
    && forall i | 0 <= i < |s.places| :: HoldsMutex(s.places[i]) <==> s.mutex == Some(i)
  }

  /** firstErr is the first error recorded, but for the moment in which the goroutine that found it nil has
      not yet assigned it. */
  predicate FirstErrIsFirst(s: State) {
    && (forall i | 0 <= i < |s.places| && s.places[i].Assign? ::
          s.firstErr == None && s.recorded == [s.places[i].err])
    && ((forall i | 0 <= i < |s.places| :: !s.places[i].Assign?) ==>
          s.firstErr == if s.recorded == [] then None else Some(s.recorded[0]))
  }

  /** How the canonicaliser answered goroutine `i`, in order. */
  function AnswersTo(i: nat, calls: seq<Call>): seq<Answer> {
    if calls == [] then []
    else
      var last := calls[|calls| - 1];
      AnswersTo(i, calls[..|calls| - 1]) + if last.who == i then [last.answer] else []
  }

  predicate BothAnswered(answers: seq<Answer>) { answers == [Ok, Ok] }

  /** The first failure, with nothing asked after it. */
  predicate FailedWith(answers: seq<Answer>, e: Error) { answers == [Err(e)] || answers == [Ok, Err(e)] }

  predicate FailureRecorded(answers: seq<Answer>, recorded: seq<Error>) {
    answers != [] && var last := answers[|answers| - 1];
    last.Err? && FailedWith(answers, last.err) && last.err in recorded
  }

  /** What the place of goroutine `i` says about its slot and about how its calls were answered. */
  predicate SlotInv(prompts: seq<string>, s: State, i: nat)
    requires |s.places| == |s.out| == |prompts| && i < |prompts|
  {
    var answers := AnswersTo(i, s.calls);
    && (s.out[i].Some? ==> Separate(prompts, i, s.out[i].value, s.calls) && OnTheWayOut(s.places[i]))
    && match s.places[i] {
         case Unspawned => answers == []
         case Acquire => answers == []
         case CallFirst => answers == []
         case CallSecond(a) => answers == [Ok] && a.prompt == prompts[i] && OwnCall(i, a, s.calls)
         case Store(a, b) => BothAnswered(answers) && Separate(prompts, i, CanonRun(prompts[i], a, b), s.calls)
         case LockMutex(e) => FailedWith(answers, e)
         case Record(e) => FailedWith(answers, e)
         case Assign(e) => FailedWith(answers, e) && e in s.recorded
         case UnlockMutex => FailureRecorded(answers, s.recorded)
         case _ => if s.out[i].Some? then BothAnswered(answers) else FailureRecorded(answers, s.recorded)
       }
  }

  predicate AnsweredWith(calls: seq<Call>, e: Error) {
    exists c :: 0 <= c < |calls| && calls[c].answer == Err(e)
  }

  /** Only errors that some call was answered with are recorded, and only goroutines make calls. */
  predicate CallsTold(prompts: seq<string>, s: State) {
    && (forall e | e in s.recorded :: AnsweredWith(s.calls, e))
    && (forall c | 0 <= c < |s.calls| :: s.calls[c].who < |prompts|)
  }

  predicate Inv(prompts: seq<string>, s: State) {
    && |s.places| == |s.out| == |prompts|
    && SpawnOrder(s)
    && s.sem == Count(s.places, InSection) <= Capacity
    && s.waiting == Count(s.places, Pending)
    && MutexHeldByOne(s)
    && FirstErrIsFirst(s)
    && CallsTold(prompts, s)
    && forall i | 0 <= i < |prompts| :: SlotInv(prompts, s, i)
  }

  lemma AnswersNext(i: nat, calls: seq<Call>, c: Call)
    ensures AnswersTo(i, calls + [c]) == AnswersTo(i, calls) + if c.who == i then [c.answer] else []
  {
    assert (calls + [c])[..|calls|] == calls;
  }

  /** The answers to a goroutine are those of its calls. */
  lemma {:induction false} AnswersAreCalls(i: nat, calls: seq<Call>, a: Answer)
    ensures a in AnswersTo(i, calls) <==> Call(i, a) in calls
  {
    if calls != [] {
      var n := |calls| - 1;
      assert calls == calls[..n] + [calls[n]];
      AnswersAreCalls(i, calls[..n], a);
    }
  }

  lemma {:induction false} CountNone(places: seq<Place>, pred: Place -> bool)
    requires forall i | 0 <= i < |places| :: !pred(places[i])
    ensures Count(places, pred) == 0
  {
    CountFinds(places, pred);
  }

  lemma InitInv(prompts: seq<string>)
    ensures Inv(prompts, Init(prompts))
  {
    CountNone(Init(prompts).places, InSection);
    CountNone(Init(prompts).places, Pending);
  }

  lemma StepKeepsSlot(prompts: seq<string>, s: State, m: Move, i: nat)
    requires Inv(prompts, s) && Enabled(s, m) && i < |prompts|
    ensures SlotInv(prompts, Step(prompts, s, m), i)
  {
    assert SlotInv(prompts, s, i);
    if m.GoroutineMoves? {
      if m.who == i {
        OwnMoveKeepsSlot(prompts, s, i, m.answer);
      } else {
        OtherMoveKeepsSlot(prompts, s, m.who, m.answer, i);
      }
    }
  }

  lemma OwnMoveKeepsSlot(prompts: seq<string>, s: State, i: nat, answer: Answer)
    requires |s.places| == |s.out| == |prompts| && Enabled(s, GoroutineMoves(i, answer))
    requires FirstErrIsFirst(s) && SlotInv(prompts, s, i)
    ensures SlotInv(prompts, GoroutineStep(prompts, s, i, answer), i)
  {
    if s.places[i].CallFirst? || s.places[i].CallSecond? {
      CallKeepsSlot(prompts, s, i, answer);
    } else if s.places[i].LockMutex? || HoldsMutex(s.places[i]) {
      FailureKeepsSlot(prompts, s, i, answer);
    }
  }

  lemma CallKeepsSlot(prompts: seq<string>, s: State, i: nat, answer: Answer)
    requires |s.places| == |s.out| == |prompts| && i < |prompts| && SlotInv(prompts, s, i)
    requires s.places[i].CallFirst? || s.places[i].CallSecond?
    ensures SlotInv(prompts, GoroutineStep(prompts, s, i, answer), i)
  {
    AnswersNext(i, s.calls, Call(i, answer));
  }

  lemma FailureKeepsSlot(prompts: seq<string>, s: State, i: nat, answer: Answer)
    requires |s.places| == |s.out| == |prompts| && Enabled(s, GoroutineMoves(i, answer))
    requires FirstErrIsFirst(s) && SlotInv(prompts, s, i) && (s.places[i].LockMutex? || HoldsMutex(s.places[i]))
    ensures SlotInv(prompts, GoroutineStep(prompts, s, i, answer), i)
  {
  }

  lemma OtherMoveKeepsSlot(prompts: seq<string>, s: State, g: nat, answer: Answer, i: nat)
    requires |s.places| == |s.out| == |prompts| && Enabled(s, GoroutineMoves(g, answer)) && i < |prompts| && i != g
    requires SlotInv(prompts, s, i)
    ensures SlotInv(prompts, GoroutineStep(prompts, s, g, answer), i)
  {
    var t := GoroutineStep(prompts, s, g, answer);
    AnswersNext(i, s.calls, Call(g, answer));
    assert AnswersTo(i, t.calls) == AnswersTo(i, s.calls);
    assert t.places[i] == s.places[i] && t.out[i] == s.out[i] && s.calls <= t.calls && s.recorded <= t.recorded;
  }

  lemma StepKeepsCallsTold(prompts: seq<string>, s: State, m: Move)
    requires Inv(prompts, s) && Enabled(s, m)
    ensures CallsTold(prompts, Step(prompts, s, m))
  {
    if m.GoroutineMoves? {
      var t := GoroutineStep(prompts, s, m.who, m.answer);
      forall e | e in t.recorded ensures AnsweredWith(t.calls, e) {
        if e in s.recorded {
          var c :| 0 <= c < |s.calls| && s.calls[c].answer == Err(e);
          assert t.calls[c].answer == Err(e);
        } else {
          assert SlotInv(prompts, s, m.who) && FailedWith(AnswersTo(m.who, s.calls), e);
          assert Err(e) in AnswersTo(m.who, s.calls);
          AnswersAreCalls(m.who, s.calls, Err(e));
        }
      }
    }
  }

  lemma StepKeepsOrder(prompts: seq<string>, s: State, m: Move)
    requires Inv(prompts, s) && Enabled(s, m)
    ensures SpawnOrder(Step(prompts, s, m))
  {
    if m.MainMoves? && s.main.Waiting? {
      CountFinds(s.places, Pending);
      forall i | 0 <= i < |s.places| ensures s.places[i].Gone? {
        assert !Pending(s.places[i]);
      }
    }
  }

  lemma StepKeepsMutex(prompts: seq<string>, s: State, m: Move)
    requires |s.places| == |s.out| == |prompts| && SpawnOrder(s) && MutexHeldByOne(s) && Enabled(s, m)
    ensures MutexHeldByOne(Step(prompts, s, m))
  {
  }

  /** The one step that needs the mutex: whoever is about to assign was alone in finding firstErr nil. */
  lemma StepKeepsFirstErr(prompts: seq<string>, s: State, m: Move)
    requires |s.places| == |s.out| == |prompts| && SpawnOrder(s) && MutexHeldByOne(s) && FirstErrIsFirst(s)
    requires Enabled(s, m)
    ensures FirstErrIsFirst(Step(prompts, s, m))
  {
    match m
    case MainMoves =>
      var t := MainStep(s);
      assert forall i | 0 <= i < |s.places| && s.places[i].Assign? :: t.places[i].Assign?;
    case GoroutineMoves(g, answer) => GoroutineKeepsFirstErr(prompts, s, g, answer);
  }

  lemma GoroutineKeepsFirstErr(prompts: seq<string>, s: State, g: nat, answer: Answer)
    requires |s.places| == |s.out| == |prompts| && MutexHeldByOne(s) && FirstErrIsFirst(s)
    requires Enabled(s, GoroutineMoves(g, answer))
    ensures FirstErrIsFirst(GoroutineStep(prompts, s, g, answer))
  {
    var t := GoroutineStep(prompts, s, g, answer);
    assert t.places == s.places[g := t.places[g]];
    if s.places[g].Record? || s.places[g].Assign? {
      assert forall i | 0 <= i < |s.places| && i != g :: !HoldsMutex(s.places[i]);
    } else {
      assert forall i | 0 <= i < |s.places| && s.places[i].Assign? :: t.places[i].Assign?;
    }
  }

  lemma SpawnKeepsCounts(s: State)
    requires s.main.Spawning? && SpawnOrder(s) && s.main.next < |s.places|
    ensures Count(MainStep(s).places, InSection) == Count(s.places, InSection)
    ensures Count(MainStep(s).places, Pending) == Count(s.places, Pending) + 1
  {
    CountUpdate(s.places, InSection, s.main.next, Acquire);
    CountUpdate(s.places, Pending, s.main.next, Acquire);
  }

  lemma GoroutineKeepsCounts(prompts: seq<string>, s: State, g: nat, answer: Answer)
    requires Inv(prompts, s) && Enabled(s, GoroutineMoves(g, answer))
    ensures var t := GoroutineStep(prompts, s, g, answer);
            t.sem == Count(t.places, InSection) <= Capacity && t.waiting == Count(t.places, Pending)
  {
    var p := GoroutineStep(prompts, s, g, answer).places[g];
    PlaceAdvances(prompts, s, g, answer);
    CountUpdate(s.places, InSection, g, p);
    CountUpdate(s.places, Pending, g, p);
    assert InSection(s.places[g]) ==> Count(s.places, InSection) > 0 by {
      CountFinds(s.places, InSection);
    }
    assert Count(s.places, Pending) > 0 by {
      CountFinds(s.places, Pending);
      assert Pending(s.places[g]);
    }
  }

  lemma StepInv(prompts: seq<string>, s: State, m: Move)
    requires Inv(prompts, s) && Enabled(s, m)
    ensures Inv(prompts, Step(prompts, s, m))
  {
    StepKeepsOrder(prompts, s, m);
    StepKeepsMutex(prompts, s, m);
    StepKeepsFirstErr(prompts, s, m);
    StepKeepsCallsTold(prompts, s, m);
    match m
    case MainMoves =>
      if s.main.Spawning? && s.main.next < |s.places| {
        SpawnKeepsCounts(s);
      }
      StepKeepsSlots(prompts, s, m);
    case GoroutineMoves(g, answer) =>
      GoroutineKeepsCounts(prompts, s, g, answer);
      StepKeepsSlots(prompts, s, m);
  }

  lemma StepKeepsSlots(prompts: seq<string>, s: State, m: Move)
    requires Inv(prompts, s) && Enabled(s, m)
    ensures forall i | 0 <= i < |prompts| :: SlotInv(prompts, Step(prompts, s, m), i)
  {
    forall i | 0 <= i < |prompts| ensures SlotInv(prompts, Step(prompts, s, m), i) {
      StepKeepsSlot(prompts, s, m, i);
    }
  }

  lemma {:induction false} ScheduleInv(prompts: seq<string>, s: State, schedule: seq<Move>)
    requires Inv(prompts, s) && Plays(prompts, s, schedule)
    ensures Inv(prompts, After(prompts, s, schedule))
    decreases |schedule|
  {
    if schedule != [] {
      StepInv(prompts, s, schedule[0]);
      ScheduleInv(prompts, Step(prompts, s, schedule[0]), schedule[1..]);
    }
  }

  // ---------------------------------------------------------------------------
  // Safety, over every interleaving

  /** At most 8 goroutines are ever between acquire and release, and at most one holds the mutex. */
  lemma AtMostEightInSection(prompts: seq<string>, schedule: seq<Move>)
    requires Plays(prompts, Init(prompts), schedule)
    ensures Count(After(prompts, Init(prompts), schedule).places, InSection) <= 8
    ensures forall i, j | 0 <= i < |prompts| && 0 <= j < |prompts| &&
              HoldsMutex(After(prompts, Init(prompts), schedule).places[i]) &&
              HoldsMutex(After(prompts, Init(prompts), schedule).places[j]) :: i == j
  {
    InitInv(prompts);
    ScheduleInv(prompts, Init(prompts), schedule);
  }

  /** A slot is written by its own goroutine only, after its second call. */
  lemma SlotWrittenByItsOwner(prompts: seq<string>, s: State, m: Move, i: nat)
    requires Inv(prompts, s) && Enabled(s, m) && i < |prompts|
    requires Step(prompts, s, m).out[i] != s.out[i]
    ensures m.GoroutineMoves? && m.who == i && s.places[i].Store?
  {
  }

  /** A slot that holds a result keeps it, whatever is played from then on. */
  lemma {:induction false} SlotWrittenOnce(prompts: seq<string>, s: State, schedule: seq<Move>, i: nat)
    requires Inv(prompts, s) && Plays(prompts, s, schedule) && i < |prompts| && s.out[i].Some?
    ensures After(prompts, s, schedule).out[i] == s.out[i]
    decreases |schedule|
  {
    if schedule != [] {
      assert SlotInv(prompts, s, i);
      StepInv(prompts, s, schedule[0]);
      SlotWrittenOnce(prompts, Step(prompts, s, schedule[0]), schedule[1..], i);
    }
  }

  /** Whatever the interleaving, a filled slot holds two replies to its prompt, of two calls its own goroutine
      made. */
  lemma SlotFromOwnCalls(prompts: seq<string>, schedule: seq<Move>, i: nat)
    requires Plays(prompts, Init(prompts), schedule) && i < |prompts|
    requires After(prompts, Init(prompts), schedule).out[i].Some?
    ensures var s := After(prompts, Init(prompts), schedule);
            Separate(prompts, i, s.out[i].value, s.calls)
  {
    InitInv(prompts);
    ScheduleInv(prompts, Init(prompts), schedule);
    assert SlotInv(prompts, After(prompts, Init(prompts), schedule), i);
  }

  /** When the call returns, no goroutine is running, and it returns no error exactly when every call to the
      canonicaliser was answered; then every slot holds two separate replies to its own prompt. An error it
      returns is the first one recorded under the mutex, and one that some call was answered with. A slot is
      filled exactly when both of its goroutine's calls were answered. */
  lemma ReturnIsAllOrFirstError(prompts: seq<string>, schedule: seq<Move>)
    requires Plays(prompts, Init(prompts), schedule)
    requires After(prompts, Init(prompts), schedule).main.Returned?
    ensures var s := After(prompts, Init(prompts), schedule);
            && (forall i | 0 <= i < |prompts| :: s.places[i].Gone?)
            && (s.main.err.None? <==> s.recorded == [])
            && (s.main.err.None? <==> forall c | 0 <= c < |s.calls| :: s.calls[c].answer.Ok?)
            && (s.main.err.Some? ==> s.main.err.value == s.recorded[0] && AnsweredWith(s.calls, s.main.err.value))
            && (s.main.err.None? ==> forall i | 0 <= i < |prompts| ::
                  s.out[i].Some? && Separate(prompts, i, s.out[i].value, s.calls))
            && (forall i | 0 <= i < |prompts| :: s.out[i].Some? <==> AnswersTo(i, s.calls) == [Ok, Ok])
  {
    InitInv(prompts);
    ScheduleInv(prompts, Init(prompts), schedule);
    ReturnedTells(prompts, After(prompts, Init(prompts), schedule));
  }

  lemma ReturnedTells(prompts: seq<string>, s: State)
    requires Inv(prompts, s) && s.main.Returned?
    ensures s.recorded == [] <==> forall c | 0 <= c < |s.calls| :: s.calls[c].answer.Ok?
    ensures forall i | 0 <= i < |prompts| ::
              && (s.out[i].Some? <==> BothAnswered(AnswersTo(i, s.calls)))
              && (s.out[i].Some? ==> Separate(prompts, i, s.out[i].value, s.calls))
              && (s.out[i].Some? || s.recorded != [])
  {
    forall i | 0 <= i < |prompts|
      ensures s.out[i].Some? <==> BothAnswered(AnswersTo(i, s.calls))
      ensures s.out[i].Some? ==> Separate(prompts, i, s.out[i].value, s.calls)
      ensures s.out[i].Some? || s.recorded != []
    {
      assert SlotInv(prompts, s, i) && s.places[i].Gone?;
    }
    if s.recorded == [] {
      forall c | 0 <= c < |s.calls| ensures s.calls[c].answer.Ok? {
        var i := s.calls[c].who;
        AnswersAreCalls(i, s.calls, s.calls[c].answer);
        assert s.calls[c] in s.calls && BothAnswered(AnswersTo(i, s.calls));
      }
    } else {
      assert s.recorded[0] in s.recorded;
    }
  }

  /** A goroutine waits for its turn exactly while 8 others are between acquire and release. */
  lemma AcquireWaitsExactly(prompts: seq<string>, s: State, g: nat, answer: Answer)
    requires Inv(prompts, s) && g < |prompts| && s.places[g].Acquire?
    ensures Enabled(s, GoroutineMoves(g, answer)) <==> Count(s.places, InSection) < 8
  {
  }

  // ---------------------------------------------------------------------------
  // No deadlock, and every run ends

  /** In every reachable state that has not returned, somebody can move. */
  lemma NoDeadlock(prompts: seq<string>, s: State) returns (m: Move)
    requires Inv(prompts, s) && !s.main.Returned?
    ensures Enabled(s, m)
  {
    m := MainMoves;
    if s.main.Waiting? && s.waiting > 0 {
      CountFinds(s.places, Pending);
      var g :| 0 <= g < |s.places| && Pending(s.places[g]);
      if s.places[g].Acquire? && s.sem == Capacity {
        CountFinds(s.places, InSection);
        g :| 0 <= g < |s.places| && InSection(s.places[g]);
      }
      CountFinds(s.places, InSection);
      m := GoroutineMoves(if s.places[g].LockMutex? && s.mutex.Some? then s.mutex.value else g, Ok);
    }
  }

  /** Releasing a slot never blocks and signalling the wait group never panics. */
  lemma WayOutIsOpen(prompts: seq<string>, s: State, g: nat, answer: Answer)
    requires Inv(prompts, s) && g < |s.places|
    requires s.places[g].ReleaseSlot? || s.places[g].SignalDone?
    ensures Enabled(s, GoroutineMoves(g, answer))
  {
    CountFinds(s.places, InSection);
    CountFinds(s.places, Pending);
    assert Pending(s.places[g]);
  }

  /** How many moves a goroutine standing at `p` still has at most. */
  function Remaining(p: Place): nat {
    match p
    case Unspawned => 10
    case Acquire => 9
    case CallFirst => 8
    case CallSecond(_) => 7
    case LockMutex(_) => 6
    case Record(_) => 5
    case Assign(_) => 4
    case UnlockMutex => 3
    case Store(_, _) => 3
    case ReleaseSlot => 2
    case SignalDone => 1
    case Gone => 0
  }

  function TotalRemaining(places: seq<Place>): nat {
    if places == [] then 0
    else TotalRemaining(places[..|places| - 1]) + Remaining(places[|places| - 1])
  }

  lemma {:induction false} TotalUpdate(places: seq<Place>, i: nat, p: Place)
    requires i < |places|
    ensures TotalRemaining(places[i := p]) == TotalRemaining(places) - Remaining(places[i]) + Remaining(p)
  {
    var n := |places| - 1;
    if i < n {
      TotalUpdate(places[..n], i, p);
      assert places[i := p][..n] == places[..n][i := p];
    } else {
      assert places[i := p][..n] == places[..n];
    }
  }

  function Measure(s: State): nat {
    TotalRemaining(s.places) + match s.main { case Spawning(_) => 2 case Waiting => 1 case Returned(_) => 0 }
  }

  lemma StepDecreasesMeasure(prompts: seq<string>, s: State, m: Move)
    requires Inv(prompts, s) && Enabled(s, m)
    ensures Measure(Step(prompts, s, m)) < Measure(s)
  {
    match m
    case MainMoves =>
      if s.main.Spawning? && s.main.next < |s.places| {
        TotalUpdate(s.places, s.main.next, Acquire);
      }
    case GoroutineMoves(g, answer) =>
      var t := GoroutineStep(prompts, s, g, answer);
      PlaceAdvances(prompts, s, g, answer);
      TotalUpdate(s.places, g, t.places[g]);
  }

  lemma PlaceAdvances(prompts: seq<string>, s: State, g: nat, answer: Answer)
    requires |s.places| == |s.out| == |prompts| && Enabled(s, GoroutineMoves(g, answer))
    ensures var t := GoroutineStep(prompts, s, g, answer);
            && |t.places| == |s.places| && t.places == s.places[g := t.places[g]] && t.main == s.main
            && Remaining(t.places[g]) < Remaining(s.places[g])
  {
  }

  lemma {:induction false} ScheduleBounded(prompts: seq<string>, s: State, schedule: seq<Move>)
    requires Inv(prompts, s) && Plays(prompts, s, schedule)
    ensures |schedule| + Measure(After(prompts, s, schedule)) <= Measure(s)
    decreases |schedule|
  {
    if schedule != [] {
      StepInv(prompts, s, schedule[0]);
      StepDecreasesMeasure(prompts, s, schedule[0]);
      ScheduleBounded(prompts, Step(prompts, s, schedule[0]), schedule[1..]);
    }
  }

  lemma {:induction false} InitialTotal(n: nat)
    ensures TotalRemaining(seq(n, _ => Unspawned)) == 10 * n
  {
    if n > 0 {
      InitialTotal(n - 1);
      assert seq(n, _ => Unspawned)[..n - 1] == seq(n - 1, _ => Unspawned);
    }
  }

  /** Every run ends: no schedule is longer than 10 moves a prompt plus two, and one that cannot be
      continued has returned. */
  lemma EveryRunEnds(prompts: seq<string>, schedule: seq<Move>)
    requires Plays(prompts, Init(prompts), schedule)
    ensures |schedule| <= 10 * |prompts| + 2
    ensures (forall m :: !Enabled(After(prompts, Init(prompts), schedule), m)) ==>
              After(prompts, Init(prompts), schedule).main.Returned?
  {
    InitInv(prompts);
    InitialTotal(|prompts|);
    assert Init(prompts).places == seq(|prompts|, _ => Unspawned);
    ScheduleBounded(prompts, Init(prompts), schedule);
    ScheduleInv(prompts, Init(prompts), schedule);
    var s := After(prompts, Init(prompts), schedule);
    if !s.main.Returned? {
      var m := NoDeadlock(prompts, s);
    }
  }
}
