/** The reader-writer latch as a protocol among any number of threads.  A critical section runs from
    taking the mutex to giving it up, by unlocking or by waiting, and is one step. */
module LatchProtocol {

  type Thread = int

  /** Where a thread is in its calls to the latch. */
  datatype Phase =
    | Outside
    | WEnter       // in WLock, awake, about to look at writer_entered_
    | WAsleep      // in WLock, asleep on reader_
    | WDrain       // in WLock, having set writer_entered_, awake, about to look at reader_count_
    | WDrainAsleep // the same, asleep on writer_
    | Writing
    | REnter       // in RLock, awake
    | RAsleep      // in RLock, asleep on reader_
    | Reading

  /** limit is MAX_READERS. */
  datatype State = State(limit: int, readerCount: int, writerEntered: bool, phase: map<Thread, Phase>)

  function PhaseOf(s: State, t: Thread): Phase {
    if t in s.phase then s.phase[t] else Outside
  }

  function Moved(s: State, t: Thread, p: Phase): State {
    s.(phase := s.phase[t := p])
  }

  predicate OnReader(p: Phase) {
    p.WAsleep? || p.RAsleep?
  }

  /** Awake again, the thread goes back to its loop condition. */
  function Woken(p: Phase): Phase {
    match p
    case WAsleep => WEnter
    case WDrainAsleep => WDrain
    case RAsleep => REnter
    case _ => p
  }

  function AllReadersWoken(s: State): State {
    s.(phase := map t | t in s.phase :: if OnReader(s.phase[t]) then Woken(s.phase[t]) else s.phase[t])
  }

  /** notify_one wakes some thread asleep on the condition, if there is one. */
  ghost predicate OneWoken(s: State, s': State, onWriter: bool) {
    if exists t :: t in s.phase && Waits(s.phase[t], onWriter)
    then exists t :: t in s.phase && Waits(s.phase[t], onWriter) && s' == Moved(s, t, Woken(s.phase[t]))
    else s' == s
  }

  predicate Waits(p: Phase, onWriter: bool) {
    if onWriter then p.WDrainAsleep? else OnReader(p)
  }

  // ------------------------------------------------------------------ the steps

  datatype Step = BeginWrite | BeginRead | TryWrite | TryDrain | TryRead | WUnlock | RUnlock | WakeUp

  /** Thread t takes a step.  WakeUp is a wakeup without a notification, which a condition variable
      may deliver at any time. */
  ghost predicate Next(s: State, t: Thread, step: Step, s': State) {
    var p := PhaseOf(s, t);
    match step
    case BeginWrite => p.Outside? && s' == Moved(s, t, WEnter)
    case BeginRead => p.Outside? && s' == Moved(s, t, REnter)
    case TryWrite => p.WEnter? && s' == Written(s, t)
    case TryDrain => p.WDrain? && s' == Drained(s, t)
    case TryRead => p.REnter? && s' == ReadTried(s, t)
    case WUnlock => p.Writing? && s' == AllReadersWoken(Moved(s, t, Outside).(writerEntered := false))
    case RUnlock => p.Reading? && ReadUnlocked(s, t, s')
    case WakeUp => (OnReader(p) || p.WDrainAsleep?) && s' == Moved(s, t, Woken(p))
  }

  /** The second loop of WLock. */
  function Drained(s: State, t: Thread): State {
    Moved(s, t, if s.readerCount > 0 then WDrainAsleep else Writing)
  }

  /** The first loop of WLock, and on into the second one. */
  function Written(s: State, t: Thread): State {
    if s.writerEntered then Moved(s, t, WAsleep) else Drained(s.(writerEntered := true), t)
  }

  function ReadTried(s: State, t: Thread): State {
    if s.writerEntered || s.readerCount == s.limit then Moved(s, t, RAsleep)
    else Moved(s, t, Reading).(readerCount := s.readerCount + 1)
  }

  /** The state when reader t has left and nobody has been woken yet. */
  function Left(s: State, t: Thread): State {
    Moved(s, t, Outside).(readerCount := s.readerCount - 1)
  }

  ghost predicate ReadUnlocked(s: State, t: Thread, s': State) {
    var left := Left(s, t);
    if s.writerEntered then
      if left.readerCount == 0 then OneWoken(left, s', true) else s' == left
    else
      if left.readerCount == s.limit - 1 then OneWoken(left, s', false) else s' == left
  }

  predicate Initial(s: State) {
    s.limit > 0 && s.readerCount == 0 && !s.writerEntered && s.phase == map[]
  }

  /** A run from the initial state: each state follows from the one before by a step of some thread. */
  ghost predicate Run(run: seq<State>) {
    && |run| > 0 && Initial(run[0])
    && forall i :: 0 < i < |run| ==> Follows(run, i)
  }

  ghost predicate Follows(run: seq<State>, i: int)
    requires 0 < i < |run|
  {
    Leads(run[i - 1], run[i])
  }

  ghost predicate Leads(s: State, s': State) {
    exists t, step :: Next(s, t, step, s')
  }

  // ------------------------------------------------------------------ safety

  function Readers(s: State): set<Thread> {
    set t | t in s.phase && s.phase[t].Reading?
  }

  /** The thread that has set writer_entered_. */
  predicate Owns(p: Phase) {
    p.WDrain? || p.WDrainAsleep? || p.Writing?
  }

  ghost predicate Safe(s: State) {
    && 0 <= s.readerCount <= s.limit && s.readerCount == |Readers(s)|
    && (forall t, u :: t in s.phase && u in s.phase && Owns(s.phase[t]) && Owns(s.phase[u]) ==> t == u)
    && (s.writerEntered <==> exists t :: t in s.phase && Owns(s.phase[t]))
    && (forall t :: t in s.phase && s.phase[t].Writing? ==> s.readerCount == 0)
  }

  lemma ReadersMoved(s: State, t: Thread, p: Phase)
    ensures Readers(Moved(s, t, p)) == if p.Reading? then Readers(s) + {t} else Readers(s) - {t}
  {
  }

  lemma ReadersCounted(s: State, t: Thread, p: Phase)
    ensures var n := |Readers(s)|; var r := PhaseOf(s, t).Reading?;
            |Readers(Moved(s, t, p))| == if r && !p.Reading? then n - 1 else if !r && p.Reading? then n + 1 else n
  {
    ReadersMoved(s, t, p);
    assert PhaseOf(s, t).Reading? <==> t in Readers(s);
    if t in Readers(s) {
      assert Readers(s) + {t} == Readers(s);
    } else {
      assert Readers(s) - {t} == Readers(s);
    }
  }

  /** Waking a thread touches neither the readers nor the owner. */
  lemma WakingKeepsSafe(s: State, t: Thread)
    requires Safe(s) && t in s.phase && (OnReader(s.phase[t]) || s.phase[t].WDrainAsleep?)
    ensures Safe(Moved(s, t, Woken(s.phase[t])))
  {
    var s' := Moved(s, t, Woken(s.phase[t]));
    ReadersCounted(s, t, Woken(s.phase[t]));
    assert forall u :: u in s.phase ==> (Owns(s'.phase[u]) <==> Owns(s.phase[u]));
    if s.writerEntered {
      var u :| u in s.phase && Owns(s.phase[u]);
      assert u in s'.phase && Owns(s'.phase[u]);
    }
  }

  lemma AllWokenKeepsSafe(s: State)
    requires Safe(s)
    ensures Safe(AllReadersWoken(s))
  {
    var s' := AllReadersWoken(s);
    assert forall u :: u in s.phase ==>
             (Owns(s'.phase[u]) <==> Owns(s.phase[u])) && (s'.phase[u].Reading? <==> s.phase[u].Reading?);
    assert s'.phase.Keys == s.phase.Keys;
    assert Readers(s') == Readers(s) by {
      assert forall u :: u in Readers(s') <==> u in Readers(s);
    }
    if s.writerEntered {
      var u :| u in s.phase && Owns(s.phase[u]);
      assert u in s'.phase && Owns(s'.phase[u]);
    }
  }

  lemma OneWokenKeepsSafe(s: State, s': State, onWriter: bool)
    requires Safe(s) && OneWoken(s, s', onWriter)
    ensures Safe(s')
  {
    if exists t :: t in s.phase && Waits(s.phase[t], onWriter) {
      var t :| t in s.phase && Waits(s.phase[t], onWriter) && s' == Moved(s, t, Woken(s.phase[t]));
      WakingKeepsSafe(s, t);
    }
  }

  /** A thread that neither owned the write side nor read goes on without either. */
  lemma MovingKeepsSafe(s: State, t: Thread, p: Phase)
    requires Safe(s) && !Owns(PhaseOf(s, t)) && !Owns(p) && !PhaseOf(s, t).Reading? && !p.Reading?
    ensures Safe(Moved(s, t, p))
  {
    var s' := Moved(s, t, p);
    ReadersCounted(s, t, p);
    assert forall u :: u in s'.phase && Owns(s'.phase[u]) ==> u in s.phase && u != t;
    if s.writerEntered {
      var u :| u in s.phase && Owns(s.phase[u]);
      assert u in s'.phase && Owns(s'.phase[u]);
    }
  }

  lemma TryWriteKeepsSafe(s: State, t: Thread)
    requires Safe(s) && PhaseOf(s, t).WEnter?
    ensures Safe(Written(s, t))
  {
    if s.writerEntered {
      MovingKeepsSafe(s, t, WAsleep);
    } else {
      var s' := Written(s, t);
      ReadersCounted(s.(writerEntered := true), t, s'.phase[t]);
      assert Readers(s.(writerEntered := true)) == Readers(s);
      assert Owns(s'.phase[t]);
    }
  }

  lemma TryDrainKeepsSafe(s: State, t: Thread)
    requires Safe(s) && PhaseOf(s, t).WDrain?
    ensures Safe(Drained(s, t))
  {
    var s' := Drained(s, t);
    ReadersCounted(s, t, s'.phase[t]);
    assert Owns(s.phase[t]) && Owns(s'.phase[t]);
  }

  lemma TryReadKeepsSafe(s: State, t: Thread)
    requires Safe(s) && PhaseOf(s, t).REnter?
    ensures Safe(ReadTried(s, t))
  {
    if s.writerEntered || s.readerCount == s.limit {
      MovingKeepsSafe(s, t, RAsleep);
    } else {
      var s' := ReadTried(s, t);
      ReadersCounted(s, t, Reading);
      assert Readers(s') == Readers(Moved(s, t, Reading));
      assert forall u :: u in s'.phase ==> !Owns(s'.phase[u]);
    }
  }

  lemma WUnlockKeepsSafe(s: State, t: Thread)
    requires Safe(s) && PhaseOf(s, t).Writing?
    ensures Safe(Moved(s, t, Outside).(writerEntered := false))
  {
    var s' := Moved(s, t, Outside).(writerEntered := false);
    ReadersCounted(s, t, Outside);
    assert Readers(s') == Readers(Moved(s, t, Outside));
    assert Owns(s.phase[t]);
    forall u | u in s.phase && Owns(s.phase[u])
      ensures u == t
    {
    }
  }

  lemma RUnlockKeepsSafe(s: State, t: Thread)
    requires Safe(s) && PhaseOf(s, t).Reading?
    ensures Safe(Left(s, t))
    ensures s.readerCount > 0
  {
    var s' := Left(s, t);
    ReadersCounted(s, t, Outside);
    assert t in Readers(s);
    assert Readers(s') == Readers(Moved(s, t, Outside));
    assert forall u :: u in s.phase && u != t ==> s'.phase[u] == s.phase[u];
    if s.writerEntered {
      var u :| u in s.phase && Owns(s.phase[u]);
      assert u in s'.phase && Owns(s'.phase[u]);
    }
  }

  /** Every step of every thread keeps the invariant. */
  lemma StepKeepsSafe(s: State, t: Thread, step: Step, s': State)
    requires Safe(s) && Next(s, t, step, s')
    ensures Safe(s') && s'.limit == s.limit
  {
    match step
    case BeginWrite => MovingKeepsSafe(s, t, WEnter);
    case BeginRead => MovingKeepsSafe(s, t, REnter);
    case TryWrite => TryWriteKeepsSafe(s, t);
    case TryDrain => TryDrainKeepsSafe(s, t);
    case TryRead => TryReadKeepsSafe(s, t);
    case WUnlock =>
      WUnlockKeepsSafe(s, t);
      AllWokenKeepsSafe(Moved(s, t, Outside).(writerEntered := false));
    case RUnlock =>
      RUnlockKeepsSafe(s, t);
      var left := Left(s, t);
      if s.writerEntered && left.readerCount == 0 {
        OneWokenKeepsSafe(left, s', true);
      } else if !s.writerEntered && left.readerCount == s.limit - 1 {
        OneWokenKeepsSafe(left, s', false);
      }
    case WakeUp => WakingKeepsSafe(s, t);
  }

  lemma {:induction false} RunSafe(run: seq<State>, i: nat)
    requires Run(run) && i < |run|
    ensures Safe(run[i]) && run[i].limit == run[0].limit > 0
    decreases i
  {
    if i == 0 {
      assert Readers(run[0]) == {};
    } else {
      RunSafe(run, i - 1);
      assert Follows(run, i);
      var t, step :| Next(run[i - 1], t, step, run[i]);
      StepKeepsSafe(run[i - 1], t, step, run[i]);
    }
  }

  /** In every state of every run: one writer at most, no reader beside a writer, and the count of
      readers is right, so it neither overflows nor drops below zero. */
  lemma MutualExclusion(run: seq<State>, i: nat, t: Thread, u: Thread)
    requires Run(run) && i < |run|
    ensures PhaseOf(run[i], t).Writing? && PhaseOf(run[i], u).Writing? ==> t == u
    ensures !(PhaseOf(run[i], t).Writing? && PhaseOf(run[i], u).Reading?)
    ensures run[i].readerCount == |Readers(run[i])| <= run[i].limit
  {
    RunSafe(run, i);
    assert PhaseOf(run[i], u).Reading? <==> u in Readers(run[i]);
  }

  // ------------------------------------------------------------------ lost wakeups

  /** Nobody has to wake the writers: a thread asleep in WLock still finds its loop condition true. */
  ghost predicate WritersAwaited(s: State) {
    && (forall t :: t in s.phase && s.phase[t].WAsleep? ==> s.writerEntered)
    && (forall t :: t in s.phase && s.phase[t].WDrainAsleep? ==> s.readerCount > 0)
  }

  /** No wakeup has been lost: whoever sleeps still finds its loop condition true. */
  ghost predicate NoneForgotten(s: State) {
    && WritersAwaited(s)
    && (forall t :: t in s.phase && s.phase[t].RAsleep? ==> s.writerEntered || s.readerCount == s.limit)
  }

  /** A reader leaves a latch filled to its limit, with no writer in, while two threads sleep on
      reader_: only one of them is woken. */
  ghost predicate Loses(s: State, step: Step) {
    && step.RUnlock? && !s.writerEntered && s.readerCount == s.limit
    && exists t, u :: t != u && t in s.phase && u in s.phase && OnReader(s.phase[t]) && OnReader(s.phase[u])
  }

  /** Just a step of this kind leads from s to s'. */
  ghost predicate Lossy(s: State, s': State) {
    exists t, step :: Next(s, t, step, s') && Loses(s, step)
  }

  /** Wakeups of writers are never lost: there is one owner at most to be woken by the last reader, and
      the unlocking writer wakes everybody else. */
  lemma StepAwaitsWriters(s: State, t: Thread, step: Step, s': State)
    requires Safe(s) && WritersAwaited(s) && Next(s, t, step, s')
    ensures WritersAwaited(s')
  {
    if step.RUnlock? {
      RUnlockKeepsSafe(s, t);
      var left := Left(s, t);
      if s.writerEntered && left.readerCount == 0 && exists u :: u in left.phase && Waits(left.phase[u], true) {
        var u :| u in left.phase && Waits(left.phase[u], true) && s' == Moved(left, u, Woken(left.phase[u]));
        assert u in s.phase && Owns(s.phase[u]);
        assert forall v :: v in s.phase && Owns(s.phase[v]) ==> v == u;
      }
    }
  }

  /** A step loses a wakeup exactly if it is of that kind. */
  lemma StepForgetsNone(s: State, t: Thread, step: Step, s': State)
    requires Safe(s) && NoneForgotten(s) && Next(s, t, step, s')
    ensures NoneForgotten(s') <==> !Loses(s, step)
  {
    StepAwaitsWriters(s, t, step, s');
    if step.RUnlock? {
      RUnlockForgets(s, t, s');
    }
  }

  lemma RUnlockForgets(s: State, t: Thread, s': State)
    requires Safe(s) && NoneForgotten(s) && Next(s, t, RUnlock, s') && WritersAwaited(s')
    ensures NoneForgotten(s') <==> !Loses(s, RUnlock)
  {
    var left := Left(s, t);
    if !s.writerEntered && s.readerCount == s.limit {
      if exists u :: u in left.phase && Waits(left.phase[u], false) {
        var u :| u in left.phase && Waits(left.phase[u], false) && s' == Moved(left, u, Woken(left.phase[u]));
        assert u in s.phase && s.phase[u].RAsleep?;
        OthersForgotten(s, t, u, s');
      } else {
        assert forall v :: v in s.phase && v != t ==> left.phase[v] == s.phase[v];
      }
    }
  }

  /** Reader t has left and u has been woken; the other sleepers have not. */
  lemma OthersForgotten(s: State, t: Thread, u: Thread, s': State)
    requires Safe(s) && NoneForgotten(s) && PhaseOf(s, t).Reading? && !s.writerEntered && s.readerCount == s.limit
    requires u in s.phase && OnReader(s.phase[u]) && s' == Moved(Left(s, t), u, Woken(s.phase[u])) && WritersAwaited(s')
    ensures NoneForgotten(s') <==> !Loses(s, RUnlock)
  {
    if Loses(s, RUnlock) {
      var v, w :| v != w && v in s.phase && w in s.phase && OnReader(s.phase[v]) && OnReader(s.phase[w]);
      var x := if v == u then w else v;
      assert s'.phase[x].RAsleep?;
    } else {
      forall v | v in s'.phase
        ensures !s'.phase[v].RAsleep?
      {
        assert v != u && v in s.phase && OnReader(s.phase[v]) ==> Loses(s, RUnlock);
      }
    }
  }

  /** In every run, whatever happens to the readers. */
  lemma {:induction false} RunAwaitsWriters(run: seq<State>, i: nat)
    requires Run(run) && i < |run|
    ensures WritersAwaited(run[i])
    decreases i
  {
    if i > 0 {
      RunAwaitsWriters(run, i - 1);
      RunSafe(run, i - 1);
      assert Follows(run, i);
      var t, step :| Next(run[i - 1], t, step, run[i]);
      StepAwaitsWriters(run[i - 1], t, step, run[i]);
    }
  }

  /** Up to state i, no step of a run is of the kind that loses a wakeup. */
  ghost predicate Lossless(run: seq<State>, i: nat) {
    forall j :: 0 < j <= i && j < |run| ==> !LossyAt(run, j)
  }

  ghost predicate LossyAt(run: seq<State>, j: int)
    requires 0 < j < |run|
  {
    Lossy(run[j - 1], run[j])
  }

  lemma LossyForgets(s: State, s': State)
    requires Safe(s) && NoneForgotten(s) && Leads(s, s')
    ensures NoneForgotten(s') <==> !Lossy(s, s')
  {
    if Lossy(s, s') {
      var t, step :| Next(s, t, step, s') && Loses(s, step);
      StepForgetsNone(s, t, step, s');
    } else {
      var t, step :| Next(s, t, step, s');
      StepForgetsNone(s, t, step, s');
    }
  }

  /** A run never has a sleeper that should be awake, exactly if it has no step of that kind. */
  lemma {:induction false} RunForgetsNone(run: seq<State>, i: nat)
    requires Run(run) && i < |run|
    ensures (forall j :: 0 <= j <= i ==> NoneForgotten(run[j])) <==> Lossless(run, i)
    decreases i
  {
    if i > 0 {
      RunForgetsNone(run, i - 1);
      RunSafe(run, i - 1);
      assert Follows(run, i);
      if NoneForgotten(run[i - 1]) {
        LossyForgets(run[i - 1], run[i]);
      }
      assert Lossless(run, i) <==> Lossless(run, i - 1) && !LossyAt(run, i);
      assert (forall j :: 0 <= j <= i ==> NoneForgotten(run[j]))
        <==> (forall j :: 0 <= j <= i - 1 ==> NoneForgotten(run[j])) && NoneForgotten(run[i]);
    }
  }

  // ------------------------------------------------------------------ progress

  predicate Holds(p: Phase) {
    p.Writing? || p.Reading?
  }

  predicate Waiting(p: Phase) {
    !p.Outside? && !Holds(p)
  }

  /** Thread t is awake, and its next step gets it the latch. */
  ghost predicate CanProceed(s: State, t: Thread) {
    exists step, s' :: Next(s, t, step, s') && Holds(PhaseOf(s', t))
  }

  /** Nobody holds the latch, so nobody counts as a reader. */
  lemma NobodyReads(s: State)
    requires Safe(s) && forall u :: !Holds(PhaseOf(s, u))
    ensures s.readerCount == 0
  {
    forall u
      ensures u !in Readers(s)
    {
      assert !Holds(PhaseOf(s, u));
    }
    assert Readers(s) == {};
  }

  /** If nobody holds the latch but thread w waits, then w itself is awake and can proceed, or the
      writer that has entered is and can; unless w is a reader whose wakeup has been lost. */
  lemma SomeoneProceeds(s: State, w: Thread) returns (t: Thread)
    requires Safe(s) && WritersAwaited(s) && s.readerCount == 0 < s.limit
    requires forall u :: !Holds(PhaseOf(s, u))
    requires Waiting(PhaseOf(s, w)) && (s.writerEntered || !PhaseOf(s, w).RAsleep?)
    ensures Waiting(PhaseOf(s, t)) && CanProceed(s, t)
  {
    if s.writerEntered {
      t :| t in s.phase && Owns(s.phase[t]);
      assert !Holds(PhaseOf(s, t));
      assert Next(s, t, TryDrain, Drained(s, t)) && Holds(PhaseOf(Drained(s, t), t));
    } else {
      t := w;
      if s.phase[t].WEnter? {
        assert Next(s, t, TryWrite, Written(s, t)) && Holds(PhaseOf(Written(s, t), t));
      } else {
        assert Next(s, t, TryRead, ReadTried(s, t)) && Holds(PhaseOf(ReadTried(s, t), t));
      }
    }
  }

  /** As long as no step has lost a wakeup: whenever nobody holds the latch but some thread waits for
      it, some waiting thread is awake and gets it with its next step. */
  lemma NoDeadlock(run: seq<State>, i: nat, w: Thread) returns (t: Thread)
    requires Run(run) && i < |run| && Lossless(run, i)
    requires forall u :: !Holds(PhaseOf(run[i], u))
    requires Waiting(PhaseOf(run[i], w))
    ensures Waiting(PhaseOf(run[i], t)) && CanProceed(run[i], t)
  {
    RunSafe(run, i);
    RunForgetsNone(run, i);
    NobodyReads(run[i]);
    t := SomeoneProceeds(run[i], w);
  }

  /** In any run: when nobody holds the latch but some thread waits, nobody can go on exactly if no
      writer has entered and all that wait are readers asleep. */
  lemma DeadlockExactly(run: seq<State>, i: nat, w: Thread)
    requires Run(run) && i < |run|
    requires forall u :: !Holds(PhaseOf(run[i], u))
    requires Waiting(PhaseOf(run[i], w))
    ensures var s := run[i];
            (forall t :: Waiting(PhaseOf(s, t)) ==> !CanProceed(s, t))
            <==> !s.writerEntered && forall t :: Waiting(PhaseOf(s, t)) ==> PhaseOf(s, t).RAsleep?
  {
    var s := run[i];
    RunSafe(run, i);
    RunAwaitsWriters(run, i);
    NobodyReads(s);
    if t :| Waiting(PhaseOf(s, t)) && (s.writerEntered || !PhaseOf(s, t).RAsleep?) {
      var u := SomeoneProceeds(s, t);
    } else {
      forall t | Waiting(PhaseOf(s, t))
        ensures !CanProceed(s, t)
      {
        forall step, s' | Next(s, t, step, s')
          ensures !Holds(PhaseOf(s', t))
        {
        }
      }
    }
  }

  /** Below the limit no step loses a wakeup. */
  lemma LosslessBelowLimit(run: seq<State>, i: nat)
    requires Run(run) && i < |run| && forall j :: 0 <= j < i ==> run[j].readerCount < run[j].limit
    ensures Lossless(run, i)
  {
    forall j | 0 < j <= i && j < |run|
      ensures !LossyAt(run, j)
    {
      assert run[j - 1].readerCount < run[j - 1].limit;
    }
  }

  // ------------------------------------------------------------------ what a call to the latch means

  /** In a call to WLock, or in one to RLock. */
  predicate InWLock(p: Phase) {
    p.WEnter? || p.WAsleep? || p.WDrain? || p.WDrainAsleep?
  }

  predicate InRLock(p: Phase) {
    p.REnter? || p.RAsleep?
  }

  predicate Asleep(p: Phase) {
    p.WAsleep? || p.WDrainAsleep? || p.RAsleep?
  }

  /** Both phases belong to the same call, or to no call, or to the same hold on the latch. */
  predicate SameCall(p: Phase, q: Phase) {
    (InWLock(p) <==> InWLock(q)) && (InRLock(p) <==> InRLock(q)) && (p.Writing? <==> q.Writing?)
    && (p.Reading? <==> q.Reading?)
  }

  /** A step leaves the other threads in their calls; at most, it wakes one or more that are asleep.  The
      thread itself begins a call, goes on in it, gets out of it with the latch, or gives the latch up. */
  lemma StepMovesOne(s: State, t: Thread, step: Step, s': State, u: Thread)
    requires Next(s, t, step, s')
    ensures u != t ==> SameCall(PhaseOf(s, u), PhaseOf(s', u))
    ensures u != t && PhaseOf(s', u) != PhaseOf(s, u) ==> Asleep(PhaseOf(s, u)) && !Asleep(PhaseOf(s', u))
    ensures var p, q := PhaseOf(s, t), PhaseOf(s', t);
            || SameCall(p, q) || (p.Outside? && (InWLock(q) || InRLock(q)))
            || (InWLock(p) && q.Writing?) || (InRLock(p) && q.Reading?) || ((p.Writing? || p.Reading?) && q.Outside?)
  {
  }

  /** Whether a thread gets past a loop is for its condition to say, and nothing else: it holds the latch
      or waits in the next loop if the condition is false, and is asleep if it is true. */
  lemma LoopsDecide(s: State, t: Thread, step: Step, s': State)
    requires Safe(s) && Next(s, t, step, s')
    ensures step.TryWrite? ==>
              && s'.writerEntered && s'.readerCount == s.readerCount
              && (PhaseOf(s', t).WAsleep? <==> s.writerEntered)
              && (PhaseOf(s', t).WDrainAsleep? <==> !s.writerEntered && s.readerCount > 0)
              && (PhaseOf(s', t).Writing? <==> !s.writerEntered && s.readerCount == 0)
    ensures step.TryDrain? ==>
              && s'.writerEntered && s'.readerCount == s.readerCount
              && (PhaseOf(s', t).WDrainAsleep? <==> s.readerCount > 0)
              && (PhaseOf(s', t).Writing? <==> s.readerCount == 0)
    ensures step.TryRead? ==>
              && s'.writerEntered == s.writerEntered
              && (PhaseOf(s', t).RAsleep? <==> s.writerEntered || s.readerCount == s.limit)
              && (PhaseOf(s', t).Reading? <==> !s.writerEntered && s.readerCount < s.limit)
  {
    assert PhaseOf(s, t).WDrain? ==> Owns(s.phase[t]);
  }

  /** While a writer is in, no thread becomes a reader, and the writer stays in until it unlocks. */
  lemma StepShutsOut(s: State, t: Thread, step: Step, s': State, w: Thread)
    requires Safe(s) && Next(s, t, step, s') && Owns(PhaseOf(s, w))
    ensures s.writerEntered && Readers(s') <= Readers(s) && s'.readerCount <= s.readerCount
    ensures Owns(PhaseOf(s', w)) || (t == w && step.WUnlock? && PhaseOf(s', w).Outside?)
  {
    StepKeepsSafe(s, t, step, s');
    assert w in s.phase && Owns(s.phase[w]);
    forall u | u in Readers(s')
      ensures u in Readers(s)
    {
      StepMovesOne(s, t, step, s', u);
      LoopsDecide(s, t, step, s');
      assert PhaseOf(s', u).Reading?;
    }
    assert Readers(s') <= Readers(s);
    Fewer(Readers(s'), Readers(s));
  }

  lemma Fewer(a: set<Thread>, b: set<Thread>)
    requires a <= b
    ensures |a| <= |b|
  {
    assert b == a + (b - a);
  }

  /** In every run: from the step in which a writer enters until it unlocks, which is when it is outside
      again, no thread becomes a reader, and no other writer enters. */
  lemma {:induction false} WriterShutsOut(run: seq<State>, j: nat, i: nat, w: Thread)
    requires Run(run) && j <= i < |run| && Owns(PhaseOf(run[j], w))
    requires forall k :: j <= k <= i ==> !PhaseOf(run[k], w).Outside?
    ensures run[i].writerEntered && Readers(run[i]) <= Readers(run[j]) && run[i].readerCount <= run[j].readerCount
    ensures forall u :: Owns(PhaseOf(run[i], u)) <==> u == w
    decreases i
  {
    RunSafe(run, i);
    if j < i {
      WriterShutsOut(run, j, i - 1, w);
      RunSafe(run, i - 1);
      assert Follows(run, i);
      var t, step :| Next(run[i - 1], t, step, run[i]);
      assert Owns(PhaseOf(run[i - 1], w));
      StepShutsOut(run[i - 1], t, step, run[i], w);
    }
    assert w in run[i].phase && Owns(run[i].phase[w]);
    assert forall u :: Owns(PhaseOf(run[i], u)) ==> u in run[i].phase && Owns(run[i].phase[u]);
  }

  /** A writer that has entered needs nobody but the readers that are in: once they have left it is awake,
      or awakened already, and writes with its next step. */
  lemma WriterGetsIn(run: seq<State>, i: nat, w: Thread)
    requires Run(run) && i < |run| && Owns(PhaseOf(run[i], w)) && Readers(run[i]) == {}
    ensures PhaseOf(run[i], w).Writing? || (PhaseOf(run[i], w).WDrain? && CanProceed(run[i], w))
  {
    RunSafe(run, i);
    RunAwaitsWriters(run, i);
    var s := run[i];
    assert w in s.phase && s.readerCount == 0;
    if s.phase[w].WDrain? {
      assert Next(s, w, TryDrain, Drained(s, w)) && Holds(PhaseOf(Drained(s, w), w));
    }
  }

  // ------------------------------------------------------------------ at the limit

  lemma Extend(run: seq<State>, t: Thread, step: Step, s: State) returns (longer: seq<State>)
    requires Run(run) && Next(run[|run| - 1], t, step, s)
    ensures Run(longer) && longer == run + [s]
  {
    longer := run + [s];
    forall i | 0 < i < |longer|
      ensures Follows(longer, i)
    {
      if i < |run| {
        assert Follows(run, i);
        assert longer[i - 1] == run[i - 1] && longer[i] == run[i];
      } else {
        assert Leads(longer[i - 1], longer[i]);
      }
    }
  }

  /** Threads 1 to n read; 0 and -1 are where they are, and all others outside. */
  ghost predicate Crowd(s: State, limit: int, n: int, p: Phase, q: Phase) {
    && s.limit == limit && s.readerCount == n && !s.writerEntered && PhaseOf(s, 0) == p && PhaseOf(s, -1) == q
    && forall t :: t != 0 && t != -1 ==> PhaseOf(s, t) == if 1 <= t <= n then Reading else Outside
  }

  /** One of the crowd comes or goes. */
  lemma CrowdChanges(s: State, s': State, limit: int, n: int, n': int, p: Phase, q: Phase)
    requires Crowd(s, limit, n, p, q) && s' == s.(readerCount := n', phase := s'.phase) && 0 <= n && 0 <= n'
    requires forall t :: PhaseOf(s', t) == if n < t <= n' then Reading else if n' < t <= n then Outside
             else PhaseOf(s, t)
    ensures Crowd(s', limit, n', p, q)
  {
  }

  lemma {:induction false} CrowdEnters(limit: int, n: nat) returns (run: seq<State>)
    requires n <= limit && limit > 0
    ensures Run(run) && Crowd(run[|run| - 1], limit, n, Outside, Outside)
  {
    if n == 0 {
      run := [State(limit, 0, false, map[])];
    } else {
      run := CrowdEnters(limit, n - 1);
      var s := run[|run| - 1];
      var s1 := Moved(s, n, REnter);
      run := Extend(run, n, BeginRead, s1);
      run := Extend(run, n, TryRead, ReadTried(s1, n));
      CrowdChanges(s, ReadTried(s1, n), limit, n - 1, n, Outside, Outside);
    }
  }

  /** Thread t goes to sleep in front of a filled latch. */
  lemma GoesToSleep(run: seq<State>, t: Thread) returns (longer: seq<State>)
    requires Run(run) && PhaseOf(run[|run| - 1], t).Outside?
    requires run[|run| - 1].readerCount == run[|run| - 1].limit
    ensures Run(longer) && longer[|longer| - 1] == Moved(Moved(run[|run| - 1], t, REnter), t, RAsleep)
  {
    var s1 := Moved(run[|run| - 1], t, REnter);
    longer := Extend(run, t, BeginRead, s1);
    longer := Extend(longer, t, TryRead, ReadTried(s1, t));
  }

  /** Below the limit readers leave without waking anybody. */
  lemma {:induction false} CrowdLeaves(run: seq<State>, limit: int, n: nat) returns (longer: seq<State>)
    requires Run(run) && Crowd(run[|run| - 1], limit, n, REnter, RAsleep) && n < limit
    ensures Run(longer) && Crowd(longer[|longer| - 1], limit, 0, REnter, RAsleep)
    decreases n
  {
    if n == 0 {
      longer := run;
    } else {
      var s := run[|run| - 1];
      assert PhaseOf(s, n).Reading?;
      longer := Extend(run, n, RUnlock, Left(s, n));
      CrowdChanges(s, Left(s, n), limit, n, n - 1, REnter, RAsleep);
      longer := CrowdLeaves(longer, limit, n - 1);
    }
  }

  /** When the first reader leaves, thread 0 may be the one to be woken. */
  lemma FirstWoken(s0: State, full: State, limit: int, s: State)
    requires limit >= 2 && Crowd(s0, limit, limit, Outside, Outside)
    requires full == Moved(Moved(Moved(Moved(s0, 0, REnter), 0, RAsleep), -1, REnter), -1, RAsleep)
    requires s == Moved(Left(full, limit), 0, REnter)
    ensures Next(full, limit, RUnlock, s) && Crowd(s, limit, limit - 1, REnter, RAsleep)
  {
    var left := Left(full, limit);
    assert PhaseOf(s0, limit).Reading? && PhaseOf(full, limit).Reading?;
    assert left.phase[0] == RAsleep && OneWoken(left, s, false);
    forall t | t != 0 && t != -1
      ensures PhaseOf(s, t) == if 1 <= t <= limit - 1 then Reading else Outside
    {
      assert PhaseOf(s0, t) == if 1 <= t <= limit then Reading else Outside;
    }
  }

  /** For every limit from 2 on: when the latch is full, 0 and -1 go to sleep; the first reader to leave
      wakes 0, but all the others and then 0 itself leave without waking -1, which sleeps on beside a
      free latch. */
  lemma ReaderForgotten(limit: int) returns (run: seq<State>)
    requires limit >= 2
    ensures Run(run) && run[0].limit == limit
    ensures var s := run[|run| - 1];
            && PhaseOf(s, -1).RAsleep? && !s.writerEntered && s.readerCount == 0
            && forall u :: u != -1 ==> PhaseOf(s, u).Outside?
  {
    run := CrowdEnters(limit, limit);
    var s0 := run[|run| - 1];
    run := GoesToSleep(run, 0);
    run := GoesToSleep(run, -1);
    var full := run[|run| - 1];
    assert PhaseOf(s0, limit).Reading? && PhaseOf(full, limit).Reading?;
    var s := Moved(Left(full, limit), 0, REnter);
    FirstWoken(s0, full, limit, s);
    run := Extend(run, limit, RUnlock, s);
    run := CrowdLeaves(run, limit, limit - 1);
    var s2 := run[|run| - 1];
    var s1 := ReadTried(s2, 0);
    run := Extend(run, 0, TryRead, s1);
    run := Extend(run, 0, RUnlock, Left(s1, 0));
    RunSafe(run, |run| - 1);
    forall u | u != -1
      ensures PhaseOf(Left(s1, 0), u).Outside?
    {
      assert u != 0 ==> PhaseOf(s2, u).Outside?;
    }
  }
}
