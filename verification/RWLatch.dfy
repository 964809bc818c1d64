/** The latch itself: two fields under a mutex and two conditions to wait on.  A method is one
    critical section of a thread, up to where it unlocks the mutex or waits; what a woken thread does
    next is the method for its loop again. */
module RWLatch {
  import opened LatchProtocol

  class ReaderWriterLatch {
    const MAX_READERS: int
    var readerCount: int
    var writerEntered: bool

    /** Where the threads are. */
    ghost var phase: map<Thread, Phase>

    ghost function View(): State
      reads this
    {
      State(MAX_READERS, readerCount, writerEntered, phase)
    }

    constructor (maxReaders: int)
      requires maxReaders > 0
      ensures Initial(View()) && Safe(View()) && MAX_READERS == maxReaders
    {
      MAX_READERS, readerCount, writerEntered, phase := maxReaders, 0, false, map[];
      new;
      assert Readers(View()) == {};
    }

    /** The first loop of WLock and what follows it. */
    method EnterWrite(t: Thread) returns (p: Phase)
      requires Safe(View()) && PhaseOf(View(), t).WEnter?
      modifies this
      ensures Next(old(View()), t, TryWrite, View()) && Safe(View()) && p == PhaseOf(View(), t)
      ensures writerEntered && readerCount == old(readerCount)
      ensures p == if old(writerEntered) then WAsleep else if readerCount > 0 then WDrainAsleep else Writing
    {
      StepKeepsSafe(View(), t, TryWrite, Written(View(), t));
      if writerEntered {
        p := WAsleep;
      } else {
        writerEntered := true;
        p := if readerCount > 0 then WDrainAsleep else Writing;
      }
      phase := phase[t := p];
    }

    /** The second loop of WLock, after a wakeup. */
    method DrainReaders(t: Thread) returns (p: Phase)
      requires Safe(View()) && PhaseOf(View(), t).WDrain?
      modifies this
      ensures Next(old(View()), t, TryDrain, View()) && Safe(View()) && p == PhaseOf(View(), t)
      ensures writerEntered && readerCount == old(readerCount)
      ensures p == if readerCount > 0 then WDrainAsleep else Writing
    {
      StepKeepsSafe(View(), t, TryDrain, Drained(View(), t));
      p := if readerCount > 0 then WDrainAsleep else Writing;
      phase := phase[t := p];
    }

    method WUnlock(t: Thread)
      requires Safe(View()) && PhaseOf(View(), t).Writing?
      modifies this
      ensures Next(old(View()), t, Step.WUnlock, View()) && Safe(View())
      ensures !writerEntered && readerCount == old(readerCount) == 0
      ensures forall u :: !OnReader(PhaseOf(View(), u))
    {
      ghost var s := AllReadersWoken(Moved(View(), t, Outside).(writerEntered := false));
      StepKeepsSafe(View(), t, Step.WUnlock, s);
      writerEntered := false;
      phase := s.phase;
    }

    /** The loop of RLock and what follows it. */
    method EnterRead(t: Thread) returns (p: Phase)
      requires Safe(View()) && PhaseOf(View(), t).REnter?
      modifies this
      ensures Next(old(View()), t, TryRead, View()) && Safe(View()) && p == PhaseOf(View(), t)
      ensures writerEntered == old(writerEntered)
      ensures p == if old(writerEntered || readerCount == MAX_READERS) then RAsleep else Reading
      ensures readerCount == old(readerCount) + if p.Reading? then 1 else 0
    {
      StepKeepsSafe(View(), t, TryRead, ReadTried(View(), t));
      if writerEntered || readerCount == MAX_READERS {
        p := RAsleep;
      } else {
        readerCount := readerCount + 1;
        p := Reading;
      }
      phase := phase[t := p];
    }

    /** The counter is unsigned and would wrap around to MAX_READERS below zero; it never does. */
    method RUnlock(t: Thread)
      requires Safe(View()) && PhaseOf(View(), t).Reading?
      modifies this
      ensures Next(old(View()), t, Step.RUnlock, View()) && Safe(View())
      ensures readerCount == old(readerCount) - 1 && writerEntered == old(writerEntered)
    {
      ghost var s := View();
      RUnlockKeepsSafe(s, t);
      readerCount := if readerCount == 0 then MAX_READERS else readerCount - 1;
      phase := phase[t := Outside];
      assert readerCount != MAX_READERS;
      if writerEntered {
        if readerCount == 0 {
          NotifyOne(true);
        }
      } else {
        if readerCount == MAX_READERS - 1 {
          NotifyOne(false);
        }
      }
      StepKeepsSafe(s, t, Step.RUnlock, View());
    }

    /** Which of the sleeping threads is woken is not for the latch to say. */
    ghost method NotifyOne(onWriter: bool)
      modifies `phase
      ensures OneWoken(old(View()), View(), onWriter)
    {
      if u :| u in phase && Waits(phase[u], onWriter) {
        phase := phase[u := Woken(phase[u])];
        assert View() == Moved(old(View()), u, Woken(old(phase)[u]));
      }
    }
  }
}
