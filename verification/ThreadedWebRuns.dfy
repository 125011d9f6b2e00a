/** Whole runs of the threaded web server: every way of finishing the work, and every run once all slots are lost. */
module ThreadedWebRuns {
  import opened Options
  import opened Sums
  import opened ThreadedWebQueue

  /** None of these steps, one after the other, is blocked. */
  predicate Effective(s: State, steps: seq<(nat, nat)>)
    requires Fits(s)
    decreases |steps|
  {
    steps == [] ||
    match Step(s, steps[0].0, steps[0].1)
    case None => false
    case Some(s') => Fits(s') && Effective(s', steps[1..])
  }

  // ---------- finishing the work, in any order ----------

  /** And none of them answers an accept: no client connects. */
  predicate Draining(s: State, steps: seq<(nat, nat)>)
    requires Fits(s)
    decreases |steps|
  {
    steps == [] ||
    match Step(s, steps[0].0, steps[0].1)
    case None => false
    case Some(s') => s.threads[steps[0].0].pc != InAccept && Fits(s') && Draining(s', steps[1..])
  }

  /** The steps a thread takes before it stands at its semaphore or in accept, and 7 for an item it still announces. */
  function Work(t: Thread): nat {
    match t.pc
    case WantSlot => 1
    case InAccept => 0
    case WantLock => 13
    case PushLocked => 12
    case PushWritten => 11
    case Pushed => 10
    case PushPosted => 2
    case WantItem => 0
    case Claimed => 6
    case PopLocked => 5
    case PopShifted => 4
    case Popped => 3
    case PopPosted => 2
    case Handling => 1
  }

  function Remaining(s: State): nat {
    Sum(Work, s.threads) + 7 * s.notEmpty
  }

  lemma OwnProgress(s: State, i: nat, choice: nat, s': State)
    requires Fits(s) && Step(s, i, choice) == Some(s') && s.threads[i].pc != InAccept
    ensures i < |s.threads| && s'.threads == s.threads[i := s'.threads[i]] && s'.lost == s.lost
    ensures Work(s'.threads[i]) + 7 * s'.notEmpty + 1 == Work(s.threads[i]) + 7 * s.notEmpty
    ensures Accepts(s'.threads[i].pc) == Accepts(s.threads[i].pc)
  {
  }

  lemma StepMakesProgress(s: State, i: nat, choice: nat, s': State)
    requires Fits(s) && Step(s, i, choice) == Some(s') && s.threads[i].pc != InAccept
    ensures Remaining(s') + 1 == Remaining(s)
  {
    OwnProgress(s, i, choice, s');
    SumUpdate(Work, s.threads, i, s'.threads[i]);
  }

  ghost predicate HasWorker(s: State) {
    exists w :: 0 <= w < |s.threads| && !Accepts(s.threads[w].pc)
  }

  lemma WorkerStays(s: State, i: nat, choice: nat, s': State)
    requires Fits(s) && Step(s, i, choice) == Some(s') && HasWorker(s)
    ensures HasWorker(s')
  {
    StepEffect(s, i, choice, s');
    var w :| 0 <= w < |s.threads| && !Accepts(s.threads[w].pc);
    assert !Accepts(s'.threads[w].pc);
  }

  /** Nothing can happen but that a client connects, or that accept fails. */
  ghost predicate Quiet(s: State)
    requires Fits(s)
  {
    forall i :: 0 <= i < |s.threads| ==> s.threads[i].pc == InAccept || Step(s, i, 0).None?
  }

  /** The queue is empty, and all threads wait at their semaphores or in accept; those that wait for a slot find
      none. */
  ghost predicate Resting(s: State) {
    && s.qSize == 0
    && (forall i :: 0 <= i < |s.threads| ==> AtRestWith(s, s.threads[i].pc))
  }

  predicate AtRestWith(s: State, pc: Pc) {
    pc == InAccept || pc == WantItem || (pc == WantSlot && s.notFull == 0)
  }

  lemma QuietHoldsNoLock(s: State)
    requires Inv(s) && Fits(s) && Quiet(s)
    ensures s.lock == 1
  {
    forall i | 0 <= i < |s.threads| ensures HoldsLock(s.threads[i]) == 0 {
      PushHasRoomPopHasItem(s, i);
      assert s.threads[i].pc == InAccept || Step(s, i, 0).None?;
    }
    SumZero(HoldsLock, s.threads);
  }

  lemma QuietAtRest(s: State, i: nat)
    requires Inv(s) && Fits(s) && Quiet(s) && i < |s.threads|
    ensures AtRestWith(s, s.threads[i].pc)
    ensures s.threads[i].pc == WantItem ==> s.notEmpty == 0
  {
    QuietHoldsNoLock(s);
    PushHasRoomPopHasItem(s, i);
    assert s.threads[i].pc == InAccept || Step(s, i, 0).None?;
  }

  /** Threads at rest neither own nor owe an item. */
  lemma NoItemsInHands(s: State)
    requires forall i :: 0 <= i < |s.threads| ==> AtRestWith(s, s.threads[i].pc)
    ensures Sum(OwnsItem, s.threads) == 0 && Sum(OwesItem, s.threads) == 0 && Sum(Shifting, s.threads) == 0
  {
    SumZero(OwnsItem, s.threads);
    SumZero(OwesItem, s.threads);
    SumZero(Shifting, s.threads);
  }

  lemma QuietIffResting(s: State)
    requires Inv(s) && Fits(s) && HasWorker(s)
    ensures Quiet(s) <==> Resting(s)
    ensures Resting(s) ==> s.popped == s.pushed
  {
    if Quiet(s) {
      forall i | 0 <= i < |s.threads| ensures AtRestWith(s, s.threads[i].pc) {
        QuietAtRest(s, i);
      }
      NoItemsInHands(s);
      var w :| 0 <= w < |s.threads| && !Accepts(s.threads[w].pc);
      QuietAtRest(s, w);
    }
    if Resting(s) {
      NoItemsInHands(s);
      assert Queue(s) == [];
      forall i | 0 <= i < |s.threads| ensures s.threads[i].pc == InAccept || Step(s, i, 0).None? {
        assert AtRestWith(s, s.threads[i].pc);
      }
    }
  }

  /** No order of steps goes on for ever, and one that cannot go on has emptied the queue. */
  lemma {:induction false} EveryDrainEnds(s: State, steps: seq<(nat, nat)>)
    requires Inv(s) && Fits(s) && HasWorker(s) && Draining(s, steps)
    ensures var f := Exec(s, steps);
      && |steps| + Remaining(f) == Remaining(s)
      && Inv(f) && Fits(f) && HasWorker(f)
      && (Quiet(f) <==> Resting(f))
      && (Quiet(f) ==> f.popped == f.pushed)
    decreases |steps|
  {
    if steps == [] {
      QuietIffResting(s);
    } else {
      var s' := Step(s, steps[0].0, steps[0].1).value;
      StepMakesProgress(s, steps[0].0, steps[0].1, s');
      StepKeepsInv(s, steps[0].0, steps[0].1, s');
      WorkerStays(s, steps[0].0, steps[0].1, s');
      EveryDrainEnds(s', steps[1..]);
    }
  }

  // ---------- after the last slot is lost ----------

  /** The steps a thread takes back to its semaphore once it holds neither a slot nor an item. */
  function Homeward(t: Thread): nat {
    match t.pc
    case PushPosted => 1
    case PopPosted => 2
    case Handling => 1
    case _ => 0
  }

  /** With all slots lost nobody holds a slot or an item, and no semaphore lets anybody through. */
  lemma NothingLeft(s: State, i: nat)
    requires Inv(s) && s.lost == s.max && i < |s.threads|
    ensures s.notFull == 0 && s.notEmpty == 0
    ensures var pc := s.threads[i].pc;
      pc == WantSlot || pc == WantItem || pc == PushPosted || pc == PopPosted || pc == Handling
  {
    SumAtLeastOne(OwnsSlot, s.threads, i);
    SumAtLeastOne(OwesSlot, s.threads, i);
    SumAtLeastOne(OwnsItem, s.threads, i);
    SumAtLeastOne(OwesItem, s.threads, i);
  }

  lemma HomewardStep(s: State, i: nat, choice: nat, s': State)
    requires Inv(s) && Fits(s) && s.lost == s.max && Step(s, i, choice) == Some(s')
    ensures s'.lost == s'.max == s.max
    ensures Sum(Homeward, s'.threads) + 1 == Sum(Homeward, s.threads)
  {
    NothingLeft(s, i);
    SumUpdate(Homeward, s.threads, i, s'.threads[i]);
  }

  lemma StuckIffHome(s: State)
    requires Inv(s) && Fits(s) && s.lost == s.max
    ensures Stuck(s) <==> Sum(Homeward, s.threads) == 0
  {
    SumZero(Homeward, s.threads);
    forall i | 0 <= i < |s.threads|
      ensures Homeward(s.threads[i]) == 0 <==> forall choice: nat :: Step(s, i, choice).None?
    {
      NothingLeft(s, i);
      assert Homeward(s.threads[i]) != 0 ==> Step(s, i, 0).Some?;
    }
  }

  /** From then on, however the threads are scheduled and whatever accept answers, exactly these steps are left, and
      after them the server has stopped for good. */
  lemma {:induction false} EveryRunStops(s: State, steps: seq<(nat, nat)>)
    requires Inv(s) && Fits(s) && s.lost == s.max && Effective(s, steps)
    ensures var f := Exec(s, steps);
      && Inv(f) && Fits(f) && f.lost == f.max
      && |steps| + Sum(Homeward, f.threads) == Sum(Homeward, s.threads)
      && (Stuck(f) <==> |steps| == Sum(Homeward, s.threads))
    decreases |steps|
  {
    if steps == [] {
      StuckIffHome(s);
    } else {
      var s' := Step(s, steps[0].0, steps[0].1).value;
      StepKeepsInv(s, steps[0].0, steps[0].1, s');
      HomewardStep(s, steps[0].0, steps[0].1, s');
      EveryRunStops(s', steps[1..]);
    }
  }

  /** The same from the program's start, for every run in which as many accepts fail as there are slots. */
  lemma AllLostStops(s: State, schedule: seq<(nat, nat)>, steps: seq<(nat, nat)>)
    requires Init(s) && Exec(s, schedule).lost == s.max
    requires Fits(Exec(s, schedule)) && Effective(Exec(s, schedule), steps)
    ensures var f := Exec(s, schedule); var g := Exec(f, steps);
      Fits(g) && |steps| <= Sum(Homeward, f.threads) && (Stuck(g) <==> |steps| == Sum(Homeward, f.threads))
  {
    InitInv(s);
    ExecKeepsInv(s, schedule);
    MaxKept(s, schedule);
    EveryRunStops(Exec(s, schedule), steps);
  }
}
