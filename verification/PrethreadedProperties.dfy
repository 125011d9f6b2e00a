/** What holds of the prethreaded server in every run, whatever the schedule and the clients do. */
module PrethreadedProperties {
  import opened Options
  import opened Sums
  import opened Sbuf
  import opened BoundedFifo
  import opened PrethreadedServer

  // ---------- the ring is a bounded FIFO ----------

  /** The items removed are a prefix of the items inserted, at most n are waiting, and the cells after the last one
      removed hold exactly those, in order. */
  ghost predicate IsFifo(f: State) {
    && f.removed <= f.inserted
    && |Queue(f)| <= f.ring.n == |f.ring.buf|
    && forall k :: 0 <= k < |Queue(f)| ==> f.ring.buf[(|f.removed| + 1 + k) % f.ring.n] == Queue(f)[k]
  }

  /** That holds in every run. */
  lemma RunsAreFifo(s: State, schedule: seq<(nat, nat)>)
    requires Init(s)
    ensures IsFifo(Exec(s, schedule))
  {
    InitInv(s);
    ExecKeepsInv(s, schedule);
    InvIsFifo(Exec(s, schedule));
  }

  lemma InvIsFifo(f: State)
    requires LocksInv(f) && CountsInv(f) && HistoryInv(f)
    ensures IsFifo(f)
  {
    SumBelow(f.threads);
    QueueInCells(f);
  }

  lemma QueueInCells(f: State)
    requires 0 < f.ring.n == |f.ring.buf| && HistoryInv(f)
    ensures forall k :: 0 <= k < |Queue(f)| ==> f.ring.buf[(|f.removed| + 1 + k) % f.ring.n] == Queue(f)[k]
  {
    forall k | 0 <= k < |Queue(f)| ensures f.ring.buf[(|f.removed| + 1 + k) % f.ring.n] == Queue(f)[k] {
      var cell := |f.removed| + 1 + k;
      assert f.ring.buf[cell % f.ring.n] == f.inserted[cell - 1];
    }
  }

  /** Each step is a step of the abstract queue: a store appends, a fetch delivers the head, the rest change nothing. */
  lemma StepRefinesFifo(s: State, i: nat, choice: nat, s': State)
    requires Inv(s) && Step(s, i, choice) == Some(s')
    ensures FifoStep(s.ring.n, Queue(s), Queue(s'))
    ensures s.threads[i].pc == InsBumped ==> Queue(s') == Queue(s) + [s.threads[i].conn]
    ensures s.threads[i].pc == RemBumped ==> Queue(s) == [s'.threads[i].conn] + Queue(s')
    ensures s.threads[i].pc != InsBumped && s.threads[i].pc != RemBumped ==> Queue(s') == Queue(s)
  {
    StepEffect(s, i, choice, s');
    QueueEffect(s, i, s');
  }

  /** The ring once a thread inside sbuf_insert or sbuf_remove has run to the end undisturbed, and how many turns
      that takes. */
  function Completed(r: Ring, t: Thread): (Ring, nat)
    requires 0 < r.n == |r.buf|
  {
    match t.pc
    case WantSlot => if r.slots == 0 then (r, 0) else (Inserted(r, t.conn), 7)
    case WantLock => (Inserted(r.(slots := r.slots + 1), t.conn), 6)
    case InsLocked => (Inserted(r.(slots := r.slots + 1, mutex := r.mutex + 1), t.conn), 5)
    case InsLoaded => (r.(rear := t.index, buf := r.buf[t.index % r.n := t.conn], mutex := r.mutex + 1,
      items := r.items + 1), 4)
    case InsBumped => (r.(buf := r.buf[t.index % r.n := t.conn], mutex := r.mutex + 1, items := r.items + 1), 3)
    case InsStored => (r.(mutex := r.mutex + 1, items := r.items + 1), 2)
    case Announcing => (r.(items := r.items + 1), 1)
    case WantItem => if r.items == 0 then (r, 0) else (Removed(r), 7)
    case Claimed => (Removed(r.(items := r.items + 1)), 6)
    case RemLocked => (Removed(r.(items := r.items + 1, mutex := r.mutex + 1)), 5)
    case RemLoaded => (r.(front := t.index, mutex := r.mutex + 1, slots := r.slots + 1), 4)
    case RemBumped => (r.(mutex := r.mutex + 1, slots := r.slots + 1), 3)
    case RemFetched => (r.(mutex := r.mutex + 1, slots := r.slots + 1), 2)
    case Releasing => (r.(slots := r.slots + 1), 1)
    case _ => (r, 0)
  }

  /** Left alone with the lock free, a thread in sbuf_insert or sbuf_remove finishes with the whole call's effect. */
  lemma {:induction false} RunsAlone(s: State, i: nat)
    requires 0 < s.ring.n == |s.ring.buf| && i < |s.threads|
    requires s.threads[i].pc == WantLock || s.threads[i].pc == WantSlot ==> 0 < s.ring.mutex
    requires s.threads[i].pc == Claimed || s.threads[i].pc == WantItem ==> 0 < s.ring.mutex
    ensures Exec(s, Turns(i, Completed(s.ring, s.threads[i]).1)).ring == Completed(s.ring, s.threads[i]).0
    decreases Completed(s.ring, s.threads[i]).1
  {
    var k := Completed(s.ring, s.threads[i]).1;
    if k > 0 {
      var s' := Step(s, i, 0).value;
      AloneStep(s, i);
      Turn(s, i, k);
      if k > 1 {
        RunsAlone(s', i);
      } else {
        assert Turns(i, 0) == [];
      }
    }
  }

  /** The step that an undisturbed thread takes leaves the same to be completed, in one turn less. */
  ghost predicate OneTurnLess(s: State, i: nat, s': State)
    requires 0 < s.ring.n == |s.ring.buf| && i < |s.threads|
  {
    var (r, k), t' := Completed(s.ring, s.threads[i]), if i < |s'.threads| then s'.threads[i] else s.threads[i];
    && |s'.threads| == |s.threads| && s'.ring.n == |s'.ring.buf| == s.ring.n
    && (k == 1 ==> s'.ring == r)
    && (k > 1 ==>
          && Completed(s'.ring, t') == (r, k - 1)
          && (t'.pc == WantLock || t'.pc == Claimed ==> s'.ring.mutex == s.ring.mutex)
          && t'.pc != WantSlot && t'.pc != WantItem)
  }

  lemma AloneInserts(s: State, i: nat)
    requires 0 < s.ring.n == |s.ring.buf| && i < |s.threads| && Inserting(s.threads[i].pc)
    requires s.threads[i].pc == WantLock ==> 0 < s.ring.mutex
    requires 0 < Completed(s.ring, s.threads[i]).1
    ensures InsertStep(s, i).Some? && OneTurnLess(s, i, InsertStep(s, i).value)
  {
  }

  lemma AloneClaims(s: State, i: nat)
    requires 0 < s.ring.n == |s.ring.buf| && i < |s.threads|
    requires s.threads[i].pc == WantItem || s.threads[i].pc == Claimed || s.threads[i].pc == RemLocked
    requires s.threads[i].pc == Claimed ==> 0 < s.ring.mutex
    requires 0 < Completed(s.ring, s.threads[i]).1
    ensures RemoveStep(s, i).Some? && OneTurnLess(s, i, RemoveStep(s, i).value)
  {
  }

  lemma AloneFetches(s: State, i: nat)
    requires 0 < s.ring.n == |s.ring.buf| && i < |s.threads| && Removing(s.threads[i].pc)
    requires s.threads[i].pc != WantItem && s.threads[i].pc != Claimed && s.threads[i].pc != RemLocked
    requires 0 < Completed(s.ring, s.threads[i]).1
    ensures RemoveStep(s, i).Some? && OneTurnLess(s, i, RemoveStep(s, i).value)
  {
  }

  lemma AloneStep(s: State, i: nat)
    requires 0 < s.ring.n == |s.ring.buf| && i < |s.threads|
    requires s.threads[i].pc == WantLock || s.threads[i].pc == Claimed ==> 0 < s.ring.mutex
    requires 0 < Completed(s.ring, s.threads[i]).1
    ensures Step(s, i, 0).Some? && OneTurnLess(s, i, Step(s, i, 0).value)
  {
    if Inserting(s.threads[i].pc) {
      AloneInserts(s, i);
    } else if s.threads[i].pc == WantItem || s.threads[i].pc == Claimed || s.threads[i].pc == RemLocked {
      AloneClaims(s, i);
    } else {
      AloneFetches(s, i);
    }
  }

  /** `k` turns in a row for thread `i`. */
  function Turns(i: nat, k: nat): seq<(nat, nat)> {
    seq(k, _ => (i, 0))
  }

  lemma Turn(s: State, i: nat, k: nat)
    requires 0 < s.ring.n == |s.ring.buf| && 0 < k && Step(s, i, 0).Some?
    ensures Exec(s, Turns(i, k)) == Exec(Step(s, i, 0).value, Turns(i, k - 1))
  {
    assert Turns(i, k)[1..] == Turns(i, k - 1);
  }

  // ---------- no deadlock ----------

  /** Nothing can move except by a new connection arriving. */
  ghost predicate Quiet(s: State)
    requires 0 < s.ring.n == |s.ring.buf|
  {
    forall i :: 0 <= i < |s.threads| ==> s.threads[i].pc == Accepting || Step(s, i, 0).None?
  }

  ghost predicate Idle(s: State) {
    && (forall i :: 0 <= i < |s.threads| ==> s.threads[i].pc == Accepting || s.threads[i].pc == WantItem)
    && s.ring.items == 0
  }

  ghost predicate HasWorker(s: State) {
    exists w :: 0 <= w < |s.threads| && !Inserting(s.threads[w].pc)
  }

  /** If no thread can move, nobody holds the buffer lock or the counter lock: a holder is never blocked. */
  lemma QuietLocksFree(s: State)
    requires Inv(s) && Quiet(s)
    ensures s.ring.mutex == 1
    ensures s.once ==> s.cntMutex == 1
  {
    forall i | 0 <= i < |s.threads| ensures HoldsLock(s.threads[i]) == 0 && HoldsCounter(s.threads[i]) == 0 {
      assert s.threads[i].pc == Accepting || Step(s, i, 0).None?;
    }
    SumZero(HoldsLock, s.threads);
    SumZero(HoldsCounter, s.threads);
  }

  lemma QuietPc(s: State, i: nat)
    requires Inv(s) && Quiet(s) && i < |s.threads|
    ensures s.threads[i].pc == Accepting || s.threads[i].pc == WantItem || s.threads[i].pc == WantSlot
    ensures s.threads[i].pc == WantItem ==> s.ring.items == 0
    ensures s.threads[i].pc == WantSlot ==> s.ring.slots == 0
  {
    QuietLocksFree(s);
    assert s.threads[i].pc == LineRead ==> s.once by {
      assert !s.once ==> !AfterOnce(s.threads[i]);
    }
    assert s.threads[i].pc == Accepting || Step(s, i, 0).None?;
  }

  lemma {:induction false} OutsideSums(ts: seq<Thread>)
    requires forall i :: 0 <= i < |ts| ==> ts[i].pc == Accepting || ts[i].pc == WantItem || ts[i].pc == WantSlot
    ensures Sum(OwnsSlot, ts) == 0 && Sum(OwesSlot, ts) == 0 && Sum(OwnsItem, ts) == 0 && Sum(OwesItem, ts) == 0
    ensures Sum(Unstored, ts) == 0 && Sum(Unfetched, ts) == 0
  {
    if ts != [] {
      OutsideSums(ts[1..]);
    }
  }

  /** With a worker present, the only states where nothing moves are those with no work left: every thread
      at the head of its loop, all n slots free, nothing waiting. */
  lemma QuietIffIdle(s: State)
    requires Inv(s) && HasWorker(s)
    ensures Quiet(s) <==> Idle(s)
    ensures Idle(s) ==> s.ring.slots == s.ring.n && Queue(s) == []
  {
    if Quiet(s) {
      forall i | 0 <= i < |s.threads|
        ensures s.threads[i].pc == Accepting || s.threads[i].pc == WantItem || s.threads[i].pc == WantSlot
        ensures s.threads[i].pc == WantItem ==> s.ring.items == 0
        ensures s.threads[i].pc == WantSlot ==> s.ring.slots == 0
      {
        QuietPc(s, i);
      }
      OutsideSums(s.threads);
      var w :| 0 <= w < |s.threads| && !Inserting(s.threads[w].pc);
      assert s.threads[w].pc == WantItem;
    }
    if Idle(s) {
      OutsideSums(s.threads);
    }
  }

  /** Deadlock freedom: with at least one producer and one worker some step is always enabled. */
  lemma NoDeadlock(s: State, schedule: seq<(nat, nat)>)
    requires Init(s)
    requires HasWorker(s)
    requires exists p :: 0 <= p < |s.threads| && Inserting(s.threads[p].pc)
    ensures exists i :: 0 <= i < |s.threads| && Step(Exec(s, schedule), i, 0).Some?
  {
    InitInv(s);
    ExecKeepsInv(s, schedule);
    RolesKept(s, schedule);
    var f := Exec(s, schedule);
    var w :| 0 <= w < |s.threads| && !Inserting(s.threads[w].pc);
    assert !Inserting(f.threads[w].pc);
    var p :| 0 <= p < |s.threads| && Inserting(s.threads[p].pc);
    assert Inserting(f.threads[p].pc);
    QuietIffIdle(f);
    if Quiet(f) {
      assert f.threads[p].pc == Accepting;
      assert Step(f, p, 0).Some?;
    }
  }

  /** A producer stays a producer and a worker a worker. */
  lemma {:induction false} RolesKept(s: State, schedule: seq<(nat, nat)>)
    requires Inv(s)
    ensures |Exec(s, schedule).threads| == |s.threads|
    ensures forall i :: 0 <= i < |s.threads| ==>
      Inserting(Exec(s, schedule).threads[i].pc) == Inserting(s.threads[i].pc)
    decreases |schedule|
  {
    if schedule != [] {
      var i, choice := schedule[0].0, schedule[0].1;
      match Step(s, i, choice) {
        case None => RolesKept(s, schedule[1..]);
        case Some(s') =>
          StepKeepsInv(s, i, choice, s');
          StepKeepsRoles(s, i, choice, s');
          RolesKept(s', schedule[1..]);
      }
    }
  }

  lemma StepKeepsRoles(s: State, i: nat, choice: nat, s': State)
    requires 0 < s.ring.n == |s.ring.buf| && Step(s, i, choice) == Some(s')
    ensures |s'.threads| == |s.threads|
    ensures forall j :: 0 <= j < |s.threads| ==> Inserting(s'.threads[j].pc) == Inserting(s.threads[j].pc)
  {
    if Inserting(s.threads[i].pc) {
      InsertKeepsRole(s, i, s');
    } else if Removing(s.threads[i].pc) {
      RemoveKeepsRole(s, i, s');
    } else {
      ServeKeepsRole(s, i, choice, s');
    }
  }

  lemma InsertKeepsRole(s: State, i: nat, s': State)
    requires 0 < s.ring.n == |s.ring.buf| && i < |s.threads| && Inserting(s.threads[i].pc)
      && InsertStep(s, i) == Some(s')
    ensures Moved(s, i, s') && Inserting(s'.threads[i].pc)
  {
  }

  lemma RemoveKeepsRole(s: State, i: nat, s': State)
    requires 0 < s.ring.n == |s.ring.buf| && i < |s.threads| && Removing(s.threads[i].pc)
      && RemoveStep(s, i) == Some(s')
    ensures Moved(s, i, s') && !Inserting(s'.threads[i].pc)
  {
  }

  lemma ServeKeepsRole(s: State, i: nat, choice: nat, s': State)
    requires i < |s.threads| && !Inserting(s.threads[i].pc) && !Removing(s.threads[i].pc)
      && ServeStep(s, i, choice) == Some(s')
    ensures Moved(s, i, s') && !Inserting(s'.threads[i].pc)
  {
  }

  // ---------- every accepted connection can be served and closed ----------

  /** An upper bound on the steps a thread still takes before it is back at the head of its loop. */
  function Work(t: Thread): nat {
    match t.pc
    case WantSlot => 17
    case WantLock => 16
    case InsLocked => 15
    case InsLoaded => 14
    case InsBumped => 13
    case InsStored => 12
    case Announcing => 11
    case Claimed => 9
    case RemLocked => 8
    case RemLoaded => 7
    case RemBumped => 6
    case RemFetched => 5
    case Releasing => 4
    case Opening => 3
    case LineRead => 6
    case CntLocked => 5
    case CntLoaded => 4
    case CntStored => 3
    case Serving => 2
    case Closing => 1
    case Accepting => 0
    case WantItem => 0
  }

  function Remaining(s: State): nat {
    Sum(Work, s.threads) + 10 * s.ring.items
  }

  /** Once clients send no more lines, every step but an accept is progress. */
  lemma StepMakesProgress(s: State, i: nat, s': State)
    requires 0 < s.ring.n == |s.ring.buf| && Step(s, i, 0) == Some(s') && s.threads[i].pc != Accepting
    ensures Remaining(s') < Remaining(s) && s'.accepted == s.accepted
  {
    SumUpdate(Work, s.threads, i, s'.threads[i]);
    OwnProgress(s, i, s');
  }

  lemma OwnProgress(s: State, i: nat, s': State)
    requires 0 < s.ring.n == |s.ring.buf| && Step(s, i, 0) == Some(s') && s.threads[i].pc != Accepting
    ensures s'.threads == s.threads[i := s'.threads[i]]
    ensures Work(s'.threads[i]) + 10 * s'.ring.items < Work(s.threads[i]) + 10 * s.ring.items
    ensures s'.accepted == s.accepted
  {
  }

  lemma WorkerStays(s: State, i: nat, s': State)
    requires 0 < s.ring.n == |s.ring.buf| && Step(s, i, 0) == Some(s') && HasWorker(s)
    ensures HasWorker(s')
  {
    StepKeepsRoles(s, i, 0, s');
    var w: nat :| w < |s.threads| && !Inserting(s.threads[w].pc);
    assert !Inserting(s'.threads[w].pc);
  }

  lemma DrainStep(s: State, i: nat, s': State)
    requires Inv(s) && HasWorker(s) && Step(s, i, 0) == Some(s') && s.threads[i].pc != Accepting
    ensures Inv(s') && HasWorker(s') && Remaining(s') < Remaining(s) && s'.accepted == s.accepted
  {
    StepMakesProgress(s, i, s');
    StepKeepsInv(s, i, 0, s');
    WorkerStays(s, i, s');
  }

  /** From any reachable state, if clients hang up, some schedule without accepts finishes all the work. */
  lemma {:induction false} Drain(s: State) returns (schedule: seq<(nat, nat)>)
    requires Inv(s) && HasWorker(s)
    ensures var f := Exec(s, schedule); Inv(f) && HasWorker(f) && Idle(f) && f.accepted == s.accepted
    decreases Remaining(s)
  {
    QuietIffIdle(s);
    if Quiet(s) {
      schedule := [];
    } else {
      var i: nat :| i < |s.threads| && s.threads[i].pc != Accepting && Step(s, i, 0).Some?;
      var s' := Step(s, i, 0).value;
      DrainStep(s, i, s');
      var rest := Drain(s');
      schedule := [(i, 0)] + rest;
      assert schedule[1..] == rest;
    }
  }

  /** When no work is left every accepted connection has been closed, once. */
  lemma IdleMeansClosed(f: State, c: nat)
    requires Inv(f) && HasWorker(f) && Idle(f) && c < f.accepted
    ensures Sum(Is(c), f.closed) == 1
  {
    QuietIffIdle(f);
    EmptyHands(f.threads, c);
    assert Places(f, c) == 1;
  }

  /** Every connection accepted so far has been closed exactly once. */
  ghost predicate AllClosed(f: State, accepted: nat) {
    f.accepted == accepted && forall c: nat :: c < accepted ==> Sum(Is(c), f.closed) == 1
  }

  /** The connections accepted so far can all still be closed. */
  ghost predicate CanCloseAll(f: State)
    requires 0 < f.ring.n == |f.ring.buf|
  {
    exists rest: seq<(nat, nat)> :: AllClosed(Exec(f, rest), f.accepted)
  }

  /** Every accepted connection can still be closed, exactly once, from every reachable state. */
  lemma EveryConnectionCanBeClosed(s: State, schedule: seq<(nat, nat)>)
    requires Init(s) && HasWorker(s)
    ensures CanCloseAll(Exec(s, schedule))
  {
    InitInv(s);
    ExecKeepsInv(s, schedule);
    WorkerStaysInRun(s, schedule);
    DrainCloses(Exec(s, schedule));
  }

  lemma DrainCloses(f: State)
    requires Inv(f) && HasWorker(f)
    ensures CanCloseAll(f)
  {
    var rest := Drain(f);
    forall c: nat | c < f.accepted ensures Sum(Is(c), Exec(f, rest).closed) == 1 {
      IdleMeansClosed(Exec(f, rest), c);
    }
    assert AllClosed(Exec(f, rest), f.accepted);
  }

  lemma WorkerStaysInRun(s: State, schedule: seq<(nat, nat)>)
    requires Inv(s) && HasWorker(s)
    ensures HasWorker(Exec(s, schedule))
  {
    RolesKept(s, schedule);
    var w: nat :| w < |s.threads| && !Inserting(s.threads[w].pc);
    assert !Inserting(Exec(s, schedule).threads[w].pc);
  }

  // ---------- ownership of connections ----------

  /** In every run each accepted connection is in exactly one place: one thread's hand, the queue, or the
      closed list; one not yet accepted is nowhere. */
  lemma OnePlaceEach(s: State, schedule: seq<(nat, nat)>, c: nat)
    requires Init(s)
    ensures Places(Exec(s, schedule), c) == if c < Exec(s, schedule).accepted then 1 else 0
  {
    InitInv(s);
    ExecKeepsInv(s, schedule);
  }

  /** A connection in a thread's hand is nowhere else. */
  lemma InOneHand(s: State, i: nat, c: nat)
    requires OwnershipInv(s) && i < |s.threads| && Holding(s.threads[i]) == Some(c)
    ensures c < s.accepted && c !in Queue(s) && c !in s.closed
    ensures forall j :: 0 <= j < |s.threads| && j != i ==> Holding(s.threads[j]) != Some(c)
  {
    assert Places(s, c) == if c < s.accepted then 1 else 0;
    SumAtLeastOne(Hand(c), s.threads, i);
    SumZero(Is(c), Queue(s));
    SumZero(Is(c), s.closed);
    forall j | 0 <= j < |s.threads| && j != i ensures Holding(s.threads[j]) != Some(c) {
      if i < j {
        SumAtLeastTwo(Hand(c), s.threads, i, j);
      } else {
        SumAtLeastTwo(Hand(c), s.threads, j, i);
      }
    }
    assert forall x :: x in Queue(s) ==> Is(c)(x) == 0;
    assert forall x :: x in s.closed ==> Is(c)(x) == 0;
  }

  /** No connection is handled by two threads, and none that a thread still handles is waiting or closed. */
  lemma NoSharing(s: State, schedule: seq<(nat, nat)>, i: nat, c: nat)
    requires Init(s)
    requires i < |Exec(s, schedule).threads| && Holding(Exec(s, schedule).threads[i]) == Some(c)
    ensures var f := Exec(s, schedule);
      && c < f.accepted && c !in Queue(f) && c !in f.closed
      && forall j :: 0 <= j < |f.threads| && j != i ==> Holding(f.threads[j]) != Some(c)
  {
    InitInv(s);
    ExecKeepsInv(s, schedule);
    InOneHand(Exec(s, schedule), i, c);
  }

  // ---------- the byte counter ----------

  /** `byte_cnt` never loses an update: it differs from the bytes read by exactly the lines still in flight. */
  lemma CounterConserved(s: State, schedule: seq<(nat, nat)>)
    requires Init(s)
    ensures var f := Exec(s, schedule); f.byteCnt + Sum(Uncounted, f.threads) == f.linesRead
  {
    InitInv(s);
    ExecKeepsInv(s, schedule);
  }

  /** The counter equals the bytes read exactly when no worker is between reading a line and storing the sum;
      that its lock is free is not enough. */
  lemma CounterExactIff(s: State, schedule: seq<(nat, nat)>)
    requires Init(s)
    ensures var f := Exec(s, schedule);
      f.byteCnt == f.linesRead <==> forall i :: 0 <= i < |f.threads| ==> !MidLine(f.threads[i])
  {
    InitInv(s);
    ExecKeepsInv(s, schedule);
    var f := Exec(s, schedule);
    SumZero(Uncounted, f.threads);
    if f.byteCnt == f.linesRead {
      forall i | 0 <= i < |f.threads| ensures !MidLine(f.threads[i]) {
        assert Uncounted(f.threads[i]) == 0;
      }
    }
  }

  /** A state with the counter's lock free in which `byte_cnt` lags behind: one worker has read a line and
      has not yet asked for the lock. */
  lemma LockFreeIsNotEnough(s: State, i: nat, len: nat)
    requires Inv(s) && i < |s.threads| && s.threads[i].pc == Serving && s.cntMutex == 1 && 0 < len
    ensures Step(s, i, len).Some?
    ensures Step(s, i, len).value.cntMutex == 1 && Step(s, i, len).value.byteCnt < Step(s, i, len).value.linesRead
  {
    var s' := Step(s, i, len).value;
    StepKeepsInv(s, i, len, s');
    SumAtLeastOne(Uncounted, s'.threads, i);
  }

  // ---------- one accept loop, as in echoservert_pre.c ----------

  function Iota(n: nat): seq<nat> {
    seq(n, i => i)
  }

  /** Everything stored so far, then the connection the single accept loop has in hand, is 0, 1, 2, ... */
  ghost predicate InOrder(s: State, p: nat) {
    && p < |s.threads|
    && Inserting(s.threads[p].pc)
    && (forall j :: 0 <= j < |s.threads| && j != p ==> !Inserting(s.threads[j].pc))
    && s.inserted + (if Carries(s.threads[p].pc) then [s.threads[p].conn] else []) == Iota(s.accepted)
  }

  lemma StepKeepsOrder(s: State, p: nat, i: nat, choice: nat, s': State)
    requires 0 < s.ring.n == |s.ring.buf| && InOrder(s, p) && Step(s, i, choice) == Some(s')
    ensures InOrder(s', p)
  {
    StepKeepsRoles(s, i, choice, s');
    if i == p {
      ProducerKeepsOrder(s, p, s');
    }
  }

  lemma ProducerKeepsOrder(s: State, p: nat, s': State)
    requires 0 < s.ring.n == |s.ring.buf| && p < |s.threads| && Inserting(s.threads[p].pc)
    requires s.inserted + (if Carries(s.threads[p].pc) then [s.threads[p].conn] else []) == Iota(s.accepted)
    requires InsertStep(s, p) == Some(s')
    ensures s'.inserted + (if Carries(s'.threads[p].pc) then [s'.threads[p].conn] else []) == Iota(s'.accepted)
  {
    assert Iota(s.accepted + 1) == Iota(s.accepted) + [s.accepted];
  }

  /** With one accept loop, workers take connections in the order they were accepted. */
  lemma {:induction false} ServedInOrder(s: State, p: nat, schedule: seq<(nat, nat)>)
    requires Inv(s) && InOrder(s, p)
    ensures Exec(s, schedule).removed <= Iota(Exec(s, schedule).accepted)
    decreases |schedule|
  {
    if schedule != [] {
      match Step(s, schedule[0].0, schedule[0].1) {
        case None => ServedInOrder(s, p, schedule[1..]);
        case Some(s') =>
          StepKeepsInv(s, schedule[0].0, schedule[0].1, s');
          StepKeepsOrder(s, p, schedule[0].0, schedule[0].1, s');
          ServedInOrder(s', p, schedule[1..]);
      }
    } else {
      assert s.removed <= s.inserted <= Iota(s.accepted);
    }
  }

  /** The program as started by main: SBUFSIZE cells, thread 0 accepts, NTHREADS workers. */
  const SBUFSIZE: nat := 20
  const NTHREADS: nat := 4

  function Start(): State {
    var at := (pc: Pc) => Thread(pc, 0, 0, 0, 0);
    State(Empty(SBUFSIZE), [at(Accepting)] + seq(NTHREADS, _ => at(WantItem)), false, 0, 0, 0, [], [], [], 0)
  }

  lemma ProgramServesInOrder(schedule: seq<(nat, nat)>)
    ensures Exec(Start(), schedule).removed <= Iota(Exec(Start(), schedule).accepted)
    ensures exists i :: 0 <= i < 1 + NTHREADS && Step(Exec(Start(), schedule), i, 0).Some?
  {
    var s := Start();
    InitInv(s);
    assert InOrder(s, 0);
    ServedInOrder(s, 0, schedule);
    assert s.threads[1].pc == WantItem;
    NoDeadlock(s, schedule);
  }
}
