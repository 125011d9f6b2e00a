/**
 The client queue of labs/threaded-webserver/http_server.c: an array that pop shifts down, a lock, and two
 semaphores. The accepting thread takes a slot before accept; when accept fails it starts over and the slot
 is gone for good.
 */
module ThreadedWebQueue {
  import opened Options
  import opened Sums
  import opened BoundedFifo

  /** The array after pop's loop: cells 1 .. size-1 move down by one, the rest stay. */
  function ShiftDown<T>(q: seq<T>, size: nat): seq<T>
    requires 0 < size <= |q|
  {
    q[1..size] + q[size - 1..]
  }

  class ClientQueue<T> {
    var queue: array<T>
    var qSize: nat

    ghost predicate Valid()
      reads this
    {
      qSize <= queue.Length
    }

    ghost function Waiting(): seq<T>
      requires Valid()
      reads this, queue
    {
      queue[..qSize]
    }

    /** push: the semaphore q_not_full has already guaranteed room. */
    method Push(item: T)
      requires Valid() && qSize < queue.Length
      modifies this`qSize, queue
      ensures Valid() && queue[..] == old(queue[..])[old(qSize) := item]
      ensures Waiting() == old(Waiting()) + [item]
    {
      queue[qSize] := item;
      qSize := qSize + 1;
    }

    /** pop: the semaphore q_not_empty has already guaranteed an item. */
    method Pop() returns (item: T)
      requires Valid() && 0 < qSize
      modifies this`qSize, queue
      ensures Valid() && queue[..] == ShiftDown(old(queue[..]), old(qSize))
      ensures [item] + Waiting() == old(Waiting())
    {
      item := queue[0];
      var i := 1;
      while i < qSize
        invariant 1 <= i <= qSize == old(qSize)
        invariant forall k :: 0 <= k < i - 1 ==> queue[k] == old(queue[k + 1])
        invariant forall k :: i - 1 <= k < queue.Length ==> queue[k] == old(queue[k])
      {
        queue[i - 1] := queue[i];
        i := i + 1;
      }
      assert queue[..] == ShiftDown(old(queue[..]), old(qSize));
      qSize := qSize - 1;
    }
  }

  // ---------- the step system ----------

  datatype Pc =
    // http_server_run
    | WantSlot    // before sem_wait(q_not_full)
    | InAccept    // holds a slot, waiting for a client
    | WantLock    // has a client, before the lock
    | PushLocked
    | PushWritten // cell written, q_size not yet incremented
    | Pushed      // before sem_post(q_not_empty)
    | PushPosted  // before unlock
    // worker
    | WantItem    // before sem_wait(q_not_empty)
    | Claimed     // before the lock
    | PopLocked
    | PopShifted  // cells moved, q_size not yet decremented
    | Popped      // before sem_post(q_not_full)
    | PopPosted   // before unlock
    | Handling    // in handle_client

  datatype Thread = Thread(pc: Pc, client: nat)

  /** `lost` counts failed accepts; `pushed` and `popped` record the history. */
  datatype State = State(
    max: nat, queue: seq<nat>, qSize: nat, lock: nat, notFull: nat, notEmpty: nat,
    threads: seq<Thread>, lost: nat, pushed: seq<nat>, popped: seq<nat>)

  ghost predicate Init(s: State) {
    && 0 < s.max == |s.queue|
    && s.qSize == 0 && s.lock == 1 && s.notFull == s.max && s.notEmpty == 0
    && (forall i :: 0 <= i < |s.threads| ==> s.threads[i].pc == WantSlot || s.threads[i].pc == WantItem)
    && s.lost == 0 && s.pushed == [] && s.popped == []
  }

  predicate Accepts(pc: Pc) {
    pc.WantSlot? || pc.InAccept? || pc.WantLock? || pc.PushLocked? || pc.PushWritten? || pc.Pushed? || pc.PushPosted?
  }

  predicate Fits(s: State) {
    0 < s.max == |s.queue| && s.qSize <= s.max
  }

  function Goto(s: State, i: nat, t: Thread): State
    requires i < |s.threads|
  {
    s.(threads := s.threads[i := t])
  }

  /** `choice` answers accept: 0 for failure, otherwise the client. None means blocked, or (shown unreachable)
      a push beyond the array or a pop of nothing. */
  function Step(s: State, i: nat, choice: nat): Option<State>
    requires Fits(s)
  {
    if i >= |s.threads| then None
    else if Accepts(s.threads[i].pc) then AcceptStep(s, i, choice)
    else WorkerStep(s, i)
  }

  function AcceptStep(s: State, i: nat, choice: nat): Option<State>
    requires Fits(s) && i < |s.threads| && Accepts(s.threads[i].pc)
  {
    var t := s.threads[i];
    match t.pc
    case WantSlot =>
      if s.notFull == 0 then None else Some(Goto(s, i, t.(pc := InAccept)).(notFull := s.notFull - 1))
    case InAccept =>
      if choice == 0 then Some(Goto(s, i, t.(pc := WantSlot)).(lost := s.lost + 1))
      else Some(Goto(s, i, t.(pc := WantLock, client := choice)))
    case WantLock =>
      if s.lock == 0 then None else Some(Goto(s, i, t.(pc := PushLocked)).(lock := s.lock - 1))
    case PushLocked =>
      if s.qSize == s.max then None
      else Some(Goto(s, i, t.(pc := PushWritten)).(queue := s.queue[s.qSize := t.client]))
    case PushWritten =>
      if s.qSize == s.max then None
      else Some(Goto(s, i, t.(pc := Pushed)).(qSize := s.qSize + 1, pushed := s.pushed + [t.client]))
    case Pushed =>
      Some(Goto(s, i, t.(pc := PushPosted)).(notEmpty := s.notEmpty + 1))
    case PushPosted =>
      Some(Goto(s, i, t.(pc := WantSlot)).(lock := s.lock + 1))
  }

  function WorkerStep(s: State, i: nat): Option<State>
    requires Fits(s) && i < |s.threads| && !Accepts(s.threads[i].pc)
  {
    var t := s.threads[i];
    match t.pc
    case WantItem =>
      if s.notEmpty == 0 then None else Some(Goto(s, i, t.(pc := Claimed)).(notEmpty := s.notEmpty - 1))
    case Claimed =>
      if s.lock == 0 then None else Some(Goto(s, i, t.(pc := PopLocked)).(lock := s.lock - 1))
    case PopLocked =>
      if s.qSize == 0 then None
      else Some(Goto(s, i, t.(pc := PopShifted, client := s.queue[0])).(queue := ShiftDown(s.queue, s.qSize)))
    case PopShifted =>
      if s.qSize == 0 then None
      else Some(Goto(s, i, t.(pc := Popped)).(qSize := s.qSize - 1, popped := s.popped + [t.client]))
    case Popped =>
      Some(Goto(s, i, t.(pc := PopPosted)).(notFull := s.notFull + 1))
    case PopPosted =>
      Some(Goto(s, i, t.(pc := Handling)).(lock := s.lock + 1))
    case Handling =>
      Some(Goto(s, i, t.(pc := WantItem)))
  }

  function Exec(s: State, schedule: seq<(nat, nat)>): State
    requires Fits(s)
    decreases |schedule|
  {
    if schedule == [] then s
    else
      match Step(s, schedule[0].0, schedule[0].1)
      case None => Exec(s, schedule[1..])
      case Some(s') => if Fits(s') then Exec(s', schedule[1..]) else s'
  }

  // ---------- invariant ----------

  function HoldsLock(t: Thread): nat {
    if t.pc.PushLocked? || t.pc.PushWritten? || t.pc.Pushed? || t.pc.PushPosted? || t.pc.PopLocked? || t.pc.PopShifted?
      || t.pc.Popped? || t.pc.PopPosted?
    then 1 else 0
  }

  /** A slot taken from q_not_full and not yet turned into a queue entry. */
  function OwnsSlot(t: Thread): nat {
    if t.pc.InAccept? || t.pc.WantLock? || t.pc.PushLocked? || t.pc.PushWritten? then 1 else 0
  }

  /** An entry removed whose slot is not yet posted. */
  function OwesSlot(t: Thread): nat { if t.pc.Popped? then 1 else 0 }

  function OwesItem(t: Thread): nat { if t.pc.Pushed? then 1 else 0 }

  function OwnsItem(t: Thread): nat {
    if t.pc.Claimed? || t.pc.PopLocked? || t.pc.PopShifted? then 1 else 0
  }

  function Shifting(t: Thread): nat { if t.pc.PopShifted? then 1 else 0 }

  ghost predicate LocksInv(s: State) {
    s.lock + Sum(HoldsLock, s.threads) == 1
  }

  /** Slots free, held, used, owed and lost make up the whole array. */
  ghost predicate CountsInv(s: State) {
    && 0 < s.max == |s.queue|
    && s.notFull + Sum(OwnsSlot, s.threads) + s.qSize + Sum(OwesSlot, s.threads) + s.lost == s.max
    && s.qSize == s.notEmpty + Sum(OwesItem, s.threads) + Sum(OwnsItem, s.threads)
  }

  /** The abstract queue. */
  function Queue(s: State): seq<nat> {
    if |s.popped| <= |s.pushed| then s.pushed[|s.popped|..] else []
  }

  ghost predicate RegistersOk(s: State, t: Thread) {
    && (t.pc.PushWritten? ==> s.qSize < |s.queue| && s.queue[s.qSize] == t.client)
    && (t.pc.PopShifted? ==> 0 < s.qSize <= |s.queue| && [t.client] + s.queue[..s.qSize - 1] == Queue(s))
  }

  ghost predicate ContentsInv(s: State) {
    && s.qSize <= |s.queue|
    && s.popped <= s.pushed
    && (forall i :: 0 <= i < |s.threads| ==> RegistersOk(s, s.threads[i]))
    && (Sum(Shifting, s.threads) == 0 ==> s.queue[..s.qSize] == Queue(s))
  }

  ghost predicate Inv(s: State) {
    LocksInv(s) && CountsInv(s) && ContentsInv(s)
  }

  // ---------- one step ----------

  ghost predicate Moved(s: State, i: nat, s': State) {
    && i < |s.threads| == |s'.threads|
    && s'.threads == s.threads[i := s'.threads[i]]
  }

  ghost predicate CountEffect(s: State, t: Thread, s': State, t': Thread) {
    && s'.max == s.max && |s'.queue| == |s.queue|
    && s'.lock + HoldsLock(t') == s.lock + HoldsLock(t)
    && s'.notFull + OwnsSlot(t') + s'.qSize + OwesSlot(t') + s'.lost == s.notFull + OwnsSlot(t) + s.qSize
      + OwesSlot(t) + s.lost
    && s'.qSize - s'.notEmpty - OwesItem(t') - OwnsItem(t') == s.qSize - s.notEmpty - OwesItem(t) - OwnsItem(t)
    && (Accepts(t'.pc) <==> Accepts(t.pc))
  }

  ghost predicate DataEffect(s: State, t: Thread, s': State, t': Thread) {
    match t.pc
    case PushLocked =>
      && t'.pc == PushWritten && t'.client == t.client && s.qSize < |s.queue|
      && s' == s.(threads := s'.threads, queue := s.queue[s.qSize := t.client])
    case PushWritten =>
      && t'.pc == Pushed
      && s' == s.(threads := s'.threads, qSize := s.qSize + 1, pushed := s.pushed + [t.client])
    case PopLocked =>
      && t'.pc == PopShifted && 0 < s.qSize <= |s.queue| && t'.client == s.queue[0]
      && s' == s.(threads := s'.threads, queue := ShiftDown(s.queue, s.qSize))
    case PopShifted =>
      && t'.pc == Popped && 0 < s.qSize
      && s' == s.(threads := s'.threads, qSize := s.qSize - 1, popped := s.popped + [t.client])
    case _ =>
      && t'.pc != PushWritten && t'.pc != PopShifted
      && s'.queue == s.queue && s'.qSize == s.qSize && s'.pushed == s.pushed && s'.popped == s.popped
  }

  lemma AcceptCounts(s: State, i: nat, choice: nat, s': State)
    requires Fits(s) && i < |s.threads| && Accepts(s.threads[i].pc) && AcceptStep(s, i, choice) == Some(s')
    ensures Moved(s, i, s') && CountEffect(s, s.threads[i], s', s'.threads[i])
  {
  }

  lemma AcceptData(s: State, i: nat, choice: nat, s': State)
    requires Fits(s) && i < |s.threads| && Accepts(s.threads[i].pc) && AcceptStep(s, i, choice) == Some(s')
    ensures Moved(s, i, s') && DataEffect(s, s.threads[i], s', s'.threads[i])
  {
  }

  lemma WorkerCounts(s: State, i: nat, s': State)
    requires Fits(s) && i < |s.threads| && !Accepts(s.threads[i].pc) && WorkerStep(s, i) == Some(s')
    ensures Moved(s, i, s') && CountEffect(s, s.threads[i], s', s'.threads[i])
  {
  }

  lemma WorkerData(s: State, i: nat, s': State)
    requires Fits(s) && i < |s.threads| && !Accepts(s.threads[i].pc) && WorkerStep(s, i) == Some(s')
    ensures Moved(s, i, s') && DataEffect(s, s.threads[i], s', s'.threads[i])
  {
  }

  lemma StepEffect(s: State, i: nat, choice: nat, s': State)
    requires Fits(s) && Step(s, i, choice) == Some(s')
    ensures Moved(s, i, s')
    ensures CountEffect(s, s.threads[i], s', s'.threads[i]) && DataEffect(s, s.threads[i], s', s'.threads[i])
  {
    if Accepts(s.threads[i].pc) {
      AcceptCounts(s, i, choice, s');
      AcceptData(s, i, choice, s');
    } else {
      WorkerCounts(s, i, s');
      WorkerData(s, i, s');
    }
  }

  // ---------- the invariant is kept ----------

  lemma {:induction false} AtRest(ts: seq<Thread>)
    requires forall i :: 0 <= i < |ts| ==> ts[i].pc == WantSlot || ts[i].pc == WantItem
    ensures Sum(HoldsLock, ts) == 0 && Sum(OwnsSlot, ts) == 0 && Sum(OwesSlot, ts) == 0
    ensures Sum(OwnsItem, ts) == 0 && Sum(OwesItem, ts) == 0 && Sum(Shifting, ts) == 0
  {
    if ts != [] {
      AtRest(ts[1..]);
    }
  }

  lemma InitInv(s: State)
    requires Init(s)
    ensures Inv(s)
  {
    AtRest(s.threads);
  }

  lemma LockExcludes(s: State, i: nat, j: nat)
    requires LocksInv(s)
    requires i < |s.threads| && j < |s.threads| && i != j && HoldsLock(s.threads[i]) == 1
    ensures HoldsLock(s.threads[j]) == 0
  {
    if i < j {
      SumAtLeastTwo(HoldsLock, s.threads, i, j);
    } else {
      SumAtLeastTwo(HoldsLock, s.threads, j, i);
    }
  }

  lemma CountsKept(s: State, i: nat, s': State)
    requires LocksInv(s) && CountsInv(s)
    requires Moved(s, i, s') && CountEffect(s, s.threads[i], s', s'.threads[i])
    ensures LocksInv(s') && CountsInv(s')
  {
    SumUpdate(HoldsLock, s.threads, i, s'.threads[i]);
    SumUpdate(OwnsSlot, s.threads, i, s'.threads[i]);
    SumUpdate(OwesSlot, s.threads, i, s'.threads[i]);
    SumUpdate(OwesItem, s.threads, i, s'.threads[i]);
    SumUpdate(OwnsItem, s.threads, i, s'.threads[i]);
  }

  /** If one thread holds the lock and is not shifting, nobody is. */
  lemma NobodyShifts(s: State, i: nat)
    requires LocksInv(s) && i < |s.threads| && HoldsLock(s.threads[i]) == 1 && Shifting(s.threads[i]) == 0
    ensures Sum(Shifting, s.threads) == 0
  {
    forall j | 0 <= j < |s.threads| ensures Shifting(s.threads[j]) == 0 {
      if j != i {
        LockExcludes(s, i, j);
      }
    }
    SumZero(Shifting, s.threads);
  }

  lemma OthersRegistersKept(s: State, i: nat, s': State, j: nat)
    requires LocksInv(s) && ContentsInv(s)
    requires Moved(s, i, s') && DataEffect(s, s.threads[i], s', s'.threads[i])
    requires j < |s.threads| && j != i
    ensures RegistersOk(s', s'.threads[j])
  {
    assert s'.threads[j] == s.threads[j] && RegistersOk(s, s.threads[j]);
    if HoldsLock(s.threads[i]) == 1 {
      LockExcludes(s, i, j);
    }
  }

  lemma ContentsKept(s: State, i: nat, s': State)
    requires LocksInv(s) && ContentsInv(s)
    requires Moved(s, i, s') && DataEffect(s, s.threads[i], s', s'.threads[i])
    ensures ContentsInv(s')
  {
    forall j | 0 <= j < |s.threads| && j != i ensures RegistersOk(s', s'.threads[j]) {
      OthersRegistersKept(s, i, s', j);
    }
    OwnDataKept(s, i, s');
  }

  lemma OwnDataKept(s: State, i: nat, s': State)
    requires LocksInv(s) && ContentsInv(s)
    requires Moved(s, i, s') && DataEffect(s, s.threads[i], s', s'.threads[i])
    ensures s'.qSize <= |s'.queue| && s'.popped <= s'.pushed && RegistersOk(s', s'.threads[i])
    ensures Sum(Shifting, s'.threads) == 0 ==> s'.queue[..s'.qSize] == Queue(s')
  {
    SumUpdate(Shifting, s.threads, i, s'.threads[i]);
    var t := s.threads[i];
    assert RegistersOk(s, t);
    match t.pc {
      case PushLocked =>
        NobodyShifts(s, i);
        assert s'.queue[..s.qSize] == s.queue[..s.qSize];
      case PushWritten =>
        NobodyShifts(s, i);
        assert s'.queue[..s'.qSize] == s.queue[..s.qSize] + [t.client];
      case PopLocked =>
        NobodyShifts(s, i);
        ShiftKeepsOrder(s.queue, s.qSize);
        SumAtLeastOne(Shifting, s'.threads, i);
      case PopShifted =>
        PopTakesHead(s.pushed, s.popped, t.client, s.queue[..s.qSize - 1]);
      case _ =>
    }
  }

  lemma ShiftKeepsOrder<T>(q: seq<T>, size: nat)
    requires 0 < size <= |q|
    ensures |ShiftDown(q, size)| == |q|
    ensures [q[0]] + ShiftDown(q, size)[..size - 1] == q[..size]
  {
  }

  lemma PopTakesHead(pushed: seq<nat>, popped: seq<nat>, client: nat, rest: seq<nat>)
    requires popped <= pushed && [client] + rest == pushed[|popped|..]
    ensures popped + [client] <= pushed && pushed[|popped| + 1..] == rest
  {
    assert pushed[|popped|] == ([client] + rest)[0];
    assert pushed[|popped| + 1..] == pushed[|popped|..][1..];
  }

  lemma StepKeepsInv(s: State, i: nat, choice: nat, s': State)
    requires Inv(s) && Step(s, i, choice) == Some(s')
    ensures Inv(s') && Fits(s')
  {
    StepEffect(s, i, choice, s');
    CountsKept(s, i, s');
    ContentsKept(s, i, s');
  }

  lemma {:induction false} ExecKeepsInv(s: State, schedule: seq<(nat, nat)>)
    requires Inv(s)
    ensures Inv(Exec(s, schedule)) && Fits(Exec(s, schedule))
    decreases |schedule|
  {
    if schedule != [] {
      match Step(s, schedule[0].0, schedule[0].1) {
        case None => ExecKeepsInv(s, schedule[1..]);
        case Some(s') =>
          StepKeepsInv(s, schedule[0].0, schedule[0].1, s');
          ExecKeepsInv(s', schedule[1..]);
      }
    }
  }

  // ---------- properties of every run ----------

  /** The slot account, the array bound and first-in first-out order hold in every run. */
  lemma RunsAreFifo(s: State, schedule: seq<(nat, nat)>)
    requires Init(s)
    ensures var f := Exec(s, schedule);
      && f.notFull + Sum(OwnsSlot, f.threads) + f.qSize + Sum(OwesSlot, f.threads) + f.lost == s.max == |f.queue|
      && f.popped <= f.pushed && |Queue(f)| == f.qSize <= |f.queue|
      && (f.lock == 1 ==> f.queue[..f.qSize] == Queue(f))
  {
    InitInv(s);
    ExecKeepsInv(s, schedule);
    MaxKept(s, schedule);
    var f := Exec(s, schedule);
    if f.lock == 1 {
      SumZero(HoldsLock, f.threads);
      forall j | 0 <= j < |f.threads| ensures Shifting(f.threads[j]) == 0 {
        assert HoldsLock(f.threads[j]) == 0;
      }
      SumZero(Shifting, f.threads);
    } else if Sum(Shifting, f.threads) != 0 {
      SumZero(Shifting, f.threads);
      var j :| 0 <= j < |f.threads| && Shifting(f.threads[j]) != 0;
      assert RegistersOk(f, f.threads[j]);
    }
  }

  lemma {:induction false} MaxKept(s: State, schedule: seq<(nat, nat)>)
    requires Inv(s)
    ensures Exec(s, schedule).max == s.max && |Exec(s, schedule).threads| == |s.threads|
    ensures forall i :: 0 <= i < |s.threads| ==>
      (Accepts(Exec(s, schedule).threads[i].pc) <==> Accepts(s.threads[i].pc))
    decreases |schedule|
  {
    if schedule != [] {
      match Step(s, schedule[0].0, schedule[0].1) {
        case None => MaxKept(s, schedule[1..]);
        case Some(s') =>
          StepEffect(s, schedule[0].0, schedule[0].1, s');
          StepKeepsInv(s, schedule[0].0, schedule[0].1, s');
          MaxKept(s', schedule[1..]);
      }
    }
  }

  /** A thread about to push has room for its client, one about to pop has something to take. */
  lemma PushHasRoomPopHasItem(s: State, i: nat)
    requires Inv(s) && i < |s.threads|
    ensures s.threads[i].pc == PushLocked || s.threads[i].pc == PushWritten ==> s.qSize < |s.queue|
    ensures s.threads[i].pc == PopLocked || s.threads[i].pc == PopShifted ==> 0 < s.qSize
  {
    SumAtLeastOne(OwnsSlot, s.threads, i);
    SumAtLeastOne(OwnsItem, s.threads, i);
  }

  /** Both queues of the repository implement the same abstract bounded FIFO. */
  lemma StepRefinesFifo(s: State, i: nat, choice: nat, s': State)
    requires Inv(s) && Step(s, i, choice) == Some(s')
    ensures FifoStep(s.max, Queue(s), Queue(s'))
    ensures s.threads[i].pc == PushWritten ==> Queue(s') == Queue(s) + [s.threads[i].client]
    ensures s.threads[i].pc == PopShifted ==> Queue(s) == [s.threads[i].client] + Queue(s')
    ensures s.threads[i].pc != PushWritten && s.threads[i].pc != PopShifted ==> Queue(s') == Queue(s)
  {
    StepEffect(s, i, choice, s');
    PushHasRoomPopHasItem(s, i);
    var t := s.threads[i];
    if t.pc.PushWritten? {
      NobodyShifts(s, i);
      assert Queue(s') == Queue(s) + [t.client];
    } else if t.pc.PopShifted? {
      assert RegistersOk(s, t);
      assert Queue(s') == Queue(s)[1..];
    }
  }

  // ---------- when the server stops for good ----------

  /** No thread can take any step, even if a client connects. */
  ghost predicate Stuck(s: State)
    requires Fits(s)
  {
    forall i, choice: nat :: 0 <= i < |s.threads| ==> Step(s, i, choice).None?
  }

  ghost predicate LoopHeads(s: State) {
    && (forall i :: 0 <= i < |s.threads| ==> s.threads[i].pc == WantSlot || s.threads[i].pc == WantItem)
  }

  ghost predicate HasBoth(s: State) {
    && (exists a :: 0 <= a < |s.threads| && Accepts(s.threads[a].pc))
    && (exists w :: 0 <= w < |s.threads| && !Accepts(s.threads[w].pc))
  }

  lemma StuckAtHeads(s: State)
    requires Inv(s) && Fits(s) && Stuck(s)
    ensures LoopHeads(s)
  {
    forall i | 0 <= i < |s.threads| ensures HoldsLock(s.threads[i]) == 0 {
      PushHasRoomPopHasItem(s, i);
      assert Step(s, i, 1).None?;
    }
    SumZero(HoldsLock, s.threads);
    forall i | 0 <= i < |s.threads| ensures s.threads[i].pc == WantSlot || s.threads[i].pc == WantItem {
      assert Step(s, i, 1).None?;
    }
  }

  /** The server stops for good exactly when every slot has been lost to a failed accept and all threads are back
      at their semaphores. With fewer failures than max_q_size it never deadlocks. */
  lemma StuckIffAllSlotsLost(s: State)
    requires Inv(s) && Fits(s) && HasBoth(s)
    ensures Stuck(s) <==> LoopHeads(s) && s.lost == s.max
  {
    if Stuck(s) {
      StuckAtHeads(s);
      AtRest(s.threads);
      var w :| 0 <= w < |s.threads| && !Accepts(s.threads[w].pc);
      assert Step(s, w, 1).None?;
      var a :| 0 <= a < |s.threads| && Accepts(s.threads[a].pc);
      assert Step(s, a, 1).None?;
    }
    if LoopHeads(s) && s.lost == s.max {
      AtRest(s.threads);
    }
  }

  /** With fewer than max_q_size failed accepts there is always an enabled step. */
  lemma NoDeadlockBeforeAllLost(s: State, schedule: seq<(nat, nat)>)
    requires Init(s) && HasBoth(s)
    requires Exec(s, schedule).lost < s.max
    ensures Fits(Exec(s, schedule)) && !Stuck(Exec(s, schedule))
  {
    InitInv(s);
    ExecKeepsInv(s, schedule);
    MaxKept(s, schedule);
    var f := Exec(s, schedule);
    assert HasBoth(f) by {
      var a :| 0 <= a < |s.threads| && Accepts(s.threads[a].pc);
      var w :| 0 <= w < |s.threads| && !Accepts(s.threads[w].pc);
      assert Accepts(f.threads[a].pc) && !Accepts(f.threads[w].pc);
    }
    StuckIffAllSlotsLost(f);
  }

  /** `k` times: wait for a slot, then fail in accept. */
  function FailingAccepts(a: nat, k: nat): seq<(nat, nat)> {
    if k == 0 then [] else [(a, 0), (a, 0)] + FailingAccepts(a, k - 1)
  }

  /** Every failed accept costs one slot, so max_q_size of them in a row stop an idle server for good. */
  lemma {:induction false} FailuresCostSlots(s: State, a: nat, k: nat)
    requires Inv(s) && LoopHeads(s) && a < |s.threads| && s.threads[a].pc == WantSlot && k <= s.notFull
    ensures var f := Exec(s, FailingAccepts(a, k));
      f.threads == s.threads && f.lost == s.lost + k && f.max == s.max
    decreases k
  {
    if k > 0 {
      var s2 := OneFailure(s, a);
      FailuresCostSlots(s2, a, k - 1);
      var sched := FailingAccepts(a, k);
      assert sched == [(a, 0), (a, 0)] + FailingAccepts(a, k - 1);
      TwoTurns(s, (a, 0), (a, 0), FailingAccepts(a, k - 1));
    }
  }

  /** A failed accept: the slot that was waited for is gone and the thread is back where it was. */
  lemma OneFailure(s: State, a: nat) returns (s2: State)
    requires Inv(s) && LoopHeads(s) && a < |s.threads| && s.threads[a].pc == WantSlot && 0 < s.notFull
    ensures Inv(s2) && LoopHeads(s2) && s2.threads == s.threads && s2.max == s.max
    ensures s2.notFull == s.notFull - 1 && s2.lost == s.lost + 1
    ensures Step(s, a, 0).Some? && Fits(Step(s, a, 0).value) && Step(Step(s, a, 0).value, a, 0) == Some(s2)
  {
    var s1 := Step(s, a, 0).value;
    StepKeepsInv(s, a, 0, s1);
    s2 := Step(s1, a, 0).value;
    StepKeepsInv(s1, a, 0, s2);
    assert s2.threads == s.threads;
  }

  lemma TwoTurns(s: State, x: (nat, nat), y: (nat, nat), rest: seq<(nat, nat)>)
    requires Fits(s) && Step(s, x.0, x.1).Some?
    requires Fits(Step(s, x.0, x.1).value) && Step(Step(s, x.0, x.1).value, y.0, y.1).Some?
    requires Fits(Step(Step(s, x.0, x.1).value, y.0, y.1).value)
    ensures Exec(s, [x, y] + rest) == Exec(Step(Step(s, x.0, x.1).value, y.0, y.1).value, rest)
  {
    var sched := [x, y] + rest;
    assert sched[1..] == [y] + rest;
    assert sched[1..][1..] == rest;
  }

  lemma FailedAcceptsStopTheServer(s: State, a: nat)
    requires Init(s) && HasBoth(s) && a < |s.threads| && s.threads[a].pc == WantSlot
    ensures Fits(Exec(s, FailingAccepts(a, s.max))) && Stuck(Exec(s, FailingAccepts(a, s.max)))
  {
    InitInv(s);
    FailuresCostSlots(s, a, s.max);
    ExecKeepsInv(s, FailingAccepts(a, s.max));
    StuckIffAllSlotsLost(Exec(s, FailingAccepts(a, s.max)));
  }
}
