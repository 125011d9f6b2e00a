/**
 The prethreaded echo server: any number of threads that accept connections and insert them in the
 shared buffer, and any number of workers that remove them, count their bytes under a lock and close them.
 Every access that the C code makes to shared memory is a step of its own, so the lock is what makes
 `++rear`, `++front` and `byte_cnt += n` safe.
 */
module PrethreadedServer {
  import opened Arithmetic
  import opened Options
  import opened Sums
  import opened Sbuf

  /** Where a thread is. */
  datatype Pc =
    // the accept loop, with sbuf_insert unfolded
    | Accepting
    | WantSlot     // before P(&slots)
    | WantLock     // before P(&mutex)
    | InsLocked
    | InsLoaded    // rear + 1 computed
    | InsBumped    // rear stored back
    | InsStored    // cell written, before V(&mutex)
    | Announcing   // before V(&items)
    // the worker loop, with sbuf_remove unfolded
    | WantItem     // before P(&items)
    | Claimed      // before P(&mutex)
    | RemLocked
    | RemLoaded    // front + 1 computed
    | RemBumped    // front stored back
    | RemFetched   // cell read, before V(&mutex)
    | Releasing    // before V(&slots)
    // echo_cnt and Close
    | Opening      // before Pthread_once
    | Serving      // before Rio_readlineb
    | LineRead     // before P(&mutex) of the counter
    | CntLocked
    | CntLoaded    // byte_cnt loaded
    | CntStored    // before V(&mutex) of the counter
    | Closing

  /** A program counter and the thread's own variables: its connection (named by the order of acceptance),
      the ring index it computed, the line length and the counter value it loaded. */
  datatype Thread = Thread(pc: Pc, conn: nat, index: nat, len: nat, sum: nat)

  /** `accepted`, `inserted`, `removed`, `closed` and `linesRead` record history; no step reads them
      except that `accepted` names the next connection. */
  datatype State = State(
    ring: Ring, threads: seq<Thread>,
    once: bool, byteCnt: nat, cntMutex: nat,
    accepted: nat, inserted: seq<nat>, removed: seq<nat>, closed: seq<nat>, linesRead: nat)

  /** All semaphores initialised, every thread at the head of its loop. */
  ghost predicate Init(s: State) {
    && 0 < s.ring.n
    && s.ring == Empty(s.ring.n)
    && (forall i :: 0 <= i < |s.threads| ==> s.threads[i].pc == Accepting || s.threads[i].pc == WantItem)
    && !s.once && s.byteCnt == 0 && s.cntMutex == 0
    && s.accepted == 0 && s.inserted == [] && s.removed == [] && s.closed == [] && s.linesRead == 0
  }

  function Goto(s: State, i: nat, t: Thread): State
    requires i < |s.threads|
  {
    s.(threads := s.threads[i := t])
  }

  predicate Inserting(pc: Pc) {
    pc.Accepting? || pc.WantSlot? || pc.WantLock? || pc.InsLocked? || pc.InsLoaded? || pc.InsBumped?
      || pc.InsStored? || pc.Announcing?
  }

  predicate Removing(pc: Pc) {
    pc.WantItem? || pc.Claimed? || pc.RemLocked? || pc.RemLoaded? || pc.RemBumped? || pc.RemFetched? || pc.Releasing?
  }

  /**
   One step of thread `i`; None when it is blocked in P. `choice` is what the environment answers:
   for Rio_readlineb the length of the line, 0 at end of file.
   */
  function Step(s: State, i: nat, choice: nat): (o: Option<State>)
    requires 0 < s.ring.n == |s.ring.buf|
    ensures o.Some? ==> o.value.ring.n == s.ring.n && |o.value.ring.buf| == |s.ring.buf|
  {
    if i >= |s.threads| then None
    else if Inserting(s.threads[i].pc) then InsertStep(s, i)
    else if Removing(s.threads[i].pc) then RemoveStep(s, i)
    else ServeStep(s, i, choice)
  }

  function InsertStep(s: State, i: nat): (o: Option<State>)
    requires 0 < s.ring.n == |s.ring.buf|
    requires i < |s.threads| && Inserting(s.threads[i].pc)
    ensures o.Some? ==> o.value.ring.n == s.ring.n && |o.value.ring.buf| == |s.ring.buf|
  {
    var r, t := s.ring, s.threads[i];
    match t.pc
    case Accepting =>
      Some(Goto(s, i, t.(pc := WantSlot, conn := s.accepted)).(accepted := s.accepted + 1))
    case WantSlot =>
      if r.slots == 0 then None else Some(Goto(s, i, t.(pc := WantLock)).(ring := r.(slots := r.slots - 1)))
    case WantLock =>
      if r.mutex == 0 then None else Some(Goto(s, i, t.(pc := InsLocked)).(ring := r.(mutex := r.mutex - 1)))
    case InsLocked =>
      Some(Goto(s, i, t.(pc := InsLoaded, index := r.rear + 1)))
    case InsLoaded =>
      Some(Goto(s, i, t.(pc := InsBumped)).(ring := r.(rear := t.index)))
    case InsBumped =>
      Some(Goto(s, i, t.(pc := InsStored)).(ring := r.(buf := r.buf[t.index % r.n := t.conn]),
        inserted := s.inserted + [t.conn]))
    case InsStored =>
      Some(Goto(s, i, t.(pc := Announcing)).(ring := r.(mutex := r.mutex + 1)))
    case Announcing =>
      Some(Goto(s, i, t.(pc := Accepting)).(ring := r.(items := r.items + 1)))
  }

  function RemoveStep(s: State, i: nat): (o: Option<State>)
    requires 0 < s.ring.n == |s.ring.buf|
    requires i < |s.threads| && Removing(s.threads[i].pc)
    ensures o.Some? ==> o.value.ring.n == s.ring.n && |o.value.ring.buf| == |s.ring.buf|
  {
    var r, t := s.ring, s.threads[i];
    match t.pc
    case WantItem =>
      if r.items == 0 then None else Some(Goto(s, i, t.(pc := Claimed)).(ring := r.(items := r.items - 1)))
    case Claimed =>
      if r.mutex == 0 then None else Some(Goto(s, i, t.(pc := RemLocked)).(ring := r.(mutex := r.mutex - 1)))
    case RemLocked =>
      Some(Goto(s, i, t.(pc := RemLoaded, index := r.front + 1)))
    case RemLoaded =>
      Some(Goto(s, i, t.(pc := RemBumped)).(ring := r.(front := t.index)))
    case RemBumped =>
      var c := r.buf[t.index % r.n];
      Some(Goto(s, i, t.(pc := RemFetched, conn := c)).(removed := s.removed + [c]))
    case RemFetched =>
      Some(Goto(s, i, t.(pc := Releasing)).(ring := r.(mutex := r.mutex + 1)))
    case Releasing =>
      Some(Goto(s, i, t.(pc := Opening)).(ring := r.(slots := r.slots + 1)))
  }

  function ServeStep(s: State, i: nat, choice: nat): (o: Option<State>)
    requires i < |s.threads| && !Inserting(s.threads[i].pc) && !Removing(s.threads[i].pc)
    ensures o.Some? ==> o.value.ring.n == s.ring.n && |o.value.ring.buf| == |s.ring.buf|
  {
    var t := s.threads[i];
    match t.pc
    case Opening =>
      var s1 := Goto(s, i, t.(pc := Serving));
      Some(if s.once then s1 else s1.(once := true, byteCnt := 0, cntMutex := 1))
    case Serving =>
      if choice == 0 then Some(Goto(s, i, t.(pc := Closing)))
      else Some(Goto(s, i, t.(pc := LineRead, len := choice)).(linesRead := s.linesRead + choice))
    case LineRead =>
      if s.cntMutex == 0 then None else Some(Goto(s, i, t.(pc := CntLocked)).(cntMutex := s.cntMutex - 1))
    case CntLocked =>
      Some(Goto(s, i, t.(pc := CntLoaded, sum := s.byteCnt)))
    case CntLoaded =>
      Some(Goto(s, i, t.(pc := CntStored)).(byteCnt := t.sum + t.len))
    case CntStored =>
      Some(Goto(s, i, t.(pc := Serving)).(cntMutex := s.cntMutex + 1))
    case Closing =>
      Some(Goto(s, i, t.(pc := WantItem)).(closed := s.closed + [t.conn]))
  }

  /** A run under a schedule of (thread, environment choice) pairs; scheduling a blocked thread does nothing. */
  function Exec(s: State, schedule: seq<(nat, nat)>): (f: State)
    requires 0 < s.ring.n == |s.ring.buf|
    ensures f.ring.n == s.ring.n && |f.ring.buf| == |s.ring.buf|
    decreases |schedule|
  {
    if schedule == [] then s
    else
      match Step(s, schedule[0].0, schedule[0].1)
      case None => Exec(s, schedule[1..])
      case Some(s') => Exec(s', schedule[1..])
  }

  // ---------- weights ----------

  /** Inside the critical section of the buffer. */
  function HoldsLock(t: Thread): nat {
    if t.pc.InsLocked? || t.pc.InsLoaded? || t.pc.InsBumped? || t.pc.InsStored? || t.pc.RemLocked?
      || t.pc.RemLoaded? || t.pc.RemBumped? || t.pc.RemFetched?
    then 1 else 0
  }

  /** Past P(&slots), rear not yet advanced. */
  function OwnsSlot(t: Thread): nat {
    if t.pc.WantLock? || t.pc.InsLocked? || t.pc.InsLoaded? then 1 else 0
  }

  /** Front advanced, slot not yet given back by V(&slots). */
  function OwesSlot(t: Thread): nat {
    if t.pc.RemBumped? || t.pc.RemFetched? || t.pc.Releasing? then 1 else 0
  }

  /** Rear advanced, item not yet announced by V(&items). */
  function OwesItem(t: Thread): nat {
    if t.pc.InsBumped? || t.pc.InsStored? || t.pc.Announcing? then 1 else 0
  }

  /** Past P(&items), front not yet advanced. */
  function OwnsItem(t: Thread): nat {
    if t.pc.Claimed? || t.pc.RemLocked? || t.pc.RemLoaded? then 1 else 0
  }

  function Unstored(t: Thread): nat { if t.pc.InsBumped? then 1 else 0 }

  function Unfetched(t: Thread): nat { if t.pc.RemBumped? then 1 else 0 }

  function HoldsCounter(t: Thread): nat {
    if t.pc.CntLocked? || t.pc.CntLoaded? || t.pc.CntStored? then 1 else 0
  }

  /** Bytes of a line that was read but is not yet in byte_cnt. */
  function Uncounted(t: Thread): nat {
    if t.pc.LineRead? || t.pc.CntLocked? || t.pc.CntLoaded? then t.len else 0
  }

  /** From accept to store, and from fetch to close, a thread is responsible for its connection. */
  predicate Carries(pc: Pc) {
    !(pc.Accepting? || pc.InsStored? || pc.Announcing? || pc.WantItem? || pc.Claimed? || pc.RemLocked?
      || pc.RemLoaded? || pc.RemBumped?)
  }

  function Holding(t: Thread): Option<nat> {
    if Carries(t.pc) then Some(t.conn) else None
  }

  function At(h: Option<nat>, c: nat): nat {
    if h == Some(c) then 1 else 0
  }

  function Hand(c: nat): Thread -> nat {
    t => At(Holding(t), c)
  }

  /** In how many places connection `c` is: thread hands, the queue, the closed list. */
  function Places(s: State, c: nat): nat {
    Sum(Hand(c), s.threads) + Sum(Is(c), Queue(s)) + Sum(Is(c), s.closed)
  }

  // ---------- invariant ----------

  ghost predicate LocksInv(s: State) {
    s.ring.mutex + Sum(HoldsLock, s.threads) == 1
  }

  /** Every cell is a free slot, a slot on its way in, a live cell, or a slot on its way out; every live cell
      is an announced item, one about to be announced, or one already claimed. */
  ghost predicate CountsInv(s: State) {
    && 0 < s.ring.n == |s.ring.buf|
    && s.ring.slots + Sum(OwnsSlot, s.threads) + (s.ring.rear - s.ring.front) + Sum(OwesSlot, s.threads) == s.ring.n
    && s.ring.rear - s.ring.front == s.ring.items + Sum(OwesItem, s.threads) + Sum(OwnsItem, s.threads)
  }

  ghost predicate RegistersInv(s: State) {
    forall i :: 0 <= i < |s.threads| ==> RegistersOk(s, s.threads[i])
  }

  /** What a thread remembers from its last load is still what memory holds. */
  ghost predicate RegistersOk(s: State, t: Thread) {
    match t.pc
    case InsLoaded => t.index == s.ring.rear + 1
    case InsBumped => t.index == s.ring.rear
    case RemLoaded => t.index == s.ring.front + 1
    case RemBumped => t.index == s.ring.front
    case CntLoaded => t.sum == s.byteCnt
    case _ => true
  }

  ghost predicate HistoryInv(s: State)
    requires 0 < s.ring.n == |s.ring.buf|
  {
    && |s.inserted| + Sum(Unstored, s.threads) == s.ring.rear
    && |s.removed| + Sum(Unfetched, s.threads) == s.ring.front
    && |s.removed| <= |s.inserted|
    && s.removed == s.inserted[..|s.removed|]
    && forall k :: |s.removed| < k <= |s.inserted| ==> s.ring.buf[k % s.ring.n] == s.inserted[k - 1]
  }

  /** The abstract queue: everything inserted and not yet removed. */
  function Queue(s: State): seq<nat> {
    if |s.removed| <= |s.inserted| then s.inserted[|s.removed|..] else []
  }

  ghost predicate OwnershipInv(s: State) {
    forall c: nat :: Places(s, c) == if c < s.accepted then 1 else 0
  }

  ghost predicate AfterOnce(t: Thread) {
    t.pc.Serving? || t.pc.LineRead? || t.pc.CntLocked? || t.pc.CntLoaded? || t.pc.CntStored? || t.pc.Closing?
  }

  ghost predicate CounterInv(s: State) {
    && (!s.once ==> s.linesRead == 0 && s.byteCnt == 0)
    && (!s.once ==> forall i :: 0 <= i < |s.threads| ==> !AfterOnce(s.threads[i]))
    && s.cntMutex + Sum(HoldsCounter, s.threads) == (if s.once then 1 else 0)
    && s.byteCnt + Sum(Uncounted, s.threads) == s.linesRead
    && (forall i :: 0 <= i < |s.threads| ==> MidLine(s.threads[i]) ==> 0 < s.threads[i].len)
  }

  ghost predicate Inv(s: State) {
    LocksInv(s) && CountsInv(s) && RegistersInv(s) && HistoryInv(s) && OwnershipInv(s) && CounterInv(s)
  }

  // ---------- what one step does, seen from its own thread ----------

  /** No thread but `i` moves, and its own weights change exactly as the shared counters do. */
  ghost predicate Effect(s: State, i: nat, s': State) {
    && Moved(s, i, s')
    && BufferEffect(s, s.threads[i], s', s'.threads[i])
    && HistoryEffect(s, s.threads[i], s', s'.threads[i])
    && HandEffect(s, s.threads[i], s', s'.threads[i])
    && ServiceEffect(s, s.threads[i], s', s'.threads[i])
  }

  ghost predicate Moved(s: State, i: nat, s': State) {
    && i < |s.threads| == |s'.threads|
    && s'.threads == s.threads[i := s'.threads[i]]
  }

  ghost predicate BufferEffect(s: State, t: Thread, s': State, t': Thread) {
    SlotEffect(s, t, s', t') && IndexEffect(s, t, s', t')
  }

  ghost predicate SlotEffect(s: State, t: Thread, s': State, t': Thread) {
    && s'.ring.n == s.ring.n && |s'.ring.buf| == |s.ring.buf|
    && s'.ring.slots + OwnsSlot(t') + s'.ring.rear - s'.ring.front + OwesSlot(t')
       == s.ring.slots + OwnsSlot(t) + s.ring.rear - s.ring.front + OwesSlot(t)
    && s'.ring.rear - s'.ring.front - s'.ring.items - OwesItem(t') - OwnsItem(t')
       == s.ring.rear - s.ring.front - s.ring.items - OwesItem(t) - OwnsItem(t)
  }

  ghost predicate IndexEffect(s: State, t: Thread, s': State, t': Thread) {
    && s'.ring.mutex + HoldsLock(t') == s.ring.mutex + HoldsLock(t)
    && |s'.inserted| + Unstored(t') - s'.ring.rear == |s.inserted| + Unstored(t) - s.ring.rear
    && |s'.removed| + Unfetched(t') - s'.ring.front == |s.removed| + Unfetched(t) - s.ring.front
    && (s'.ring.rear != s.ring.rear || s'.ring.front != s.ring.front ==> HoldsLock(t) == 1)
  }

  ghost predicate HistoryEffect(s: State, t: Thread, s': State, t': Thread) {
    && (if t.pc.InsBumped? then
          && 0 < s.ring.n == |s.ring.buf|
          && s'.ring.buf == s.ring.buf[t.index % s.ring.n := t.conn]
          && s'.inserted == s.inserted + [t.conn]
        else s'.ring.buf == s.ring.buf && s'.inserted == s.inserted)
    && (if t.pc.RemBumped? then
          && 0 < s.ring.n == |s.ring.buf|
          && s'.removed == s.removed + [s.ring.buf[t.index % s.ring.n]]
        else s'.removed == s.removed)
    && s'.accepted == (if t.pc.Accepting? then s.accepted + 1 else s.accepted)
    && s'.closed == (if t.pc.Closing? then s.closed + [t.conn] else s.closed)
  }

  ghost predicate HandEffect(s: State, t: Thread, s': State, t': Thread) {
    && (t.pc.Accepting? || t.pc.InsStored? || t.pc.Announcing? || t.pc.RemBumped? ==> Holding(t) == None)
    && (t.pc.InsBumped? || t.pc.Closing? ==> Holding(t) == Some(t.conn))
    && (if t.pc.Accepting? then Holding(t') == Some(s.accepted)
        else if t.pc.RemBumped? then 0 < |s'.removed| && Holding(t') == Some(s'.removed[|s'.removed| - 1])
        else if t.pc.InsBumped? || t.pc.Closing? then Holding(t') == None
        else Holding(t') == Holding(t))
  }

  ghost predicate ServiceEffect(s: State, t: Thread, s': State, t': Thread) {
    && (s.once ==> s'.once)
    && (s.once || !t.pc.Opening? ==>
          && s'.once == s.once
          && s'.cntMutex + HoldsCounter(t') == s.cntMutex + HoldsCounter(t)
          && s'.byteCnt + Uncounted(t') - s'.linesRead == s.byteCnt + Uncounted(t) - s.linesRead
          && (s'.byteCnt != s.byteCnt ==> HoldsCounter(t) == 1))
    && (!s.once && t.pc.Opening? ==> s'.once && s'.cntMutex == 1 && s'.byteCnt == 0 && s'.linesRead == s.linesRead)
    && (AfterOnce(t') ==> AfterOnce(t) || t.pc.Opening?)
    && (t.pc.Opening? ==> HoldsCounter(t') == 0 && Uncounted(t') == 0)
    && (!s.once && !AfterOnce(t) && !t.pc.Opening? ==> s'.linesRead == s.linesRead && s'.byteCnt == s.byteCnt)
    && (MidLine(t') ==> 0 < t'.len || (MidLine(t) && t'.len == t.len))
  }

  ghost predicate MidLine(t: Thread) {
    t.pc.LineRead? || t.pc.CntLocked? || t.pc.CntLoaded?
  }

  lemma InsertMoves(s: State, i: nat, s': State)
    requires 0 < s.ring.n == |s.ring.buf|
    requires i < |s.threads| && Inserting(s.threads[i].pc) && InsertStep(s, i) == Some(s')
    ensures Moved(s, i, s')
  {
  }

  lemma RemoveMoves(s: State, i: nat, s': State)
    requires 0 < s.ring.n == |s.ring.buf|
    requires i < |s.threads| && Removing(s.threads[i].pc) && RemoveStep(s, i) == Some(s')
    ensures Moved(s, i, s')
  {
  }

  lemma InsertSlotEffectFirst(s: State, i: nat, s': State)
    requires 0 < s.ring.n == |s.ring.buf|
    requires i < |s.threads| && Inserting(s.threads[i].pc) && RegistersOk(s, s.threads[i])
    requires InsertStep(s, i) == Some(s')
    requires s.threads[i].pc.Accepting? || s.threads[i].pc.WantSlot? || s.threads[i].pc.WantLock?
      || s.threads[i].pc.InsLocked?
    ensures i < |s'.threads| && SlotEffect(s, s.threads[i], s', s'.threads[i])
  {
  }

  lemma InsertSlotEffectLast(s: State, i: nat, s': State)
    requires 0 < s.ring.n == |s.ring.buf|
    requires i < |s.threads| && Inserting(s.threads[i].pc) && RegistersOk(s, s.threads[i])
    requires InsertStep(s, i) == Some(s')
    requires !(s.threads[i].pc.Accepting? || s.threads[i].pc.WantSlot? || s.threads[i].pc.WantLock?
      || s.threads[i].pc.InsLocked?)
    ensures i < |s'.threads| && SlotEffect(s, s.threads[i], s', s'.threads[i])
  {
  }

  lemma InsertSlotEffect(s: State, i: nat, s': State)
    requires 0 < s.ring.n == |s.ring.buf|
    requires i < |s.threads| && Inserting(s.threads[i].pc) && RegistersOk(s, s.threads[i])
    requires InsertStep(s, i) == Some(s')
    ensures i < |s'.threads| && SlotEffect(s, s.threads[i], s', s'.threads[i])
  {
    if s.threads[i].pc.Accepting? || s.threads[i].pc.WantSlot? || s.threads[i].pc.WantLock?
      || s.threads[i].pc.InsLocked? {
      InsertSlotEffectFirst(s, i, s');
    } else {
      InsertSlotEffectLast(s, i, s');
    }
  }

  lemma InsertIndexEffect(s: State, i: nat, s': State)
    requires 0 < s.ring.n == |s.ring.buf|
    requires i < |s.threads| && Inserting(s.threads[i].pc) && RegistersOk(s, s.threads[i])
    requires InsertStep(s, i) == Some(s')
    ensures i < |s'.threads| && IndexEffect(s, s.threads[i], s', s'.threads[i])
  {
  }

  lemma InsertHistoryEffect(s: State, i: nat, s': State)
    requires 0 < s.ring.n == |s.ring.buf|
    requires i < |s.threads| && Inserting(s.threads[i].pc) && RegistersOk(s, s.threads[i])
    requires InsertStep(s, i) == Some(s')
    ensures Moved(s, i, s') && HistoryEffect(s, s.threads[i], s', s'.threads[i])
  {
  }

  lemma InsertHandEffect(s: State, i: nat, s': State)
    requires 0 < s.ring.n == |s.ring.buf|
    requires i < |s.threads| && Inserting(s.threads[i].pc) && RegistersOk(s, s.threads[i])
    requires InsertStep(s, i) == Some(s')
    ensures Moved(s, i, s') && HandEffect(s, s.threads[i], s', s'.threads[i])
  {
  }

  lemma InsertServiceEffect(s: State, i: nat, s': State)
    requires 0 < s.ring.n == |s.ring.buf|
    requires i < |s.threads| && Inserting(s.threads[i].pc) && RegistersOk(s, s.threads[i])
    requires InsertStep(s, i) == Some(s')
    ensures Moved(s, i, s') && ServiceEffect(s, s.threads[i], s', s'.threads[i])
    ensures RegistersOk(s', s'.threads[i])
  {
  }

  lemma RemoveSlotEffectFirst(s: State, i: nat, s': State)
    requires 0 < s.ring.n == |s.ring.buf|
    requires i < |s.threads| && Removing(s.threads[i].pc) && RegistersOk(s, s.threads[i])
    requires RemoveStep(s, i) == Some(s')
    requires s.threads[i].pc.WantItem? || s.threads[i].pc.Claimed? || s.threads[i].pc.RemLocked?
      || s.threads[i].pc.RemLoaded?
    ensures i < |s'.threads| && SlotEffect(s, s.threads[i], s', s'.threads[i])
  {
  }

  lemma RemoveSlotEffectLast(s: State, i: nat, s': State)
    requires 0 < s.ring.n == |s.ring.buf|
    requires i < |s.threads| && Removing(s.threads[i].pc) && RegistersOk(s, s.threads[i])
    requires RemoveStep(s, i) == Some(s')
    requires !(s.threads[i].pc.WantItem? || s.threads[i].pc.Claimed? || s.threads[i].pc.RemLocked?
      || s.threads[i].pc.RemLoaded?)
    ensures i < |s'.threads| && SlotEffect(s, s.threads[i], s', s'.threads[i])
  {
  }

  lemma RemoveSlotEffect(s: State, i: nat, s': State)
    requires 0 < s.ring.n == |s.ring.buf|
    requires i < |s.threads| && Removing(s.threads[i].pc) && RegistersOk(s, s.threads[i])
    requires RemoveStep(s, i) == Some(s')
    ensures i < |s'.threads| && SlotEffect(s, s.threads[i], s', s'.threads[i])
  {
    if s.threads[i].pc.WantItem? || s.threads[i].pc.Claimed? || s.threads[i].pc.RemLocked?
      || s.threads[i].pc.RemLoaded? {
      RemoveSlotEffectFirst(s, i, s');
    } else {
      RemoveSlotEffectLast(s, i, s');
    }
  }

  lemma RemoveIndexEffect(s: State, i: nat, s': State)
    requires 0 < s.ring.n == |s.ring.buf|
    requires i < |s.threads| && Removing(s.threads[i].pc) && RegistersOk(s, s.threads[i])
    requires RemoveStep(s, i) == Some(s')
    ensures i < |s'.threads| && IndexEffect(s, s.threads[i], s', s'.threads[i])
  {
  }

  lemma RemoveHistoryEffect(s: State, i: nat, s': State)
    requires 0 < s.ring.n == |s.ring.buf|
    requires i < |s.threads| && Removing(s.threads[i].pc) && RegistersOk(s, s.threads[i])
    requires RemoveStep(s, i) == Some(s')
    ensures Moved(s, i, s') && HistoryEffect(s, s.threads[i], s', s'.threads[i])
  {
  }

  lemma RemoveHandEffect(s: State, i: nat, s': State)
    requires 0 < s.ring.n == |s.ring.buf|
    requires i < |s.threads| && Removing(s.threads[i].pc) && RegistersOk(s, s.threads[i])
    requires RemoveStep(s, i) == Some(s')
    ensures Moved(s, i, s') && HandEffect(s, s.threads[i], s', s'.threads[i])
  {
  }

  lemma RemoveServiceEffect(s: State, i: nat, s': State)
    requires 0 < s.ring.n == |s.ring.buf|
    requires i < |s.threads| && Removing(s.threads[i].pc) && RegistersOk(s, s.threads[i])
    requires RemoveStep(s, i) == Some(s')
    ensures Moved(s, i, s') && ServiceEffect(s, s.threads[i], s', s'.threads[i])
    ensures RegistersOk(s', s'.threads[i])
  {
  }

  lemma ServeBufferEffect(s: State, i: nat, choice: nat, s': State)
    requires i < |s.threads| && !Inserting(s.threads[i].pc) && !Removing(s.threads[i].pc)
      && RegistersOk(s, s.threads[i])
    requires ServeStep(s, i, choice) == Some(s')
    ensures Moved(s, i, s') && BufferEffect(s, s.threads[i], s', s'.threads[i])
  {
  }

  lemma ServeHistoryEffect(s: State, i: nat, choice: nat, s': State)
    requires i < |s.threads| && !Inserting(s.threads[i].pc) && !Removing(s.threads[i].pc)
      && RegistersOk(s, s.threads[i])
    requires ServeStep(s, i, choice) == Some(s')
    ensures Moved(s, i, s') && HistoryEffect(s, s.threads[i], s', s'.threads[i])
  {
  }

  lemma ServeHandEffect(s: State, i: nat, choice: nat, s': State)
    requires i < |s.threads| && !Inserting(s.threads[i].pc) && !Removing(s.threads[i].pc)
      && RegistersOk(s, s.threads[i])
    requires ServeStep(s, i, choice) == Some(s')
    ensures Moved(s, i, s') && HandEffect(s, s.threads[i], s', s'.threads[i])
  {
  }

  lemma ServeServiceEffect(s: State, i: nat, choice: nat, s': State)
    requires i < |s.threads| && !Inserting(s.threads[i].pc) && !Removing(s.threads[i].pc)
      && RegistersOk(s, s.threads[i])
    requires ServeStep(s, i, choice) == Some(s')
    ensures Moved(s, i, s') && ServiceEffect(s, s.threads[i], s', s'.threads[i])
    ensures RegistersOk(s', s'.threads[i])
  {
  }

  lemma StepEffect(s: State, i: nat, choice: nat, s': State)
    requires 0 < s.ring.n == |s.ring.buf| && RegistersInv(s)
    requires Step(s, i, choice) == Some(s')
    ensures Effect(s, i, s') && RegistersOk(s', s'.threads[i])
  {
    assert RegistersOk(s, s.threads[i]);
    if Inserting(s.threads[i].pc) {
      InsertMoves(s, i, s');
      InsertSlotEffect(s, i, s');
      InsertIndexEffect(s, i, s');
      InsertHistoryEffect(s, i, s');
      InsertHandEffect(s, i, s');
      InsertServiceEffect(s, i, s');
    } else if Removing(s.threads[i].pc) {
      RemoveMoves(s, i, s');
      RemoveSlotEffect(s, i, s');
      RemoveIndexEffect(s, i, s');
      RemoveHistoryEffect(s, i, s');
      RemoveHandEffect(s, i, s');
      RemoveServiceEffect(s, i, s');
    } else {
      ServeBufferEffect(s, i, choice, s');
      ServeHistoryEffect(s, i, choice, s');
      ServeHandEffect(s, i, choice, s');
      ServeServiceEffect(s, i, choice, s');
    }
  }

  // ---------- the invariant holds initially and every step keeps it ----------

  lemma InitInv(s: State)
    requires Init(s)
    ensures Inv(s)
  {
    AtRest(s.threads);
    forall c: nat ensures Places(s, c) == 0 {
      EmptyHands(s.threads, c);
    }
  }

  lemma {:induction false} EmptyHands(ts: seq<Thread>, c: nat)
    requires forall i :: 0 <= i < |ts| ==> ts[i].pc.Accepting? || ts[i].pc.WantItem?
    ensures Sum(Hand(c), ts) == 0
  {
    if ts != [] {
      EmptyHands(ts[1..], c);
    }
  }

  lemma {:induction false} AtRest(ts: seq<Thread>)
    requires forall i :: 0 <= i < |ts| ==> ts[i].pc.Accepting? || ts[i].pc.WantItem?
    ensures Sum(HoldsLock, ts) == 0 && Sum(OwnsSlot, ts) == 0 && Sum(OwesSlot, ts) == 0
    ensures Sum(OwnsItem, ts) == 0 && Sum(OwesItem, ts) == 0
    ensures Sum(Unstored, ts) == 0 && Sum(Unfetched, ts) == 0
    ensures Sum(HoldsCounter, ts) == 0 && Sum(Uncounted, ts) == 0
  {
    if ts != [] {
      AtRest(ts[1..]);
    }
  }

  /** Mutual exclusion: a thread in the critical section is there alone. */
  lemma LockExcludes(s: State, i: nat, j: nat)
    requires LocksInv(s)
    requires i < |s.threads| && j < |s.threads| && i != j && HoldsLock(s.threads[i]) == 1
    ensures HoldsLock(s.threads[j]) == 0
  {
    if i < j {
      SumAtLeastTwo(HoldsLock, s.threads, i, j);
    } else {
      SumAtLeastTwo(HoldsLock, s.threads, j, i);
    }
  }

  lemma CounterExcludes(s: State, i: nat, j: nat)
    requires CounterInv(s)
    requires i < |s.threads| && j < |s.threads| && i != j && HoldsCounter(s.threads[i]) == 1
    ensures HoldsCounter(s.threads[j]) == 0
  {
    if i < j {
      SumAtLeastTwo(HoldsCounter, s.threads, i, j);
    } else {
      SumAtLeastTwo(HoldsCounter, s.threads, j, i);
    }
  }

  lemma LocksKept(s: State, i: nat, s': State)
    requires LocksInv(s) && Effect(s, i, s')
    ensures LocksInv(s')
  {
    SumUpdate(HoldsLock, s.threads, i, s'.threads[i]);
  }

  lemma CountsKept(s: State, i: nat, s': State)
    requires CountsInv(s) && Effect(s, i, s')
    ensures CountsInv(s')
  {
    SumUpdate(OwnsSlot, s.threads, i, s'.threads[i]);
    SumUpdate(OwesSlot, s.threads, i, s'.threads[i]);
    SumUpdate(OwesItem, s.threads, i, s'.threads[i]);
    SumUpdate(OwnsItem, s.threads, i, s'.threads[i]);
  }

  lemma RegistersKept(s: State, i: nat, s': State)
    requires LocksInv(s) && CounterInv(s) && RegistersInv(s)
    requires Effect(s, i, s') && RegistersOk(s', s'.threads[i])
    ensures RegistersInv(s')
  {
    forall j | 0 <= j < |s'.threads| ensures RegistersOk(s', s'.threads[j]) {
      if j != i {
        assert RegistersOk(s, s.threads[j]) && s'.threads[j] == s.threads[j];
        if HoldsLock(s.threads[i]) == 1 {
          LockExcludes(s, i, j);
        }
        if HoldsCounter(s.threads[i]) == 1 {
          CounterExcludes(s, i, j);
        }
        if !s.once {
          assert !AfterOnce(s.threads[j]);
        }
      }
    }
  }

  lemma {:induction false} SumBelow(ts: seq<Thread>)
    ensures Sum(Unfetched, ts) + Sum(Unstored, ts) <= Sum(HoldsLock, ts)
    ensures Sum(Unfetched, ts) <= Sum(OwesSlot, ts)
    ensures Sum(Unstored, ts) <= Sum(OwesItem, ts)
  {
    if ts != [] {
      SumBelow(ts[1..]);
    }
  }

  /** Nobody reads an empty ring: the cell a remover is about to fetch has been stored and is the oldest waiting
      item. */
  lemma FetchIsStored(s: State, i: nat)
    requires LocksInv(s) && CountsInv(s) && RegistersInv(s) && HistoryInv(s)
    requires i < |s.threads| && s.threads[i].pc.RemBumped?
    ensures s.threads[i].index == s.ring.front == |s.removed| + 1 <= |s.inserted|
    ensures s.ring.buf[s.threads[i].index % s.ring.n] == s.inserted[|s.removed|] == Queue(s)[0]
  {
    assert RegistersOk(s, s.threads[i]);
    SumAtLeastOne(Unfetched, s.threads, i);
    SumBelow(s.threads);
  }

  /** Nobody overwrites a live cell: the cell an inserter is about to write holds no waiting item. */
  lemma StoreIsFree(s: State, i: nat, k: nat)
    requires LocksInv(s) && CountsInv(s) && RegistersInv(s) && HistoryInv(s)
    requires i < |s.threads| && s.threads[i].pc.InsBumped?
    requires |s.removed| < k <= |s.inserted|
    ensures s.threads[i].index == s.ring.rear == |s.inserted| + 1
    ensures k % s.ring.n != s.threads[i].index % s.ring.n
  {
    assert RegistersOk(s, s.threads[i]);
    SumAtLeastOne(Unstored, s.threads, i);
    SumBelow(s.threads);
    ModDiffers(k, s.ring.rear, s.ring.n);
  }

  /** A store changes a cell that no waiting item is in. */
  lemma StoreKeepsCells(s: State, i: nat, s': State)
    requires LocksInv(s) && CountsInv(s) && RegistersInv(s) && HistoryInv(s)
    requires i < |s.threads| && s.threads[i].pc.InsBumped?
    requires s'.ring.n == s.ring.n && s'.inserted == s.inserted + [s.threads[i].conn]
    requires s'.ring.buf == s.ring.buf[s.threads[i].index % s.ring.n := s.threads[i].conn]
    ensures forall k :: |s.removed| < k <= |s'.inserted| ==> s'.ring.buf[k % s.ring.n] == s'.inserted[k - 1]
  {
    assert RegistersOk(s, s.threads[i]);
    SumAtLeastOne(Unstored, s.threads, i);
    SumBelow(s.threads);
    forall k | |s.removed| < k <= |s.inserted| ensures s'.ring.buf[k % s.ring.n] == s'.inserted[k - 1] {
      StoreIsFree(s, i, k);
    }
  }

  lemma HistoryKept(s: State, i: nat, s': State)
    requires LocksInv(s) && CountsInv(s) && RegistersInv(s) && HistoryInv(s)
    requires Effect(s, i, s') && CountsInv(s')
    ensures HistoryInv(s')
  {
    SumUpdate(Unstored, s.threads, i, s'.threads[i]);
    SumUpdate(Unfetched, s.threads, i, s'.threads[i]);
    if s.threads[i].pc.InsBumped? {
      SumAtLeastOne(Unstored, s.threads, i);
      SumBelow(s.threads);
      StoreKeepsCells(s, i, s');
    } else if s.threads[i].pc.RemBumped? {
      FetchIsStored(s, i);
    }
  }

  /** The queue grows at the rear by a store, shrinks at the front by a fetch, and is otherwise untouched. */
  lemma QueueEffect(s: State, i: nat, s': State)
    requires LocksInv(s) && CountsInv(s) && RegistersInv(s) && HistoryInv(s)
    requires Effect(s, i, s')
    ensures s.threads[i].pc.InsBumped? ==> Queue(s') == Queue(s) + [s.threads[i].conn] && |Queue(s)| < s.ring.n
    ensures s.threads[i].pc.RemBumped? ==> 0 < |s'.removed| && Queue(s) == [s'.removed[|s'.removed| - 1]] + Queue(s')
    ensures !s.threads[i].pc.InsBumped? && !s.threads[i].pc.RemBumped? ==> Queue(s') == Queue(s)
  {
    SumBelow(s.threads);
    if s.threads[i].pc.InsBumped? {
      SumAtLeastOne(Unstored, s.threads, i);
    } else if s.threads[i].pc.RemBumped? {
      FetchIsStored(s, i);
    }
  }

  lemma TakeFirst(x: nat, q: seq<nat>, c: nat)
    ensures Sum(Is(c), [x] + q) == At(Some(x), c) + Sum(Is(c), q)
  {
    assert ([x] + q)[1..] == q;
  }

  lemma OwnershipKept(s: State, i: nat, s': State)
    requires LocksInv(s) && CountsInv(s) && RegistersInv(s) && HistoryInv(s) && OwnershipInv(s)
    requires Effect(s, i, s')
    ensures OwnershipInv(s')
  {
    QueueEffect(s, i, s');
    forall c: nat ensures Places(s', c) == if c < s'.accepted then 1 else 0 {
      PlacesKept(s, i, s', c);
    }
  }

  /** A connection leaves a hand only for the queue or the closed list, and comes into one only from the queue or
      accept. */
  lemma PlacesKept(s: State, i: nat, s': State, c: nat)
    requires Moved(s, i, s')
    requires Places(s, c) == if c < s.accepted then 1 else 0
    requires HandEffect(s, s.threads[i], s', s'.threads[i])
    requires s'.accepted == if s.threads[i].pc.Accepting? then s.accepted + 1 else s.accepted
    requires s'.closed == if s.threads[i].pc.Closing? then s.closed + [s.threads[i].conn] else s.closed
    requires s.threads[i].pc.InsBumped? ==> Queue(s') == Queue(s) + [s.threads[i].conn]
    requires s.threads[i].pc.RemBumped? ==> Queue(s) == [s'.removed[|s'.removed| - 1]] + Queue(s')
    requires !s.threads[i].pc.InsBumped? && !s.threads[i].pc.RemBumped? ==> Queue(s') == Queue(s)
    ensures Places(s', c) == if c < s'.accepted then 1 else 0
  {
    var t, t' := s.threads[i], s'.threads[i];
    if t.pc == InsBumped {
      SumAppend(Is(c), Queue(s), t.conn);
    } else if t.pc == RemBumped {
      TakeFirst(t'.conn, Queue(s'), c);
    } else if t.pc == Closing {
      SumAppend(Is(c), s.closed, t.conn);
    }
    SumUpdate(Hand(c), s.threads, i, s'.threads[i]);
  }

  lemma CounterKept(s: State, i: nat, s': State)
    requires CounterInv(s) && Effect(s, i, s')
    ensures CounterInv(s')
  {
    SumUpdate(HoldsCounter, s.threads, i, s'.threads[i]);
    SumUpdate(Uncounted, s.threads, i, s'.threads[i]);
    assert MidLine(s.threads[i]) ==> 0 < s.threads[i].len;
    if !s.once {
      assert !AfterOnce(s.threads[i]);
      NothingCounted(s);
    }
  }

  /** Before the first connection is served nobody touches the counter. */
  lemma NothingCounted(s: State)
    requires forall j :: 0 <= j < |s.threads| ==> !AfterOnce(s.threads[j])
    ensures Sum(HoldsCounter, s.threads) == 0 && Sum(Uncounted, s.threads) == 0
  {
    SumZero(HoldsCounter, s.threads);
    SumZero(Uncounted, s.threads);
  }

  lemma StepKeepsInv(s: State, i: nat, choice: nat, s': State)
    requires Inv(s) && Step(s, i, choice) == Some(s')
    ensures Inv(s')
  {
    StepEffect(s, i, choice, s');
    LocksKept(s, i, s');
    CountsKept(s, i, s');
    RegistersKept(s, i, s');
    HistoryKept(s, i, s');
    OwnershipKept(s, i, s');
    CounterKept(s, i, s');
  }

  lemma {:induction false} ExecKeepsInv(s: State, schedule: seq<(nat, nat)>)
    requires Inv(s)
    ensures Inv(Exec(s, schedule))
    decreases |schedule|
  {
    if schedule != [] {
      match Step(s, schedule[0].0, schedule[0].1) {
        case None => ExecKeepsInv(s, schedule[1..]);
        case Some(s') =>
          StepKeepsInv(s, schedule[0].0, schedule[0].1, s');
          ExecKeepsInv(s', schedule[1..]);
      }
    }
  }
}
