/** How the workers of the prethreaded server serve a connection: line by line until readlineb answers 0, then close. */
module PrethreadedService {
  import opened Options
  import opened Sums
  import opened PrethreadedServer
  import opened PrethreadedProperties
  import opened PrethreadedRuns

  function Plus(ns: seq<nat>): nat {
    if ns == [] then 0 else ns[0] + Plus(ns[1..])
  }

  // ---------- one worker, undisturbed ----------

  /** A line of n bytes: the read, and the four accesses under the lock. */
  function OneLine(i: nat, n: nat): seq<(nat, nat)> {
    [(i, n)] + Turns(i, 4)
  }

  /** These lines, end of file, and the close. */
  function Lines(i: nat, ns: seq<nat>): seq<(nat, nat)> {
    if ns == [] then Turns(i, 2) else OneLine(i, ns[0]) + Lines(i, ns[1..])
  }

  /** Everything but thread i and the counter. */
  ghost predicate SameElsewhere(s: State, i: nat, f: State) {
    && i < |s.threads| == |f.threads| && f.threads[i].conn == s.threads[i].conn
    && (forall j :: 0 <= j < |s.threads| && j != i ==> f.threads[j] == s.threads[j])
    && f.ring == s.ring && f.once == s.once
    && f.accepted == s.accepted && f.inserted == s.inserted && f.removed == s.removed
  }

  /** Thread i has come to pc and the counter has gone up by n. */
  ghost predicate Counted(s: State, i: nat, f: State, pc: Pc, n: nat, closed: seq<nat>) {
    && SameElsewhere(s, i, f) && f.threads[i].pc == pc && f.cntMutex == s.cntMutex
    && f.byteCnt == s.byteCnt + n && f.linesRead == s.linesRead + n && f.closed == closed
  }

  lemma {:induction false} LocksAndLoads(s: State, i: nat)
    requires 0 < s.ring.n == |s.ring.buf| && i < |s.threads| && s.threads[i].pc == LineRead && 0 < s.cntMutex
    ensures var f := Exec(s, Turns(i, 2));
      && SameElsewhere(s, i, f) && f.threads[i] == s.threads[i].(pc := CntLoaded, sum := s.byteCnt)
      && f.cntMutex == s.cntMutex - 1
      && f.byteCnt == s.byteCnt && f.linesRead == s.linesRead && f.closed == s.closed
  {
    var s1 := Step(s, i, 0).value;
    Turn(s, i, 2);
    Turn(s1, i, 1);
    assert Turns(i, 0) == [];
  }

  lemma {:induction false} StoresAndUnlocks(s: State, i: nat)
    requires 0 < s.ring.n == |s.ring.buf| && i < |s.threads| && s.threads[i].pc == CntLoaded
    ensures var f := Exec(s, Turns(i, 2));
      && SameElsewhere(s, i, f) && f.threads[i].pc == Serving && f.cntMutex == s.cntMutex + 1
      && f.byteCnt == s.threads[i].sum + s.threads[i].len && f.linesRead == s.linesRead && f.closed == s.closed
  {
    var s1 := Step(s, i, 0).value;
    Turn(s, i, 2);
    Turn(s1, i, 1);
    assert Turns(i, 0) == [];
  }

  lemma ReadsLine(s: State, i: nat, n: nat)
    requires 0 < s.ring.n == |s.ring.buf| && i < |s.threads| && s.threads[i].pc == Serving && 0 < n
    ensures var f := Exec(s, [(i, n)]);
      && SameElsewhere(s, i, f) && f.threads[i].pc == LineRead && f.threads[i].len == n
      && f.cntMutex == s.cntMutex && f.byteCnt == s.byteCnt && f.linesRead == s.linesRead + n && f.closed == s.closed
  {
    OneTurn(s, i, n);
  }

  lemma CountsLine(s: State, i: nat, n: nat)
    requires 0 < s.ring.n == |s.ring.buf| && i < |s.threads|
    requires s.threads[i].pc == Serving && 0 < s.cntMutex && 0 < n
    ensures Counted(s, i, Exec(s, OneLine(i, n)), Serving, n, s.closed)
  {
    ReadsLine(s, i, n);
    ExecAppend(s, [(i, n)], Turns(i, 4));
    var s1 := Exec(s, [(i, n)]);
    LocksAndLoads(s1, i);
    TurnsAppend(s1, i, 2, 2);
    StoresAndUnlocks(Exec(s1, Turns(i, 2)), i);
  }

  lemma {:induction false} ClosesAtEnd(s: State, i: nat)
    requires 0 < s.ring.n == |s.ring.buf| && i < |s.threads| && s.threads[i].pc == Serving
    ensures Counted(s, i, Exec(s, Turns(i, 2)), WantItem, 0, s.closed + [s.threads[i].conn])
  {
    var s1 := Step(s, i, 0).value;
    Turn(s, i, 2);
    Turn(s1, i, 1);
    assert Turns(i, 0) == [];
  }

  lemma {:induction false} ServesLines(s: State, i: nat, ns: seq<nat>)
    requires 0 < s.ring.n == |s.ring.buf| && i < |s.threads|
    requires s.threads[i].pc == Serving && 0 < s.cntMutex && Open(ns)
    ensures Counted(s, i, Exec(s, Lines(i, ns)), WantItem, Plus(ns), s.closed + [s.threads[i].conn])
    decreases |ns|
  {
    if ns == [] {
      ClosesAtEnd(s, i);
    } else {
      CountsLine(s, i, ns[0]);
      var s1 := Exec(s, OneLine(i, ns[0]));
      ExecAppend(s, OneLine(i, ns[0]), Lines(i, ns[1..]));
      ServesLines(s1, i, ns[1..]);
    }
  }

  /** The state behind Pthread_once. */
  lemma Opens(s: State, i: nat)
    requires 0 < s.ring.n == |s.ring.buf| && i < |s.threads| && s.threads[i].pc == Opening
    ensures var s1 := Exec(s, [(i, 0)]);
      && s1 == s.(threads := s.threads[i := s.threads[i].(pc := Serving)], once := true,
                  byteCnt := if s.once then s.byteCnt else 0, cntMutex := if s.once then s.cntMutex else 1)
  {
    OneTurn(s, i, 0);
  }

  /**
   A worker left alone with connection c and the counter free, whose got answer n1, ..., nk and then 0: all the lines
   are counted, the connection is closed, and the worker waits for the next one.
   */
  lemma ServesAlone(s: State, i: nat, ns: seq<nat>)
    requires Inv(s) && i < |s.threads| && s.threads[i].pc == Opening
    requires s.once ==> 0 < s.cntMutex
    requires Open(ns)
    ensures var f := Exec(s, [(i, 0)] + Lines(i, ns));
      && |f.threads| == |s.threads| && f.threads[i].pc == WantItem
      && (forall j :: 0 <= j < |s.threads| && j != i ==> f.threads[j] == s.threads[j])
      && f.byteCnt == s.byteCnt + Plus(ns) && f.linesRead == s.linesRead + Plus(ns)
      && f.closed == s.closed + [s.threads[i].conn]
      && f.ring == s.ring && f.accepted == s.accepted
      && f.once && f.cntMutex == if s.once then s.cntMutex else 1
  {
    Opens(s, i);
    ExecAppend(s, [(i, 0)], Lines(i, ns));
    ServesLines(Exec(s, [(i, 0)]), i, ns);
  }

  // ---------- all runs: what was read from each connection ----------

  /** Whether this step is a call of readlineb for connection c. */
  predicate ReadsFrom(s: State, i: nat, c: nat) {
    i < |s.threads| && s.threads[i].pc == Serving && s.threads[i].conn == c
  }

  /** What readlineb answers for connection c in the course of a run. */
  function Reads(s: State, schedule: seq<(nat, nat)>, c: nat): seq<nat>
    requires 0 < s.ring.n == |s.ring.buf|
    decreases |schedule|
  {
    if schedule == [] then []
    else
      var (i, choice) := schedule[0];
      match Step(s, i, choice)
      case None => Reads(s, schedule[1..], c)
      case Some(s') => (if ReadsFrom(s, i, c) then [choice] else []) + Reads(s', schedule[1..], c)
  }

  /** Lines only. */
  predicate Open(got: seq<nat>) {
    forall k :: 0 <= k < |got| ==> 0 < got[k]
  }

  /** Lines, then end of file. */
  predicate Ended(got: seq<nat>) {
    got != [] && got[|got| - 1] == 0 && Open(got[..|got| - 1])
  }

  /** A line of this length last. */
  predicate LastLine(got: seq<nat>, len: nat) {
    Open(got) && got != [] && got[|got| - 1] == len
  }

  /** What has been read from the connection a thread is responsible for. */
  predicate ReadBy(t: Thread, got: seq<nat>) {
    match t.pc
    case Serving => Open(got)
    case LineRead => LastLine(got, t.len)
    case CntLocked => LastLine(got, t.len)
    case CntLoaded => LastLine(got, t.len)
    case CntStored => LastLine(got, t.len)
    case Closing => Ended(got)
    case _ => got == []
  }

  /** What has been read from connection c agrees with where it is. */
  ghost predicate ReadSoFar(s: State, c: nat, got: seq<nat>) {
    && (forall i :: 0 <= i < |s.threads| && Holding(s.threads[i]) == Some(c) ==> ReadBy(s.threads[i], got))
    && (c in s.closed ==> Ended(got))
    && (c in Queue(s) || s.accepted <= c ==> got == [])
  }

  function Read(s: State, i: nat, choice: nat, c: nat): seq<nat> {
    if ReadsFrom(s, i, c) then [choice] else []
  }

  /** The step of a thread that reads a line of connection c, or its end. */
  lemma ReadStep(s: State, i: nat, choice: nat, s': State, c: nat, got: seq<nat>)
    requires Inv(s) && Step(s, i, choice) == Some(s') && ReadsFrom(s, i, c) && ReadSoFar(s, c, got)
    ensures ReadSoFar(s', c, got + [choice])
  {
    InOneHand(s, i, c);
    assert ReadBy(s.threads[i], got);
    assert (got + [choice])[..|got|] == got;
  }

  /** The hand of the thread that moves. */
  lemma OwnRead(s: State, i: nat, choice: nat, s': State, c: nat, got: seq<nat>)
    requires Inv(s) && Step(s, i, choice) == Some(s') && !ReadsFrom(s, i, c) && ReadSoFar(s, c, got)
    ensures i < |s'.threads| && (Holding(s'.threads[i]) == Some(c) ==> ReadBy(s'.threads[i], got))
  {
    StepEffect(s, i, choice, s');
    QueueEffect(s, i, s');
    assert Holding(s.threads[i]) == Some(c) ==> ReadBy(s.threads[i], got);
    if Inserting(s.threads[i].pc) {
      InsertKeepsRead(s, i, s', c, got);
    } else if Removing(s.threads[i].pc) {
      RemoveKeepsRead(s, i, s', c, got);
    } else {
      ServeKeepsRead(s, i, choice, s', c, got);
    }
  }

  lemma InsertKeepsRead(s: State, i: nat, s': State, c: nat, got: seq<nat>)
    requires 0 < s.ring.n == |s.ring.buf| && i < |s.threads| && Inserting(s.threads[i].pc)
    requires InsertStep(s, i) == Some(s')
    requires Holding(s.threads[i]) == Some(c) ==> ReadBy(s.threads[i], got)
    requires s.accepted <= c ==> got == []
    ensures i < |s'.threads| && (Holding(s'.threads[i]) == Some(c) ==> ReadBy(s'.threads[i], got))
  {
  }

  lemma RemoveKeepsRead(s: State, i: nat, s': State, c: nat, got: seq<nat>)
    requires 0 < s.ring.n == |s.ring.buf| && i < |s.threads| && Removing(s.threads[i].pc)
    requires RemoveStep(s, i) == Some(s')
    requires Holding(s.threads[i]) == Some(c) ==> ReadBy(s.threads[i], got)
    requires s.threads[i].pc == RemBumped ==> s'.threads[i].conn in Queue(s)
    requires c in Queue(s) ==> got == []
    ensures i < |s'.threads| && (Holding(s'.threads[i]) == Some(c) ==> ReadBy(s'.threads[i], got))
  {
  }

  lemma ServeKeepsRead(s: State, i: nat, choice: nat, s': State, c: nat, got: seq<nat>)
    requires i < |s.threads| && !Inserting(s.threads[i].pc) && !Removing(s.threads[i].pc)
    requires ServeStep(s, i, choice) == Some(s') && !ReadsFrom(s, i, c)
    requires Holding(s.threads[i]) == Some(c) ==> ReadBy(s.threads[i], got)
    ensures i < |s'.threads| && (Holding(s'.threads[i]) == Some(c) ==> ReadBy(s'.threads[i], got))
  {
  }

  lemma OtherStep(s: State, i: nat, choice: nat, s': State, c: nat, got: seq<nat>)
    requires Inv(s) && Step(s, i, choice) == Some(s') && !ReadsFrom(s, i, c) && ReadSoFar(s, c, got)
    ensures ReadSoFar(s', c, got)
  {
    OwnRead(s, i, choice, s', c, got);
    StepEffect(s, i, choice, s');
    QueueEffect(s, i, s');
    var t := s.threads[i];
    assert Holding(t) == Some(c) ==> ReadBy(t, got);
    assert forall j :: 0 <= j < |s.threads| && j != i ==> s'.threads[j] == s.threads[j];
  }

  lemma StepReads(s: State, i: nat, choice: nat, s': State, c: nat, got: seq<nat>)
    requires Inv(s) && Step(s, i, choice) == Some(s') && ReadSoFar(s, c, got)
    ensures Inv(s') && ReadSoFar(s', c, got + Read(s, i, choice, c))
  {
    StepKeepsInv(s, i, choice, s');
    if ReadsFrom(s, i, c) {
      ReadStep(s, i, choice, s', c, got);
    } else {
      OtherStep(s, i, choice, s', c, got);
      assert got + [] == got;
    }
  }

  lemma ReadsOnward(s: State, schedule: seq<(nat, nat)>, c: nat)
    requires 0 < s.ring.n == |s.ring.buf| && schedule != []
    ensures var (i, choice) := schedule[0];
      match Step(s, i, choice)
      case None =>
        Exec(s, schedule) == Exec(s, schedule[1..]) && Reads(s, schedule, c) == Reads(s, schedule[1..], c)
      case Some(s') =>
        && Exec(s, schedule) == Exec(s', schedule[1..])
        && Reads(s, schedule, c) == Read(s, i, choice, c) + Reads(s', schedule[1..], c)
  {
  }

  lemma {:induction false} RunReads(s: State, schedule: seq<(nat, nat)>, c: nat, got: seq<nat>)
    requires Inv(s) && ReadSoFar(s, c, got)
    ensures ReadSoFar(Exec(s, schedule), c, got + Reads(s, schedule, c))
    decreases |schedule|
  {
    if schedule == [] {
      assert got + [] == got;
    } else {
      var (i, choice) := schedule[0];
      ReadsOnward(s, schedule, c);
      match Step(s, i, choice) {
        case None => RunReads(s, schedule[1..], c, got);
        case Some(s') =>
          StepReads(s, i, choice, s', c, got);
          RunReads(s', schedule[1..], c, got + Read(s, i, choice, c));
          Regroup(got, Read(s, i, choice, c), Reads(s', schedule[1..], c));
      }
    }
  }

  lemma Regroup(a: seq<nat>, b: seq<nat>, c: seq<nat>)
    ensures (a + b) + c == a + (b + c)
  {
  }

  /**
   In every run a connection is read line by line, by one worker, until readlineb answers 0: then, and only then, it is
   closed or about to be. Before it has been taken from the buffer nothing is read from it.
   */
  lemma ReadsUntilEnd(s: State, schedule: seq<(nat, nat)>, c: nat)
    requires Init(s)
    ensures var f, got := Exec(s, schedule), Reads(s, schedule, c);
      && (Open(got) || Ended(got))
      && (Ended(got) <==> c in f.closed || BeingClosed(f, c))
      && (c in Queue(f) || f.accepted <= c ==> got == [])
  {
    InitInv(s);
    ExecKeepsInv(s, schedule);
    RunReads(s, schedule, c, []);
    assert [] + Reads(s, schedule, c) == Reads(s, schedule, c);
    ReadWhereItIs(Exec(s, schedule), c, Reads(s, schedule, c));
  }

  lemma ReadWhereItIs(f: State, c: nat, got: seq<nat>)
    requires OwnershipInv(f) && ReadSoFar(f, c, got)
    ensures Open(got) || Ended(got)
    ensures Ended(got) <==> c in f.closed || BeingClosed(f, c)
  {
    if c < f.accepted && c !in Queue(f) && c !in f.closed {
      Somewhere(f, c);
      var i :| 0 <= i < |f.threads| && Holding(f.threads[i]) == Some(c);
      assert ReadBy(f.threads[i], got);
      NotBoth(got);
      if f.threads[i].pc == Closing {
        assert BeingClosed(f, c);
      } else {
        NoOtherCloses(f, i, c);
      }
    } else {
      NoneCloses(f, c);
    }
  }

  /** A worker is past the last read of connection c. */
  ghost predicate BeingClosed(f: State, c: nat) {
    exists i :: 0 <= i < |f.threads| && f.threads[i].pc == Closing && f.threads[i].conn == c
  }

  /** An accepted connection is in a hand, in the queue or closed. */
  lemma Somewhere(f: State, c: nat)
    requires OwnershipInv(f)
    requires c < f.accepted && c !in Queue(f) && c !in f.closed
    ensures exists i :: 0 <= i < |f.threads| && Holding(f.threads[i]) == Some(c)
  {
    assert Places(f, c) == if c < f.accepted then 1 else 0;
    SumZero(Hand(c), f.threads);
    SumZero(Is(c), Queue(f));
    SumZero(Is(c), f.closed);
  }

  lemma NotBoth(got: seq<nat>)
    ensures !(Open(got) && Ended(got))
  {
  }

  lemma NoOtherCloses(f: State, i: nat, c: nat)
    requires OwnershipInv(f) && i < |f.threads| && Holding(f.threads[i]) == Some(c) && f.threads[i].pc != Closing
    ensures !BeingClosed(f, c)
  {
    InOneHand(f, i, c);
  }

  lemma NoneCloses(f: State, c: nat)
    requires OwnershipInv(f) && (c in Queue(f) || c in f.closed || f.accepted <= c)
    ensures !BeingClosed(f, c)
  {
    if BeingClosed(f, c) {
      var i :| 0 <= i < |f.threads| && f.threads[i].pc == Closing && f.threads[i].conn == c;
      InOneHand(f, i, c);
    }
  }

  // ---------- and counted ----------

  function Upto(f: nat -> nat, n: nat): nat {
    if n == 0 then 0 else Upto(f, n - 1) + f(n - 1)
  }

  lemma {:induction false} UptoAdd(f: nat -> nat, g: nat -> nat, h: nat -> nat, n: nat)
    requires forall c: nat :: f(c) == g(c) + h(c)
    ensures Upto(f, n) == Upto(g, n) + Upto(h, n)
  {
    if n > 0 {
      UptoAdd(f, g, h, n - 1);
    }
  }

  lemma {:induction false} UptoZero(f: nat -> nat, n: nat)
    requires forall c: nat :: f(c) == 0
    ensures Upto(f, n) == 0
  {
    if n > 0 {
      UptoZero(f, n - 1);
    }
  }

  lemma {:induction false} UptoOne(f: nat -> nat, c: nat, n: nat)
    requires forall x: nat :: x != c ==> f(x) == 0
    ensures Upto(f, n) == if c < n then f(c) else 0
  {
    if n > 0 {
      UptoOne(f, c, n - 1);
    }
  }

  /** The bytes of the lines read from each connection in a run, and in one step. */
  function BytesFrom(s: State, schedule: seq<(nat, nat)>): nat -> nat
    requires 0 < s.ring.n == |s.ring.buf|
  {
    (c: nat) => Plus(Reads(s, schedule, c))
  }

  function BytesNow(s: State, i: nat, choice: nat): nat -> nat {
    (c: nat) => if ReadsFrom(s, i, c) then choice else 0
  }

  /** The bytes of all lines read from the first n connections. */
  function BytesOf(s: State, schedule: seq<(nat, nat)>, n: nat): nat
    requires 0 < s.ring.n == |s.ring.buf|
  {
    Upto(BytesFrom(s, schedule), n)
  }

  lemma PlusRead(s: State, i: nat, choice: nat, c: nat, ns: seq<nat>)
    ensures Plus(Read(s, i, choice, c) + ns) == Plus(ns) + BytesNow(s, i, choice)(c)
  {
    assert ([choice] + ns)[1..] == ns && [] + ns == ns;
  }

  lemma BytesOnward(s: State, schedule: seq<(nat, nat)>, s': State, c: nat)
    requires 0 < s.ring.n == |s.ring.buf| && schedule != []
    requires Step(s, schedule[0].0, schedule[0].1) == Some(s')
    ensures BytesFrom(s, schedule)(c)
         == BytesFrom(s', schedule[1..])(c) + BytesNow(s, schedule[0].0, schedule[0].1)(c)
  {
    ReadsOnward(s, schedule, c);
    PlusRead(s, schedule[0].0, schedule[0].1, c, Reads(s', schedule[1..], c));
  }

  /** A run whose first step is not blocked. */
  lemma BytesAdd(s: State, schedule: seq<(nat, nat)>, s': State, n: nat)
    requires 0 < s.ring.n == |s.ring.buf| && schedule != []
    requires Step(s, schedule[0].0, schedule[0].1) == Some(s')
    ensures BytesOf(s, schedule, n)
         == BytesOf(s', schedule[1..], n) + Upto(BytesNow(s, schedule[0].0, schedule[0].1), n)
  {
    var f, g, h := BytesFrom(s, schedule), BytesFrom(s', schedule[1..]), BytesNow(s, schedule[0].0, schedule[0].1);
    forall c: nat ensures f(c) == g(c) + h(c) {
      BytesOnward(s, schedule, s', c);
    }
    UptoAdd(f, g, h, n);
  }

  lemma BytesSame(s: State, schedule: seq<(nat, nat)>, n: nat)
    requires 0 < s.ring.n == |s.ring.buf| && schedule != [] && Step(s, schedule[0].0, schedule[0].1).None?
    ensures BytesOf(s, schedule, n) == BytesOf(s, schedule[1..], n)
  {
    var f, g, h := BytesFrom(s, schedule), BytesFrom(s, schedule[1..]), (c: nat) => 0;
    forall c: nat ensures f(c) == g(c) + h(c) {
      ReadsOnward(s, schedule, c);
    }
    UptoAdd(f, g, h, n);
    UptoZero(h, n);
  }

  lemma InsertReadsNothing(s: State, i: nat, s': State)
    requires 0 < s.ring.n == |s.ring.buf| && i < |s.threads| && Inserting(s.threads[i].pc)
    requires InsertStep(s, i) == Some(s')
    ensures s'.linesRead == s.linesRead
  {
  }

  lemma RemoveReadsNothing(s: State, i: nat, s': State)
    requires 0 < s.ring.n == |s.ring.buf| && i < |s.threads| && Removing(s.threads[i].pc)
    requires RemoveStep(s, i) == Some(s')
    ensures s'.linesRead == s.linesRead
  {
  }

  lemma ServeReads(s: State, i: nat, choice: nat, s': State)
    requires i < |s.threads| && !Inserting(s.threads[i].pc) && !Removing(s.threads[i].pc)
    requires ServeStep(s, i, choice) == Some(s')
    ensures s'.linesRead == s.linesRead + if s.threads[i].pc == Serving then choice else 0
  {
  }

  lemma LinesStep(s: State, i: nat, choice: nat, s': State)
    requires Inv(s) && Step(s, i, choice) == Some(s')
    ensures s.accepted <= s'.accepted
    ensures i < |s.threads| && (s.threads[i].pc == Serving ==> s.threads[i].conn < s.accepted)
    ensures s'.linesRead == s.linesRead + if s.threads[i].pc == Serving then choice else 0
  {
    StepEffect(s, i, choice, s');
    if Inserting(s.threads[i].pc) {
      InsertReadsNothing(s, i, s');
    } else if Removing(s.threads[i].pc) {
      RemoveReadsNothing(s, i, s');
    } else {
      ServeReads(s, i, choice, s');
      if s.threads[i].pc == Serving {
        InOneHand(s, i, s.threads[i].conn);
      }
    }
  }

  lemma {:induction false} AcceptedGrows(s: State, schedule: seq<(nat, nat)>)
    requires Inv(s)
    ensures s.accepted <= Exec(s, schedule).accepted
    decreases |schedule|
  {
    if schedule != [] {
      match Step(s, schedule[0].0, schedule[0].1) {
        case None => AcceptedGrows(s, schedule[1..]);
        case Some(s') =>
          LinesStep(s, schedule[0].0, schedule[0].1, s');
          StepKeepsInv(s, schedule[0].0, schedule[0].1, s');
          AcceptedGrows(s', schedule[1..]);
      }
    }
  }

  /** What a step reads, it reads from one of the connections accepted. */
  lemma StepBytes(s: State, i: nat, choice: nat, s': State, n: nat)
    requires Inv(s) && Step(s, i, choice) == Some(s') && s.accepted <= n
    ensures s'.linesRead == s.linesRead + Upto(BytesNow(s, i, choice), n)
  {
    LinesStep(s, i, choice, s');
    if s.threads[i].pc == Serving {
      UptoOne(BytesNow(s, i, choice), s.threads[i].conn, n);
    } else {
      UptoZero(BytesNow(s, i, choice), n);
    }
  }

  lemma {:induction false} LinesInRun(s: State, schedule: seq<(nat, nat)>, n: nat)
    requires Inv(s) && Exec(s, schedule).accepted <= n
    ensures Exec(s, schedule).linesRead == s.linesRead + BytesOf(s, schedule, n)
    decreases |schedule|
  {
    AcceptedGrows(s, schedule);
    if schedule == [] {
      UptoZero(BytesFrom(s, schedule), n);
    } else {
      match Step(s, schedule[0].0, schedule[0].1) {
        case None =>
          BytesSame(s, schedule, n);
          LinesInRun(s, schedule[1..], n);
        case Some(s') =>
          BytesAdd(s, schedule, s', n);
          StepBytes(s, schedule[0].0, schedule[0].1, s', n);
          StepKeepsInv(s, schedule[0].0, schedule[0].1, s');
          LinesInRun(s', schedule[1..], n);
      }
    }
  }

  /** In every run, once no worker is in the middle of a line, byte_cnt is the sum of what readlineb has answered for
      all connections. */
  lemma CountsAllReads(s: State, schedule: seq<(nat, nat)>)
    requires Init(s)
    ensures var f := Exec(s, schedule);
      && f.byteCnt + Sum(Uncounted, f.threads) == BytesOf(s, schedule, f.accepted)
      && ((forall i :: 0 <= i < |f.threads| ==> !MidLine(f.threads[i]))
            ==> f.byteCnt == BytesOf(s, schedule, f.accepted))
  {
    InitInv(s);
    LinesInRun(s, schedule, Exec(s, schedule).accepted);
    CounterConserved(s, schedule);
    SumZero(Uncounted, Exec(s, schedule).threads);
  }
}
