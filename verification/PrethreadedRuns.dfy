/** Whole runs of the prethreaded server: every way of finishing the work, and a run in which the counter is behind. */
module PrethreadedRuns {
  import opened Sums
  import opened PrethreadedServer
  import opened PrethreadedProperties

  // ---------- finishing the work, in any order ----------

  /** Steps of these threads one after the other: none is blocked, none accepts, and clients have hung up. */
  predicate Draining(s: State, steps: seq<nat>)
    requires 0 < s.ring.n == |s.ring.buf|
    decreases |steps|
  {
    steps == [] ||
    (&& steps[0] < |s.threads| && s.threads[steps[0]].pc != Accepting && Step(s, steps[0], 0).Some?
     && Draining(Step(s, steps[0], 0).value, steps[1..]))
  }

  function Drained(s: State, steps: seq<nat>): (f: State)
    requires 0 < s.ring.n == |s.ring.buf| && Draining(s, steps)
    ensures f.ring.n == s.ring.n && |f.ring.buf| == |s.ring.buf|
    decreases |steps|
  {
    if steps == [] then s else Drained(Step(s, steps[0], 0).value, steps[1..])
  }

  /** No order of steps goes on for ever, and one that cannot go on has left no work. */
  lemma {:induction false} EveryDrainEnds(s: State, steps: seq<nat>)
    requires Inv(s) && HasWorker(s) && Draining(s, steps)
    ensures var f := Drained(s, steps);
      && |steps| + Remaining(f) <= Remaining(s)
      && Inv(f) && HasWorker(f) && f.accepted == s.accepted
      && (Quiet(f) <==> Idle(f))
    decreases |steps|
  {
    if steps == [] {
      QuietIffIdle(s);
    } else {
      var s' := Step(s, steps[0], 0).value;
      DrainStep(s, steps[0], s');
      EveryDrainEnds(s', steps[1..]);
    }
  }

  /**
   From every reachable state: however the threads are scheduled once no more connections and lines arrive, after at
   most `Remaining` steps nothing can move, and then every accepted connection has been closed exactly once.
   */
  lemma EveryScheduleClosesAll(s: State, schedule: seq<(nat, nat)>, steps: seq<nat>)
    requires Init(s) && HasWorker(s) && Draining(Exec(s, schedule), steps)
    ensures var f := Exec(s, schedule); var g := Drained(f, steps);
      && |steps| <= Remaining(f)
      && (|steps| == Remaining(f) ==> Quiet(g))
      && (Quiet(g) ==> AllClosed(g, f.accepted))
  {
    InitInv(s);
    ExecKeepsInv(s, schedule);
    WorkerStaysInRun(s, schedule);
    var f := Exec(s, schedule);
    EveryDrainEnds(f, steps);
    var g := Drained(f, steps);
    if |steps| == Remaining(f) {
      forall i | 0 <= i < |g.threads| ensures g.threads[i].pc == Accepting || Step(g, i, 0).None? {
        if g.threads[i].pc != Accepting && Step(g, i, 0).Some? {
          StepMakesProgress(g, i, Step(g, i, 0).value);
        }
      }
    }
    if Quiet(g) {
      forall c: nat | c < f.accepted ensures Sum(Is(c), g.closed) == 1 {
        IdleMeansClosed(g, c);
      }
    }
  }

  // ---------- a run in which the counter is behind ----------

  lemma {:induction false} ExecAppend(s: State, a: seq<(nat, nat)>, b: seq<(nat, nat)>)
    requires 0 < s.ring.n == |s.ring.buf|
    ensures Exec(s, a + b) == Exec(Exec(s, a), b)
    decreases |a|
  {
    if a == [] {
      assert a + b == b;
    } else {
      assert (a + b)[0] == a[0] && (a + b)[1..] == a[1..] + b;
      match Step(s, a[0].0, a[0].1)
      case None => ExecAppend(s, a[1..], b);
      case Some(s') => ExecAppend(s', a[1..], b);
    }
  }

  /** One turn of thread i. */
  lemma OneTurn(s: State, i: nat, choice: nat)
    requires 0 < s.ring.n == |s.ring.buf| && Step(s, i, choice).Some?
    ensures Exec(s, [(i, choice)]) == Step(s, i, choice).value
  {
    assert [(i, choice)][1..] == [];
  }

  /** Everything but the ring and this thread. */
  ghost predicate OthersKept(s: State, i: nat, f: State) {
    && i < |s.threads| == |f.threads|
    && (forall j :: 0 <= j < |s.threads| && j != i ==> f.threads[j] == s.threads[j])
    && f.cntMutex == s.cntMutex && f.byteCnt == s.byteCnt && f.linesRead == s.linesRead && f.once == s.once
  }

  /** Two stretches of turns of one thread. */
  lemma TurnsAppend(s: State, i: nat, j: nat, k: nat)
    requires 0 < s.ring.n == |s.ring.buf|
    ensures Exec(s, Turns(i, j + k)) == Exec(Exec(s, Turns(i, j)), Turns(i, k))
  {
    assert Turns(i, j + k) == Turns(i, j) + Turns(i, k);
    ExecAppend(s, Turns(i, j), Turns(i, k));
  }

  lemma {:induction false} EntersInsert(s: State, i: nat)
    requires 0 < s.ring.n == |s.ring.buf| && i < |s.threads|
    requires s.threads[i].pc == Accepting && 0 < s.ring.slots && 0 < s.ring.mutex
    ensures var f := Exec(s, Turns(i, 3));
      && OthersKept(s, i, f) && f.threads[i].pc == InsLocked
      && f.ring.mutex == s.ring.mutex - 1 && f.ring.items == s.ring.items
  {
    var s1 := Step(s, i, 0).value;
    var s2 := Step(s1, i, 0).value;
    Turn(s, i, 3);
    Turn(s1, i, 2);
    Turn(s2, i, 1);
    assert Turns(i, 0) == [];
  }

  lemma {:induction false} LeavesInsert(s: State, i: nat)
    requires 0 < s.ring.n == |s.ring.buf| && i < |s.threads| && s.threads[i].pc == InsLocked
    ensures var f := Exec(s, Turns(i, 5));
      && OthersKept(s, i, f) && f.threads[i].pc == Accepting
      && f.ring.mutex == s.ring.mutex + 1 && f.ring.items == s.ring.items + 1
  {
    var s1 := Step(s, i, 0).value;
    var s2 := Step(s1, i, 0).value;
    var s3 := Step(s2, i, 0).value;
    var s4 := Step(s3, i, 0).value;
    Turn(s, i, 5);
    Turn(s1, i, 4);
    Turn(s2, i, 3);
    Turn(s3, i, 2);
    Turn(s4, i, 1);
    assert Turns(i, 0) == [];
  }

  lemma {:induction false} ClaimsItem(s: State, i: nat)
    requires 0 < s.ring.n == |s.ring.buf| && i < |s.threads|
    requires s.threads[i].pc == WantItem && 0 < s.ring.items && 0 < s.ring.mutex
    ensures var f := Exec(s, Turns(i, 2)); OthersKept(s, i, f) && f.threads[i].pc == RemLocked
  {
    var s1 := Step(s, i, 0).value;
    Turn(s, i, 2);
    Turn(s1, i, 1);
    assert Turns(i, 0) == [];
  }

  lemma {:induction false} BumpsFront(s: State, i: nat)
    requires 0 < s.ring.n == |s.ring.buf| && i < |s.threads| && s.threads[i].pc == RemLocked
    ensures var f := Exec(s, Turns(i, 2)); OthersKept(s, i, f) && f.threads[i].pc == RemBumped
  {
    var s1 := Step(s, i, 0).value;
    Turn(s, i, 2);
    Turn(s1, i, 1);
    assert Turns(i, 0) == [];
  }

  lemma {:induction false} FetchesItem(s: State, i: nat)
    requires 0 < s.ring.n == |s.ring.buf| && i < |s.threads| && s.threads[i].pc == RemBumped
    ensures var f := Exec(s, Turns(i, 1)); OthersKept(s, i, f) && f.threads[i].pc == RemFetched
  {
    Turn(s, i, 1);
    assert Turns(i, 0) == [];
  }

  lemma {:induction false} LeavesRemove(s: State, i: nat)
    requires 0 < s.ring.n == |s.ring.buf| && i < |s.threads| && s.threads[i].pc == RemFetched
    ensures var f := Exec(s, Turns(i, 2)); OthersKept(s, i, f) && f.threads[i].pc == Opening
  {
    var s1 := Step(s, i, 0).value;
    Turn(s, i, 2);
    Turn(s1, i, 1);
    assert Turns(i, 0) == [];
  }

  lemma Inserts(s: State, i: nat)
    requires 0 < s.ring.n == |s.ring.buf| && i < |s.threads|
    requires s.threads[i].pc == Accepting && 0 < s.ring.slots && 0 < s.ring.mutex
    ensures var f := Exec(s, Turns(i, 8));
      OthersKept(s, i, f) && f.threads[i].pc == Accepting && f.ring.mutex == s.ring.mutex && 0 < f.ring.items
  {
    EntersInsert(s, i);
    LeavesInsert(Exec(s, Turns(i, 3)), i);
    TurnsAppend(s, i, 3, 5);
  }

  lemma Takes(s: State, i: nat)
    requires 0 < s.ring.n == |s.ring.buf| && i < |s.threads|
    requires s.threads[i].pc == WantItem && 0 < s.ring.items && 0 < s.ring.mutex
    ensures var f := Exec(s, Turns(i, 7)); OthersKept(s, i, f) && f.threads[i].pc == Opening
  {
    ClaimsItem(s, i);
    BumpsFront(Exec(s, Turns(i, 2)), i);
    TurnsAppend(s, i, 2, 2);
    FetchesItem(Exec(s, Turns(i, 4)), i);
    TurnsAppend(s, i, 4, 1);
    LeavesRemove(Exec(s, Turns(i, 5)), i);
    TurnsAppend(s, i, 5, 2);
  }

  /** The first worker to serve sets up the counter, and reads a line. */
  lemma ReadsFirstLine(s: State, i: nat, len: nat)
    requires 0 < s.ring.n == |s.ring.buf| && i < |s.threads| && 0 < len
    requires s.threads[i].pc == Opening && !s.once && s.linesRead == 0
    ensures var f := Exec(s, [(i, 0)] + [(i, len)]); f.cntMutex == 1 && f.byteCnt == 0 && f.linesRead == len
  {
    var s1 := Step(s, i, 0).value;
    OneTurn(s, i, 0);
    OneTurn(s1, i, len);
    ExecAppend(s, [(i, 0)], [(i, len)]);
  }

  /** Thread 0 accepts and inserts a connection, worker 1 takes it and reads a line of `len` bytes. */
  function FirstLine(len: nat): seq<(nat, nat)> {
    Turns(0, 8) + (Turns(1, 7) + ([(1, 0)] + [(1, len)]))
  }

  lemma FirstLineFrom(s: State, len: nat)
    requires 0 < s.ring.n == |s.ring.buf| && 2 <= |s.threads| && 0 < len
    requires s.threads[0].pc == Accepting && s.threads[1].pc == WantItem && 0 < s.ring.slots && 0 < s.ring.mutex
    requires !s.once && s.linesRead == 0
    ensures var f := Exec(s, FirstLine(len)); f.cntMutex == 1 && f.byteCnt == 0 && f.linesRead == len
  {
    Inserts(s, 0);
    var s1 := Exec(s, Turns(0, 8));
    Takes(s1, 1);
    var s2 := Exec(s1, Turns(1, 7));
    ReadsFirstLine(s2, 1, len);
    var last := [(1, 0)] + [(1, len)];
    ExecAppend(s1, Turns(1, 7), last);
    ExecAppend(s, Turns(0, 8), Turns(1, 7) + last);
  }

  /** The program comes to a state in which the counter's lock is free and `byte_cnt` has missed a line. */
  lemma CounterIsBehind(len: nat)
    requires 0 < len
    ensures var f := Exec(Start(), FirstLine(len)); f.cntMutex == 1 && f.byteCnt == 0 && f.linesRead == len
  {
    FirstLineFrom(Start(), len);
  }
}
