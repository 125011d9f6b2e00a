/** What becomes of the clients that accept gives to the threaded web server. */
module ThreadedWebClients {
  import opened Options
  import opened Sums
  import opened ThreadedWebQueue
  import opened ThreadedWebRuns

  // ---------- what happens in a run ----------

  /** The client that accept gives in this step. */
  function GivenIn(s: State, i: nat, choice: nat): seq<nat> {
    if i < |s.threads| && s.threads[i].pc == InAccept && choice != 0 then [choice] else []
  }

  /** The client for which handle_client has run when this step is over. */
  function HandledIn(s: State, i: nat): seq<nat> {
    if i < |s.threads| && s.threads[i].pc == Handling then [s.threads[i].client] else []
  }

  /** The clients accept gives in a run, in order. */
  function Given(s: State, schedule: seq<(nat, nat)>): seq<nat>
    requires Fits(s)
    decreases |schedule|
  {
    if schedule == [] then []
    else
      match Step(s, schedule[0].0, schedule[0].1)
      case None => Given(s, schedule[1..])
      case Some(s') =>
        GivenIn(s, schedule[0].0, schedule[0].1) + if Fits(s') then Given(s', schedule[1..]) else []
  }

  /** The clients handled in a run, in order. */
  function Handled(s: State, schedule: seq<(nat, nat)>): seq<nat>
    requires Fits(s)
    decreases |schedule|
  {
    if schedule == [] then []
    else
      match Step(s, schedule[0].0, schedule[0].1)
      case None => Handled(s, schedule[1..])
      case Some(s') => HandledIn(s, schedule[0].0) + if Fits(s') then Handled(s', schedule[1..]) else []
  }

  /** The clients that thread w handles. */
  function HandledBy(s: State, schedule: seq<(nat, nat)>, w: nat): seq<nat>
    requires Fits(s)
    decreases |schedule|
  {
    if schedule == [] then []
    else
      match Step(s, schedule[0].0, schedule[0].1)
      case None => HandledBy(s, schedule[1..], w)
      case Some(s') =>
        (if schedule[0].0 == w then HandledIn(s, w) else []) + if Fits(s') then HandledBy(s', schedule[1..], w) else []
  }

  /** What thread w takes off the queue. */
  function PoppedBy(s: State, schedule: seq<(nat, nat)>, w: nat): seq<nat>
    requires Fits(s)
    decreases |schedule|
  {
    if schedule == [] then []
    else
      match Step(s, schedule[0].0, schedule[0].1)
      case None => PoppedBy(s, schedule[1..], w)
      case Some(s') =>
        (if schedule[0].0 == w then NewIn(s.popped, s'.popped) else [])
          + if Fits(s') then PoppedBy(s', schedule[1..], w) else []
  }

  /** What a list has more than an earlier one. */
  function NewIn(was: seq<nat>, now: seq<nat>): seq<nat> {
    if |was| <= |now| then now[|was|..] else []
  }

  // ---------- no client is lost, exchanged or handled twice ----------

  /** Given by accept and not yet pushed. */
  function Coming(t: Thread): seq<nat> {
    if t.pc == WantLock || t.pc == PushLocked || t.pc == PushWritten then [t.client] else []
  }

  /** Popped and not yet handled. */
  function Going(t: Thread): seq<nat> {
    if t.pc == Popped || t.pc == PopPosted || t.pc == Handling then [t.client] else []
  }

  function In(c: nat, hand: seq<nat>): nat {
    if hand == [c] then 1 else 0
  }

  function ComingIs(c: nat): Thread -> nat {
    t => In(c, Coming(t))
  }

  function GoingIs(c: nat): Thread -> nat {
    t => In(c, Going(t))
  }

  /** One step, seen from its thread: a client moves from accept to the hand, from there to the queue, and on the other
      side from the queue to the hand and out of it when it has been handled. */
  ghost predicate ClientEffect(s: State, i: nat, choice: nat, s': State) {
    && Moved(s, i, s')
    && s'.pushed + Coming(s'.threads[i]) == s.pushed + Coming(s.threads[i]) + GivenIn(s, i, choice)
    && HandledIn(s, i) + Going(s'.threads[i]) == Going(s.threads[i]) + NewIn(s.popped, s'.popped)
    && s.popped <= s'.popped
  }

  lemma AcceptClient(s: State, i: nat, choice: nat, s': State)
    requires Fits(s) && i < |s.threads| && Accepts(s.threads[i].pc) && AcceptStep(s, i, choice) == Some(s')
    ensures ClientEffect(s, i, choice, s') && s'.popped == s.popped
    ensures Going(s'.threads[i]) == Going(s.threads[i]) == []
  {
  }

  lemma WorkerClient(s: State, i: nat, choice: nat, s': State)
    requires Fits(s) && i < |s.threads| && !Accepts(s.threads[i].pc) && WorkerStep(s, i) == Some(s')
    ensures ClientEffect(s, i, choice, s') && s'.pushed == s.pushed
    ensures Coming(s'.threads[i]) == Coming(s.threads[i]) == []
  {
  }

  lemma ClientStep(s: State, i: nat, choice: nat, s': State)
    requires Fits(s) && Step(s, i, choice) == Some(s')
    ensures ClientEffect(s, i, choice, s')
  {
    if Accepts(s.threads[i].pc) {
      AcceptClient(s, i, choice, s');
    } else {
      WorkerClient(s, i, choice, s');
    }
  }

  lemma {:induction false} SumConcat(f: nat -> nat, a: seq<nat>, b: seq<nat>)
    ensures Sum(f, a + b) == Sum(f, a) + Sum(f, b)
  {
    if a == [] {
      assert a + b == b;
    } else {
      assert (a + b)[1..] == a[1..] + b;
      SumConcat(f, a[1..], b);
    }
  }

  lemma HandSum(c: nat, hand: seq<nat>)
    requires |hand| <= 1
    ensures Sum(Is(c), hand) == In(c, hand)
  {
    if hand != [] {
      assert hand[1..] == [];
    }
  }

  /** How often c is given, on its way and pushed. */
  lemma ComingKept(s: State, i: nat, choice: nat, s': State, c: nat)
    requires ClientEffect(s, i, choice, s')
    ensures Sum(Is(c), GivenIn(s, i, choice)) + Sum(ComingIs(c), s.threads) + Sum(Is(c), s.pushed)
         == Sum(ComingIs(c), s'.threads) + Sum(Is(c), s'.pushed)
  {
    var t, t' := s.threads[i], s'.threads[i];
    SumUpdate(ComingIs(c), s.threads, i, t');
    HandSum(c, Coming(t));
    HandSum(c, Coming(t'));
    SumConcat(Is(c), s'.pushed, Coming(t'));
    SumConcat(Is(c), s.pushed, Coming(t));
    SumConcat(Is(c), s.pushed + Coming(t), GivenIn(s, i, choice));
  }

  /** How often c is popped, in a worker's hand and handled. */
  lemma GoingKept(s: State, i: nat, choice: nat, s': State, c: nat)
    requires ClientEffect(s, i, choice, s')
    ensures Sum(GoingIs(c), s.threads) + Sum(Is(c), s'.popped)
         == Sum(Is(c), HandledIn(s, i)) + Sum(GoingIs(c), s'.threads) + Sum(Is(c), s.popped)
  {
    var t, t' := s.threads[i], s'.threads[i];
    SumUpdate(GoingIs(c), s.threads, i, t');
    HandSum(c, Going(t));
    HandSum(c, Going(t'));
    SumConcat(Is(c), HandledIn(s, i), Going(t'));
    SumConcat(Is(c), Going(t), NewIn(s.popped, s'.popped));
    assert s'.popped == s.popped + NewIn(s.popped, s'.popped);
    SumConcat(Is(c), s.popped, NewIn(s.popped, s'.popped));
  }

  lemma {:induction false} GivenArePushed(s: State, schedule: seq<(nat, nat)>, c: nat)
    requires Inv(s) && Fits(s)
    ensures var f := Exec(s, schedule);
      Sum(Is(c), Given(s, schedule)) + Sum(ComingIs(c), s.threads) + Sum(Is(c), s.pushed)
        == Sum(ComingIs(c), f.threads) + Sum(Is(c), f.pushed)
    decreases |schedule|
  {
    if schedule != [] {
      var (i, choice) := schedule[0];
      match Step(s, i, choice) {
        case None => GivenArePushed(s, schedule[1..], c);
        case Some(s') =>
          StepKeepsInv(s, i, choice, s');
          ClientStep(s, i, choice, s');
          ComingKept(s, i, choice, s', c);
          GivenArePushed(s', schedule[1..], c);
          SumConcat(Is(c), GivenIn(s, i, choice), Given(s', schedule[1..]));
      }
    }
  }

  lemma {:induction false} PoppedAreHandled(s: State, schedule: seq<(nat, nat)>, c: nat)
    requires Inv(s) && Fits(s)
    ensures var f := Exec(s, schedule);
      Sum(GoingIs(c), s.threads) + Sum(Is(c), f.popped)
        == Sum(Is(c), Handled(s, schedule)) + Sum(GoingIs(c), f.threads) + Sum(Is(c), s.popped)
    decreases |schedule|
  {
    if schedule != [] {
      var (i, choice) := schedule[0];
      match Step(s, i, choice) {
        case None => PoppedAreHandled(s, schedule[1..], c);
        case Some(s') =>
          StepKeepsInv(s, i, choice, s');
          ClientStep(s, i, choice, s');
          GoingKept(s, i, choice, s', c);
          PoppedAreHandled(s', schedule[1..], c);
          SumConcat(Is(c), HandledIn(s, i), Handled(s', schedule[1..]));
      }
    }
  }

  lemma NoHands(s: State, c: nat)
    requires forall i :: 0 <= i < |s.threads| ==> Coming(s.threads[i]) == [] && Going(s.threads[i]) == []
    ensures Sum(ComingIs(c), s.threads) == 0 && Sum(GoingIs(c), s.threads) == 0
  {
    SumZero(ComingIs(c), s.threads);
    SumZero(GoingIs(c), s.threads);
  }

  /**
   In every run: as often as accept has given a client, it is on its way to the queue, in the queue, taken from there by
   a worker, or has been handled.
   */
  lemma EveryClientIsSomewhere(s: State, schedule: seq<(nat, nat)>, c: nat)
    requires Init(s)
    ensures var f := Exec(s, schedule);
      Sum(Is(c), Given(s, schedule)) == Sum(ComingIs(c), f.threads) + Sum(Is(c), Queue(f))
        + Sum(GoingIs(c), f.threads) + Sum(Is(c), Handled(s, schedule))
  {
    InitInv(s);
    ExecKeepsInv(s, schedule);
    NoHands(s, c);
    GivenArePushed(s, schedule, c);
    PoppedAreHandled(s, schedule, c);
    var f := Exec(s, schedule);
    assert f.pushed == f.popped + Queue(f);
    SumConcat(Is(c), f.popped, Queue(f));
  }

  lemma WorkerRemains(s: State, schedule: seq<(nat, nat)>)
    requires Inv(s) && HasWorker(s)
    ensures HasWorker(Exec(s, schedule))
  {
    MaxKept(s, schedule);
    var w :| 0 <= w < |s.threads| && !Accepts(s.threads[w].pc);
    assert !Accepts(Exec(s, schedule).threads[w].pc);
  }

  lemma QuietHands(f: State, c: nat)
    requires Inv(f) && Fits(f) && HasWorker(f) && Quiet(f)
    ensures Sum(ComingIs(c), f.threads) == 0 && Sum(GoingIs(c), f.threads) == 0 && Queue(f) == []
  {
    QuietIffResting(f);
    assert forall i :: 0 <= i < |f.threads| ==> AtRestWith(f, f.threads[i].pc);
    NoHands(f, c);
  }

  /** Whenever nothing can move until the next client, all clients have been handled, each as often as it was given. */
  lemma EveryClientIsHandled(s: State, schedule: seq<(nat, nat)>, c: nat)
    requires Init(s) && HasWorker(s)
    ensures Fits(Exec(s, schedule))
    ensures Quiet(Exec(s, schedule)) ==> Sum(Is(c), Given(s, schedule)) == Sum(Is(c), Handled(s, schedule))
  {
    InitInv(s);
    ExecKeepsInv(s, schedule);
    WorkerRemains(s, schedule);
    EveryClientIsSomewhere(s, schedule, c);
    if Quiet(Exec(s, schedule)) {
      QuietHands(Exec(s, schedule), c);
    }
  }

  // ---------- who handles whom, and in which order ----------

  lemma OwnHand(s: State, i: nat, choice: nat, s': State, w: nat)
    requires Fits(s) && Step(s, i, choice) == Some(s') && w < |s.threads|
    ensures w < |s'.threads|
    ensures (if i == w then HandledIn(s, w) else []) + Going(s'.threads[w])
         == Going(s.threads[w]) + if i == w then NewIn(s.popped, s'.popped) else []
  {
    ClientStep(s, i, choice, s');
  }

  lemma Shuffle(a: seq<nat>, b: seq<nat>, c: seq<nat>, d: seq<nat>, e: seq<nat>, f: seq<nat>, g: seq<nat>)
    requires b + c == a + d && c + e == f + g
    ensures a + (d + e) == (b + f) + g
  {
    assert a + (d + e) == (a + d) + e == b + (c + e);
  }

  lemma {:induction false} WorkerRun(s: State, schedule: seq<(nat, nat)>, w: nat)
    requires Inv(s) && Fits(s) && w < |s.threads|
    ensures w < |Exec(s, schedule).threads|
    ensures Going(s.threads[w]) + PoppedBy(s, schedule, w)
         == HandledBy(s, schedule, w) + Going(Exec(s, schedule).threads[w])
    decreases |schedule|
  {
    if schedule != [] {
      var (i, choice) := schedule[0];
      match Step(s, i, choice) {
        case None => WorkerRun(s, schedule[1..], w);
        case Some(s') =>
          StepKeepsInv(s, i, choice, s');
          OwnHand(s, i, choice, s', w);
          WorkerRun(s', schedule[1..], w);
          Shuffle(Going(s.threads[w]), if i == w then HandledIn(s, w) else [], Going(s'.threads[w]),
            if i == w then NewIn(s.popped, s'.popped) else [], PoppedBy(s', schedule[1..], w),
            HandledBy(s', schedule[1..], w), Going(Exec(s', schedule[1..]).threads[w]));
      }
    }
  }

  /** In every run a thread handles the clients it takes off the queue, those and no others, in that order; what it has
      taken and not handled is the one it holds. */
  lemma HandlesWhatItPops(s: State, schedule: seq<(nat, nat)>, w: nat)
    requires Init(s) && w < |s.threads|
    ensures w < |Exec(s, schedule).threads|
    ensures PoppedBy(s, schedule, w) == HandledBy(s, schedule, w) + Going(Exec(s, schedule).threads[w])
  {
    InitInv(s);
    WorkerRun(s, schedule, w);
    assert [] + PoppedBy(s, schedule, w) == PoppedBy(s, schedule, w);
  }

  ghost predicate OnlyAccepts(s: State, a: nat) {
    && a < |s.threads| && Accepts(s.threads[a].pc)
    && forall j :: 0 <= j < |s.threads| && j != a ==> !Accepts(s.threads[j].pc)
  }

  lemma OrderStep(s: State, i: nat, choice: nat, s': State, a: nat)
    requires Fits(s) && Step(s, i, choice) == Some(s') && OnlyAccepts(s, a)
    ensures OnlyAccepts(s', a)
    ensures s.pushed + Coming(s.threads[a]) + GivenIn(s, i, choice) == s'.pushed + Coming(s'.threads[a])
  {
    StepEffect(s, i, choice, s');
    ClientStep(s, i, choice, s');
    if i != a {
      WorkerClient(s, i, choice, s');
    }
  }

  lemma {:induction false} OrderRun(s: State, schedule: seq<(nat, nat)>, a: nat)
    requires Inv(s) && Fits(s) && OnlyAccepts(s, a)
    ensures OnlyAccepts(Exec(s, schedule), a)
    ensures s.pushed + Coming(s.threads[a]) + Given(s, schedule)
         == Exec(s, schedule).pushed + Coming(Exec(s, schedule).threads[a])
    decreases |schedule|
  {
    if schedule != [] {
      var (i, choice) := schedule[0];
      match Step(s, i, choice) {
        case None => OrderRun(s, schedule[1..], a);
        case Some(s') =>
          StepKeepsInv(s, i, choice, s');
          OrderStep(s, i, choice, s', a);
          OrderRun(s', schedule[1..], a);
          Append3(s.pushed + Coming(s.threads[a]), GivenIn(s, i, choice), Given(s', schedule[1..]));
      }
    }
  }

  lemma Append3(a: seq<nat>, b: seq<nat>, c: seq<nat>)
    ensures a + (b + c) == (a + b) + c
  {
  }

  /** With a single accept loop clients are pushed, and so popped, in the order in which accept gives them. */
  lemma ClientsInOrder(s: State, schedule: seq<(nat, nat)>, a: nat)
    requires Init(s) && OnlyAccepts(s, a)
    ensures var f := Exec(s, schedule);
      && a < |f.threads| && Given(s, schedule) == f.pushed + Coming(f.threads[a])
      && f.popped <= f.pushed <= Given(s, schedule)
  {
    InitInv(s);
    ExecKeepsInv(s, schedule);
    OrderRun(s, schedule, a);
    assert [] + [] + Given(s, schedule) == Given(s, schedule);
  }
}
