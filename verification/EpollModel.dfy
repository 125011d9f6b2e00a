/**
 The event-driven echo service of src/epoll_server_example.c on values: what one event does to a client, as a function
 of the answers that the system calls give, and what that means for whole connections.
 */
module EpollModel {
  import opened Bytes

  const BUFFER_MAX: nat := 1024

  datatype ClientState = SENDING | RECEIVING | DISCONNECTED

  datatype Event = Event(readable: bool, writable: bool, hangup: bool)

  /** What a call of recv or send answers; `Bytes` moves as many as there are and fit, but no more than 1 + extra. */
  datatype Answer = Bytes(extra: nat) | Again | Interrupted | Failed

  /**
   A client: what is left of the response, what the client has sent and the server has not read, what it has read, what
   it has sent back, and the answers to come. With no answers left every call answers "not now".
   */
  datatype Conn = Conn(state: ClientState, pending: seq<Byte>, input: seq<Byte>, taken: seq<Byte>, output: seq<Byte>,
                       answers: seq<Answer>)

  function Moved(extra: nat, limit: nat): (k: nat)
    requires 0 < limit
    ensures 1 <= k <= limit
  {
    if 1 + extra < limit then 1 + extra else limit
  }

  function Readable(input: seq<Byte>): nat {
    if |input| < BUFFER_MAX then |input| else BUFFER_MAX
  }

  /** recv_data: all that comes in before the first "not now" or end of file is appended; false after an error. */
  function Receive(c: Conn): (r: (Conn, bool))
    decreases |c.answers|
  {
    if c.answers == [] then (c, true) else
      var d := c.(answers := c.answers[1..]);
      match c.answers[0]
      case Again => (d, true)
      case Interrupted => Receive(d)
      case Failed => (d, false)
      case Bytes(extra) =>
        if c.input == [] then (d, true) else
          var k := Moved(extra, Readable(c.input));
          Receive(d.(pending := c.pending + c.input[..k], taken := c.taken + c.input[..k], input := c.input[k..]))
  }

  datatype Outcome = AllSent | Blocked | Broken

  /** One call of send that takes some of the response. */
  function AfterSend(c: Conn): (d: Conn)
    requires c.pending != [] && c.answers != [] && c.answers[0].Bytes?
    ensures |d.answers| < |c.answers|
  {
    var k := Moved(c.answers[0].extra, |c.pending|);
    c.(answers := c.answers[1..], pending := c.pending[k..], output := c.output + c.pending[..k])
  }

  /** send_data: the response goes out until a call does not take any of it. */
  function Transmit(c: Conn): (r: (Conn, Outcome))
    decreases |c.answers|
  {
    if c.pending == [] then (c, AllSent)
    else if c.answers == [] then (c, Blocked) else
      var d := c.(answers := c.answers[1..]);
      match c.answers[0]
      case Again => (d, Blocked)
      case Interrupted => Transmit(d)
      case Failed => (d, Broken)
      case Bytes(_) => Transmit(AfterSend(c))
  }

  /** recv_requests: what came in becomes the response. */
  function OnReadable(c: Conn): Conn {
    var (d, ok) := Receive(c.(pending := []));
    if ok then d.(state := SENDING) else d.(state := DISCONNECTED, pending := c.pending)
  }

  /** send_responses: back to RECEIVING when all has gone out. */
  function OnWritable(c: Conn): Conn {
    var (d, outcome) := Transmit(c);
    match outcome
    case AllSent => d.(state := RECEIVING)
    case Blocked => d
    case Broken => d.(state := DISCONNECTED)
  }

  function OnHangup(c: Conn): Conn {
    if c.state == RECEIVING then c.(state := DISCONNECTED) else c
  }

  /** An event epoll may report: only what the client is registered for, and hangups. */
  predicate Legal(c: Conn, ev: Event) {
    && c.state != DISCONNECTED
    && (ev.readable ==> c.state == RECEIVING)
    && (ev.writable ==> c.state == SENDING)
  }

  /** The loop body of main for a client's event. */
  function OnEvent(c: Conn, ev: Event): Conn
    requires Legal(c, ev)
  {
    var received := if ev.readable then OnReadable(c) else c;
    var sent := if ev.writable then OnWritable(received) else received;
    if ev.hangup then OnHangup(sent) else sent
  }

  /** The part of what happens that the client is registered for. */
  function Reported(c: Conn, ev: Event): (r: Event)
    requires c.state != DISCONNECTED
    ensures Legal(c, r)
  {
    Event(ev.readable && c.state == RECEIVING, ev.writable && c.state == SENDING, ev.hangup)
  }

  /** A connection's events, until it is closed. */
  function Events(c: Conn, evs: seq<Event>): Conn
    decreases |evs|
  {
    if evs == [] || c.state == DISCONNECTED then c
    else Events(OnEvent(c, Reported(c, evs[0])), evs[1..])
  }

  /** A new client, that is going to send `input`. */
  function Connected(input: seq<Byte>, answers: seq<Answer>): Conn {
    Conn(RECEIVING, [], input, [], [], answers)
  }

  // ---------- sent is a prefix of read ----------

  /** What has been sent is what has been read, except for the rest of the response while SENDING. */
  predicate Ordered(c: Conn) {
    match c.state
    case RECEIVING => c.pending == [] && c.output == c.taken
    case SENDING => c.output + c.pending == c.taken
    case DISCONNECTED => c.output <= c.taken
  }

  lemma {:induction false} ReceiveKeeps(c: Conn, before: seq<Byte>)
    requires c.taken == before + c.pending
    ensures var d := Receive(c).0;
      && d.taken == before + d.pending && d.output == c.output && d.state == c.state
      && d.taken + d.input == c.taken + c.input && |c.pending| <= |d.pending|
    decreases |c.answers|
  {
    if c.answers != [] {
      var d := c.(answers := c.answers[1..]);
      match c.answers[0]
      case Interrupted => ReceiveKeeps(d, before);
      case Bytes(extra) =>
        if c.input != [] {
          var k := Moved(extra, Readable(c.input));
          var part := c.input[..k];
          assert part + c.input[k..] == c.input;
          assert before + c.pending + part == before + (c.pending + part);
          assert c.taken + part + c.input[k..] == c.taken + (part + c.input[k..]);
          ReceiveKeeps(d.(pending := c.pending + part, taken := c.taken + part, input := c.input[k..]), before);
        }
      case _ =>
    }
  }

  lemma {:induction false} TransmitKeeps(c: Conn)
    ensures var d := Transmit(c).0;
      && d.output + d.pending == c.output + c.pending && c.output <= d.output
      && d.taken == c.taken && d.input == c.input && d.state == c.state
    ensures Transmit(c).1 == AllSent <==> Transmit(c).0.pending == []
    decreases |c.answers|
  {
    if c.pending != [] && c.answers != [] {
      var d := c.(answers := c.answers[1..]);
      match c.answers[0]
      case Interrupted => TransmitKeeps(d);
      case Bytes(extra) =>
        var k := Moved(extra, |c.pending|);
        assert c.pending[..k] + c.pending[k..] == c.pending;
        assert c.output + c.pending[..k] + c.pending[k..] == c.output + (c.pending[..k] + c.pending[k..]);
        TransmitKeeps(AfterSend(c));
      case _ =>
    }
  }

  /** The three ends of send_responses, field by field. */
  lemma WritableIs(c: Conn)
    requires c.state == SENDING
    ensures var (d, outcome) := Transmit(c);
      && (outcome == AllSent ==> OnWritable(c) == d.(state := RECEIVING, pending := []))
      && (outcome == Blocked ==> OnWritable(c) == d.(state := SENDING))
      && (outcome == Broken ==> OnWritable(c) == d.(state := DISCONNECTED))
  {
    TransmitKeeps(c);
  }

  lemma ReadableKeeps(c: Conn)
    requires Ordered(c) && c.state == RECEIVING
    ensures var d := OnReadable(c);
      && Ordered(d) && d.state != RECEIVING && d.taken + d.input == c.taken + c.input && d.output == c.output
  {
    assert c.taken + [] == c.taken;
    ReceiveKeeps(c.(pending := []), c.taken);
  }

  lemma WritableKeeps(c: Conn)
    requires Ordered(c) && c.state == SENDING
    ensures var d := OnWritable(c);
      && Ordered(d) && d.taken == c.taken && d.input == c.input && c.output <= d.output
  {
    TransmitKeeps(c);
    var d := Transmit(c).0;
    assert d.pending == [] ==> d.output + d.pending == d.output;
  }

  /** One event loses nothing, sends only what has been read, and in order. */
  lemma EventKeepsOrder(c: Conn, ev: Event)
    requires Ordered(c) && Legal(c, ev)
    ensures var d := OnEvent(c, ev);
      Ordered(d) && d.taken + d.input == c.taken + c.input && c.output <= d.output
  {
    if ev.readable {
      ReadableKeeps(c);
    }
    if ev.writable {
      WritableKeeps(c);
    }
  }

  lemma {:induction false} EventsKeepOrder(c: Conn, evs: seq<Event>)
    requires Ordered(c)
    ensures var d := Events(c, evs);
      Ordered(d) && d.taken + d.input == c.taken + c.input && c.output <= d.output
    decreases |evs|
  {
    if evs != [] && c.state != DISCONNECTED {
      EventKeepsOrder(c, Reported(c, evs[0]));
      EventsKeepOrder(OnEvent(c, Reported(c, evs[0])), evs[1..]);
    }
  }

  /** In every run of a connection the bytes sent are a prefix of the client's, and all that was read when RECEIVING. */
  lemma RunsEchoPrefix(input: seq<Byte>, answers: seq<Answer>, evs: seq<Event>)
    ensures var d := Events(Connected(input, answers), evs);
      && d.output <= d.taken <= input && d.taken + d.input == input
      && (d.state == RECEIVING ==> d.output == d.taken)
  {
    var c := Connected(input, answers);
    assert [] + input == input;
    EventsKeepOrder(c, evs);
  }

  // ---------- when a client is closed, and with what ----------

  /** How many bytes calls of send take before one takes nothing. */
  function Capacity(answers: seq<Answer>): nat {
    if answers == [] then 0 else
      match answers[0]
      case Bytes(extra) => 1 + extra + Capacity(answers[1..])
      case Interrupted => Capacity(answers[1..])
      case _ => 0
  }

  lemma {:induction false} TransmitIff(c: Conn)
    ensures Transmit(c).1 == AllSent <==> |c.pending| <= Capacity(c.answers)
    decreases |c.answers|
  {
    if c.pending != [] && c.answers != [] {
      var d := c.(answers := c.answers[1..]);
      match c.answers[0]
      case Interrupted => TransmitIff(d);
      case Bytes(_) => TransmitIff(AfterSend(c));
      case _ =>
    }
  }

  lemma {:induction false} NoFailure(c: Conn)
    requires Failed !in c.answers
    ensures Receive(c).1 && Transmit(c).1 != Broken
    decreases |c.answers|
  {
    if c.answers != [] {
      var d := c.(answers := c.answers[1..]);
      assert c.answers[0] in c.answers;
      match c.answers[0]
      case Interrupted => NoFailure(d);
      case Bytes(extra) =>
        if c.input != [] {
          var k := Moved(extra, Readable(c.input));
          NoFailure(d.(pending := c.pending + c.input[..k], taken := c.taken + c.input[..k], input := c.input[k..]));
        }
        if c.pending != [] {
          NoFailure(AfterSend(c));
        }
      case _ =>
    }
  }

  /** The answers up to the j-th let the loop of recv go on, and this is how it ends. */
  ghost predicate ReadUntil(answers: seq<Answer>, j: nat, ok: bool, left: seq<Byte>)
    requires j <= |answers|
  {
    && (forall i :: 0 <= i < j - 1 ==> answers[i].Bytes? || answers[i].Interrupted?)
    && (!ok <==> 0 < j && answers[j - 1].Failed?)
    && (ok && left != [] ==>
          (0 < j && answers[j - 1].Again?) || (j == |answers| && forall i :: 0 <= i < j ==> !answers[i].Again?))
  }

  /** recv_data uses the answers one after the other, and leaves something unread only when one is "not now" or an
      error, or there are no more. */
  lemma {:induction false} ReceiveStopsOnlyAt(c: Conn)
    ensures var (d, ok) := Receive(c); var j := |c.answers| - |d.answers|;
      0 <= j <= |c.answers| && d.answers == c.answers[j..] && ReadUntil(c.answers, j, ok, d.input)
    decreases |c.answers|, 0
  {
    if c.answers != [] {
      var next := c.(answers := c.answers[1..]);
      match c.answers[0]
      case Interrupted => ReceiveOnward(c, next);
      case Bytes(extra) =>
        if c.input != [] {
          var k := Moved(extra, Readable(c.input));
          ReceiveOnward(c, next.(pending := c.pending + c.input[..k], taken := c.taken + c.input[..k],
            input := c.input[k..]));
        }
      case _ =>
    }
  }

  lemma ReceiveOnward(c: Conn, next: Conn)
    requires c.answers != [] && (c.answers[0].Bytes? || c.answers[0].Interrupted?) && next.answers == c.answers[1..]
    requires Receive(c) == Receive(next)
    ensures var (d, ok) := Receive(c); var j := |c.answers| - |d.answers|;
      0 <= j <= |c.answers| && d.answers == c.answers[j..] && ReadUntil(c.answers, j, ok, d.input)
    decreases |next.answers|, 1
  {
    ReceiveStopsOnlyAt(next);
    var (d, ok) := Receive(next);
    var j := |next.answers| - |d.answers|;
    assert c.answers[j + 1..] == next.answers[j..];
    assert forall i :: 0 <= i < |next.answers| ==> next.answers[i] == c.answers[i + 1];
    assert forall i :: 0 < i < |c.answers| ==> c.answers[i] == next.answers[i - 1];
  }

  /** The first answer that neither moves bytes nor is to be tried again is an error. */
  predicate FailsFirst(answers: seq<Answer>) {
    answers != [] &&
    match answers[0]
    case Bytes(_) => FailsFirst(answers[1..])
    case Interrupted => FailsFirst(answers[1..])
    case Again => false
    case Failed => true
  }

  /** send_data gives up exactly when an error comes before the calls have taken the response. */
  lemma {:induction false} BrokenIff(c: Conn)
    ensures Transmit(c).1 == Broken <==> |c.pending| > Capacity(c.answers) && FailsFirst(c.answers)
    decreases |c.answers|
  {
    if c.pending != [] && c.answers != [] {
      var d := c.(answers := c.answers[1..]);
      match c.answers[0]
      case Interrupted => BrokenIff(d);
      case Bytes(_) => BrokenIff(AfterSend(c));
      case _ =>
    }
  }

  /** An error closes the client, whatever else the event says. */
  lemma ErrorCloses(c: Conn, ev: Event)
    requires Legal(c, ev)
    ensures ev.readable && !Receive(c.(pending := [])).1 ==> OnEvent(c, ev).state == DISCONNECTED
    ensures ev.writable && |c.pending| > Capacity(c.answers) && FailsFirst(c.answers)
      ==> OnEvent(c, ev).state == DISCONNECTED
  {
    BrokenIff(c);
  }

  /** The condition for a close, known before the event: a hangup without input, and the response fits what send
      takes. */
  predicate Closes(c: Conn, ev: Event) {
    ev.hangup && !ev.readable && (c.state == RECEIVING || (ev.writable && |c.pending| <= Capacity(c.answers)))
  }

  lemma ClosesIff(c: Conn, ev: Event)
    requires Ordered(c) && Legal(c, ev) && Failed !in c.answers
    ensures var d := OnEvent(c, ev);
      && (d.state == DISCONNECTED <==> Closes(c, ev))
      && (Closes(c, ev) ==> d.output == d.taken == c.taken && d.input == c.input)
  {
    EventKeepsOrder(c, ev);
    NoFailure(c);
    NoFailure(c.(pending := []));
    TransmitIff(c);
    TransmitKeeps(c);
    if ev.readable {
      ReadableKeeps(c);
    }
    if ev.writable {
      WritableKeeps(c);
    }
  }

  /**
   An event without errors closes the client with all of its bytes sent back exactly when the condition holds and the
   server has read all of them before.
   */
  lemma CompleteCloseIff(c: Conn, ev: Event)
    requires Ordered(c) && Legal(c, ev) && Failed !in c.answers
    ensures var d := OnEvent(c, ev);
      d.state == DISCONNECTED && d.output == c.taken + c.input <==> Closes(c, ev) && c.input == []
  {
    ClosesIff(c, ev);
    if c.input != [] {
      assert |c.taken + c.input| > |c.taken|;
    } else {
      assert c.taken + c.input == c.taken;
    }
  }

  /** The client sends a; while the server is SENDING it sends b and hangs up. */
  lemma SecondPartIsLost(a: seq<Byte>, b: seq<Byte>)
    requires 0 < |a| <= BUFFER_MAX && b != []
    ensures var answers := [Bytes(|a| - 1), Again, Bytes(|a| - 1)];
      var evs := [Event(true, false, false), Event(false, true, true)];
      Events(Connected(a + b, answers), evs) == Conn(DISCONNECTED, [], b, a, a, [])
  {
    var more := |a| - 1;
    var c := Connected(a + b, [Bytes(more), Again, Bytes(more)]);
    var ev1, ev2 := Event(true, false, false), Event(false, true, true);
    assert (a + b)[..|a|] == a && (a + b)[|a|..] == b;
    assert [Bytes(more), Again, Bytes(more)][1..] == [Again, Bytes(more)];
    assert [Again, Bytes(more)][1..] == [Bytes(more)];
    assert Readable(a + b) >= |a| && Moved(more, Readable(a + b)) == |a|;
    var c1 := Conn(SENDING, a, b, a, [], [Bytes(more)]);
    assert [] + a == a;
    assert Receive(Conn(RECEIVING, a, b, a, [], [Again, Bytes(more)])) == (c1.(state := RECEIVING), true);
    assert OnEvent(c, Reported(c, ev1)) == c1;
    var c2 := Conn(DISCONNECTED, [], b, a, a, []);
    assert [Bytes(more)][1..] == [];
    assert a[..|a|] == a && a[|a|..] == [];
    assert Transmit(c1) == (c2.(state := SENDING), AllSent);
    assert OnEvent(c1, Reported(c1, ev2)) == c2;
    assert [ev1, ev2][1..] == [ev2] && [ev2][1..] == [];
    assert Events(c, [ev1, ev2]) == Events(c1, [ev2]) == Events(c2, []);
  }
}
