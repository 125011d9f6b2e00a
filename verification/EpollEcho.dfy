/** The event-driven echo service of src/epoll_server_example.c, for one client and any pattern of partial transfers. */
module EpollEcho {
  import opened Bytes
  import opened EpollModel

  /**
   The client's connection. `input` is what the client has sent, or will send, and the server has not read; `taken` what
   it has read, `output` what it has sent back. `answers` are what the calls to come will answer.
   */
  class Socket {
    var input: seq<Byte>
    var taken: seq<Byte>
    var output: seq<Byte>
    var answers: seq<Answer>

    constructor (input: seq<Byte>, answers: seq<Answer>)
      ensures this.input == input && taken == [] && output == [] && this.answers == answers
    {
      this.input, taken, output, this.answers := input, [], [], answers;
    }

    method NextAnswer() returns (a: Answer)
      modifies this`answers
      ensures old(answers) == [] ==> a == Again && answers == []
      ensures old(answers) != [] ==> a == old(answers)[0] && answers == old(answers)[1..]
    {
      a := Again;
      if answers != [] {
        a, answers := answers[0], answers[1..];
      }
    }

    /** recv without blocking: some bytes, 0 when the client will send no more, or -1. */
    method Recv(buf: array<Byte>, n: nat) returns (k: int, a: Answer)
      requires n == BUFFER_MAX <= buf.Length
      modifies this, buf
      ensures a == if old(answers) == [] then Again else old(answers)[0]
      ensures answers == if old(answers) == [] then [] else old(answers)[1..]
      ensures output == old(output)
      ensures k == if !a.Bytes? then -1 else if old(input) == [] then 0 else Moved(a.extra, Readable(old(input)))
      ensures k <= 0 ==> input == old(input) && taken == old(taken)
      ensures 0 < k ==> k <= |old(input)| && k <= n
      ensures 0 < k ==> input == old(input)[k..] && taken == old(taken) + old(input)[..k] && buf[..k] == old(input)[..k]
    {
      a := NextAnswer();
      if !a.Bytes? {
        return -1, a;
      }
      if input == [] {
        return 0, a;
      }
      k := Moved(a.extra, Readable(input));
      CopyTo(buf, 0, input[..k]);
      taken := taken + input[..k];
      input := input[k..];
    }

    /** send without blocking, of at least one byte. */
    method Send(data: array<Byte>, at: nat, n: nat) returns (k: int, a: Answer)
      requires 0 < n && at + n <= data.Length
      modifies this
      ensures a == if old(answers) == [] then Again else old(answers)[0]
      ensures answers == if old(answers) == [] then [] else old(answers)[1..]
      ensures input == old(input) && taken == old(taken)
      ensures k == if !a.Bytes? then -1 else Moved(a.extra, n)
      ensures k == -1 ==> output == old(output)
      ensures k != -1 ==> output == old(output) + data[at..at + k]
    {
      a := NextAnswer();
      if !a.Bytes? {
        return -1, a;
      }
      k := Moved(a.extra, n);
      output := output + data[at..at + k];
    }
  }

  /** What the client is registered for, apart from hangups. */
  datatype Interest = Input | Output | Unregistered

  class Client {
    const fd: Socket
    var state: ClientState
    var sdata: array<Byte>
    var slen: nat
    var spos: nat
    var rdata: array<Byte>
    var rlen: nat
    var interest: Interest

    /** Both buffers stay within their capacity. */
    ghost predicate Shape()
      reads this
    {
      sdata != rdata && spos <= slen <= sdata.Length && rlen <= rdata.Length
    }

    ghost function Received(): seq<Byte>
      requires Shape()
      reads this, rdata
    {
      rdata[..rlen]
    }

    ghost function Pending(): seq<Byte>
      requires Shape()
      reads this, sdata
    {
      sdata[spos..slen]
    }

    /** The client as a value. */
    ghost function View(): Conn
      requires Shape()
      reads this, fd, sdata
    {
      Conn(state, Pending(), fd.input, fd.taken, fd.output, fd.answers)
    }

    /** Between events; the client is registered for input iff it is RECEIVING and for output iff it is SENDING. */
    ghost predicate Valid()
      reads this, fd, sdata, rdata
    {
      && Shape() && Ordered(View())
      && (state == RECEIVING ==> rlen == 0 && slen == 0)
      && (interest == Input <==> state == RECEIVING)
      && (interest == Output <==> state == SENDING)
    }

    /** get_new_client, and the registration in main. */
    constructor (fd: Socket)
      requires fd.taken == fd.output == []
      ensures Valid() && this.fd == fd && fresh(sdata) && fresh(rdata)
      ensures View() == Connected(fd.input, fd.answers)
    {
      this.fd := fd;
      state := RECEIVING;
      sdata, slen, spos := new Byte[0], 0, 0;
      rdata, rlen := new Byte[0], 0;
      interest := Input;
    }

    /** recv_data, the end of the loop body: append the first k bytes received, growing the buffer if needed. */
    method Append(temp: array<Byte>, k: nat)
      requires Shape() && k <= temp.Length && temp != rdata
      modifies this`rdata, this`rlen, rdata
      ensures Shape() && (rdata == old(rdata) || fresh(rdata))
      ensures Received() == old(Received()) + temp[..k]
    {
      ghost var was, more := Received(), temp[..k];
      var newLength := rlen + k;
      if rdata.Length < newLength {
        var grown := new Byte[newLength * 2](_ => 0);
        CopyTo(grown, 0, rdata[..]);
        assert grown[..rlen] == was;
        rdata := grown;
      }
      ghost var w := rdata[..];
      CopyTo(rdata, rlen, temp[..k]);
      assert rdata[..newLength] == w[..rlen] + more;
      rlen := newLength;
    }

    /** The client while it is receiving: what has come in so far is in the receive buffer. */
    ghost function Coming(): Conn
      requires Shape()
      reads this, fd, rdata
    {
      Conn(RECEIVING, Received(), fd.input, fd.taken, fd.output, fd.answers)
    }

    /** recv_data */
    method RecvData() returns (rc: int)
      requires Shape()
      modifies this`rdata, this`rlen, rdata, fd
      ensures Shape() && (rdata == old(rdata) || fresh(rdata))
      ensures (rc == 0 || rc == 1) && (Coming(), rc == 0) == Receive(old(Coming()))
    {
      ghost var start := Coming();
      var temp := new Byte[BUFFER_MAX](_ => 0);
      while true
        invariant Shape() && (rdata == old(rdata) || fresh(rdata)) && temp != rdata && temp != sdata
        invariant Receive(Coming()) == Receive(start)
        decreases |fd.answers|
      {
        ghost var c := Coming();
        var bytesRead, errno := fd.Recv(temp, BUFFER_MAX);
        if bytesRead == -1 {
          if errno == Again {
            break;
          } else if errno == Interrupted {
            continue;
          } else {
            return 1;
          }
        } else if bytesRead == 0 {
          break;
        }
        Append(temp, bytesRead);
      }
      rc := 0;
    }

    /** recv_requests: whatever came in becomes the response. */
    method RecvRequests() returns (rc: int)
      requires Valid() && state == RECEIVING
      modifies this, rdata, sdata, fd
      ensures rc == 0 && Shape() && interest == old(interest)
      ensures (rdata == old(rdata) || fresh(rdata)) && (sdata == old(sdata) || fresh(sdata))
      ensures View() == OnReadable(old(View()))
      ensures state == SENDING ==> Pending() == Received()
    {
      assert Coming() == View().(pending := []);
      var r := RecvData();
      if r != 0 {
        state := DISCONNECTED;
        return 0;
      }
      state := SENDING;
      slen, spos := rlen, 0;
      if sdata.Length < slen {
        sdata := new Byte[slen](_ => 0);
      }
      CopyTo(sdata, 0, rdata[..rlen]);
      assert sdata[0..slen] == rdata[..rlen];
      rc := 0;
    }

    /** One call of send, before the position has moved. */
    method SendSome(left: nat) returns (k: int, a: Answer)
      requires Shape() && state == SENDING && 0 < left == slen - spos
      modifies fd
      ensures Shape()
      ensures a == if old(fd.answers) == [] then Again else old(fd.answers)[0]
      ensures !a.Bytes? ==> k == -1
      ensures !a.Bytes? ==>
        View() == old(View()).(answers := if old(fd.answers) == [] then [] else old(fd.answers)[1..])
      ensures a.Bytes? ==> old(fd.answers) != [] && 0 < k <= left && k == Moved(a.extra, left)
      ensures a.Bytes? ==> View() == AfterSend(old(View())).(pending := old(Pending()))
    {
      ghost var c := View();
      k, a := fd.Send(sdata, spos, left);
      if a.Bytes? {
        assert sdata[spos..spos + k] == c.pending[..k];
      }
    }

    /** send_data: 1 when some of the response is left. */
    method SendData() returns (rc: int)
      requires Shape() && state == SENDING
      modifies this`state, this`spos, fd
      ensures Shape() && (rc == 0 || rc == 1)
      ensures var (d, outcome) := Transmit(old(View()));
        && View() == d.(state := if outcome == Broken then DISCONNECTED else SENDING)
        && (rc == 0 <==> outcome == AllSent)
    {
      ghost var start := View();
      var left := slen - spos;
      while left > 0
        invariant Shape() && state == SENDING && left == slen - spos
        invariant Transmit(View()) == Transmit(start)
        decreases |fd.answers|
      {
        ghost var c := View();
        var bytesSent, errno := SendSome(left);
        if bytesSent == -1 {
          if errno == Again {
            return 1;
          } else if errno == Interrupted {
            continue;
          } else {
            state := DISCONNECTED;
            return 1;
          }
        }
        left := left - bytesSent;
        spos := spos + bytesSent;
        assert Pending() == c.pending[bytesSent..];
        assert View() == AfterSend(c);
      }
      rc := 0;
    }

    /** send_responses: back to RECEIVING once everything read has been sent. */
    method SendResponses() returns (rc: int)
      requires Valid() && state == SENDING
      modifies this, fd
      ensures Shape() && interest == old(interest) && sdata == old(sdata) && rdata == old(rdata)
      ensures View() == OnWritable(old(View()))
      ensures rc == 0 <==> state == RECEIVING
      ensures rc == 0 ==> rlen == 0 && slen == 0
    {
      WritableIs(View());
      rc := SendData();
      if rc == 1 {
        return;
      }
      slen, spos := 0, 0;
      state := RECEIVING;
      rlen := 0;
      rc := 0;
    }

    /** The loop body of main for a client's event. */
    method Handle(ev: Event) returns (closed: bool)
      requires Valid() && Legal(View(), ev)
      modifies this, rdata, sdata, fd
      ensures Valid() && (rdata == old(rdata) || fresh(rdata)) && (sdata == old(sdata) || fresh(sdata))
      ensures View() == OnEvent(old(View()), ev)
      ensures closed <==> state == DISCONNECTED
    {
      EventKeepsOrder(View(), ev);
      if ev.readable {
        var rc := RecvRequests();
        if rc == 0 {
          interest := Output;
        }
      }
      if ev.writable {
        var rc := SendResponses();
        if rc == 0 {
          interest := Input;
        }
      }
      if ev.hangup {
        if state == RECEIVING {
          state := DISCONNECTED;
        }
      }
      if state == DISCONNECTED {
        interest := Unregistered;
      }
      closed := state == DISCONNECTED;
    }
  }

  /** The loop of main, for one client: `offers` says what epoll would report if the client were registered for all. */
  method Run(fd: Socket, offers: seq<Event>) returns (client: Client)
    requires fd.taken == fd.output == []
    modifies fd
    ensures client.fd == fd && client.Valid()
    ensures client.View() == Events(Connected(old(fd.input), old(fd.answers)), offers)
    ensures fd.taken + fd.input == old(fd.input) && fd.output <= fd.taken
    ensures client.state == RECEIVING ==> fd.output == fd.taken
  {
    RunsEchoPrefix(fd.input, fd.answers, offers);
    client := new Client(fd);
    ghost var start := client.View();
    var i := 0;
    while i < |offers| && client.state != DISCONNECTED
      invariant 0 <= i <= |offers| && client.fd == fd
      invariant fresh(client) && fresh(client.rdata) && fresh(client.sdata)
      invariant client.Valid() && Events(client.View(), offers[i..]) == Events(start, offers)
      decreases |offers| - i
    {
      var o := offers[i];
      var ev := Event(o.readable && client.interest == Input, o.writable && client.interest == Output, o.hangup);
      assert offers[i..][1..] == offers[i + 1..];
      var closed := client.Handle(ev);
      i := i + 1;
    }
  }
}
