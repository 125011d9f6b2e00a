/** The pool of clients of the select server in hw/hw8/echoservers.c. */
module SelectPool {
  import opened Bytes

  const FD_SETSIZE: nat := 1024

  /** The descriptors of the occupied slots. */
  function Clients(slots: seq<int>): set<int> {
    set i | 0 <= i < |slots| && slots[i] >= 0 :: slots[i]
  }

  predicate Distinct(slots: seq<int>) {
    forall i, j :: 0 <= i < j < |slots| ==> Differ(slots, i, j)
  }

  predicate Free(slots: seq<int>, i: nat)
    requires i < |slots|
  {
    slots[i] < 0
  }

  predicate FreeFrom(slots: seq<int>, from: nat) {
    forall i :: from <= i < |slots| ==> Free(slots, i)
  }

  predicate Differ(slots: seq<int>, i: nat, j: nat)
    requires i < |slots| && j < |slots|
  {
    slots[i] >= 0 ==> slots[i] != slots[j]
  }

  lemma DistinctFront(slots: seq<int>)
    requires Distinct(slots) && slots != []
    ensures var front, last := slots[..|slots| - 1], slots[|slots| - 1];
      Distinct(front) && (last >= 0 ==> last !in Clients(front))
  {
    var n := |slots| - 1;
    var front, last := slots[..n], slots[n];
    forall i, j | 0 <= i < j < n ensures Differ(front, i, j) {
      assert Differ(slots, i, j);
    }
    if last >= 0 && last in Clients(front) {
      var i :| 0 <= i < n && front[i] == last;
      assert Differ(slots, i, n);
    }
  }

  predicate NoRepeats(fds: seq<int>) {
    forall i, j :: 0 <= i < j < |fds| ==> fds[i] != fds[j]
  }

  /** The ready clients in slot order. */
  function ReadyIn(slots: seq<int>, ready: set<int>): (r: seq<int>) {
    if slots == [] then [] else
      var last := slots[|slots| - 1];
      ReadyIn(slots[..|slots| - 1], ready) + if last >= 0 && last in ready then [last] else []
  }

  /** Without descriptor 0, which the loop takes for a free slot. */
  function Positive(fds: seq<int>): seq<int> {
    if fds == [] then [] else
      Positive(fds[..|fds| - 1]) + if fds[|fds| - 1] > 0 then [fds[|fds| - 1]] else []
  }

  /** One more slot. */
  lemma ClientsMore(slots: seq<int>)
    requires slots != []
    ensures var n := |slots| - 1; var cs := Clients(slots[..n]);
      Clients(slots) == if slots[n] >= 0 then cs + {slots[n]} else cs
  {
    var n := |slots| - 1;
    forall c ensures c in Clients(slots) <==> c in Clients(slots[..n]) || (slots[n] >= 0 && c == slots[n]) {
      if c in Clients(slots[..n]) {
        var i :| 0 <= i < n && slots[..n][i] == c;
        assert slots[i] == c;
      }
      if c in Clients(slots) {
        var i :| 0 <= i < |slots| && slots[i] == c;
        if i < n {
          assert slots[..n][i] == c;
        }
      }
    }
  }

  lemma {:induction false} ReadyInIsReady(slots: seq<int>, ready: set<int>, c: int)
    ensures c in ReadyIn(slots, ready) <==> c in Clients(slots) && c in ready
  {
    if slots != [] {
      ReadyInIsReady(slots[..|slots| - 1], ready, c);
      ClientsMore(slots);
    }
  }

  lemma IntersectMore(a: set<int>, x: int, ready: set<int>)
    requires x !in a
    ensures |(a + {x}) * ready| == |a * ready| + if x in ready then 1 else 0
  {
    if x in ready {
      assert (a + {x}) * ready == a * ready + {x};
    } else {
      assert (a + {x}) * ready == a * ready;
    }
  }

  /** Different slots hold different clients, so counting slots counts clients. */
  lemma {:induction false} ReadyInCounts(slots: seq<int>, ready: set<int>)
    requires Distinct(slots)
    ensures |ReadyIn(slots, ready)| == |Clients(slots) * ready|
  {
    if slots != [] {
      var n := |slots| - 1;
      var front, last := slots[..n], slots[n];
      DistinctFront(slots);
      ReadyInCounts(front, ready);
      ClientsMore(slots);
      if last >= 0 {
        IntersectMore(Clients(front), last, ready);
      }
    }
  }

  /** Among the occupied slots each client appears once. */
  lemma {:induction false} ReadyInDistinct(slots: seq<int>, ready: set<int>)
    requires Distinct(slots)
    ensures NoRepeats(ReadyIn(slots, ready))
  {
    if slots != [] {
      var front, last := slots[..|slots| - 1], slots[|slots| - 1];
      DistinctFront(slots);
      ReadyInDistinct(front, ready);
      if last >= 0 {
        ReadyInIsReady(front, ready, last);
      }
    }
  }

  /** At most one client is lost by leaving out descriptor 0. */
  lemma {:induction false} PositiveLeavesOutZero(fds: seq<int>)
    requires forall c :: c in fds ==> c >= 0
    requires NoRepeats(fds)
    ensures |fds| == |Positive(fds)| + if 0 in fds then 1 else 0
    ensures 0 !in fds ==> Positive(fds) == fds
  {
    if fds != [] {
      var front := fds[..|fds| - 1];
      assert fds == front + [fds[|fds| - 1]];
      assert forall c :: c in front ==> c in fds;
      assert 0 in fds <==> 0 in front || fds[|fds| - 1] == 0;
      assert fds[|fds| - 1] in fds;
      if 0 in front {
        var j :| 0 <= j < |front| && front[j] == 0;
        assert fds[j] == 0;
      }
      PositiveLeavesOutZero(front);
    }
  }

  /** When the occupied slots end before `from`, so do the ready ones. */
  lemma {:induction false} NoneBeyond(slots: seq<int>, ready: set<int>, from: nat)
    requires from <= |slots| && FreeFrom(slots, from)
    ensures ReadyIn(slots, ready) == ReadyIn(slots[..from], ready)
  {
    if from < |slots| {
      var n := |slots| - 1;
      forall i | from <= i < n ensures Free(slots[..n], i) {
        assert Free(slots, i);
      }
      assert Free(slots, n);
      NoneBeyond(slots[..n], ready, from);
      assert slots[..n][..from] == slots[..from];
    } else {
      assert slots[..from] == slots;
    }
  }

  /** What was counted up to some slot is a front part of what there is. */
  lemma {:induction false} ReadyGrows(slots: seq<int>, ready: set<int>, from: nat)
    requires from <= |slots|
    ensures ReadyIn(slots[..from], ready) <= ReadyIn(slots, ready)
  {
    if from < |slots| {
      ReadyGrows(slots[..|slots| - 1], ready, from);
      assert slots[..|slots| - 1][..from] == slots[..from];
    } else {
      assert slots[..from] == slots;
    }
  }

  lemma {:induction false} PositiveAppend(fds: seq<int>, c: int)
    ensures Positive(fds + [c]) == Positive(fds) + if c > 0 then [c] else []
  {
    assert (fds + [c])[..|fds|] == fds;
  }

  lemma PositiveShorter(fds: seq<int>)
    ensures |Positive(fds)| <= |fds|
  {
  }

  /** The scan up to slot i, having served all it could: if nothing is left or no slot is, everything ready was
      reached. */
  lemma ScanComplete(slots: seq<int>, ready: set<int>, i: nat, maxi: int, nready: int)
    requires i <= |slots| && Distinct(slots) && -1 <= maxi && FreeFrom(slots, maxi + 1)
    requires nready == |ReadyIn(slots, ready)| - |Positive(ReadyIn(slots[..i], ready))|
    requires i > maxi || nready <= 0
    ensures Positive(ReadyIn(slots[..i], ready)) == Positive(ReadyIn(slots, ready))
    ensures nready == if 0 in ReadyIn(slots, ready) then 1 else 0
  {
    var all, part := ReadyIn(slots, ready), ReadyIn(slots[..i], ready);
    if i > maxi {
      assert FreeFrom(slots, i);
      NoneBeyond(slots, ready, i);
    } else {
      ReadyGrows(slots, ready, i);
      PositiveShorter(part);
      assert |part| == |all|;
    }
    assert part == all;
    ReadyInDistinct(slots, ready);
    forall c | c in all ensures c >= 0 {
      ReadyInIsReady(slots, ready, c);
    }
    PositiveLeavesOutZero(all);
  }

  /** One more slot scanned. */
  lemma ScanStep(slots: seq<int>, ready: set<int>, i: nat)
    requires i < |slots|
    ensures Positive(ReadyIn(slots[..i + 1], ready)) ==
      Positive(ReadyIn(slots[..i], ready)) + if slots[i] > 0 && slots[i] in ready then [slots[i]] else []
  {
    assert slots[..i + 1][..i] == slots[..i];
    var r := ReadyIn(slots[..i], ready);
    if slots[i] >= 0 && slots[i] in ready {
      PositiveAppend(r, slots[i]);
    } else {
      assert r + [] == r;
    }
  }

  lemma SlotCleared(slots: seq<int>, i: nat)
    requires Distinct(slots) && i < |slots| && slots[i] >= 0
    ensures Distinct(slots[i := -1]) && Clients(slots[i := -1]) == Clients(slots) - {slots[i]}
  {
    var r := slots[i := -1];
    forall j, k | 0 <= j < k < |r| ensures Differ(r, j, k) {
      assert Differ(slots, j, k);
    }
    forall c ensures c in Clients(r) <==> c in Clients(slots) && c != slots[i] {
      if c in Clients(slots) && c != slots[i] {
        var j :| 0 <= j < |slots| && slots[j] == c;
        assert r[j] == c;
      }
      if c in Clients(r) {
        var j :| 0 <= j < |slots| && r[j] == c;
        assert slots[j] == c && j != i;
        assert if j < i then Differ(slots, j, i) else Differ(slots, i, j);
      }
    }
  }

  // ---------- what the clients send and get back ----------

  type Line = l: seq<Byte> | l != [] witness [10]

  /** What rio_readlineb makes of a client's bytes: the line, and what it reads ahead behind it. */
  datatype Reading = Reading(line: Line, ahead: seq<Byte>)

  /** The lines written back, each to its descriptor. */
  function Lines(log: seq<(int, Reading)>): seq<(int, Line)> {
    if log == [] then [] else
      var (fd, r) := log[|log| - 1];
      Lines(log[..|log| - 1]) + [(fd, r.line)]
  }

  /** How many bytes they hold. */
  function Total(echoed: seq<(int, Line)>): nat {
    if echoed == [] then 0 else Total(echoed[..|echoed| - 1]) + |echoed[|echoed| - 1].1|
  }

  lemma LinesMore(log: seq<(int, Reading)>, fd: int, r: Reading)
    ensures Lines(log + [(fd, r)]) == Lines(log) + [(fd, r.line)]
    ensures Total(Lines(log) + [(fd, r.line)]) == Total(Lines(log)) + |r.line|
  {
    assert (log + [(fd, r)])[..|log|] == log;
    assert (Lines(log) + [(fd, r.line)])[..|Lines(log)|] == Lines(log);
  }

  /** The readings from descriptor c. */
  function ReadFrom(log: seq<(int, Reading)>, c: int): seq<Reading> {
    if log == [] then [] else
      var (fd, r) := log[|log| - 1];
      ReadFrom(log[..|log| - 1], c) + if fd == c then [r] else []
  }

  /** What the clients that were on descriptor c, one after the other, have to send. */
  function SentBy(accepted: seq<(int, seq<Reading>)>, c: int): seq<Reading> {
    if accepted == [] then [] else
      var (fd, input) := accepted[|accepted| - 1];
      SentBy(accepted[..|accepted| - 1], c) + if fd == c then input else []
  }

  function At(unread: map<int, seq<Reading>>, c: int): seq<Reading> {
    if c in unread then unread[c] else []
  }

  /** On each descriptor: read and still unread, in this order, are what was sent. */
  ghost predicate Books(accepted: seq<(int, seq<Reading>)>, log: seq<(int, Reading)>, unread: map<int, seq<Reading>>) {
    forall c: int :: Balanced(accepted, log, unread, c)
  }

  ghost predicate Balanced(accepted: seq<(int, seq<Reading>)>, log: seq<(int, Reading)>,
                           unread: map<int, seq<Reading>>, c: int) {
    ReadFrom(log, c) + At(unread, c) == SentBy(accepted, c)
  }

  lemma BooksAfterAccept(accepted: seq<(int, seq<Reading>)>, log: seq<(int, Reading)>,
                         unread: map<int, seq<Reading>>, connfd: int, input: seq<Reading>)
    requires Books(accepted, log, unread) && connfd !in unread
    ensures Books(accepted + [(connfd, input)], log, unread[connfd := input])
  {
    var accepted', unread' := accepted + [(connfd, input)], unread[connfd := input];
    assert accepted'[..|accepted|] == accepted;
    forall c: int ensures Balanced(accepted', log, unread', c) {
      assert Balanced(accepted, log, unread, c);
    }
  }

  lemma BooksAfterLine(accepted: seq<(int, seq<Reading>)>, log: seq<(int, Reading)>, unread: map<int, seq<Reading>>,
                       fd: int)
    requires Books(accepted, log, unread) && fd in unread && unread[fd] != []
    ensures Books(accepted, log + [(fd, unread[fd][0])], unread[fd := unread[fd][1..]])
  {
    var r := unread[fd][0];
    var log', unread' := log + [(fd, r)], unread[fd := unread[fd][1..]];
    assert log'[..|log|] == log;
    forall c: int ensures Balanced(accepted, log', unread', c) {
      assert Balanced(accepted, log, unread, c);
      if c == fd {
        assert ReadFrom(log, c) + [r] + unread[fd][1..] == ReadFrom(log, c) + unread[fd];
      }
    }
  }

  lemma BooksAfterClose(accepted: seq<(int, seq<Reading>)>, log: seq<(int, Reading)>, unread: map<int, seq<Reading>>,
                        fd: int)
    requires Books(accepted, log, unread) && fd in unread && unread[fd] == []
    ensures Books(accepted, log, unread - {fd})
  {
    var unread' := unread - {fd};
    forall c: int ensures Balanced(accepted, log, unread', c) {
      assert Balanced(accepted, log, unread, c);
    }
  }

  /** The bytes of these readings, and the bytes of them that are echoed. */
  function Sent(rs: seq<Reading>): seq<Byte> {
    if rs == [] then [] else rs[0].line + rs[0].ahead + Sent(rs[1..])
  }

  function Echo(rs: seq<Reading>): seq<Byte> {
    if rs == [] then [] else rs[0].line + Echo(rs[1..])
  }

  lemma {:induction false} EchoIsShorter(rs: seq<Reading>)
    ensures |Echo(rs)| <= |Sent(rs)|
  {
    if rs != [] {
      EchoIsShorter(rs[1..]);
    }
  }

  /** A client gets back exactly what it sent if and only if nothing was ever read ahead. */
  lemma {:induction false} EchoesAllIff(rs: seq<Reading>)
    ensures Echo(rs) == Sent(rs) <==> forall r <- rs :: r.ahead == []
  {
    if rs != [] {
      EchoesAllIff(rs[1..]);
      EchoIsShorter(rs[1..]);
      assert rs == [rs[0]] + rs[1..];
      if rs[0].ahead == [] {
        assert rs[0].line + rs[0].ahead == rs[0].line;
        assert Echo(rs)[|rs[0].line|..] == Echo(rs[1..]) && Sent(rs)[|rs[0].line|..] == Sent(rs[1..]);
      } else {
        assert |Echo(rs)| < |Sent(rs)|;
      }
    }
  }

  /** What was written back to descriptor c. */
  function TextTo(echoed: seq<(int, Line)>, c: int): seq<Byte> {
    if echoed == [] then [] else
      var (fd, line) := echoed[|echoed| - 1];
      TextTo(echoed[..|echoed| - 1], c) + if fd == c then line else []
  }

  lemma {:induction false} EchoAppend(rs: seq<Reading>, more: seq<Reading>)
    ensures Echo(rs + more) == Echo(rs) + Echo(more)
  {
    if rs == [] {
      assert rs + more == more;
    } else {
      assert (rs + more)[1..] == rs[1..] + more;
      EchoAppend(rs[1..], more);
    }
  }

  lemma {:induction false} TextIsEcho(log: seq<(int, Reading)>, c: int)
    ensures TextTo(Lines(log), c) == Echo(ReadFrom(log, c))
  {
    if log != [] {
      var front, r := log[..|log| - 1], log[|log| - 1].1;
      TextIsEcho(front, c);
      EchoAppend(ReadFrom(front, c), [r]);
      assert Lines(log)[..|Lines(front)|] == Lines(front);
      assert Echo([r]) == r.line + [];
      assert ReadFrom(front, c) + [] == ReadFrom(front, c);
    }
  }

  /** Each descriptor gets the lines of its clients back in order; what is missing has not been read yet. */
  lemma EchoedInOrder(accepted: seq<(int, seq<Reading>)>, log: seq<(int, Reading)>, unread: map<int, seq<Reading>>,
                      c: int)
    requires Books(accepted, log, unread)
    ensures TextTo(Lines(log), c) + Echo(At(unread, c)) == Echo(SentBy(accepted, c))
  {
    assert Balanced(accepted, log, unread, c);
    TextIsEcho(log, c);
    EchoAppend(ReadFrom(log, c), At(unread, c));
  }

  // ---------- one turn ----------

  /** The clients among these that were found at the end of what they have to send. */
  function Finished(served: seq<int>, was: map<int, seq<Reading>>): set<int> {
    if served == [] then {} else
      var c := served[|served| - 1];
      Finished(served[..|served| - 1], was) + if At(was, c) == [] then {c} else {}
  }

  /** The first reading of each of the others. */
  function Heads(served: seq<int>, was: map<int, seq<Reading>>): seq<(int, Reading)> {
    if served == [] then [] else
      var c := served[|served| - 1];
      Heads(served[..|served| - 1], was) + if At(was, c) == [] then [] else [(c, At(was, c)[0])]
  }

  /** What is unread after these clients have been served once each. */
  function Left(served: seq<int>, was: map<int, seq<Reading>>): map<int, seq<Reading>> {
    if served == [] then was else
      var c := served[|served| - 1];
      var rest := Left(served[..|served| - 1], was);
      if At(was, c) == [] then rest - {c} else rest[c := At(was, c)[1..]]
  }

  lemma {:induction false} FinishedIff(served: seq<int>, was: map<int, seq<Reading>>, c: int)
    ensures c in Finished(served, was) <==> c in served && At(was, c) == []
  {
    if served != [] {
      assert served == served[..|served| - 1] + [served[|served| - 1]];
      FinishedIff(served[..|served| - 1], was, c);
    }
  }

  lemma {:induction false} LeftAlone(served: seq<int>, was: map<int, seq<Reading>>, c: int)
    requires c in was && c !in served
    ensures c in Left(served, was) && Left(served, was)[c] == was[c]
  {
    if served != [] {
      assert served == served[..|served| - 1] + [served[|served| - 1]];
      LeftAlone(served[..|served| - 1], was, c);
    }
  }

  /** One more client served. */
  lemma ServedOne(clients: set<int>, served: seq<int>, was: map<int, seq<Reading>>, c: int)
    requires c in was && c !in served
    ensures c in Left(served, was) && Left(served, was)[c] == was[c]
    ensures was[c] == [] ==>
      && clients - Finished(served + [c], was) == clients - Finished(served, was) - {c}
      && Heads(served + [c], was) == Heads(served, was)
      && Left(served + [c], was) == Left(served, was) - {c}
    ensures was[c] != [] ==>
      && Finished(served + [c], was) == Finished(served, was)
      && Heads(served + [c], was) == Heads(served, was) + [(c, was[c][0])]
      && Left(served + [c], was) == Left(served, was)[c := was[c][1..]]
  {
    assert (served + [c])[..|served|] == served;
    LeftAlone(served, was, c);
  }

  /** These clients, out of all, have been served: they have got their next lines or have been dropped. */
  ghost predicate Served(all: set<int>, served: seq<int>, was: map<int, seq<Reading>>, before: seq<(int, Reading)>,
                         clients: set<int>, log: seq<(int, Reading)>, unread: map<int, seq<Reading>>) {
    clients == all - Finished(served, was) && log == before + Heads(served, was) && unread == Left(served, was)
  }

  /** Client c gets its next line, or is dropped. */
  ghost predicate OneServed(c: int, clients: set<int>, log: seq<(int, Reading)>, unread: map<int, seq<Reading>>,
                            clients': set<int>, log': seq<(int, Reading)>, unread': map<int, seq<Reading>>) {
    c in unread &&
    if unread[c] == [] then log' == log && unread' == unread - {c} && clients' == clients - {c}
    else log' == log + [(c, unread[c][0])] && unread' == unread[c := unread[c][1..]] && clients' == clients
  }

  lemma ServedMore(all: set<int>, served: seq<int>, was: map<int, seq<Reading>>, before: seq<(int, Reading)>, c: int,
                   clients: set<int>, log: seq<(int, Reading)>, unread: map<int, seq<Reading>>,
                   clients': set<int>, log': seq<(int, Reading)>, unread': map<int, seq<Reading>>)
    requires Served(all, served, was, before, clients, log, unread) && c in was && c !in served
    requires OneServed(c, clients, log, unread, clients', log', unread')
    ensures Served(all, served + [c], was, before, clients', log', unread')
  {
    ServedOne(all, served, was, c);
  }

  // ---------- the pool ----------

  /** The descriptors watched are the listening one and the distinct clients; slots above maxi are free; maxfd bounds
      the watched descriptors. */
  ghost predicate Watches(slots: seq<int>, maxi: int, maxfd: int, readSet: set<int>, listenfd: int) {
    && |slots| == FD_SETSIZE && 0 <= listenfd < FD_SETSIZE && -1 <= maxi < FD_SETSIZE
    && FreeFrom(slots, maxi + 1)
    && Distinct(slots) && listenfd !in Clients(slots)
    && readSet == Clients(slots) + {listenfd}
    && (forall c :: c in readSet ==> 0 <= c <= maxfd && c < FD_SETSIZE)
  }

  function Max(a: int, b: int): int { if a < b then b else a }

  lemma WatchesMore(slots: seq<int>, maxi: int, maxfd: int, readSet: set<int>, listenfd: int, i: nat, connfd: int)
    requires Watches(slots, maxi, maxfd, readSet, listenfd) && i < FD_SETSIZE && slots[i] < 0
    requires 0 <= connfd < FD_SETSIZE && connfd !in readSet
    ensures Watches(slots[i := connfd], Max(maxi, i), Max(maxfd, connfd), readSet + {connfd}, listenfd)
    ensures Clients(slots[i := connfd]) == Clients(slots) + {connfd}
  {
    SlotFilled(slots, i, connfd);
    var slots' := slots[i := connfd];
    forall j | Max(maxi, i) + 1 <= j < FD_SETSIZE ensures Free(slots', j) {
      assert Free(slots, j);
    }
  }

  lemma WatchesLess(slots: seq<int>, maxi: int, maxfd: int, readSet: set<int>, listenfd: int, i: nat)
    requires Watches(slots, maxi, maxfd, readSet, listenfd) && i < FD_SETSIZE && slots[i] >= 0
    ensures Watches(slots[i := -1], maxi, maxfd, readSet - {slots[i]}, listenfd)
    ensures Clients(slots[i := -1]) == Clients(slots) - {slots[i]}
  {
    SlotCleared(slots, i);
    var slots' := slots[i := -1];
    forall j | maxi + 1 <= j < FD_SETSIZE ensures Free(slots', j) {
      assert Free(slots, j);
    }
    assert slots[i] in Clients(slots);
  }

  /** byte_cnt counts the bytes written back, and what a client sent is what was read of it and what is still unread. */
  ghost predicate Accounts(accepted: seq<(int, seq<Reading>)>, log: seq<(int, Reading)>,
                           unread: map<int, seq<Reading>>, echoed: seq<(int, Line)>, byteCnt: nat) {
    echoed == Lines(log) && byteCnt == Total(echoed) && Books(accepted, log, unread)
  }

  class Pool {
    var maxfd: int
    var readSet: set<int>
    var readySet: set<int>
    var nready: int
    var maxi: int
    const clientfd: array<int>
    var byteCnt: nat
    const listenfd: int
    // what clients still have to send, what was written back to whom, what was read from whom, and who was accepted
    var unread: map<int, seq<Reading>>
    var echoed: seq<(int, Line)>
    ghost var log: seq<(int, Reading)>
    ghost var accepted: seq<(int, seq<Reading>)>

    ghost predicate Valid()
      reads this`maxfd, this`readSet, this`maxi, clientfd
      reads this`byteCnt, this`unread, this`echoed, this`log, this`accepted
    {
      Watching() && Accounting() && clientfd.Length == FD_SETSIZE && unread.Keys == Clients(clientfd[..])
    }

    ghost predicate Watching()
      reads this`maxfd, this`readSet, this`maxi, clientfd
    {
      Watches(clientfd[..], maxi, maxfd, readSet, listenfd)
    }

    ghost predicate Accounting()
      reads this`byteCnt, this`unread, this`echoed, this`log, this`accepted
    {
      Accounts(accepted, log, unread, echoed, byteCnt)
    }

    /** init_pool */
    constructor (listenfd: int)
      requires 0 <= listenfd < FD_SETSIZE
      ensures Valid() && this.listenfd == listenfd && Clients(clientfd[..]) == {} && log == [] && fresh(clientfd)
      ensures accepted == []
    {
      this.listenfd := listenfd;
      maxi := -1;
      clientfd := new int[FD_SETSIZE](_ => -1);
      maxfd := listenfd;
      readSet := {listenfd};
      readySet, nready, byteCnt := {}, 0, 0;
      unread, echoed, log, accepted := map[], [], [], [];
    }

    /** add_client: the first free slot is taken; false when there is none. */
    method AddClient(connfd: int, input: seq<Reading>) returns (ok: bool)
      requires Valid() && 0 <= connfd < FD_SETSIZE && connfd !in readSet
      modifies this`nready, this`readSet, this`maxfd, this`maxi, this`unread, this`accepted, clientfd
      ensures Valid() && ok && nready == old(nready) - 1
      ensures Clients(clientfd[..]) == old(Clients(clientfd[..])) + {connfd}
      ensures unread == old(unread)[connfd := input] && accepted == old(accepted) + [(connfd, input)]
    {
      nready := nready - 1;
      ghost var slots := clientfd[..];
      var i := 0;
      while i < FD_SETSIZE && clientfd[i] >= 0
        invariant 0 <= i <= FD_SETSIZE && forall j :: 0 <= j < i ==> slots[j] >= 0
      {
        i := i + 1;
      }
      if i == FD_SETSIZE {
        SomeSlotIsFree(slots, listenfd);
      } else {
        Occupy(i, connfd, input);
      }
      ok := i != FD_SETSIZE;
    }

    /** The loop body of add_client at a free slot. */
    method Occupy(i: nat, connfd: int, input: seq<Reading>)
      requires Valid() && 0 <= connfd < FD_SETSIZE && connfd !in readSet && i < FD_SETSIZE && clientfd[i] < 0
      modifies this`readSet, this`maxfd, this`maxi, this`unread, this`accepted, clientfd
      ensures Valid() && Clients(clientfd[..]) == old(Clients(clientfd[..])) + {connfd}
      ensures unread == old(unread)[connfd := input] && accepted == old(accepted) + [(connfd, input)]
    {
      ghost var slots := clientfd[..];
      WatchesMore(slots, maxi, maxfd, readSet, listenfd, i, connfd);
      BooksAfterAccept(accepted, log, unread, connfd, input);
      clientfd[i] := connfd;
      assert clientfd[..] == slots[i := connfd];
      readSet := readSet + {connfd};
      if connfd > maxfd {
        maxfd := connfd;
      }
      if i > maxi {
        maxi := i;
      }
      unread := unread[connfd := input];
      accepted := accepted + [(connfd, input)];
    }

    /**
     check_clients. Every ready client is served exactly once, in slot order, though the loop stops as soon as nready
     says so; only a client on descriptor 0 is passed over, and then nready stays at 1. A client served gets its next
     line, or, when it has sent all it had, is dropped.
     */
    method CheckClients() returns (ghost served: seq<int>)
      requires Valid() && nready == |ReadyIn(clientfd[..], readySet)|
      modifies this`nready, this`readSet, this`byteCnt, this`unread, this`echoed, this`log, clientfd
      ensures Valid()
      ensures served == Positive(ReadyIn(old(clientfd[..]), readySet))
      ensures nready == if 0 in ReadyIn(old(clientfd[..]), readySet) then 1 else 0
      ensures Clients(clientfd[..]) == old(Clients(clientfd[..])) - Finished(served, old(unread))
      ensures log == old(log) + Heads(served, old(unread)) && unread == Left(served, old(unread))
    {
      ghost var slots, was, before := clientfd[..], unread, log;
      served := [];
      assert Left([], was) == was;
      var i := 0;
      while i <= maxi && nready > 0
        invariant 0 <= i <= maxi + 1 && Scanned(slots, i, served, was, before)
        invariant Scan(slots, readySet, i, served, nready)
      {
        ScanMore(slots, readySet, i, served, nready);
        served := CheckClient(i, slots, served, was, before);
        i := i + 1;
      }
      ScanComplete(slots, readySet, i, maxi, nready);
    }

    /** These clients have been served, and the slots from i on are as they were. */
    ghost predicate Scanned(slots: seq<int>, i: nat, served: seq<int>, was: map<int, seq<Reading>>,
                            before: seq<(int, Reading)>)
      reads this, clientfd
    {
      && Valid() && |slots| == FD_SETSIZE && i <= FD_SETSIZE && was.Keys == Clients(slots)
      && (forall j :: i <= j < FD_SETSIZE ==> clientfd[j] == slots[j])
      && Served(Clients(slots), served, was, before, Clients(clientfd[..]), log, unread)
    }

    /** The loop body of check_clients. */
    method CheckClient(i: nat, ghost slots: seq<int>, ghost served: seq<int>, ghost was: map<int, seq<Reading>>,
                       ghost before: seq<(int, Reading)>)
      returns (ghost served': seq<int>)
      requires Scanned(slots, i, served, was, before) && i < FD_SETSIZE
      requires slots[i] > 0 && slots[i] in readySet ==> slots[i] in was && slots[i] !in served
      modifies this`nready, this`readSet, this`byteCnt, this`unread, this`echoed, this`log, clientfd
      ensures Scanned(slots, i + 1, served', was, before)
      ensures if slots[i] > 0 && slots[i] in readySet then served' == served + [slots[i]] && nready == old(nready) - 1
        else served' == served && nready == old(nready)
    {
      var connfd := clientfd[i];
      served' := served;
      if connfd > 0 && connfd in readySet {
        nready := nready - 1;
        served' := Serve(i, Clients(slots), served, was, before);
      }
    }

    method Serve(i: nat, ghost all: set<int>, ghost served: seq<int>, ghost was: map<int, seq<Reading>>,
                 ghost before: seq<(int, Reading)>)
      returns (ghost served': seq<int>)
      requires Valid() && Served(all, served, was, before, Clients(clientfd[..]), log, unread) && i < FD_SETSIZE
      requires clientfd[i] in was && clientfd[i] !in served && clientfd[i] >= 0
      modifies this`readSet, this`byteCnt, this`unread, this`echoed, this`log, clientfd
      ensures Valid() && Served(all, served', was, before, Clients(clientfd[..]), log, unread)
      ensures served' == served + [old(clientfd[i])]
      ensures forall j :: i < j < FD_SETSIZE ==> clientfd[j] == old(clientfd[j])
    {
      ghost var connfd, clients, read, rest := clientfd[i], Clients(clientfd[..]), log, unread;
      ServedOne(all, served, was, connfd);
      EchoLine(i);
      served' := served + [connfd];
      ServedMore(all, served, was, before, connfd, clients, read, rest, Clients(clientfd[..]), log, unread);
    }

    /** rio_readlineb on a copy of the client's buffer, which is still empty: a line, or nothing at end of file. What
        was read ahead goes with the copy. */
    method ReadLine(connfd: int) returns (line: seq<Byte>)
      requires Books(accepted, log, unread) && connfd in unread
      modifies this`unread, this`log
      ensures Books(accepted, log, unread)
      ensures var was := old(unread[connfd]);
        if was == [] then line == [] && unread == old(unread) && log == old(log)
        else line == was[0].line && unread == old(unread)[connfd := was[1..]] && log == old(log) + [(connfd, was[0])]
    {
      line := [];
      if unread[connfd] != [] {
        BooksAfterLine(accepted, log, unread, connfd);
        line := unread[connfd][0].line;
        log := log + [(connfd, unread[connfd][0])];
        unread := unread[connfd := unread[connfd][1..]];
      }
    }

    /**
     check_clients for a ready client: count its next line and write it back, or at end of file close the descriptor
     and free the slot.
     */
    method EchoLine(i: nat)
      requires Valid() && i < FD_SETSIZE && clientfd[i] >= 0 && clientfd[i] in unread
      modifies this`readSet, this`byteCnt, this`unread, this`echoed, this`log, clientfd
      ensures Valid()
      ensures OneServed(old(clientfd[i]), old(Clients(clientfd[..])), old(log), old(unread),
                        Clients(clientfd[..]), log, unread)
      ensures forall j :: 0 <= j < FD_SETSIZE && j != i ==> clientfd[j] == old(clientfd[j])
    {
      ghost var slots, was := clientfd[..], log;
      var line := ReadLine(clientfd[i]);
      assert clientfd[..] == slots;
      var n := |line|;
      if n != 0 {
        WriteBack(clientfd[i], line, was);
        assert clientfd[..] == slots;
      } else {
        Drop(i);
      }
    }

    /** Count the line and write it to the client. */
    method WriteBack(connfd: int, line: Line, ghost was: seq<(int, Reading)>)
      requires Watching() && clientfd.Length == FD_SETSIZE && unread.Keys == Clients(clientfd[..])
      requires Books(accepted, log, unread) && echoed == Lines(was) && byteCnt == Total(echoed)
      requires |log| == |was| + 1 && log == was + [log[|was|]] && log[|was|].0 == connfd && log[|was|].1.line == line
      modifies this`byteCnt, this`echoed
      ensures Valid()
    {
      LinesMore(was, connfd, log[|was|].1);
      byteCnt := byteCnt + |line|;
      echoed := echoed + [(connfd, line)];
    }

    /** Close the descriptor and free the slot. */
    method Drop(i: nat)
      requires Valid() && i < FD_SETSIZE && clientfd[i] >= 0 && clientfd[i] in unread && unread[clientfd[i]] == []
      modifies this`readSet, this`unread, clientfd
      ensures Valid() && clientfd[..] == old(clientfd[..])[i := -1] && unread == old(unread) - {old(clientfd[i])}
      ensures Clients(clientfd[..]) == old(Clients(clientfd[..])) - {old(clientfd[i])}
    {
      ghost var slots := clientfd[..];
      WatchesLess(slots, maxi, maxfd, readSet, listenfd, i);
      BooksAfterClose(accepted, log, unread, clientfd[i]);
      readSet := readSet - {clientfd[i]};
      unread := unread - {clientfd[i]};
      clientfd[i] := -1;
      assert clientfd[..] == slots[i := -1];
    }

    /**
     One turn of the loop in main, after select has answered: `ready` are the descriptors found ready, `connfd` what
     accept returns if one of them is the listening one, and `input` what that client is going to send. Every ready
     client is served exactly once, and nready ends at 0 unless descriptor 0 is a ready client.
     */
    method Turn(ready: set<int>, connfd: int, input: seq<Reading>) returns (ghost served: seq<int>)
      requires Valid() && ready <= readSet
      requires listenfd in ready ==> 0 <= connfd < FD_SETSIZE && connfd !in readSet
      modifies this, clientfd
      ensures Valid()
      ensures nready == if 0 in ready && 0 != listenfd then 1 else 0
      ensures forall c :: c in served <==> c in ready && c != listenfd && c != 0
      ensures NoRepeats(served)
      ensures accepted == old(accepted) + if listenfd in ready then [(connfd, input)] else []
      ensures log == old(log) + Heads(served, old(unread))
      ensures Clients(clientfd[..])
        == old(Clients(clientfd[..])) - Finished(served, old(unread)) + if listenfd in ready then {connfd} else {}
    {
      readySet := ready;
      nready := |ready|;
      ghost var clients, was := Clients(clientfd[..]), unread;
      Accept(connfd, input);
      ReadyCounted(clientfd[..], clients, ready, listenfd, connfd);
      ghost var now := unread;
      served := CheckClients();
      NewcomerWaits(clients, served, was, now, listenfd in ready, connfd, input);
    }

    /** The first half of the turn: add a new client if there is one. */
    method Accept(connfd: int, input: seq<Reading>)
      requires Valid() && (listenfd in readySet ==> 0 <= connfd < FD_SETSIZE && connfd !in readSet)
      modifies this`nready, this`readSet, this`maxfd, this`maxi, this`unread, this`accepted, clientfd
      ensures Valid() && nready == old(nready) - if listenfd in readySet then 1 else 0
      ensures Clients(clientfd[..]) == old(Clients(clientfd[..])) + if listenfd in readySet then {connfd} else {}
      ensures unread == if listenfd in readySet then old(unread)[connfd := input] else old(unread)
      ensures accepted == old(accepted) + if listenfd in readySet then [(connfd, input)] else []
    {
      if listenfd in readySet {
        var ok := AddClient(connfd, input);
      }
    }
  }

  // ---------- whole runs ----------

  /** What select finds ready, and what accept returns if the listening descriptor is among it. */
  datatype Answer = Answer(ready: set<int>, connfd: int, input: seq<Reading>)

  ghost predicate Given(answers: seq<Answer>, k: nat, a: (int, seq<Reading>)) {
    exists i :: 0 <= i < k && i < |answers| && a == (answers[i].connfd, answers[i].input)
  }

  /**
   The loop of main on any answers: select finds only watched descriptors ready, and accept gives one that is not in
   use. After any number of turns every descriptor has got back, in order, the lines of the clients it was given to, but
   for those not read yet; and nothing is left of a client that has been dropped.
   */
  method Run(listenfd: int, answers: seq<Answer>) returns (pool: Pool)
    requires 0 <= listenfd < FD_SETSIZE
    ensures pool.Valid() && pool.listenfd == listenfd
    ensures pool.byteCnt == Total(pool.echoed)
    ensures forall c: int ::
      TextTo(pool.echoed, c) + Echo(At(pool.unread, c)) == Echo(SentBy(pool.accepted, c))
    ensures forall c :: c in pool.unread <==> c in Clients(pool.clientfd[..])
    ensures forall a :: a in pool.accepted ==> Given(answers, |answers|, a)
  {
    pool := new Pool(listenfd);
    var k := 0;
    while k < |answers|
      invariant 0 <= k <= |answers| && pool.Valid() && pool.listenfd == listenfd && fresh(pool) && fresh(pool.clientfd)
      invariant forall a :: a in pool.accepted ==> Given(answers, k, a)
    {
      var ready := answers[k].ready * pool.readSet;
      if answers[k].connfd in pool.readSet || !(0 <= answers[k].connfd < FD_SETSIZE) {
        ready := ready - {listenfd};
      }
      ghost var served := pool.Turn(ready, answers[k].connfd, answers[k].input);
      k := k + 1;
    }
    forall c: int ensures TextTo(pool.echoed, c) + Echo(At(pool.unread, c)) == Echo(SentBy(pool.accepted, c)) {
      EchoedInOrder(pool.accepted, pool.log, pool.unread, c);
    }
  }

  /** Who has just been accepted is not served in that turn. */
  lemma NewcomerWaits(clients: set<int>, served: seq<int>, was: map<int, seq<Reading>>, now: map<int, seq<Reading>>,
                      more: bool, connfd: int, input: seq<Reading>)
    requires now == if more then was[connfd := input] else was
    requires more ==> connfd !in served
    ensures Heads(served, was) == Heads(served, now)
    ensures (clients + if more then {connfd} else {}) - Finished(served, now)
         == clients - Finished(served, was) + if more then {connfd} else {}
  {
    SameServed(served, was, now);
  }

  lemma {:induction false} SameServed(served: seq<int>, was: map<int, seq<Reading>>, now: map<int, seq<Reading>>)
    requires forall c :: c in served ==> At(was, c) == At(now, c)
    ensures Heads(served, was) == Heads(served, now) && Finished(served, was) == Finished(served, now)
  {
    if served != [] {
      assert forall c :: c in served[..|served| - 1] ==> c in served;
      SameServed(served[..|served| - 1], was, now);
      assert served[|served| - 1] in served;
    }
  }

  /** The first i of these slots have been looked at for ready clients, and the others counted. */
  ghost predicate Scan(slots: seq<int>, ready: set<int>, i: nat, served: seq<int>, nready: int) {
    && |slots| == FD_SETSIZE && i <= FD_SETSIZE && Distinct(slots)
    && served == Positive(ReadyIn(slots[..i], ready))
    && nready == |ReadyIn(slots, ready)| - |served|
  }

  lemma ScanMore(slots: seq<int>, ready: set<int>, i: nat, served: seq<int>, nready: int)
    requires Scan(slots, ready, i, served, nready) && i < FD_SETSIZE
    ensures if slots[i] > 0 && slots[i] in ready
      then Scan(slots, ready, i + 1, served + [slots[i]], nready - 1)
        && slots[i] in Clients(slots) && slots[i] !in served
      else Scan(slots, ready, i + 1, served, nready)
  {
    ScanStep(slots, ready, i);
    if slots[i] > 0 {
      NotYetServed(slots, ready, i);
    }
  }

  lemma NotYetServed(slots: seq<int>, ready: set<int>, i: nat)
    requires Distinct(slots) && i < |slots| && slots[i] >= 0
    ensures slots[i] in Clients(slots) && slots[i] !in Positive(ReadyIn(slots[..i], ready))
  {
    ServedIsReady(slots[..i], ready, slots[i]);
    if slots[i] in Clients(slots[..i]) {
      var j :| 0 <= j < i && slots[..i][j] == slots[i];
      assert Differ(slots, j, i);
    }
  }

  /** What select found ready besides the listening descriptor are clients that were there before accept. */
  lemma ReadyCounted(slots: seq<int>, clients: set<int>, ready: set<int>, listenfd: int, connfd: int)
    requires Distinct(slots) && ready <= clients + {listenfd} && listenfd !in clients
    requires Clients(slots) == clients + if listenfd in ready then {connfd} else {}
    requires listenfd in ready ==> connfd !in clients + {listenfd}
    ensures |ReadyIn(slots, ready)| == |ready| - if listenfd in ready then 1 else 0
    ensures NoRepeats(Positive(ReadyIn(slots, ready)))
    ensures forall c :: c in Positive(ReadyIn(slots, ready)) <==> c in ready && c != listenfd && c != 0
    ensures 0 in ReadyIn(slots, ready) <==> 0 in ready && 0 != listenfd
  {
    ReadyInCounts(slots, ready);
    assert Clients(slots) * ready == ready - {listenfd};
    ServedOnce(slots, ready);
    forall c ensures c in Positive(ReadyIn(slots, ready)) <==> c in ready && c != listenfd && c != 0 {
      ServedIsReady(slots, ready, c);
      assert c in Clients(slots) * ready <==> c in ready - {listenfd};
    }
    ReadyInIsReady(slots, ready, 0);
    assert 0 in Clients(slots) * ready <==> 0 in ready - {listenfd};
  }

  lemma {:induction false} PositiveKeeps(fds: seq<int>, c: int)
    ensures c in Positive(fds) <==> c in fds && c > 0
  {
    if fds != [] {
      assert fds == fds[..|fds| - 1] + [fds[|fds| - 1]];
      PositiveKeeps(fds[..|fds| - 1], c);
    }
  }

  lemma ServedIsReady(slots: seq<int>, ready: set<int>, c: int)
    ensures c in Positive(ReadyIn(slots, ready)) <==> c in Clients(slots) && c in ready && c > 0
  {
    PositiveKeeps(ReadyIn(slots, ready), c);
    ReadyInIsReady(slots, ready, c);
  }

  lemma {:induction false} PositiveDistinct(fds: seq<int>)
    requires NoRepeats(fds)
    ensures NoRepeats(Positive(fds))
  {
    if fds != [] {
      var front, last := fds[..|fds| - 1], fds[|fds| - 1];
      PositiveDistinct(front);
      PositiveKeeps(front, last);
    }
  }

  lemma ServedOnce(slots: seq<int>, ready: set<int>)
    requires Distinct(slots)
    ensures NoRepeats(Positive(ReadyIn(slots, ready)))
  {
    ReadyInDistinct(slots, ready);
    PositiveDistinct(ReadyIn(slots, ready));
  }

  lemma SlotFilled(slots: seq<int>, i: nat, connfd: int)
    requires Distinct(slots) && i < |slots| && slots[i] < 0 <= connfd && connfd !in Clients(slots)
    ensures Distinct(slots[i := connfd]) && Clients(slots[i := connfd]) == Clients(slots) + {connfd}
  {
    var r := slots[i := connfd];
    forall c ensures c in Clients(r) <==> c in Clients(slots) || c == connfd {
      if c in Clients(slots) {
        var j :| 0 <= j < |slots| && slots[j] == c;
        assert r[j] == c;
      }
      assert r[i] == connfd;
    }
    forall j, k | 0 <= j < k < |r| ensures Differ(r, j, k) {
      assert Differ(slots, j, k);
      assert slots[j] >= 0 ==> slots[j] in Clients(slots);
      assert slots[k] >= 0 ==> slots[k] in Clients(slots);
    }
  }

  /** The descriptors below n. */
  function Below(n: nat): set<int> {
    if n == 0 then {} else Below(n - 1) + {n - 1}
  }

  lemma {:induction false} BelowHas(n: nat, c: int)
    ensures c in Below(n) <==> 0 <= c < n
  {
    if n > 0 {
      BelowHas(n - 1, c);
    }
  }

  lemma {:induction false} BelowSize(n: nat)
    ensures |Below(n)| == n
  {
    if n > 0 {
      BelowSize(n - 1);
      BelowHas(n - 1, n - 1);
    }
  }

  lemma SubsetSize(a: set<int>, b: set<int>)
    requires a <= b
    ensures |a| <= |b|
  {
    assert b == a + (b - a);
  }

  lemma {:induction false} FullSlots(slots: seq<int>)
    requires Distinct(slots) && forall i :: 0 <= i < |slots| ==> slots[i] >= 0
    ensures |Clients(slots)| == |slots|
  {
    if slots != [] {
      var front, last := slots[..|slots| - 1], slots[|slots| - 1];
      DistinctFront(slots);
      FullSlots(front);
      ClientsMore(slots);
    }
  }

  /** There are as many slots as descriptors and one descriptor is listening: the pool is never full. */
  lemma SomeSlotIsFree(slots: seq<int>, listenfd: int)
    requires |slots| == FD_SETSIZE && Distinct(slots) && 0 <= listenfd < FD_SETSIZE && listenfd !in Clients(slots)
    requires forall c :: c in Clients(slots) ==> c < FD_SETSIZE
    ensures exists i :: 0 <= i < FD_SETSIZE && slots[i] < 0
  {
    if forall i :: 0 <= i < FD_SETSIZE ==> slots[i] >= 0 {
      FullSlots(slots);
      BelowSize(FD_SETSIZE);
      forall c | c in Clients(slots) + {listenfd} ensures c in Below(FD_SETSIZE) {
        BelowHas(FD_SETSIZE, c);
      }
      SubsetSize(Clients(slots) + {listenfd}, Below(FD_SETSIZE));
    }
  }
}
