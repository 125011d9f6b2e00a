/** What callers of the buffered reader see: any mix of its calls, and the echo service of hw/hw9/echo.c. */
module RioClients {
  import opened Bytes
  import opened Rio

  /** One call on a reader: rio_readnb of n bytes, or rio_readlineb with a buffer of maxlen. */
  datatype Call = Block(n: nat) | Line(maxlen: nat)

  /** How many bytes a call is due from a stream that still holds `s`. */
  function Due(c: Call, s: seq<Byte>): (k: nat)
    ensures k <= |s|
  {
    match c
    case Block(n) => Min(n, |s|)
    case Line(maxlen) => NextLine(s, maxlen)
  }

  /** The stream cut up as the calls ask. */
  function Pieces(calls: seq<Call>, s: seq<Byte>): seq<seq<Byte>> {
    if calls == [] then [] else
      var k := Due(calls[0], s);
      [s[..k]] + Pieces(calls[1..], s[k..])
  }

  function Rest(calls: seq<Call>, s: seq<Byte>): seq<Byte> {
    if calls == [] then s else Rest(calls[1..], s[Due(calls[0], s)..])
  }

  function Joined(pieces: seq<seq<Byte>>): seq<Byte> {
    if pieces == [] then [] else pieces[0] + Joined(pieces[1..])
  }

  lemma FrontAndRest(s: seq<Byte>, k: nat, middle: seq<Byte>, rest: seq<Byte>)
    requires k <= |s| && middle + rest == s[k..]
    ensures (s[..k] + middle) + rest == s
  {
    assert s[..k] + (middle + rest) == (s[..k] + middle) + rest;
  }

  /** Nothing is lost, repeated or reordered, however the two kinds of call are mixed. */
  lemma {:induction false} PiecesMakeTheStream(calls: seq<Call>, s: seq<Byte>)
    ensures |Pieces(calls, s)| == |calls|
    ensures Joined(Pieces(calls, s)) + Rest(calls, s) == s
  {
    if calls != [] {
      var k := Due(calls[0], s);
      PiecesMakeTheStream(calls[1..], s[k..]);
      var pieces := Pieces(calls[1..], s[k..]);
      assert ([s[..k]] + pieces)[1..] == pieces;
      FrontAndRest(s, k, Joined(pieces), Rest(calls, s));
    }
  }

  /** One more call takes its piece from what the others leave. */
  lemma {:induction false} OneMoreCall(calls: seq<Call>, c: Call, s: seq<Byte>)
    ensures var rest := Rest(calls, s); var k := Due(c, rest);
      Pieces(calls + [c], s) == Pieces(calls, s) + [rest[..k]] && Rest(calls + [c], s) == rest[k..]
  {
    if calls == [] {
      assert calls + [c] == [c];
      assert [c][1..] == [];
    } else {
      var k := Due(calls[0], s);
      OneMoreCall(calls[1..], c, s[k..]);
      assert (calls + [c])[1..] == calls[1..] + [c];
    }
  }

  /** The caller's buffer is large enough for what it asks. */
  predicate Fits(c: Call, size: nat) {
    match c
    case Block(n) => n <= size
    case Line(maxlen) => 0 < size && maxlen <= size
  }

  /** One call, and what it put at the front of the caller's buffer. */
  method Perform(rp: Reader, usr: array<Byte>, c: Call) returns (piece: seq<Byte>, ok: bool)
    requires rp.Valid() && usr != rp.buf && Fits(c, usr.Length)
    modifies rp, rp.buf, rp.fd, usr
    ensures rp.Valid() && rp.fd.output == old(rp.fd.output)
    ensures rp.fd.reliable ==> ok
    ensures ok ==> var s := old(rp.Stream()); var k := Due(c, s); piece == s[..k] && rp.Stream() == s[k..]
  {
    ghost var s := rp.Stream();
    ghost var taken;
    var k;
    match c {
      case Block(n) =>
        k, taken := rp.ReadNB(usr, n);
      case Line(maxlen) =>
        k, taken := rp.ReadLineB(usr, maxlen);
    }
    if k == -1 {
      return [], false;
    }
    assert usr[..k] == s[..k];
    piece := usr[..k];
    ok := true;
  }

  /**
   Any calls on one reader, collecting what each delivers. Short reads, interruptions and refills do not show: without
   an error the deliveries depend on the stream and the calls alone; with one, they are those of the calls before it.
   */
  method Session(rp: Reader, usr: array<Byte>, calls: seq<Call>) returns (got: seq<seq<Byte>>, ok: bool)
    requires rp.Valid() && usr != rp.buf && forall c <- calls :: Fits(c, usr.Length)
    modifies rp, rp.buf, rp.fd, usr
    ensures rp.Valid() && rp.fd.output == old(rp.fd.output) && |got| <= |calls| && (ok ==> |got| == |calls|)
    ensures got == Pieces(calls[..|got|], old(rp.Stream()))
    ensures rp.fd.reliable ==> ok
    ensures ok ==> rp.Stream() == Rest(calls, old(rp.Stream()))
  {
    ghost var s := rp.Stream();
    got := [];
    while |got| < |calls|
      invariant rp.Valid() && rp.fd.output == old(rp.fd.output) && |got| <= |calls|
      invariant got == Pieces(calls[..|got|], s)
      invariant rp.Stream() == Rest(calls[..|got|], s)
      decreases |calls| - |got|
    {
      var c := calls[|got|];
      assert calls[..|got|] + [c] == calls[..|got| + 1];
      OneMoreCall(calls[..|got|], c, s);
      var piece, answered := Perform(rp, usr, c);
      if !answered {
        return got, false;
      }
      got := got + [piece];
    }
    assert calls[..|got|] == calls;
    ok := true;
  }

  /** One round of echo: the next line is read and written back; n is its length, or -1 after an error. */
  method EchoLine(rio: Reader, buf: array<Byte>) returns (n: int, ghost sent: nat)
    requires rio.Valid() && buf != rio.buf && 1 < buf.Length
    modifies rio, rio.buf, rio.fd, buf
    ensures rio.Valid()
    ensures sent <= |old(rio.Stream())| && rio.fd.output == old(rio.fd.output) + old(rio.Stream())[..sent]
    ensures (n == -1 && !rio.fd.reliable) || n == sent == NextLine(old(rio.Stream()), buf.Length)
    ensures n != -1 ==> rio.Stream() == old(rio.Stream())[sent..] && (n == 0 <==> old(rio.Stream()) == [])
  {
    ghost var rest, was := rio.Stream(), buf[..];
    ghost var taken;
    n, taken := rio.ReadLineB(buf, buf.Length);
    sent := 0;
    if n > 0 {
      FrontOf(was, rest[..n], 0);
      n, sent := WriteBack(rio.fd, buf, n, rest);
    }
  }

  lemma FrontOf(w: seq<Byte>, src: seq<Byte>, last: Byte)
    requires |src| < |w|
    ensures Spliced(w, 0, src + [last])[..|src|] == src
  {
  }

  /** Rio_writen of the line that has been read. */
  method WriteBack(fd: Descriptor, buf: array<Byte>, n: nat, ghost rest: seq<Byte>) returns (n': int, ghost sent: nat)
    requires n <= buf.Length && n <= |rest| && buf[..n] == rest[..n]
    modifies fd
    ensures fd.input == old(fd.input) && sent <= n && fd.output == old(fd.output) + rest[..sent]
    ensures (n' == -1 && !fd.reliable) || n' == n == sent
  {
    n', sent := WriteN(fd, buf, n);
    assert buf[..sent] == rest[..sent];
  }

  /** Both ends of the stream after `more` further bytes have been echoed. */
  lemma Advance(out: seq<Byte>, input: seq<Byte>, sent: nat, more: nat)
    requires sent + more <= |input|
    ensures input[sent..][more..] == input[sent + more..]
    ensures (out + input[..sent]) + input[sent..][..more] == out + input[..sent + more]
  {
    assert input[..sent] + input[sent..][..more] == input[..sent + more];
  }

  /** echo: without an error the peer gets back exactly what it sent; with one, a prefix of it. */
  method Echo(fd: Descriptor) returns (ok: bool, ghost sent: nat)
    modifies fd
    ensures sent <= |old(fd.input)| && fd.output == old(fd.output) + old(fd.input)[..sent]
    ensures fd.reliable ==> ok
    ensures ok ==> fd.input == [] && sent == |old(fd.input)|
  {
    ghost var input, out := fd.input, fd.output;
    var rio := new Reader(fd);
    var buf := new Byte[MAXLINE](_ => 0);
    sent := 0;
    assert input[..0] == [] && input[0..] == input;
    var n := -1;
    while n != 0
      invariant rio.fd == fd && rio.Valid() && fresh(rio) && fresh(rio.buf) && fresh(buf) && buf != rio.buf
      invariant sent <= |input| && rio.Stream() == input[sent..] && fd.output == out + input[..sent]
      invariant n == 0 ==> sent == |input|
      decreases |input| - sent, n != 0
    {
      ghost var more;
      n, more := EchoLine(rio, buf);
      Advance(out, input, sent, more);
      sent := sent + more;
      if n == -1 {
        return false, sent;
      }
    }
    assert |rio.Stream()| == 0;
    ok := true;
  }
}
