/** The robust I/O package of hw/hw9/csapp.c over a descriptor that reads and writes short and is interrupted by
    signals. */
module Rio {
  import opened Bytes

  const RIO_BUFSIZE: nat := 8192
  const MAXLINE: nat := 8192
  const NEWLINE: Byte := 10

  /**
   A connected descriptor. `input` is what the peer has sent and nobody has read, `output` what has been written.
   `signals` bounds the interruptions still to come; a reliable descriptor has no other errors. Which legal answer a
   call gives is left open.
   */
  class Descriptor {
    var input: seq<Byte>
    var output: seq<Byte>
    var signals: nat
    const reliable: bool

    constructor (input: seq<Byte>, signals: nat, reliable: bool)
      ensures this.input == input && output == [] && this.signals == signals && this.reliable == reliable
    {
      this.input, this.output, this.signals, this.reliable := input, [], signals, reliable;
    }

    /** read(2): -1 for an error or an interruption, 0 at end of file, else some of the bytes. */
    method Read(buf: array<Byte>, at: nat, n: nat) returns (k: int, interrupted: bool)
      requires 0 < n && at + n <= buf.Length
      modifies this, buf
      ensures output == old(output) && -1 <= k <= n
      ensures k == -1 ==> input == old(input) && buf[..] == old(buf[..])
      ensures k == -1 && reliable ==> interrupted
      ensures signals <= old(signals) && (k == -1 && interrupted ==> signals < old(signals))
      ensures k == 0 ==> input == old(input) == [] && buf[..] == old(buf[..])
      ensures 0 < k ==> k <= |old(input)| && input == old(input)[k..]
      ensures 0 < k ==> buf[..] == Spliced(old(buf[..]), at, old(input)[..k])
    {
      var choice: int := *;
      if choice == 0 && 0 < signals {
        signals := signals - 1;
        return -1, true;
      } else if choice == 1 && !reliable {
        return -1, false;
      } else if input == [] {
        return 0, false;
      }
      var m := if n < |input| then n else |input|;
      k :| 1 <= k <= m;
      CopyTo(buf, at, input[..k]);
      input := input[k..];
      interrupted := false;
    }

    /** write(2) of at least one byte: -1 for an error or an interruption, else the number of bytes taken. */
    method Write(buf: array<Byte>, at: nat, n: nat) returns (k: int, interrupted: bool)
      requires 0 < n && at + n <= buf.Length
      modifies this
      ensures input == old(input) && (k == -1 || 1 <= k <= n)
      ensures k == -1 ==> output == old(output)
      ensures k == -1 && reliable ==> interrupted
      ensures k == -1 && interrupted ==> signals < old(signals)
      ensures k != -1 ==> output == old(output) + buf[at..at + k] && signals == old(signals)
    {
      var choice: int := *;
      if choice == 0 && 0 < signals {
        signals := signals - 1;
        return -1, true;
      } else if choice == 1 && !reliable {
        return -1, false;
      }
      k :| 1 <= k <= n;
      output := output + buf[at..at + k];
      interrupted := false;
    }
  }

  function Min(a: nat, b: nat): nat {
    if a < b then a else b
  }

  /** rio_readn: unbuffered; `taken` bytes have been read even if an error follows. */
  method ReadN(fd: Descriptor, usr: array<Byte>, n: nat) returns (k: int, ghost taken: nat)
    requires n <= usr.Length
    modifies fd, usr
    ensures fd.output == old(fd.output)
    ensures taken <= |old(fd.input)| && taken <= n && fd.input == old(fd.input)[taken..]
    ensures usr[..] == Spliced(old(usr[..]), 0, old(fd.input)[..taken])
    ensures k == -1 || k == taken == Min(n, |old(fd.input)|)
    ensures fd.reliable ==> k != -1
  {
    ghost var input, was := fd.input, usr[..];
    var left := n;
    taken := 0;
    assert Spliced(was, 0, input[..0]) == was && input[0..] == input;
    while left > 0
      invariant 0 <= left <= n && taken == n - left <= |input|
      invariant fd.output == old(fd.output) && fd.input == input[taken..]
      invariant usr[..] == Spliced(was, 0, input[..taken])
      decreases fd.signals + left
    {
      var nread, interrupted := fd.Read(usr, n - left, left);
      if nread < 0 {
        if interrupted {
          nread := 0;
        } else {
          return -1, taken;
        }
      } else if nread == 0 {
        assert taken == |input|;
        break;
      } else {
        DeliverMore(was, input, taken, nread);
        taken := taken + nread;
      }
      left := left - nread;
    }
    k := n - left;
  }

  /** rio_writen: all n bytes, or an error after a prefix of them. */
  method WriteN(fd: Descriptor, usr: array<Byte>, n: nat) returns (k: int, ghost sent: nat)
    requires n <= usr.Length
    modifies fd
    ensures fd.input == old(fd.input)
    ensures sent <= n && fd.output == old(fd.output) + usr[..sent]
    ensures k == -1 || k == n == sent
    ensures fd.reliable ==> k != -1
  {
    var left := n;
    sent := 0;
    assert usr[..0] == [];
    while left > 0
      invariant 0 <= left <= n && sent == n - left
      invariant fd.input == old(fd.input) && fd.output == old(fd.output) + usr[..sent]
      decreases fd.signals + left
    {
      var nwritten, interrupted := fd.Write(usr, n - left, left);
      if nwritten <= 0 {
        if interrupted {
          nwritten := 0;
        } else {
          return -1, sent;
        }
      }
      assert usr[..sent] + usr[sent..sent + nwritten] == usr[..sent + nwritten];
      left := left - nwritten;
      sent := sent + nwritten;
    }
    k := n;
  }

  /** How long the next line is: up to and including a newline, at most `room` bytes, at most what there is. */
  function LineLength(s: seq<Byte>, room: nat): (k: nat)
    ensures k <= |s| && k <= room
  {
    if room == 0 || s == [] then 0
    else if s[0] == NEWLINE then 1
    else 1 + LineLength(s[1..], room - 1)
  }

  /** The line is the shortest prefix that ends in a newline, fills the room, or exhausts the stream. */
  lemma {:induction false} LineIsShortest(s: seq<Byte>, room: nat)
    ensures var k := LineLength(s, room);
      && (forall i :: 0 <= i < k - 1 ==> s[i] != NEWLINE)
      && (k == room || k == |s| || (0 < k && s[k - 1] == NEWLINE))
      && (k == 0 <==> room == 0 || s == [])
  {
    if room > 0 && s != [] && s[0] != NEWLINE {
      LineIsShortest(s[1..], room - 1);
    }
  }

  /** What rio_readlineb delivers with room for maxlen bytes: at most maxlen - 1 of the stream, up to and including the
      first newline. */
  predicate IsLine(s: seq<Byte>, maxlen: nat, k: nat) {
    && k <= |s| && (k == 0 || k < maxlen)
    && (0 < k ==> NEWLINE !in s[..k - 1])
    && (1 < maxlen ==> k == maxlen - 1 || k == |s| || (0 < k && s[k - 1] == NEWLINE))
  }

  /** The length of the line; one byte of the user's buffer is kept for the zero. */
  function NextLine(s: seq<Byte>, maxlen: nat): nat {
    LineLength(s, if maxlen == 0 then 0 else maxlen - 1)
  }

  /** The next line is what this says, and nothing else is. */
  lemma NextLineIs(s: seq<Byte>, maxlen: nat)
    ensures IsLine(s, maxlen, NextLine(s, maxlen))
    ensures forall k: nat | IsLine(s, maxlen, k) :: k == NextLine(s, maxlen)
  {
    LineIsShortest(s, if maxlen == 0 then 0 else maxlen - 1);
  }

  /** Of "hi", a line feed and "!" the line is the first three bytes, or as many as there is room for. */
  lemma LineOfText(maxlen: nat)
    requires 1 < maxlen
    ensures NextLine([104, 105, 10, 33], maxlen) == if maxlen < 4 then maxlen - 1 else 3
  {
    var s: seq<Byte> := [104, 105, 10, 33];
    assert IsLine(s, maxlen, if maxlen < 4 then maxlen - 1 else 3);
    NextLineIs(s, maxlen);
  }

  /** Where the line ends when its first a bytes have come without a newline. */
  function LineEnd(s: seq<Byte>, a: nat, room: nat): nat
    requires a <= |s| && a <= room
  {
    a + LineLength(s[a..], room - a)
  }

  /** Reading one more byte of the line after the first a. */
  lemma LineStep(s: seq<Byte>, a: nat, room: nat)
    requires a < |s| && a < room
    ensures s[a..][1..] == s[a + 1..] && s[..a] + [s[a]] == s[..a + 1]
    ensures LineEnd(s, a, room) == if s[a] == NEWLINE then a + 1 else LineEnd(s, a + 1, room)
  {
    assert s[a..][1..] == s[a + 1..];
  }

  /** A slice in two parts. */
  lemma SliceSplit(b: seq<Byte>, p: nat, k: nat, n: nat)
    requires k <= n && p + n <= |b|
    ensures b[p..p + n][..k] == b[p..p + k] && b[p..p + n][k..] == b[p + k..p + n]
  {
  }

  /** Handing over the first k of the waiting bytes `w`, of which the others and `rest` stay. */
  lemma FrontHandedOver(w: seq<Byte>, rest: seq<Byte>, k: nat)
    requires k <= |w|
    ensures w[..k] == (w + rest)[..k] && w[k..] + rest == (w + rest)[k..]
  {
  }

  /** Delivering b more bytes behind the first a. */
  lemma DeliverMore(w: seq<Byte>, stream: seq<Byte>, a: nat, b: nat)
    requires a + b <= |stream| && a + b <= |w|
    ensures stream[a..][b..] == stream[a + b..]
    ensures Spliced(Spliced(w, 0, stream[..a]), a, stream[a..][..b]) == Spliced(w, 0, stream[..a + b])
  {
    SpliceTwice(w, 0, stream[..a], stream[a..][..b]);
    assert stream[..a] + stream[a..][..b] == stream[..a + b];
  }

  /** The first k bytes of the descriptor at the front of the internal buffer, and those it still has. */
  lemma Refilled(w: seq<Byte>, rest: seq<Byte>, k: nat)
    requires k <= |rest| && k <= |w|
    ensures Spliced(w, 0, rest[..k])[0..k] + rest[k..] == rest
  {
    assert Spliced(w, 0, rest[..k])[0..k] == rest[..k];
  }

  /** rio_t: unread bytes wait in `buf` from `ptr` on; `cnt` is negative after an interrupted refill. */
  class Reader {
    const fd: Descriptor
    const buf: array<Byte>
    var cnt: int
    var ptr: nat

    ghost predicate Valid()
      reads this
    {
      buf.Length == RIO_BUFSIZE && (0 < cnt ==> ptr + cnt <= buf.Length)
    }

    ghost function Unread(): seq<Byte>
      requires Valid()
      reads this, buf
    {
      if 0 < cnt then buf[ptr..ptr + cnt] else []
    }

    /** Everything the user has not received yet. */
    ghost function Stream(): seq<Byte>
      requires Valid()
      reads this, buf, fd
    {
      Unread() + fd.input
    }

    /** rio_readinitb */
    constructor (fd: Descriptor)
      ensures Valid() && this.fd == fd && fresh(buf) && cnt == 0
      ensures Stream() == fd.input
    {
      this.fd := fd;
      this.cnt, this.ptr := 0, 0;
      this.buf := new Byte[RIO_BUFSIZE](_ => 0);
      new;
      assert [] + fd.input == fd.input;
    }

    /** One read into the empty internal buffer. */
    method ReadMore() returns (interrupted: bool)
      requires Valid() && cnt <= 0
      modifies this, buf, fd
      ensures Valid() && fd.output == old(fd.output) && Stream() == old(Stream()) && fd.signals <= old(fd.signals)
      ensures cnt == 0 ==> Stream() == []
      ensures cnt < 0 && fd.reliable ==> interrupted
      ensures cnt < 0 && interrupted ==> fd.signals < old(fd.signals)
    {
      ghost var was, rest := buf[..], fd.input;
      cnt, interrupted := fd.Read(buf, 0, RIO_BUFSIZE);
      if cnt > 0 {
        ptr := 0;
        Refilled(was, rest, cnt);
      } else {
        assert [] + rest == rest;
      }
    }

    /** rio_read, first half: refill the empty buffer, trying again after interruptions. */
    method Refill() returns (k: int)
      requires Valid()
      modifies this, buf, fd
      ensures Valid() && fd.output == old(fd.output) && Stream() == old(Stream())
      ensures k == 1 ==> 0 < cnt
      ensures k == 0 ==> Stream() == []
      ensures (k == -1 && !fd.reliable) || k == 0 || k == 1
    {
      while cnt <= 0
        invariant Valid() && fd.output == old(fd.output) && Stream() == old(Stream())
        decreases fd.signals, cnt <= 0
      {
        var interrupted := ReadMore();
        if cnt < 0 {
          if !interrupted {
            return -1;
          }
        } else if cnt == 0 {
          return 0;
        }
      }
      k := 1;
    }

    /** rio_read, second half: hand over the first k waiting bytes. */
    method HandOver(usr: array<Byte>, at: nat, k: nat)
      requires Valid() && 0 < k <= cnt && at + k <= usr.Length && usr != buf
      modifies this, usr
      ensures Valid() && k <= |old(Stream())| && Stream() == old(Stream())[k..]
      ensures usr[..] == Spliced(old(usr[..]), at, old(Stream())[..k])
    {
      ghost var w := Unread();
      FrontHandedOver(w, fd.input, k);
      SliceSplit(buf[..], ptr, k, cnt);
      CopyTo(usr, at, buf[ptr..ptr + k]);
      ptr := ptr + k;
      cnt := cnt - k;
      assert Unread() == w[k..];
    }

    /** rio_read: at least one byte, at most n, from the front of the stream. */
    method Read(usr: array<Byte>, at: nat, n: nat) returns (k: int)
      requires Valid() && 0 < n && at + n <= usr.Length && usr != buf
      modifies this, buf, fd, usr
      ensures Valid() && fd.output == old(fd.output)
      ensures -1 <= k <= n && (fd.reliable ==> k != -1)
      ensures k <= 0 ==> Stream() == old(Stream()) && usr[..] == old(usr[..])
      ensures k == 0 ==> Stream() == []
      ensures 0 < k ==> k <= |old(Stream())| && Stream() == old(Stream())[k..]
      ensures 0 < k ==> usr[..] == Spliced(old(usr[..]), at, old(Stream())[..k])
    {
      k := Refill();
      if k <= 0 {
        return;
      }
      k := n;
      if cnt < n {
        k := cnt;
      }
      HandOver(usr, at, k);
    }

    /** rio_readnb: n bytes, or what there is before end of file. */
    method ReadNB(usr: array<Byte>, n: nat) returns (k: int, ghost taken: nat)
      requires Valid() && n <= usr.Length && usr != buf
      modifies this, buf, fd, usr
      ensures Valid() && fd.output == old(fd.output)
      ensures taken <= n && taken <= |old(Stream())| && Stream() == old(Stream())[taken..]
      ensures usr[..] == Spliced(old(usr[..]), 0, old(Stream())[..taken])
      ensures (k == -1 && !fd.reliable) || k == taken == Min(n, |old(Stream())|)
    {
      ghost var stream, was := Stream(), usr[..];
      var left := n;
      taken := 0;
      assert Spliced(was, 0, stream[..0]) == was && stream[0..] == stream;
      while left > 0
        invariant Delivered(usr, was, stream, taken) && fd.output == old(fd.output)
        invariant 0 <= left <= n && taken == n - left
        decreases left
      {
        var nread;
        nread, taken := ReadPart(usr, n - left, left, was, stream, taken);
        if nread < 0 {
          return -1, taken;
        } else if nread == 0 {
          break;
        }
        left := left - nread;
      }
      k := n - left;
    }

    /** The first `taken` bytes of the stream are in the user's buffer, and the others are still to come. */
    ghost predicate Delivered(usr: array<Byte>, was: seq<Byte>, stream: seq<Byte>, taken: nat)
      reads this, buf, fd, usr
    {
      && Valid() && usr != buf && taken <= |stream| && taken <= usr.Length == |was|
      && Stream() == stream[taken..]
      && usr[..] == Spliced(was, 0, stream[..taken])
    }

    /** The call in the loop of rio_readnb. */
    method ReadPart(usr: array<Byte>, at: nat, left: nat, ghost was: seq<Byte>, ghost stream: seq<Byte>,
                    ghost taken: nat)
      returns (nread: int, ghost taken': nat)
      requires Delivered(usr, was, stream, taken) && at == taken && 0 < left && at + left <= usr.Length
      modifies this, buf, fd, usr
      ensures fd.output == old(fd.output) && -1 <= nread <= left && (fd.reliable ==> nread != -1)
      ensures taken' == taken + (if nread > 0 then nread else 0) && Delivered(usr, was, stream, taken')
      ensures nread == 0 ==> taken' == |stream|
    {
      nread := Read(usr, at, left);
      taken' := taken;
      if nread > 0 {
        DeliverMore(was, stream, taken, nread);
        taken' := taken + nread;
      } else if nread == 0 {
        assert |stream| - taken == 0;
      }
    }

    /** rio_read of a single byte. */
    method ReadByte() returns (rc: int, c: Byte)
      requires Valid()
      modifies this, buf, fd
      ensures Valid() && fd.output == old(fd.output)
      ensures (rc == -1 && !fd.reliable) || rc == 0 || rc == 1
      ensures rc <= 0 ==> Stream() == old(Stream())
      ensures rc == 0 ==> Stream() == []
      ensures rc == 1 ==> |old(Stream())| > 0 && c == old(Stream())[0] && Stream() == old(Stream())[1..]
    {
      var one := new Byte[1](_ => 0);
      rc := Read(one, 0, 1);
      assert rc == 1 ==> one[..] == old(Stream())[..1];
      c := one[0];
      assert rc == 1 ==> c == old(Stream())[..1][0];
    }

    /** One byte stored behind those delivered so far. */
    method Deliver(usr: array<Byte>, c: Byte, at: nat, ghost was: seq<Byte>, ghost done: seq<Byte>)
      requires Valid() && usr != buf
      requires at == |done| < usr.Length == |was| && usr[..] == Spliced(was, 0, done)
      modifies usr
      ensures Valid() && Stream() == old(Stream())
      ensures usr[..] == Spliced(was, 0, done + [c])
    {
      usr[at] := c;
    }

    /** rio_readlineb: the next line, byte by byte, and a zero byte behind it unless nothing came before end of file. */
    method ReadLineB(usr: array<Byte>, maxlen: nat) returns (k: int, ghost taken: nat)
      requires Valid() && 0 < usr.Length && maxlen <= usr.Length && usr != buf
      modifies this, buf, fd, usr
      ensures Valid() && fd.output == old(fd.output)
      ensures taken <= NextLine(old(Stream()), maxlen) && Stream() == old(Stream())[taken..]
      ensures (k == -1 && !fd.reliable) || k == taken == NextLine(old(Stream()), maxlen)
      ensures k == -1 || (0 <= k && IsLine(old(Stream()), maxlen, k))
      ensures k == -1 || (k == 0 && 1 < maxlen) ==> usr[..] == Spliced(old(usr[..]), 0, old(Stream())[..taken])
      ensures k > 0 || (k == 0 && maxlen <= 1) ==> usr[..] == Spliced(old(usr[..]), 0, old(Stream())[..k] + [0])
    {
      ghost var stream, was := Stream(), usr[..];
      NextLineIs(stream, maxlen);
      var store;
      k, store, taken := ReadLine(usr, maxlen);
      if store {
        Deliver(usr, 0, k, was, stream[..taken]);
      }
    }

    /** The loop of rio_readlineb; `store` unless it returns at once, at end of file or after an error. */
    method ReadLine(usr: array<Byte>, maxlen: nat) returns (k: int, store: bool, ghost taken: nat)
      requires Valid() && 0 < usr.Length && maxlen <= usr.Length && usr != buf
      modifies this, buf, fd, usr
      ensures Valid() && fd.output == old(fd.output)
      ensures taken <= NextLine(old(Stream()), maxlen) && Stream() == old(Stream())[taken..]
      ensures (k == -1 && !fd.reliable) || k == taken == NextLine(old(Stream()), maxlen)
      ensures usr[..] == Spliced(old(usr[..]), 0, old(Stream())[..taken])
      ensures store <==> k > 0 || (k == 0 && maxlen <= 1)
    {
      ghost var stream, was, room := Stream(), usr[..], if maxlen == 0 then 0 else maxlen - 1;
      taken := 0;
      assert Spliced(was, 0, stream[..0]) == was && stream[0..] == stream;
      var n := 1;
      while n < maxlen
        invariant InLine(usr, was, stream, taken, room, false) && fd.output == old(fd.output)
        invariant n - 1 == taken && (n == 1 || n <= maxlen)
      {
        var rc, c;
        rc, c, taken := LineByte(usr, n, was, stream, taken, room);
        if rc == 1 {
          if c == NEWLINE {
            n := n + 1;
            break;
          }
        } else if rc == 0 {
          if n == 1 {
            return 0, false, taken;
          } else {
            break;
          }
        } else {
          return -1, false, taken;
        }
        n := n + 1;
      }
      assert InLine(usr, was, stream, taken, room, true);
      k, store := n - 1, true;
    }

    /** The first `taken` bytes of the stream are in the user's buffer, and the line ends later, or here. */
    ghost predicate InLine(usr: array<Byte>, was: seq<Byte>, stream: seq<Byte>, taken: nat, room: nat, ended: bool)
      reads this, buf, fd, usr
    {
      && Delivered(usr, was, stream, taken) && taken <= room < usr.Length
      && LineLength(stream, room) == if ended then taken else LineEnd(stream, taken, room)
    }

    /** The loop body of rio_readlineb up to its decisions: one byte is read and stored. */
    method LineByte(usr: array<Byte>, n: nat, ghost was: seq<Byte>, ghost stream: seq<Byte>, ghost taken: nat,
                    ghost room: nat)
      returns (rc: int, c: Byte, ghost taken': nat)
      requires InLine(usr, was, stream, taken, room, false) && n - 1 == taken < room
      modifies this, buf, fd, usr
      ensures fd.output == old(fd.output) && ((rc == -1 && !fd.reliable) || rc == 0 || rc == 1)
      ensures taken' == if rc == 1 then taken + 1 else taken
      ensures InLine(usr, was, stream, taken', room, rc == 0 || (rc == 1 && c == NEWLINE))
    {
      rc, c := ReadByte();
      taken' := taken;
      if rc == 1 {
        LineStep(stream, taken, room);
        Deliver(usr, c, n - 1, was, stream[..taken]);
        taken' := taken + 1;
      } else {
        assert rc == 0 ==> |stream| == taken;
      }
    }
  }
}
