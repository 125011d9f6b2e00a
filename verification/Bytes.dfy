module Bytes {
  type Byte = x: int | 0 <= x < 256

  /** The buffer after `src` has been copied to offset `at`. */
  function Spliced(w: seq<Byte>, at: nat, src: seq<Byte>): (w': seq<Byte>)
    requires at + |src| <= |w|
    ensures |w'| == |w|
  {
    w[..at] + src + w[at + |src|..]
  }

  lemma SpliceTwice(w: seq<Byte>, at: nat, a: seq<Byte>, b: seq<Byte>)
    requires at + |a| + |b| <= |w|
    ensures Spliced(Spliced(w, at, a), at + |a|, b) == Spliced(w, at, a + b)
  {
    var w1 := Spliced(w, at, a);
    assert w1[..at + |a|] == w[..at] + a;
    assert w1[at + |a| + |b|..] == w[at + |a| + |b|..];
    assert w[..at] + a + b == w[..at] + (a + b);
  }

  /** memcpy. */
  method CopyTo(wire: array<Byte>, at: nat, src: seq<Byte>)
    requires at + |src| <= wire.Length
    modifies wire
    ensures wire[..] == Spliced(old(wire[..]), at, src)
  {
    var i := 0;
    while i < |src|
      invariant 0 <= i <= |src|
      invariant forall k :: 0 <= k < wire.Length ==>
        wire[k] == if at <= k < at + i then src[k - at] else old(wire[k])
    {
      wire[at + i] := src[i];
      i := i + 1;
    }
  }
}
