/** Domain names on the wire, as encoded and decoded by labs/dnsserverlab-handout/dns.c. */
module DnsName {
  import opened Bytes
  import opened Options
  import opened Orbits

  const DOT: Byte := 46
  const COMPRESSED_VAL: Byte := 192
  const BUFFER_MAX: nat := 1024

  // ---------- names as text ----------

  /** How far the leading dot-free run reaches. */
  function Run(name: seq<Byte>): (k: nat)
    ensures k <= |name| && DOT !in name[..k]
    ensures k < |name| ==> name[k] == DOT
  {
    if name == [] || name[0] == DOT then 0 else 1 + Run(name[1..])
  }

  /** The labels strtok finds: the maximal dot-free runs. */
  function Tokens(name: seq<Byte>): seq<seq<Byte>>
    decreases |name|
  {
    if name == [] then []
    else if name[0] == DOT then Tokens(name[1..])
    else [name[..Run(name)]] + Tokens(name[Run(name)..])
  }

  function Dotted(labels: seq<seq<Byte>>): seq<Byte> {
    if labels == [] then []
    else if |labels| == 1 then labels[0]
    else labels[0] + [DOT] + Dotted(labels[1..])
  }

  /** Length octet (cut to a char) then the label, for each label. */
  function EncodeLabels(labels: seq<seq<Byte>>): seq<Byte> {
    if labels == [] then [] else [|labels[0]| % 256] + labels[0] + EncodeLabels(labels[1..])
  }

  function NameBytes(name: seq<Byte>): seq<Byte> {
    EncodeLabels(Tokens(name)) + [0]
  }

  lemma {:induction false} EncodeAppend(ls: seq<seq<Byte>>, l: seq<Byte>)
    ensures EncodeLabels(ls + [l]) == EncodeLabels(ls) + ([|l| % 256] + l)
  {
    if ls == [] {
      assert ls + [l] == [l];
    } else {
      assert (ls + [l])[1..] == ls[1..] + [l];
      EncodeAppend(ls[1..], l);
    }
  }

  /** `done` is the encoding of the part of the name before `rest`. */
  ghost predicate EncodedSoFar(name: seq<Byte>, done: seq<Byte>, rest: seq<Byte>) {
    EncodeLabels(Tokens(name)) == done + EncodeLabels(Tokens(rest))
  }

  lemma EncodeToken(name: seq<Byte>, done: seq<Byte>, rest: seq<Byte>)
    requires EncodedSoFar(name, done, rest) && rest != [] && rest[0] != DOT
    ensures EncodedSoFar(name, done + ([Run(rest) % 256] + rest[..Run(rest)]), rest[Run(rest)..])
    ensures |done| + 1 + Run(rest) <= |EncodeLabels(Tokens(name))|
  {
    var piece, tail := [Run(rest) % 256] + rest[..Run(rest)], EncodeLabels(Tokens(rest[Run(rest)..]));
    EncodeFirstToken(rest);
    assert done + (piece + tail) == done + piece + tail;
  }

  lemma EncodeFirstToken(rest: seq<Byte>)
    requires rest != [] && rest[0] != DOT
    ensures EncodeLabels(Tokens(rest))
         == ([Run(rest) % 256] + rest[..Run(rest)]) + EncodeLabels(Tokens(rest[Run(rest)..]))
  {
    var l, ls := rest[..Run(rest)], Tokens(rest[Run(rest)..]);
    assert Tokens(rest) == [l] + ls;
    assert ([l] + ls)[1..] == ls;
  }

  /** Copy `src` behind what has been written from `at` up to `pos`. */
  method Append(src: seq<Byte>, wire: array<Byte>, pos: nat, ghost before: seq<Byte>, ghost at: nat,
                ghost done: seq<Byte>)
    requires |before| == wire.Length && pos == at + |done| && pos + |src| <= wire.Length
    requires wire[..] == Spliced(before, at, done)
    modifies wire
    ensures wire[..] == Spliced(before, at, done + src)
  {
    CopyTo(wire, pos, src);
    SpliceTwice(before, at, done, src);
  }

  /** Append one label, length octet first. */
  method WriteLabel(token: seq<Byte>, wire: array<Byte>, pos: nat, ghost before: seq<Byte>, ghost at: nat,
                    ghost done: seq<Byte>)
    requires |before| == wire.Length && pos == at + |done| && pos + 1 + |token| <= wire.Length
    requires wire[..] == Spliced(before, at, done)
    modifies wire
    ensures wire[..] == Spliced(before, at, done + ([|token| % 256] + token))
  {
    Append([|token| % 256], wire, pos, before, at, done);
    Append(token, wire, pos + 1, before, at, done + [|token| % 256]);
    assert done + [|token| % 256] + token == done + ([|token| % 256] + token);
  }

  /** The loop body for a label: take it off the text and append it. */
  method WriteToken(ghost name: seq<Byte>, wire: array<Byte>, at: nat, len: nat, rest: seq<Byte>,
                    ghost before: seq<Byte>, ghost done: seq<Byte>)
    returns (len': nat, rest': seq<Byte>, ghost done': seq<Byte>)
    requires len == |done| && EncodedSoFar(name, done, rest) && rest != [] && rest[0] != DOT
    requires |before| == wire.Length && at + |NameBytes(name)| <= wire.Length && wire[..] == Spliced(before, at, done)
    modifies wire
    ensures len' == |done'| && EncodedSoFar(name, done', rest') && |rest'| < |rest|
    ensures at + |done'| <= wire.Length && wire[..] == Spliced(before, at, done')
  {
    EncodeToken(name, done, rest);
    var token;
    token, rest' := NextToken(rest);
    WriteLabel(token, wire, at + len, before, at, done);
    done' := done + ([|token| % 256] + token);
    len' := len + 1 + |token|;
  }

  /** name_ascii_to_wire: tokenise at the dots and lay the labels out one after the other. */
  method NameToWire(name: seq<Byte>, wire: array<Byte>, at: nat) returns (len: nat)
    requires |name| < BUFFER_MAX
    requires at + |NameBytes(name)| <= wire.Length
    modifies wire
    ensures len == |NameBytes(name)|
    ensures wire[..] == Spliced(old(wire[..]), at, NameBytes(name))
  {
    ghost var before := wire[..];
    ghost var done: seq<Byte> := [];
    len := 0;
    var rest := name;
    while rest != []
      invariant len == |done|
      invariant EncodedSoFar(name, done, rest)
      invariant wire[..] == Spliced(before, at, done)
      decreases |rest|
    {
      if rest[0] == DOT {
        rest := rest[1..];
      } else {
        len, rest, done := WriteToken(name, wire, at, len, rest, before, done);
      }
    }
    Append([0], wire, at + len, before, at, done);
    len := len + 1;
  }

  /** One strtok step on text that starts with a label. */
  method NextToken(text: seq<Byte>) returns (token: seq<Byte>, rest: seq<Byte>)
    requires text != [] && text[0] != DOT
    ensures token == text[..Run(text)] && rest == text[Run(text)..]
    ensures 0 < |token|
  {
    var i := 1;
    while i < |text| && text[i] != DOT
      invariant 1 <= i <= |text|
      invariant Run(text) == i + Run(text[i..])
    {
      assert text[i..][1..] == text[i + 1..];
      i := i + 1;
    }
    token, rest := text[..i], text[i..];
  }

  // ---------- walking a name on the wire ----------

  /** Where name_ascii_from_wire goes from a length octet: past the label, or to the offset in the octet after
      a pointer. It stops at a zero octet, and at the end of the buffer. */
  function WalkNext(w: seq<Byte>): Next {
    (p: nat) =>
      if p < |w| && w[p] != 0 then
        if w[p] < COMPRESSED_VAL then Some(p + 1 + w[p])
        else if p + 1 < |w| then Some(w[p + 1])
        else None
      else None
  }

  /** The walk from p comes to a zero octet without leaving the buffer. */
  ghost predicate Ends(w: seq<Byte>, p: nat) {
    Halts(WalkNext(w), p) && StopsAtZero(w, p)
  }

  ghost predicate StopsAtZero(w: seq<Byte>, p: nat)
    requires Halts(WalkNext(w), p)
    decreases Turns(WalkNext(w), p)
  {
    TurnsStep(WalkNext(w), p);
    p < |w| && (w[p] == 0 || (WalkNext(w)(p).Some? && StopsAtZero(w, WalkNext(w)(p).value)))
  }

  lemma EndsStep(w: seq<Byte>, p: nat)
    ensures Ends(w, p) <==> p < |w| && (w[p] == 0 || (WalkNext(w)(p).Some? && Ends(w, WalkNext(w)(p).value)))
  {
    HaltsStep(WalkNext(w), p);
  }

  /** The text name_ascii_from_wire builds: each label, and a dot whenever the octet after it is not zero. */
  ghost function Walk(w: seq<Byte>, p: nat): seq<Byte>
    requires Ends(w, p)
    decreases Turns(WalkNext(w), p)
  {
    TurnsStep(WalkNext(w), p);
    EndsStep(w, p);
    if w[p] == 0 then []
    else
      var q := WalkNext(w)(p).value;
      EndsStep(w, q);
      if w[p] >= COMPRESSED_VAL then Walk(w, q)
      else w[p + 1..q] + (if w[q] != 0 then [DOT] else []) + Walk(w, q)
  }

  /** Just past the zero octet, or past the first pointer if one comes before it. */
  function AfterName(w: seq<Byte>, p: nat): nat
    decreases |w| - p
  {
    if p >= |w| then p
    else if w[p] == 0 then p + 1
    else if w[p] >= COMPRESSED_VAL then p + 2
    else AfterName(w, p + 1 + w[p])
  }

  /** One turn of the walk. */
  lemma WalkStep(w: seq<Byte>, p: nat)
    requires Ends(w, p)
    ensures p < |w|
    ensures w[p] == 0 ==> Walk(w, p) == [] && AfterName(w, p) == p + 1
    ensures w[p] != 0 ==>
      && WalkNext(w)(p).Some? && Ends(w, WalkNext(w)(p).value) && WalkNext(w)(p).value < |w|
      && Turns(WalkNext(w), WalkNext(w)(p).value) < Turns(WalkNext(w), p)
    ensures 0 < w[p] < COMPRESSED_VAL ==>
      && WalkNext(w)(p).value == p + 1 + w[p]
      && Walk(w, p) == w[p + 1..p + 1 + w[p]] + (if w[p + 1 + w[p]] != 0 then [DOT] else []) + Walk(w, p + 1 + w[p])
      && AfterName(w, p) == AfterName(w, p + 1 + w[p])
    ensures COMPRESSED_VAL <= w[p] ==>
      && p + 1 < |w| && WalkNext(w)(p).value == w[p + 1]
      && Walk(w, p) == Walk(w, w[p + 1])
      && AfterName(w, p) == p + 2
  {
    EndsStep(w, p);
    TurnsStep(WalkNext(w), p);
    if w[p] != 0 {
      EndsStep(w, WalkNext(w)(p).value);
    }
  }

  /** The part of the text that a label octet contributes: the label and, before another octet, a dot. */
  function Piece(w: seq<Byte>, p: nat): seq<Byte>
    requires p < |w| && p + 1 + w[p] < |w|
  {
    w[p + 1..p + 1 + w[p]] + (if w[p + 1 + w[p]] != 0 then [DOT] else [])
  }

  ghost function TurnsLeft(w: seq<Byte>, p: nat): nat
    requires Ends(w, p)
  {
    Turns(WalkNext(w), p)
  }

  lemma WalkTurn(w: seq<Byte>, p: nat)
    requires Ends(w, p)
    ensures p < |w|
    ensures 0 < w[p] < COMPRESSED_VAL ==>
      p + 1 + w[p] < |w| && Ends(w, p + 1 + w[p]) && TurnsLeft(w, p + 1 + w[p]) < TurnsLeft(w, p)
    ensures COMPRESSED_VAL <= w[p] ==>
      p + 1 < |w| && w[p + 1] < |w| && Ends(w, w[p + 1]) && TurnsLeft(w, w[p + 1]) < TurnsLeft(w, p)
  {
    WalkStep(w, p);
  }

  /** What remains to be decoded after the text `soFar` when the walk stands at p. */
  ghost predicate Decoding(w: seq<Byte>, start: nat, soFar: seq<Byte>, p: nat) {
    Ends(w, start) && Ends(w, p) && soFar + Walk(w, p) == Walk(w, start)
  }

  /** The state between two turns, `left` of which are to come: `next` moves along with p until the first pointer. */
  ghost predicate Between(w: seq<Byte>, start: nat, soFar: seq<Byte>, p: nat, next: nat, compressed: bool, left: nat) {
    && p < |w| && Decoding(w, start, soFar, p) && left == TurnsLeft(w, p)
    && AfterName(w, start) == (if compressed then next + 1 else AfterName(w, p))
    && (!compressed ==> next == p)
  }

  lemma DecodeLabel(w: seq<Byte>, start: nat, soFar: seq<Byte>, p: nat, next: nat, compressed: bool, left: nat)
    returns (left': nat)
    requires Between(w, start, soFar, p, next, compressed, left) && 0 < w[p] < COMPRESSED_VAL
    ensures p + 1 + w[p] < |w| && left' < left
    ensures Between(w, start, soFar + Piece(w, p), p + 1 + w[p], if compressed then next else next + 1 + w[p],
      compressed, left')
  {
    WalkStep(w, p);
    left' := TurnsLeft(w, p + 1 + w[p]);
    assert soFar + (Piece(w, p) + Walk(w, p + 1 + w[p])) == soFar + Piece(w, p) + Walk(w, p + 1 + w[p]);
  }

  lemma DecodePointer(w: seq<Byte>, start: nat, soFar: seq<Byte>, p: nat, next: nat, compressed: bool, left: nat)
    returns (left': nat)
    requires Between(w, start, soFar, p, next, compressed, left) && COMPRESSED_VAL <= w[p]
    ensures p + 1 < |w| && left' < left
    ensures Between(w, start, soFar, w[p + 1], if compressed then next else next + 1, true, left')
  {
    WalkStep(w, p);
    left' := TurnsLeft(w, w[p + 1]);
  }

  lemma DecodeEnd(w: seq<Byte>, start: nat, soFar: seq<Byte>, p: nat, next: nat, compressed: bool, left: nat)
    requires Between(w, start, soFar, p, next, compressed, left) && w[p] == 0
    ensures soFar == Walk(w, start) && next + 1 == AfterName(w, start)
  {
    WalkStep(w, p);
  }

  /** The else branch of the loop: copy the label at p, then a dot unless the next octet is zero. */
  method AppendLabel(wire: array<Byte>, p: nat, name: seq<Byte>) returns (name': seq<Byte>)
    requires p < wire.Length && p + 1 + wire[p] < wire.Length
    ensures name' == name + Piece(wire[..], p)
  {
    var q := p + 1 + wire[p];
    name' := wire[p + 1..q];
    if wire[q] != 0 {
      name' := name' + [DOT];
    }
    name' := name + name';
  }

  /** One turn of the loop, from the position p of a length octet that is not zero. */
  method DecodeTurn(wire: array<Byte>, index: nat, name: seq<Byte>, p: nat, next: nat, compressed: bool,
                    ghost left: nat)
    returns (name': seq<Byte>, p': nat, next': nat, compressed': bool, ghost left': nat)
    requires Between(wire[..], index, name, p, next, compressed, left) && wire[p] != 0
    ensures Between(wire[..], index, name', p', next', compressed', left') && left' < left
  {
    var labelLen := wire[p];
    name', p', next', compressed' := name, p, next, compressed;
    if labelLen >= COMPRESSED_VAL {
      left' := DecodePointer(wire[..], index, name, p, next, compressed, left);
      p' := p' + 1;
      if !compressed {
        next' := next' + 1;
      }
      p' := wire[p'];
      compressed' := true;
    } else {
      left' := DecodeLabel(wire[..], index, name, p, next, compressed, left);
      if !compressed {
        next' := next' + 1 + labelLen;
      }
      name' := AppendLabel(wire, p, name);
      p' := p' + 1 + labelLen;
    }
  }

  /** name_ascii_from_wire. The C loop runs forever, or out of the buffer, exactly when `Ends` fails. */
  method NameFromWire(wire: array<Byte>, index: nat) returns (name: seq<Byte>, index': nat)
    requires Ends(wire[..], index) && |Walk(wire[..], index)| < BUFFER_MAX
    ensures name == Walk(wire[..], index)
    ensures index' == AfterName(wire[..], index)
  {
    var compressed := false;
    name, index' := [], index;
    WalkStep(wire[..], index);
    var p := index;
    ghost var left := TurnsLeft(wire[..], p);
    var labelLen := wire[p];
    while labelLen != 0
      invariant Between(wire[..], index, name, p, index', compressed, left) && labelLen == wire[p]
      decreases left
    {
      name, p, index', compressed, left := DecodeTurn(wire, index, name, p, index', compressed, left);
      labelLen := wire[p];
    }
    DecodeEnd(wire[..], index, name, p, index', compressed, left);
    index' := index' + 1;
  }
}
