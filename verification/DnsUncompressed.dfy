/** When rr_from_wire reads back a record whose owner is not a pointer, although it skips 11 octets in front of the
    name. */
module DnsUncompressed {
  import opened Bytes
  import opened Options
  import opened DnsName
  import opened DnsNameProperties
  import opened DnsRecord

  /** Length octets lead from q exactly to t. */
  predicate HopsTo(w: seq<Byte>, q: nat, t: nat)
    requires t < |w|
    decreases t - q
  {
    q == t || (q < t && 0 < w[q] < COMPRESSED_VAL && q + 1 + w[q] <= t && HopsTo(w, q + 1 + w[q], t))
  }

  /** The text those labels contribute, each with a dot behind it. */
  function Passed(w: seq<Byte>, q: nat, t: nat): seq<Byte>
    requires t < |w| && HopsTo(w, q, t)
    decreases t - q
  {
    if q == t then [] else w[q + 1..q + 1 + w[q]] + [DOT] + Passed(w, q + 1 + w[q], t)
  }

  /** Lengths that lead to a pointer are read like this. */
  lemma {:induction false} WalkHops(w: seq<Byte>, q: nat, t: nat)
    requires t + 1 < |w| && HopsTo(w, q, t) && COMPRESSED_VAL <= w[t] && Ends(w, w[t + 1])
    ensures Ends(w, q) && AfterName(w, q) == t + 2
    ensures Walk(w, q) == Passed(w, q, t) + Walk(w, w[t + 1])
    decreases t - q, 1
  {
    if q < t {
      HopOn(w, q, t);
    } else {
      EndsStep(w, q);
      WalkStep(w, q);
      assert [] + Walk(w, w[t + 1]) == Walk(w, w[t + 1]);
    }
  }

  lemma {:induction false} HopOn(w: seq<Byte>, q: nat, t: nat)
    requires q < t && t + 1 < |w| && HopsTo(w, q, t) && COMPRESSED_VAL <= w[t] && Ends(w, w[t + 1])
    ensures Ends(w, q) && AfterName(w, q) == t + 2
    ensures Walk(w, q) == Passed(w, q, t) + Walk(w, w[t + 1])
    decreases t - q, 0
  {
    var q' := q + 1 + w[q];
    var l := w[q + 1..q'];
    WalkHops(w, q', t);
    WalkLabel(w, q, l);
    Regroup(l + [DOT], Passed(w, q', t), Walk(w, w[t + 1]));
  }

  lemma Regroup(a: seq<Byte>, b: seq<Byte>, c: seq<Byte>)
    ensures a + (b + c) == (a + b) + c
  {
  }

  /** Lengths lead from q to a pointer that ends at e. */
  ghost predicate ToPointer(w: seq<Byte>, q: nat, e: nat) {
    q + 2 <= e <= |w| && HopsTo(w, q, e - 2) && COMPRESSED_VAL <= w[e - 2] && Ends(w, w[e - 1])
  }

  /** A walk ends in a zero octet, with a text that fits in between, or comes to a pointer. */
  lemma {:induction false} ZeroOrPointer(w: seq<Byte>, q: nat)
    requires Ends(w, q)
    ensures q + 1 + |Walk(w, q)| <= AfterName(w, q) || ToPointer(w, q, AfterName(w, q))
    decreases TurnsLeft(w, q)
  {
    WalkStep(w, q);
    if 0 < w[q] < COMPRESSED_VAL {
      WalkTurn(w, q);
      ZeroOrPointer(w, q + 1 + w[q]);
      LabelInFront(w, q);
    }
  }

  lemma LabelInFront(w: seq<Byte>, q: nat)
    requires Ends(w, q) && 0 < w[q] < COMPRESSED_VAL && q + 1 + w[q] < |w| && Ends(w, q + 1 + w[q])
    requires var q' := q + 1 + w[q]; q' + 1 + |Walk(w, q')| <= AfterName(w, q') || ToPointer(w, q', AfterName(w, q'))
    ensures q + 1 + |Walk(w, q)| <= AfterName(w, q) || ToPointer(w, q, AfterName(w, q))
  {
    WalkStep(w, q);
    WalkStep(w, q + 1 + w[q]);
  }

  /** From q lengths lead to t, what stands there reads as a pointer to 0, and the text passed and at 0 spells the
      name. */
  ghost predicate LeadsHome(w: seq<Byte>, q: nat, t: nat, name: seq<Byte>) {
    && t < |w| && HopsTo(w, q, t) && COMPRESSED_VAL <= w[t] && Ends(w, 0)
    && |Passed(w, q, t) + Walk(w, 0)| < BUFFER_MAX && CString(Passed(w, q, t) + Walk(w, 0)) == name
  }

  /**
   The owner at p is n octets long. The 11 octets skipped end in front of lengths that lead to its last octet but the
   zero, and that one reads as a pointer, to offset 0 since a zero follows.
   */
  ghost predicate PointsHome(w: seq<Byte>, p: nat, name: seq<Byte>, n: nat) {
    13 <= n && LeadsHome(w, p + 11, p + n - 2, name)
  }

  /** The name read from q on is this one, and it ends at e. */
  ghost predicate NameRead(w: seq<Byte>, q: nat, e: nat, name: seq<Byte>) {
    Ends(w, q) && |Walk(w, q)| < BUFFER_MAX && CString(Walk(w, q)) == name && AfterName(w, q) == e
  }

  /** A name of this length is not read without coming to a pointer. */
  lemma LongReadMeetsPointer(w: seq<Byte>, q: nat, e: nat, name: seq<Byte>)
    requires e < |name| + q + 1 && NameRead(w, q, e, name)
    ensures ToPointer(w, q, e)
  {
    ZeroOrPointer(w, q);
    assert |CString(Walk(w, q))| <= |Walk(w, q)|;
  }

  lemma PointerLeadsHome(w: seq<Byte>, q: nat, e: nat, name: seq<Byte>)
    requires ToPointer(w, q, e) && w[e - 1] == 0 && NameRead(w, q, e, name)
    ensures LeadsHome(w, q, e - 2, name)
  {
    WalkHops(w, q, e - 2);
  }

  lemma ReadLeadsHome(w: seq<Byte>, q: nat, e: nat, name: seq<Byte>)
    requires 2 <= e <= |w| && w[e - 1] == 0 && e < |name| + q + 1 && NameRead(w, q, e, name)
    ensures q + 2 <= e && LeadsHome(w, q, e - 2, name)
  {
    LongReadMeetsPointer(w, q, e, name);
    PointerLeadsHome(w, q, e, name);
  }

  lemma HomeIsRead(w: seq<Byte>, q: nat, e: nat, name: seq<Byte>)
    requires q + 2 <= e <= |w| && w[e - 1] == 0 && LeadsHome(w, q, e - 2, name)
    ensures NameRead(w, q, e, name)
  {
    WalkHops(w, q, e - 2);
  }

  lemma NameReadIff(w: seq<Byte>, q: nat, e: nat, name: seq<Byte>)
    requires 2 <= e <= |w| && w[e - 1] == 0 && e < |name| + q + 1
    ensures NameRead(w, q, e, name) <==> q + 2 <= e && LeadsHome(w, q, e - 2, name)
  {
    if NameRead(w, q, e, name) {
      ReadLeadsHome(w, q, e, name);
    }
    if q + 2 <= e && LeadsHome(w, q, e - 2, name) {
      HomeIsRead(w, q, e, name);
    }
  }

  /** The record at p, whose owner takes n octets, reads back in full, and the index ends behind it. */
  ghost predicate ReadsBack(w: seq<Byte>, p: nat, rr: RR, n: nat) {
    TryParse(w, p, false)
      == Some((Record(rr.name, rr.rtype, rr.rclass, rr.ttl, rr.rdata), p + n + 10 + |rr.rdata|))
  }

  /** A written record with its owner, n octets long, spelled out. */
  ghost predicate OwnerAt(w: seq<Byte>, p: nat, rr: RR, n: nat) {
    && 1 <= n <= |rr.name| + 2 && n == |NameBytes(rr.name)| && p + n <= |w|
    && w[p] < COMPRESSED_VAL && w[p + n - 1] == 0 && FieldsAt(w, p + n, rr)
  }

  lemma FirstAndLast(w: seq<Byte>, p: nat, bytes: seq<Byte>)
    requires HoldsAt(w, p, bytes) && bytes != []
    ensures p + |bytes| <= |w| && w[p] == bytes[0] && w[p + |bytes| - 1] == bytes[|bytes| - 1]
  {
    assert w[p] == w[p..p + |bytes|][0];
    assert w[p + |bytes| - 1] == w[p..p + |bytes|][|bytes| - 1];
  }

  /** The first octet of an encoded clean name is its first label's length, or the zero octet. */
  lemma CleanNameBytes(ls: seq<seq<Byte>>)
    requires Clean(ls)
    ensures var bytes := NameBytes(Dotted(ls));
      1 <= |bytes| <= |Dotted(ls)| + 2 && bytes[0] < COMPRESSED_VAL && bytes[|bytes| - 1] == 0
  {
    CleanNameLength(ls);
    TokensOfDotted(ls);
    if ls != [] {
      assert CleanLabel(ls[0]);
    }
  }

  /** A spelled-out owner and the fixed fields behind it. */
  lemma OwnerStands(w: seq<Byte>, p: nat, rr: RR, ls: seq<seq<Byte>>, owner: seq<Byte>)
    requires Clean(ls) && rr.name == Dotted(ls) && |rr.rdata| < 0x1_0000 && owner == NameBytes(rr.name)
    requires HoldsAt(w, p, owner) && HoldsAt(w, p + |owner|, FixedBytes(rr))
    ensures OwnerAt(w, p, rr, |owner|)
    ensures owner != [] && w[p] == owner[0]
  {
    CleanNameBytes(ls);
    FirstAndLast(w, p, owner);
    FixedStands(w, p + |owner|, rr);
  }

  /** A written record falls into its owner and its fixed fields. */
  lemma RecordParts(w: seq<Byte>, p: nat, rr: RR, ls: seq<seq<Byte>>, hole: Byte)
    requires Clean(ls) && rr.name == Dotted(ls) && |rr.rdata| < 0x1_0000
    requires HoldsAt(w, p, RrBytes(rr, hole))
    ensures var owner := NameBytes(rr.name); HoldsAt(w, p, owner) && HoldsAt(w, p + |owner|, FixedBytes(rr))
  {
    CleanNameLength(ls);
    RrBytesParts(rr, hole);
    Parts(w, p, NameBytes(rr.name), FixedBytes(rr));
  }

  lemma NameReadReadsBack(w: seq<Byte>, p: nat, rr: RR, n: nat)
    requires p < |w| && w[p] < COMPRESSED_VAL && FieldsAt(w, p + n, rr) && NameRead(w, p + 11, p + n, rr.name)
    ensures ReadsBack(w, p, rr, n)
  {
    RecordFields(w, p, p + 11, p + n, rr);
  }

  /** A parse that gets the data and the end right got the end of the name right. */
  lemma ReadsBackEnds(w: seq<Byte>, p: nat, rr: RR, n: nat)
    requires p < |w| && w[p] < COMPRESSED_VAL && ReadsBack(w, p, rr, n)
    ensures NameRead(w, p + 11, p + n, rr.name)
  {
    assert NameStart(w, p, false) == p + 11;
  }

  lemma ReadsBackIffNameRead(w: seq<Byte>, p: nat, rr: RR, n: nat)
    requires p < |w| && w[p] < COMPRESSED_VAL && FieldsAt(w, p + n, rr)
    ensures ReadsBack(w, p, rr, n) <==> NameRead(w, p + 11, p + n, rr.name)
  {
    if ReadsBack(w, p, rr, n) {
      ReadsBackEnds(w, p, rr, n);
    }
    if NameRead(w, p + 11, p + n, rr.name) {
      NameReadReadsBack(w, p, rr, n);
    }
  }

  lemma ZeroEndedReadIff(w: seq<Byte>, p: nat, name: seq<Byte>, n: nat)
    requires 1 <= n <= |name| + 2 && p + n <= |w| && w[p + n - 1] == 0
    ensures NameRead(w, p + 11, p + n, name) <==> PointsHome(w, p, name, n)
  {
    if p + n >= 2 {
      NameReadIff(w, p + 11, p + n, name);
    } else {
      ShortNameNotRead(w, p + 11, name, p + n);
    }
  }

  lemma OwnerReadsBackIff(w: seq<Byte>, p: nat, rr: RR, n: nat)
    requires OwnerAt(w, p, rr, n)
    ensures ReadsBack(w, p, rr, n) <==> PointsHome(w, p, rr.name, n)
  {
    ReadsBackIffNameRead(w, p, rr, n);
    ZeroEndedReadIff(w, p, rr.name, n);
  }

  lemma ShortNameNotRead(w: seq<Byte>, q: nat, name: seq<Byte>, e: nat)
    requires e <= q
    ensures !NameRead(w, q, e, name)
  {
    if Ends(w, q) {
      ZeroOrPointer(w, q);
    }
  }

  lemma RecordStands(w: seq<Byte>, p: nat, rr: RR, ls: seq<seq<Byte>>, hole: Byte)
    requires Clean(ls) && rr.name == Dotted(ls) && |rr.rdata| < 0x1_0000
    requires HoldsAt(w, p, RrBytes(rr, hole))
    ensures OwnerAt(w, p, rr, |NameBytes(rr.name)|)
  {
    RecordParts(w, p, rr, ls, hole);
    OwnerStands(w, p, rr, ls, NameBytes(rr.name));
  }

  /** The exact condition, for every record with a clean name, wherever rr_to_wire put it. */
  lemma UncompressedReadsBackIff(w: seq<Byte>, p: nat, rr: RR, ls: seq<seq<Byte>>, hole: Byte)
    requires Clean(ls) && rr.name == Dotted(ls) && |rr.rdata| < 0x1_0000
    requires HoldsAt(w, p, RrBytes(rr, hole))
    ensures ReadsBack(w, p, rr, |NameBytes(rr.name)|) <==> PointsHome(w, p, rr.name, |NameBytes(rr.name)|)
  {
    RecordStands(w, p, rr, ls, hole);
    OwnerReadsBackIff(w, p, rr, |NameBytes(rr.name)|);
  }

  /** No octet of the encoded name reads as a pointer; so it is with every name in ASCII. */
  predicate NoPointerOctet(name: seq<Byte>) {
    forall b <- NameBytes(name) :: b < COMPRESSED_VAL
  }

  /** Such an owner, spelled out, never reads back. */
  lemma PlainNeverPointsHome(w: seq<Byte>, p: nat, name: seq<Byte>)
    requires NoPointerOctet(name) && HoldsAt(w, p, NameBytes(name))
    ensures !PointsHome(w, p, name, |NameBytes(name)|)
  {
    var bytes := NameBytes(name);
    if |bytes| >= 2 {
      assert w[p + |bytes| - 2] == w[p..p + |bytes|][|bytes| - 2];
      assert bytes[|bytes| - 2] in bytes;
    }
  }

  lemma PlainOwnerIsMisread(w: seq<Byte>, p: nat, rr: RR, ls: seq<seq<Byte>>, hole: Byte)
    requires Clean(ls) && rr.name == Dotted(ls) && |rr.rdata| < 0x1_0000 && NoPointerOctet(rr.name)
    requires HoldsAt(w, p, RrBytes(rr, hole))
    ensures !ReadsBack(w, p, rr, |NameBytes(rr.name)|)
  {
    RecordStands(w, p, rr, ls, hole);
    RecordParts(w, p, rr, ls, hole);
    PlainOwnerAt(w, p, rr, |NameBytes(rr.name)|);
  }

  // ---------- the three forms of section 4.1.4 of RFC 1035 ----------

  /** The name at o is this one. */
  ghost predicate Spells(w: seq<Byte>, o: nat, name: seq<Byte>) {
    Ends(w, o) && |Walk(w, o)| < BUFFER_MAX && CString(Walk(w, o)) == name
  }

  /** A sequence of labels, a pointer, or labels ending with a pointer to where the rest can be read. */
  ghost predicate OwnerOf(w: seq<Byte>, owner: seq<Byte>, name: seq<Byte>) {
    || owner == NameBytes(name)
    || (|owner| == 2 && COMPRESSED_VAL <= owner[0] && Spells(w, owner[1], name))
    || exists ms :: MixedOwner(w, owner, name, ms)
  }

  /** The labels, and the name the pointer behind them leads to. */
  function Joined(ms: seq<seq<Byte>>, rest: seq<Byte>): seq<Byte> {
    Dotted(ms) + if rest == [] then [] else [DOT] + rest
  }

  ghost predicate MixedOwner(w: seq<Byte>, owner: seq<Byte>, name: seq<Byte>, ms: seq<seq<Byte>>) {
    && ms != [] && Clean(ms)
    && |owner| == |EncodeLabels(ms)| + 2 && owner[..|owner| - 2] == EncodeLabels(ms)
    && COMPRESSED_VAL <= owner[|owner| - 2] && Ends(w, owner[|owner| - 1])
    && name == Joined(ms, CString(Walk(w, owner[|owner| - 1])))
  }

  lemma {:induction false} PassedLength(w: seq<Byte>, q: nat, t: nat)
    requires t < |w| && HopsTo(w, q, t)
    ensures |Passed(w, q, t)| == t - q
    decreases t - q
  {
    if q < t {
      PassedLength(w, q + 1 + w[q], t);
    }
  }

  lemma {:induction false} CStringOfSum(a: seq<Byte>, b: seq<Byte>)
    ensures |CString(a + b)| <= |a| + |CString(b)|
  {
    if a == [] {
      assert a + b == b;
    } else {
      assert (a + b)[1..] == a[1..] + b;
      CStringOfSum(a[1..], b);
    }
  }

  /** What lengths that lead to a pointer add to the name behind it. */
  lemma HopsAddLittle(w: seq<Byte>, q: nat, t: nat)
    requires t + 1 < |w| && HopsTo(w, q, t) && COMPRESSED_VAL <= w[t] && Ends(w, w[t + 1])
    ensures q <= t && Ends(w, q) && |CString(Walk(w, q))| <= t - q + |CString(Walk(w, w[t + 1]))|
  {
    WalkHops(w, q, t);
    PassedLength(w, q, t);
    CStringOfSum(Passed(w, q, t), Walk(w, w[t + 1]));
  }

  /** The name fits in front of e, or in front of a pointer that ends there and leads to the rest. */
  ghost predicate ReadIsShort(w: seq<Byte>, q: nat, e: nat, name: seq<Byte>) {
    || q + 1 + |name| <= e
    || (q + 2 <= e <= |w| && Ends(w, w[e - 1]) && q + 2 + |name| <= e + |CString(Walk(w, w[e - 1]))|)
  }

  lemma PointerReadIsShort(w: seq<Byte>, q: nat, e: nat, name: seq<Byte>)
    requires ToPointer(w, q, e) && NameRead(w, q, e, name)
    ensures ReadIsShort(w, q, e, name)
  {
    HopsAddLittle(w, q, e - 2);
  }

  lemma NameReadIsShort(w: seq<Byte>, q: nat, e: nat, name: seq<Byte>)
    requires NameRead(w, q, e, name)
    ensures ReadIsShort(w, q, e, name)
  {
    if e < |name| + q + 1 {
      LongReadMeetsPointer(w, q, e, name);
      PointerReadIsShort(w, q, e, name);
    }
  }

  /** Labels that end with a pointer take three octets more than their text, and 11 octets are skipped. */
  lemma MixedOwnerLength(w: seq<Byte>, owner: seq<Byte>, name: seq<Byte>, ms: seq<seq<Byte>>)
    requires MixedOwner(w, owner, name, ms)
    ensures 3 <= |owner| && 0 < owner[0] < COMPRESSED_VAL
    ensures |owner| + |CString(Walk(w, owner[|owner| - 1]))| <= |name| + 3
  {
    EncodedLength(ms);
    assert CleanLabel(ms[0]);
    assert owner[0] == owner[..|owner| - 2][0] == EncodeLabels(ms)[0];
  }

  /** Up to e stand n octets, the last of a pointer, and the name has at least n - 3 more than the pointer leads to. */
  ghost predicate NoRoom(w: seq<Byte>, e: nat, name: seq<Byte>, n: nat) {
    && 1 <= e <= |w| && Ends(w, w[e - 1])
    && n + |CString(Walk(w, w[e - 1]))| <= |name| + 3
  }

  lemma MixedOwnerStands(w: seq<Byte>, p: nat, name: seq<Byte>, owner: seq<Byte>, ms: seq<seq<Byte>>)
    requires HoldsAt(w, p, owner) && MixedOwner(w, owner, name, ms)
    ensures |owner| > 0 && p < |w| && w[p] == owner[0] < COMPRESSED_VAL
    ensures NoRoom(w, p + |owner|, name, |owner|)
  {
    MixedOwnerLength(w, owner, name, ms);
    FirstAndLast(w, p, owner);
  }

  lemma NotReadWithoutRoom(w: seq<Byte>, p: nat, name: seq<Byte>, n: nat)
    requires NoRoom(w, p + n, name, n)
    ensures !NameRead(w, p + 11, p + n, name)
  {
    if NameRead(w, p + 11, p + n, name) {
      NameReadIsShort(w, p + 11, p + n, name);
    }
  }

  lemma MisreadWithoutRoom(w: seq<Byte>, p: nat, rr: RR, n: nat)
    requires p < |w| && w[p] < COMPRESSED_VAL && NoRoom(w, p + n, rr.name, n)
    ensures !ReadsBack(w, p, rr, n)
  {
    NotReadWithoutRoom(w, p, rr.name, n);
    if ReadsBack(w, p, rr, n) {
      ReadsBackEnds(w, p, rr, n);
    }
  }

  /** An owner of labels and a pointer never reads back, whatever the octets of the labels. */
  lemma MixedOwnerIsMisread(w: seq<Byte>, p: nat, rr: RR, owner: seq<Byte>, ms: seq<seq<Byte>>)
    requires HoldsAt(w, p, owner) && MixedOwner(w, owner, rr.name, ms)
    ensures owner != [] && owner[0] < COMPRESSED_VAL
    ensures !ReadsBack(w, p, rr, |owner|)
  {
    MixedOwnerStands(w, p, rr.name, owner, ms);
    MisreadWithoutRoom(w, p, rr, |owner|);
  }

  lemma SpelledOutOwner(w: seq<Byte>, p: nat, rr: RR, owner: seq<Byte>)
    requires |rr.rdata| < 0x1_0000 && HoldsAt(w, p, owner) && HoldsAt(w, p + |owner|, FixedBytes(rr))
    requires owner == NameBytes(rr.name)
    requires 1 <= |owner| <= |rr.name| + 2 && owner[0] < COMPRESSED_VAL && owner[|owner| - 1] == 0
    ensures ReadsBack(w, p, rr, |owner|) <==> PointsHome(w, p, rr.name, |owner|)
  {
    FirstAndLast(w, p, owner);
    FixedStands(w, p + |owner|, rr);
    OwnerReadsBackIff(w, p, rr, |owner|);
  }

  lemma PointerReadsBack(w: seq<Byte>, p: nat, rr: RR)
    requires p + 1 < |w| && COMPRESSED_VAL <= w[p] && Spells(w, w[p + 1], rr.name) && FieldsAt(w, p + 2, rr)
    ensures ReadsBack(w, p, rr, 2)
  {
    PointerName(w, p);
    RecordFields(w, p, p, p + 2, rr);
  }

  lemma PointerOwner(w: seq<Byte>, p: nat, rr: RR, owner: seq<Byte>)
    requires |owner| == 2 && COMPRESSED_VAL <= owner[0] && |rr.rdata| < 0x1_0000
    requires HoldsAt(w, p, owner) && HoldsAt(w, p + |owner|, FixedBytes(rr)) && Spells(w, owner[1], rr.name)
    ensures ReadsBack(w, p, rr, |owner|)
  {
    TwoOctets(w, p, owner);
    FixedStands(w, p + 2, rr);
    PointerReadsBack(w, p, rr);
  }

  /** Whatever its owner's form, a record with a clean name reads back exactly when the owner is a pointer alone, or
      written out and pointing home behind the skip. */
  lemma ReadsBackIff(w: seq<Byte>, p: nat, rr: RR, ls: seq<seq<Byte>>, owner: seq<Byte>)
    requires Clean(ls) && rr.name == Dotted(ls) && |rr.rdata| < 0x1_0000
    requires OwnerOf(w, owner, rr.name) && HoldsAt(w, p, owner + FixedBytes(rr))
    ensures owner != []
    ensures ReadsBack(w, p, rr, |owner|)
       <==> COMPRESSED_VAL <= owner[0] || (owner == NameBytes(rr.name) && PointsHome(w, p, rr.name, |owner|))
  {
    Parts(w, p, owner, FixedBytes(rr));
    if owner == NameBytes(rr.name) {
      CleanNameBytes(ls);
      SpelledOutOwner(w, p, rr, owner);
    } else if ms :| MixedOwner(w, owner, rr.name, ms) {
      MixedOwnerIsMisread(w, p, rr, owner, ms);
    } else {
      PointerOwner(w, p, rr, owner);
    }
  }

  /** Without octets in the name that read as pointers only the pointer is left. */
  lemma ReadsBackIffCompressed(w: seq<Byte>, p: nat, rr: RR, ls: seq<seq<Byte>>, owner: seq<Byte>)
    requires Clean(ls) && rr.name == Dotted(ls) && |rr.rdata| < 0x1_0000 && NoPointerOctet(rr.name)
    requires OwnerOf(w, owner, rr.name) && HoldsAt(w, p, owner + FixedBytes(rr))
    ensures owner != []
    ensures ReadsBack(w, p, rr, |owner|) <==> COMPRESSED_VAL <= owner[0]
  {
    ReadsBackIff(w, p, rr, ls, owner);
    if owner == NameBytes(rr.name) {
      Parts(w, p, owner, FixedBytes(rr));
      PlainNeverPointsHome(w, p, rr.name);
    }
  }

  lemma PlainOwnerAt(w: seq<Byte>, p: nat, rr: RR, n: nat)
    requires OwnerAt(w, p, rr, n) && NoPointerOctet(rr.name) && HoldsAt(w, p, NameBytes(rr.name))
    ensures !ReadsBack(w, p, rr, n)
  {
    OwnerReadsBackIff(w, p, rr, n);
    PlainNeverPointsHome(w, p, rr.name);
  }

  /** A record that does read back: at offset 0, one label of eleven octets of which the last reads as a pointer. */
  lemma ElevenOctetOwnerReadsBack(w: seq<Byte>, rr: RR, hole: Byte)
    requires |rr.name| == 11 && CleanLabel(rr.name) && COMPRESSED_VAL <= rr.name[10] && |rr.rdata| < 0x1_0000
    requires HoldsAt(w, 0, RrBytes(rr, hole))
    ensures ReadsBack(w, 0, rr, |NameBytes(rr.name)|)
  {
    var ls := [rr.name];
    assert Dotted(ls) == rr.name;
    RecordParts(w, 0, rr, ls, hole);
    ElevenOctetsPointHome(w, rr.name);
    UncompressedReadsBackIff(w, 0, rr, ls, hole);
  }

  lemma ElevenOctetsPointHome(w: seq<Byte>, name: seq<Byte>)
    requires |name| == 11 && CleanLabel(name) && COMPRESSED_VAL <= name[10] && HoldsAt(w, 0, NameBytes(name))
    ensures PointsHome(w, 0, name, |NameBytes(name)|)
  {
    var ls := [name];
    assert Dotted(ls) == name && Clean(ls);
    CleanDecodes(w, 0, name, ls);
    TokensOfDotted(ls);
    assert ls[1..] == [];
    assert EncodeLabels(ls) == [11] + name;
    var bytes := NameBytes(name);
    assert bytes == [11] + name + [0];
    assert w[11] == w[0..13][11] == bytes[11] == name[10];
    assert [] + Walk(w, 0) == Walk(w, 0);
  }
}
