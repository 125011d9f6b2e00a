/** Resource records on the wire: rr_to_wire and rr_from_wire of labs/dnsserverlab-handout/dns.c. */
module DnsRecord {
  import opened Bytes
  import opened Options
  import opened DnsName
  import opened DnsNameProperties

  type U16 = x: int | 0 <= x < 0x1_0000
  type U32 = x: int | 0 <= x < 0x1_0000_0000

  /** A dns_rr whose rdata buffer holds rdata_len octets; the name is a C string. */
  datatype RR = RR(name: seq<Byte>, rtype: U16, rclass: U16, ttl: U32, rdata: seq<Byte>)

  /** What rr_from_wire fills in: with query_only set it leaves ttl and rdata alone. */
  datatype Parsed =
    | Question(name: seq<Byte>, rtype: U16, rclass: U16)
    | Record(name: seq<Byte>, rtype: U16, rclass: U16, ttl: U32, rdata: seq<Byte>)

  function Put16(n: U16): seq<Byte> { [n / 256, n % 256] }

  function Put32(n: U32): seq<Byte> { Put16(n / 0x1_0000) + Put16(n % 0x1_0000) }

  function Get16(w: seq<Byte>, i: nat): U16
    requires i + 2 <= |w|
  {
    (w[i] as int) * 256 + w[i + 1]
  }

  function Get32(w: seq<Byte>, i: nat): U32
    requires i + 4 <= |w|
  {
    (Get16(w, i) as int) * 0x1_0000 + Get16(w, i + 2)
  }

  /** A char array as a C string: what precedes its first zero. */
  function CString(s: seq<Byte>): (c: seq<Byte>)
    ensures 0 !in c && c <= s
    ensures 0 !in s ==> c == s
  {
    if s == [] || s[0] == 0 then [] else [s[0]] + CString(s[1..])
  }

  /** Type, class, ttl, length and data. */
  function FixedBytes(rr: RR): seq<Byte>
    requires |rr.rdata| < 0x1_0000
  {
    Put16(rr.rtype) + Put16(rr.rclass) + Put32(rr.ttl) + Put16(|rr.rdata|) + rr.rdata
  }

  /** One octet is skipped when the encoded name happens to be as long as the text (two superfluous dots). */
  predicate Skips(name: seq<Byte>) {
    |NameBytes(name)| == |name|
  }

  /** The octets rr_to_wire accounts for; `hole` is what the skipped octet held before. */
  function RrBytes(rr: RR, hole: Byte): seq<Byte>
    requires |rr.rdata| < 0x1_0000
  {
    NameBytes(rr.name) + (if Skips(rr.name) then [hole] else []) + FixedBytes(rr)
  }

  lemma RrBytesParts(rr: RR, hole: Byte)
    requires |rr.rdata| < 0x1_0000
    ensures RrBytes(rr, hole)
         == (if Skips(rr.name) then NameBytes(rr.name) + [hole] else NameBytes(rr.name)) + FixedBytes(rr)
    ensures |FixedBytes(rr)| == 10 + |rr.rdata|
    ensures |RrBytes(rr, hole)| == |RrBytes(rr, 0)|
         == |NameBytes(rr.name)| + (if Skips(rr.name) then 1 else 0) + 10 + |rr.rdata|
  {
    if !Skips(rr.name) {
      assert NameBytes(rr.name) + [] == NameBytes(rr.name);
    }
  }

  method RrToWire(rr: RR, wire: array<Byte>, at: nat) returns (len: nat)
    requires |rr.name| < BUFFER_MAX && |rr.rdata| < 0x1_0000
    requires at + |RrBytes(rr, 0)| <= wire.Length
    modifies wire
    ensures len == |RrBytes(rr, 0)|
    ensures at + |NameBytes(rr.name)| < wire.Length
    ensures wire[..] == Spliced(old(wire[..]), at, RrBytes(rr, old(wire[at + |NameBytes(rr.name)|])))
  {
    ghost var before := wire[..];
    RrBytesParts(rr, 0);
    ghost var done := NameBytes(rr.name);
    RrBytesParts(rr, before[at + |done|]);
    len := NameToWire(rr.name, wire, at);
    if len == |rr.name| {
      SpliceSame(before, at, done);
      done := done + [before[at + len]];
      len := len + 1;
    }
    FixedToWire(rr, wire, at + len, before, at, done);
    len := len + 10 + |rr.rdata|;
  }

  method FixedToWire(rr: RR, wire: array<Byte>, pos: nat, ghost before: seq<Byte>, ghost at: nat, ghost done: seq<Byte>)
    requires |rr.rdata| < 0x1_0000
    requires |before| == wire.Length && pos == at + |done| && pos + 10 + |rr.rdata| <= wire.Length
    requires wire[..] == Spliced(before, at, done)
    modifies wire
    ensures wire[..] == Spliced(before, at, done + FixedBytes(rr))
  {
    Append(Put16(rr.rtype), wire, pos, before, at, done);
    ghost var done1 := done + Put16(rr.rtype);
    Append(Put16(rr.rclass), wire, pos + 2, before, at, done1);
    ghost var done2 := done1 + Put16(rr.rclass);
    Append(Put32(rr.ttl), wire, pos + 4, before, at, done2);
    ghost var done3 := done2 + Put32(rr.ttl);
    Append(Put16(|rr.rdata|), wire, pos + 8, before, at, done3);
    Append(rr.rdata, wire, pos + 10, before, at, done3 + Put16(|rr.rdata|));
    assert done3 + Put16(|rr.rdata|) + rr.rdata == done + FixedBytes(rr);
  }

  /** Leaving an octet alone is the same as writing back what it holds. */
  lemma SpliceSame(w: seq<Byte>, at: nat, src: seq<Byte>)
    requires at + |src| < |w|
    ensures Spliced(w, at, src) == Spliced(w, at, src + [w[at + |src|]])
  {
  }

  /** Where the name is looked for: 11 octets later for a full record that does not start with a pointer. */
  function NameStart(w: seq<Byte>, index: nat, queryOnly: bool): nat
    requires index < |w|
  {
    if w[index] < COMPRESSED_VAL && !queryOnly then index + 11 else index
  }

  /** rr_from_wire stays inside the buffer. */
  ghost predicate Parsable(w: seq<Byte>, index: nat, queryOnly: bool) {
    && index < |w|
    && var start := NameStart(w, index, queryOnly);
    && Ends(w, start) && |Walk(w, start)| < BUFFER_MAX
    && var i := AfterName(w, start);
    && if queryOnly then i + 4 <= |w|
       else i + 10 <= |w| && i + 10 + Get16(w, i + 8) <= |w|
  }

  /** The fields after the name, which ends at i. */
  function ParseFields(w: seq<Byte>, i: nat, name: seq<Byte>, queryOnly: bool): (Parsed, nat)
    requires if queryOnly then i + 4 <= |w| else i + 10 <= |w| && i + 10 + Get16(w, i + 8) <= |w|
  {
    if queryOnly then (Question(name, Get16(w, i), Get16(w, i + 2)), i + 4)
    else
      var len := Get16(w, i + 8);
      (Record(name, Get16(w, i), Get16(w, i + 2), Get32(w, i + 4), w[i + 10..i + 10 + len]), i + 10 + len)
  }

  ghost function Parse(w: seq<Byte>, index: nat, queryOnly: bool): (Parsed, nat)
    requires Parsable(w, index, queryOnly)
  {
    var start := NameStart(w, index, queryOnly);
    ParseFields(w, AfterName(w, start), CString(Walk(w, start)), queryOnly)
  }

  /** The same for any buffer; None when rr_from_wire would not stay inside it. */
  ghost function TryParse(w: seq<Byte>, index: nat, queryOnly: bool): Option<(Parsed, nat)> {
    if Parsable(w, index, queryOnly) then Some(Parse(w, index, queryOnly)) else None
  }

  method Read16(wire: array<Byte>, i: nat) returns (n: U16)
    requires i + 2 <= wire.Length
    ensures n == Get16(wire[..], i)
  {
    n := (wire[i] as int) * 256 + wire[i + 1];
  }

  method Read32(wire: array<Byte>, i: nat) returns (n: U32)
    requires i + 4 <= wire.Length
    ensures n == Get32(wire[..], i)
  {
    var hi := Read16(wire, i);
    var lo := Read16(wire, i + 2);
    n := (hi as int) * 0x1_0000 + lo;
  }

  method RrFromWire(wire: array<Byte>, index: nat, queryOnly: bool) returns (rr: Parsed, index': nat)
    requires Parsable(wire[..], index, queryOnly)
    ensures (rr, index') == Parse(wire[..], index, queryOnly)
  {
    index' := index;
    if wire[index] < COMPRESSED_VAL && !queryOnly {
      index' := index' + 11;
    }
    var text: seq<Byte>;
    text, index' := NameFromWire(wire, index');
    rr, index' := FieldsFromWire(wire, wire[..], index', CString(text), queryOnly);
  }

  /** The part of rr_from_wire after the name. */
  method FieldsFromWire(wire: array<Byte>, ghost w: seq<Byte>, i: nat, name: seq<Byte>, queryOnly: bool)
    returns (rr: Parsed, i': nat)
    requires w == wire[..]
    requires if queryOnly then i + 4 <= |w| else i + 10 <= |w| && i + 10 + Get16(w, i + 8) <= |w|
    ensures (rr, i') == ParseFields(w, i, name, queryOnly)
  {
    i' := i;
    var rtype := Read16(wire, i');
    i' := i' + 2;
    var rclass := Read16(wire, i');
    i' := i' + 2;
    if queryOnly {
      rr := Question(name, rtype, rclass);
    } else {
      var ttl := Read32(wire, i');
      i' := i' + 4;
      var len := Read16(wire, i');
      i' := i' + 2;
      rr := Record(name, rtype, rclass, ttl, wire[i'..i' + len]);
      i' := i' + len;
    }
  }

  // ---------- round trips ----------

  /** The ten fixed octets and the data read back as written. */
  lemma FixedRoundTrip(w: seq<Byte>, i: nat, rr: RR)
    requires |rr.rdata| < 0x1_0000
    requires HoldsAt(w, i, FixedBytes(rr))
    ensures Get16(w, i) == rr.rtype && Get16(w, i + 2) == rr.rclass && Get32(w, i + 4) == rr.ttl
    ensures Get16(w, i + 8) == |rr.rdata| && w[i + 10..i + 10 + |rr.rdata|] == rr.rdata
  {
    var f := FixedBytes(rr);
    var g := w[i..i + |f|];
    assert forall k :: 0 <= k < |f| ==> g[k] == w[i + k];
    assert f[..10] == Put16(rr.rtype) + Put16(rr.rclass) + Put32(rr.ttl) + Put16(|rr.rdata|);
    assert f[0] == rr.rtype / 256 && f[1] == rr.rtype % 256 && f[2] == rr.rclass / 256 && f[3] == rr.rclass % 256;
    assert f[4] == rr.ttl / 0x1_0000 / 256 && f[5] == rr.ttl / 0x1_0000 % 256;
    assert f[6] == rr.ttl % 0x1_0000 / 256 && f[7] == rr.ttl % 0x1_0000 % 256;
    assert f[8] == |rr.rdata| / 256 && f[9] == |rr.rdata| % 256;
    assert f[10..] == rr.rdata;
    assert w[i + 10..i + 10 + |rr.rdata|] == f[10..];
  }

  lemma CleanDecodes(w: seq<Byte>, p: nat, name: seq<Byte>, ls: seq<seq<Byte>>)
    requires Clean(ls) && name == Dotted(ls) && HoldsAt(w, p, NameBytes(name))
    ensures Ends(w, p) && Walk(w, p) == name && AfterName(w, p) == p + |NameBytes(name)| && 0 !in name
  {
    TokensOfDotted(ls);
    DecodeAt(w, p, name);
    CleanHasNoZero(ls);
  }

  lemma QuestionFields(w: seq<Byte>, p: nat, name: seq<Byte>, i: nat, rtype: U16, rclass: U16)
    requires Ends(w, p) && Walk(w, p) == name && AfterName(w, p) == i && 0 !in name
    requires |name| < BUFFER_MAX && i + 4 <= |w|
    requires rtype == Get16(w, i) && rclass == Get16(w, i + 2)
    ensures TryParse(w, p, true) == Some((Question(name, rtype, rclass), i + 4))
  {
    EndsStep(w, p);
  }

  lemma Get16At(w: seq<Byte>, i: nat, n: U16)
    requires HoldsAt(w, i, Put16(n))
    ensures Get16(w, i) == n
  {
    assert w[i] == w[i..i + 2][0] && w[i + 1] == w[i..i + 2][1];
  }

  /** A clean name takes two octets more on the wire than as text, so rr_to_wire never skips one for it. */
  lemma {:induction false} CleanNameLength(ls: seq<seq<Byte>>)
    requires Clean(ls)
    ensures |NameBytes(Dotted(ls))| == if ls == [] then 1 else |Dotted(ls)| + 2
    ensures !Skips(Dotted(ls))
  {
    TokensOfDotted(ls);
    EncodedLength(ls);
  }

  lemma {:induction false} EncodedLength(ls: seq<seq<Byte>>)
    ensures |EncodeLabels(ls)| == if ls == [] then 0 else |Dotted(ls)| + 1
  {
    if ls != [] {
      EncodedLength(ls[1..]);
    }
  }

  lemma {:induction false} CleanHasNoZero(ls: seq<seq<Byte>>)
    requires Clean(ls)
    ensures 0 !in Dotted(ls)
  {
    if |ls| > 1 {
      CleanHasNoZero(ls[1..]);
    } else if |ls| == 1 {
      assert CleanLabel(ls[0]);
    }
  }

  /** Record mode behind a compressed owner: wherever the pointer and the fixed part stand, every field reads back
      and the index ends just past the data. */
  lemma RecordRoundTrip(w: seq<Byte>, p: nat, pointer: seq<Byte>, rr: RR)
    requires |pointer| == 2 && COMPRESSED_VAL <= pointer[0] && |rr.rdata| < 0x1_0000
    requires HoldsAt(w, p, pointer) && HoldsAt(w, p + 2, FixedBytes(rr))
    requires Ends(w, pointer[1]) && |Walk(w, pointer[1])| < BUFFER_MAX && rr.name == CString(Walk(w, pointer[1]))
    ensures TryParse(w, p, false)
         == Some((Record(rr.name, rr.rtype, rr.rclass, rr.ttl, rr.rdata), p + 12 + |rr.rdata|))
  {
    TwoOctets(w, p, pointer);
    PointerName(w, p);
    FixedStands(w, p + 2, rr);
    RecordFields(w, p, p, p + 2, rr);
  }

  lemma TwoOctets(w: seq<Byte>, p: nat, pair: seq<Byte>)
    requires |pair| == 2 && HoldsAt(w, p, pair)
    ensures p + 1 < |w| && w[p] == pair[0] && w[p + 1] == pair[1]
  {
    assert w[p] == w[p..p + 2][0] && w[p + 1] == w[p..p + 2][1];
  }

  /** A name that is a pointer. */
  lemma PointerName(w: seq<Byte>, p: nat)
    requires p + 1 < |w| && COMPRESSED_VAL <= w[p] && Ends(w, w[p + 1])
    ensures Ends(w, p) && Walk(w, p) == Walk(w, w[p + 1]) && AfterName(w, p) == p + 2
  {
    EndsStep(w, p);
    WalkStep(w, p);
  }

  /** The fields behind a name that ends at i. */
  ghost predicate FieldsAt(w: seq<Byte>, i: nat, rr: RR) {
    && i + 10 + |rr.rdata| <= |w|
    && Get16(w, i) == rr.rtype && Get16(w, i + 2) == rr.rclass && Get32(w, i + 4) == rr.ttl
    && Get16(w, i + 8) == |rr.rdata| && w[i + 10..i + 10 + |rr.rdata|] == rr.rdata
  }

  lemma FixedStands(w: seq<Byte>, i: nat, rr: RR)
    requires |rr.rdata| < 0x1_0000 && HoldsAt(w, i, FixedBytes(rr))
    ensures FieldsAt(w, i, rr)
  {
    FixedRoundTrip(w, i, rr);
    RrBytesParts(rr, 0);
  }

  lemma FieldsParse(w: seq<Byte>, i: nat, name: seq<Byte>, rr: RR)
    requires FieldsAt(w, i, rr)
    ensures ParseFields(w, i, name, false)
         == (Record(name, rr.rtype, rr.rclass, rr.ttl, rr.rdata), i + 10 + |rr.rdata|)
  {
  }

  /** A record at p whose name is read from q to i, with these fields behind it. */
  lemma RecordFields(w: seq<Byte>, p: nat, q: nat, i: nat, rr: RR)
    requires p < |w| && q == NameStart(w, p, false) && FieldsAt(w, i, rr)
    requires Ends(w, q) && |Walk(w, q)| < BUFFER_MAX && CString(Walk(w, q)) == rr.name && AfterName(w, q) == i
    ensures TryParse(w, p, false)
         == Some((Record(rr.name, rr.rtype, rr.rclass, rr.ttl, rr.rdata), i + 10 + |rr.rdata|))
  {
    FieldsParse(w, i, rr.name, rr);
  }

  /** A record that rr_to_wire wrote with its owner spelled out and that is not read back: the reader skips 11
      octets. */
  lemma UncompressedOwnerIsMisread()
    ensures var rr := RR([97], 1, 1, 30, [192, 0, 2, 1]); var w := RrBytes(rr, 0) + seq(16, _ => 0);
      && TryParse(w, 0, false).Some?
      && TryParse(w, 0, false).value.0.name != rr.name && TryParse(w, 0, false).value.1 != |RrBytes(rr, 0)|
  {
    var rr := RR([97], 1, 1, 30, [192, 0, 2, 1]);
    OneLetterName(97);
    RrBytesParts(rr, 0);
    assert FixedBytes(rr) == [0, 1, 0, 1, 0, 0, 0, 30, 0, 4, 192, 0, 2, 1];
    assert RrBytes(rr, 0) == [1, 97, 0, 0, 1, 0, 1, 0, 0, 0, 30, 0, 4, 192, 0, 2, 1];
    EmptyNameIsRead(RrBytes(rr, 0) + seq(16, _ => 0));
  }

  /** A record at 0 with a zero octet at 11, where a name is looked for, and no data behind it. */
  lemma EmptyNameIsRead(w: seq<Byte>)
    requires 22 <= |w| && w[0] < COMPRESSED_VAL && w[11] == 0 && w[20] == 0 && w[21] == 0
    ensures TryParse(w, 0, false).Some?
    ensures TryParse(w, 0, false).value.0.name == [] && TryParse(w, 0, false).value.1 == 22
  {
    EmptyNameAt(w, 11);
    assert Get16(w, 20) == 0;
  }

  lemma OneLetterName(letter: Byte)
    requires letter != 0 && letter != DOT
    ensures NameBytes([letter]) == [1, letter, 0]
  {
    var ls: seq<seq<Byte>> := [[letter]];
    assert Dotted(ls) == [letter];
    TokensOfDotted(ls);
    assert ls[1..] == [];
    assert EncodeLabels(ls) == [1, letter];
  }

  lemma EmptyNameAt(w: seq<Byte>, p: nat)
    requires p < |w| && w[p] == 0
    ensures Ends(w, p) && Walk(w, p) == [] && AfterName(w, p) == p + 1
  {
    EndsStep(w, p);
    WalkStep(w, p);
  }
}
