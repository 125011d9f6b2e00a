/** The octets of a request and of the reply to it, as sections 4.1.1 to 4.1.3 of RFC 1035 lay them out. */
module DnsReply {
  import opened Bytes
  import opened DnsName
  import opened DnsNameProperties
  import opened DnsRecord
  import opened DnsRoundTrips
  import opened DnsServer
  import opened DnsServerProperties

  // ---------- numbers on the wire ----------

  /** Two octets, the high one first. */
  ghost predicate TwoBytes(w: seq<Byte>, i: nat, n: int) {
    i + 2 <= |w| && n == 256 * (w[i] as int) + w[i + 1]
  }

  /** Four octets, the highest first. */
  ghost predicate FourBytes(w: seq<Byte>, i: nat, n: int) {
    i + 4 <= |w| && n == 256 * (256 * (256 * (w[i] as int) + w[i + 1]) + w[i + 2]) + w[i + 3]
  }

  /** Type, class, ttl, length and data, octet by octet. */
  ghost predicate Fields(w: seq<Byte>, i: nat, rtype: int, rclass: int, ttl: int, rdata: seq<Byte>) {
    && i + 10 + |rdata| <= |w|
    && TwoBytes(w, i, rtype) && TwoBytes(w, i + 2, rclass) && FourBytes(w, i + 4, ttl) && TwoBytes(w, i + 8, |rdata|)
    && w[i + 10..i + 10 + |rdata|] == rdata
  }

  /** The readers of dns.c read the numbers so. */
  lemma FieldsIff(w: seq<Byte>, i: nat, rr: RR)
    ensures FieldsAt(w, i, rr) <==> Fields(w, i, rr.rtype, rr.rclass, rr.ttl, rr.rdata)
  {
  }

  // ---------- the request ----------

  /** The server takes a request whose first octet of flags has QR and all of the opcode clear, with one question. */
  lemma ValidRequestIff(request: seq<Byte>)
    requires 12 <= |request|
    ensures ValidRequest(request) <==> request[2] < 8 && request[4] == 0 && request[5] == 1
  {
  }

  /** What it takes for the question stands behind the header: the labels, and two numbers. */
  lemma QuestionAsked(request: seq<Byte>, name: seq<Byte>, rtype: U16, rclass: U16)
    requires Normal(name) && ShortLabels(name) && 0 !in name && |name| < BUFFER_MAX
    requires var i := 12 + |NameBytes(name)|;
      HoldsAt(request, 12, NameBytes(name)) && TwoBytes(request, i, rtype) && TwoBytes(request, i + 2, rclass)
    ensures Parsable(request, 12, true) && QuestionOf(request) == Question(name, rtype, rclass)
  {
    QuestionDecodes(request, 12, name, 12 + |NameBytes(name)|);
  }

  // ---------- the reply ----------

  /** How many octets the owner of a record takes; one is left free if the encoding is as long as the text. */
  function OwnerLength(name: seq<Byte>): nat {
    |NameBytes(name)| + if |NameBytes(name)| == |name| then 1 else 0
  }

  function RecordLength(rr: RR): nat {
    OwnerLength(rr.name) + 10 + |rr.rdata|
  }

  /** The entry's record stands at p: its owner, then type, class, the time it has left, and its data. */
  ghost predicate EntryAt(w: seq<Byte>, p: nat, e: Entry, now: int) {
    && HoldsAt(w, p, NameBytes(e.rr.name))
    && Fields(w, p + OwnerLength(e.rr.name), e.rr.rtype, e.rr.rclass, e.expires - now, e.rr.rdata)
  }

  lemma SplitRecord(w: seq<Byte>, p: nat, rr: RR, hole: Byte)
    requires |rr.rdata| < 0x1_0000 && HoldsAt(w, p, RrBytes(rr, hole))
    ensures |RrBytes(rr, hole)| == RecordLength(rr)
    ensures HoldsAt(w, p, NameBytes(rr.name)) && HoldsAt(w, p + OwnerLength(rr.name), FixedBytes(rr))
  {
    RrBytesParts(rr, hole);
    if Skips(rr.name) {
      Parts(w, p, NameBytes(rr.name) + [hole], FixedBytes(rr));
      Parts(w, p, NameBytes(rr.name), [hole]);
    } else {
      Parts(w, p, NameBytes(rr.name), FixedBytes(rr));
    }
  }

  lemma FixedFields(w: seq<Byte>, i: nat, rr: RR)
    requires |rr.rdata| < 0x1_0000 && HoldsAt(w, i, FixedBytes(rr))
    ensures Fields(w, i, rr.rtype, rr.rclass, rr.ttl, rr.rdata)
  {
    FixedStands(w, i, rr);
    FieldsIff(w, i, rr);
  }

  /** A live entry of the chain, as the program sends it. */
  lemma AnswerIs(q: Query, i: nat)
    requires i < |q.db| && GoodEntry(q.db[i], q.now) && q.db[i].expires - q.now > 0
    ensures AnswerRr(q, i) == q.db[i].rr.(ttl := q.db[i].expires - q.now)
  {
  }

  lemma AnswerStands(w: seq<Byte>, p: nat, q: Query, i: nat)
    requires i < |q.db| && GoodEntry(q.db[i], q.now) && q.db[i].expires - q.now > 0
    requires HoldsAt(w, p, RrBytes(AnswerRr(q, i), 0))
    ensures EntryAt(w, p, q.db[i], q.now)
  {
    AnswerIs(q, i);
    SplitRecord(w, p, AnswerRr(q, i), 0);
    FixedFields(w, p + OwnerLength(q.db[i].rr.name), AnswerRr(q, i));
  }

  lemma AnswerLength(q: Query, i: nat)
    requires i < |q.db| && GoodEntry(q.db[i], q.now)
    ensures |RrBytes(AnswerRr(q, i), 0)| == RecordLength(q.db[i].rr)
  {
    RrBytesParts(AnswerRr(q, i), 0);
  }

  ghost predicate AllLive(q: Query, chain: seq<nat>) {
    forall j :: 0 <= j < |chain| ==> chain[j] < |q.db| && q.db[chain[j]].expires - q.now > 0
  }

  /** How many octets the record of each entry used takes. */
  function Lengths(q: Query, chain: seq<nat>): (ls: seq<nat>)
    requires forall j :: 0 <= j < |chain| ==> chain[j] < |q.db|
  {
    seq(|chain|, k requires 0 <= k < |chain| => RecordLength(q.db[chain[k]].rr))
  }

  /** The sum of the first k. */
  function Total(ls: seq<nat>, k: nat): nat
    requires k <= |ls|
  {
    if k == 0 then 0 else Total(ls, k - 1) + ls[k - 1]
  }

  function Concat(pieces: seq<seq<Byte>>): seq<Byte> {
    if pieces == [] then [] else pieces[0] + Concat(pieces[1..])
  }

  ghost predicate LengthsAre(pieces: seq<seq<Byte>>, ls: seq<nat>) {
    |pieces| == |ls| && forall j :: 0 <= j < |ls| ==> LengthIs(pieces, ls, j)
  }

  predicate LengthIs(pieces: seq<seq<Byte>>, ls: seq<nat>, j: nat)
    requires j < |pieces| && j < |ls|
  {
    |pieces[j]| == ls[j]
  }

  /** Pieces of these lengths, one behind the other. */
  lemma {:induction false} ConcatFrom(w: seq<Byte>, p: nat, pieces: seq<seq<Byte>>, ls: seq<nat>, k: nat)
    requires LengthsAre(pieces, ls) && k <= |ls|
    requires HoldsAt(w, p, Concat(pieces))
    ensures HoldsAt(w, p + Total(ls, k), Concat(pieces[k..]))
    ensures |Concat(pieces)| == Total(ls, k) + |Concat(pieces[k..])|
  {
    if k == 0 {
      assert pieces[0..] == pieces;
    } else {
      ConcatFrom(w, p, pieces, ls, k - 1);
      ConcatSplit(pieces, k - 1);
      assert LengthIs(pieces, ls, k - 1);
      Parts(w, p + Total(ls, k - 1), pieces[k - 1], Concat(pieces[k..]));
    }
  }

  lemma ConcatSplit(pieces: seq<seq<Byte>>, k: nat)
    requires k < |pieces|
    ensures Concat(pieces[k..]) == pieces[k] + Concat(pieces[k + 1..])
  {
    assert pieces[k..][1..] == pieces[k + 1..];
  }

  lemma PieceAt(w: seq<Byte>, p: nat, pieces: seq<seq<Byte>>, ls: seq<nat>, k: nat)
    requires LengthsAre(pieces, ls) && k < |ls|
    requires HoldsAt(w, p, Concat(pieces))
    ensures HoldsAt(w, p + Total(ls, k), pieces[k]) && |Concat(pieces)| == Total(ls, |ls|)
  {
    ConcatFrom(w, p, pieces, ls, |ls|);
    ConcatFrom(w, p, pieces, ls, k);
    ConcatSplit(pieces, k);
    Parts(w, p + Total(ls, k), pieces[k], Concat(pieces[k + 1..]));
  }

  ghost function Pieces(q: Query, chain: seq<nat>): seq<seq<Byte>>
    requires Sendable(q, chain)
  {
    seq(|chain|, k requires 0 <= k < |chain| => RrBytes(AnswerRr(q, chain[k]), 0))
  }

  lemma {:induction false} AnswersArePieces(q: Query, chain: seq<nat>)
    requires Sendable(q, chain)
    ensures AnswerBytes(q, chain) == Concat(Pieces(q, chain))
  {
    if chain != [] {
      assert Sendable(q, chain[1..]);
      AnswersArePieces(q, chain[1..]);
      assert Pieces(q, chain)[1..] == Pieces(q, chain[1..]);
    }
  }

  lemma PieceLengths(q: Query, chain: seq<nat>)
    requires Sendable(q, chain)
    ensures LengthsAre(Pieces(q, chain), Lengths(q, chain))
  {
    var pieces, ls := Pieces(q, chain), Lengths(q, chain);
    forall j | 0 <= j < |chain| ensures LengthIs(pieces, ls, j) {
      AnswerLength(q, chain[j]);
    }
  }

  /** Record k of these answers, which start at p and end at `end`. */
  ghost predicate AnswerIn(w: seq<Byte>, p: nat, end: nat, q: Query, chain: seq<nat>, k: nat) {
    && AllLive(q, chain) && k < |chain|
    && EntryAt(w, p + Total(Lengths(q, chain), k), q.db[chain[k]], q.now)
    && end == p + Total(Lengths(q, chain), |chain|)
  }

  lemma AnswerPlace(w: seq<Byte>, p: nat, q: Query, chain: seq<nat>, k: nat)
    requires Sendable(q, chain) && k < |chain| && HoldsAt(w, p, AnswerBytes(q, chain))
    ensures HoldsAt(w, p + Total(Lengths(q, chain), k), RrBytes(AnswerRr(q, chain[k]), 0))
    ensures |AnswerBytes(q, chain)| == Total(Lengths(q, chain), |chain|)
  {
    AnswersArePieces(q, chain);
    PieceLengths(q, chain);
    PieceAt(w, p, Pieces(q, chain), Lengths(q, chain), k);
  }

  /** Answer k stands behind those before it, and the last ends the answers. */
  lemma AnswerAt(w: seq<Byte>, p: nat, q: Query, chain: seq<nat>, k: nat)
    requires Sendable(q, chain) && AllLive(q, chain) && k < |chain| && HoldsAt(w, p, AnswerBytes(q, chain))
    ensures AnswerIn(w, p, p + |AnswerBytes(q, chain)|, q, chain, k)
  {
    AnswerPlace(w, p, q, chain, k);
    EntryAtPlace(w, p + Total(Lengths(q, chain), k), q, chain, k);
  }

  lemma EntryAtPlace(w: seq<Byte>, p: nat, q: Query, chain: seq<nat>, k: nat)
    requires Sendable(q, chain) && AllLive(q, chain) && k < |chain|
    requires HoldsAt(w, p, RrBytes(AnswerRr(q, chain[k]), 0))
    ensures EntryAt(w, p, q.db[chain[k]], q.now)
  {
    AnswerStands(w, p, q, chain[k]);
  }

  lemma ChainIsLive(request: seq<Byte>, db: seq<Entry>, now: int)
    requires Answerable(request, db, now)
    ensures AllLive(Query(db, QuestionOf(request).rtype, now), ChainOf(request, db, now))
  {
    var question := QuestionOf(request);
    var q := Query(db, question.rtype, now);
    AnswersFormAliasChain(q, question.name);
    var chain := Answers(q, question.name);
    forall j | 0 <= j < |chain| ensures chain[j] < |db| && db[chain[j]].expires - now > 0 {
      assert Live(q, chain[j]);
    }
  }

  /** Where the records of a reply start: behind the header and the question. */
  ghost function RecordsStart(request: seq<Byte>): nat
    requires Parsable(request, 12, true)
  {
    12 + |NameBytes(QuestionOf(request).name)| + 4
  }

  lemma AnswersHold(request: seq<Byte>, db: seq<Entry>, now: int, w: seq<Byte>)
    requires Answerable(request, db, now) && HoldsAt(w, 0, Response(request, db, now))
    ensures var q, chain := Query(db, QuestionOf(request).rtype, now), ChainOf(request, db, now);
      && HoldsAt(w, RecordsStart(request), AnswerBytes(q, chain))
      && |Response(request, db, now)| == RecordsStart(request) + |AnswerBytes(q, chain)|
  {
    ReplyLayout(request, db, now, w);
  }

  /** What a client finds there: the entries used, one behind the other, complete and live, each with the time it has
      left; and the reply ends behind the last of them. */
  lemma ReplyRecord(request: seq<Byte>, db: seq<Entry>, now: int, w: seq<Byte>, k: nat)
    requires Answerable(request, db, now) && HoldsAt(w, 0, Response(request, db, now))
    requires k < |ChainOf(request, db, now)|
    ensures AnswerIn(w, RecordsStart(request), |Response(request, db, now)|,
                     Query(db, QuestionOf(request).rtype, now), ChainOf(request, db, now), k)
  {
    AnswersHold(request, db, now, w);
    ChainIsLive(request, db, now);
    AnswerAt(w, RecordsStart(request), Query(db, QuestionOf(request).rtype, now), ChainOf(request, db, now), k);
  }
}
