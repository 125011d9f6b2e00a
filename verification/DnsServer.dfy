/** The answering half of labs/dnsserverlab-handout/server.c: validity check, alias-chasing lookup and the response
    built in place. */
module DnsServer {
  import opened Bytes
  import opened Options
  import opened Orbits
  import opened DnsName
  import opened DnsRecord

  const TYPE_A: U16 := 1
  const CNAME: U16 := 5
  const MAX_ENTRIES: nat := 1024

  datatype Entry = Entry(rr: RR, expires: int)

  /** One request's view of the world: the used cache entries, the type asked for, the time. */
  datatype Query = Query(db: seq<Entry>, qtype: U16, now: int)

  function Zeros(n: nat): seq<Byte> { seq(n, _ => 0) }

  // ---------- lookup ----------

  predicate Matches(q: Query, e: Entry, name: seq<Byte>) {
    e.rr.name == name && e.expires - q.now > 0 && (e.rr.rtype == q.qtype || e.rr.rtype == CNAME)
  }

  /** The first entry at or after `from` that the scan would act on. */
  function FirstMatch(q: Query, name: seq<Byte>, from: nat): (r: Option<nat>)
    ensures r.Some? ==> from <= r.value < |q.db|
    decreases |q.db| - from
  {
    if from >= |q.db| then None
    else if Matches(q, q.db[from], name) then Some(from)
    else FirstMatch(q, name, from + 1)
  }

  lemma {:induction false} FirstMatchIsFirst(q: Query, name: seq<Byte>, from: nat)
    ensures var r := FirstMatch(q, name, from);
      if r.Some? then Matches(q, q.db[r.value], name) && forall i :: from <= i < r.value ==> !Matches(q, q.db[i], name)
      else forall i :: from <= i < |q.db| ==> !Matches(q, q.db[i], name)
    decreases |q.db| - from
  {
    if from < |q.db| && !Matches(q, q.db[from], name) {
      FirstMatchIsFirst(q, name, from + 1);
    }
  }

  ghost predicate IsAlias(q: Query, i: nat) {
    i < |q.db| && q.db[i].rr.rtype == CNAME && q.qtype != CNAME
  }

  /** The buffer that holds an alias's data: init_db clears all of it first, so zeros follow the rdata_len octets. */
  function AliasData(e: Entry): (w: seq<Byte>) {
    e.rr.rdata + Zeros(if |e.rr.rdata| < BUFFER_MAX then BUFFER_MAX - |e.rr.rdata| else 0)
  }

  /** Decoding an alias's data comes to an end, inside the buffer. */
  ghost predicate Decodes(e: Entry) {
    Ends(AliasData(e), 0)
  }

  /** What a CNAME entry points to. */
  ghost function Target(e: Entry): seq<Byte>
    requires Decodes(e)
  {
    CString(Walk(AliasData(e), 0))
  }

  /**
   After using alias i the scan restarts; the loop's own increment makes it restart at entry 1. An alias that does not
   decode is never left: the program stays in name_ascii_from_wire for ever, or runs out of the buffer.
   */
  ghost function CodeNext(q: Query): Next {
    (i: nat) =>
      if !IsAlias(q, i) then None
      else if Decodes(q.db[i]) then FirstMatch(q, Target(q.db[i]), 1)
      else Some(i)
  }

  /** A lookup that ends decodes every alias it uses. */
  lemma HaltingDecodes(q: Query, i: nat)
    requires Halts(CodeNext(q), i) && IsAlias(q, i)
    ensures Decodes(q.db[i])
  {
    TurnsStep(CodeNext(q), i);
  }

  /** The entries used to answer a question, in order. */
  ghost function ChainFrom(q: Query, first: Option<nat>): seq<nat>
    requires first.Some? ==> Halts(CodeNext(q), first.value)
  {
    match first
    case None => []
    case Some(i) => Path(CodeNext(q), i)
  }

  /** The scan for this name comes to an end. */
  ghost predicate LookupEnds(q: Query, name: seq<Byte>) {
    FirstMatch(q, name, 0).Some? ==> Halts(CodeNext(q), FirstMatch(q, name, 0).value)
  }

  ghost function Answers(q: Query, name: seq<Byte>): seq<nat>
    requires LookupEnds(q, name)
  {
    ChainFrom(q, FirstMatch(q, name, 0))
  }

  ghost predicate Found(q: Query, chain: seq<nat>) {
    chain != [] && chain[|chain| - 1] < |q.db| && q.db[chain[|chain| - 1]].rr.rtype == q.qtype
  }

  /** The sizes of the program's buffers suffice for the entry, and the remaining time fits a TTL. */
  ghost predicate GoodEntry(e: Entry, now: int) {
    && |e.rr.name| < BUFFER_MAX && |e.rr.rdata| < 0x1_0000
    && e.expires - now < 0x1_0000_0000
    && (e.rr.rtype == CNAME ==> |e.rr.rdata| <= BUFFER_MAX && (Decodes(e) ==> |Walk(AliasData(e), 0)| < BUFFER_MAX))
  }

  ghost predicate GoodDb(q: Query) {
    |q.db| <= MAX_ENTRIES && forall i :: 0 <= i < |q.db| ==> GoodEntry(q.db[i], q.now)
  }

  // ---------- the message ----------

  /** QR clear, opcode 0 and exactly one question. */
  predicate ValidRequest(request: seq<Byte>)
    requires 12 <= |request|
  {
    request[2] < 128 && request[2] / 8 % 16 == 0 && Get16(request, 4) == 1
  }

  predicate RecursionDesired(request: seq<Byte>)
    requires 12 <= |request|
  {
    request[2] % 2 == 1
  }

  /** QR set, RD copied, everything else clear but the response code. */
  function Flags(rd: bool, rcode: nat): U16
    requires rcode < 16
  {
    0x8000 + (if rd then 0x100 else 0) + rcode
  }

  /** The twelve header octets of section 4.1.1 of RFC 1035. */
  function Header(id: seq<Byte>, flags: U16, answers: U16): seq<Byte> {
    id + Put16(flags) + Put16(1) + Put16(answers) + [0, 0, 0, 0]
  }

  function QuestionBytes(name: seq<Byte>, rtype: U16, rclass: U16): seq<Byte> {
    NameBytes(name) + Put16(rtype) + Put16(rclass)
  }

  /** Entry i as it is sent: its TTL is the time it has left. */
  function AnswerRr(q: Query, i: nat): (rr: RR)
    ensures i < |q.db| && GoodEntry(q.db[i], q.now) ==> |rr.rdata| < 0x1_0000
  {
    if i < |q.db| then q.db[i].rr.(ttl := (q.db[i].expires - q.now) % 0x1_0000_0000) else RR([], 0, 0, 0, [])
  }

  /** Every index in the chain is an entry whose data fits its length field. */
  ghost predicate Sendable(q: Query, chain: seq<nat>) {
    forall k :: 0 <= k < |chain| ==> chain[k] < |q.db| && GoodEntry(q.db[chain[k]], q.now)
  }

  ghost function AnswerBytes(q: Query, chain: seq<nat>): seq<Byte>
    requires Sendable(q, chain)
  {
    if chain == [] then [] else RrBytes(AnswerRr(q, chain[0]), 0) + AnswerBytes(q, chain[1..])
  }

  // ---------- is_valid_request and get_question ----------

  method IsValidRequest(request: array<Byte>) returns (valid: bool)
    requires 12 <= request.Length
    ensures valid == ValidRequest(request[..])
  {
    var flags := Read16(request, 2);
    if flags / 0x8000 % 2 != 0 {
      return false;
    }
    if flags / 0x800 % 16 != 0 {
      return false;
    }
    var questions := Read16(request, 4);
    return questions == 1;
  }

  // ---------- the answering loop ----------

  lemma ChainMembers(q: Query, first: Option<nat>)
    requires GoodDb(q)
    requires first.Some? ==> first.value < |q.db| && Halts(CodeNext(q), first.value)
    ensures Sendable(q, ChainFrom(q, first))
    ensures first.Some? ==> |ChainFrom(q, first)| <= |q.db| + 1
  {
    if first.Some? {
      var path := Path(CodeNext(q), first.value);
      forall k | 0 <= k < |path| ensures path[k] < |q.db| {
        if k > 0 {
          PathSteps(CodeNext(q), first.value, k - 1);
        }
      }
      HaltsIffNoRepeat(CodeNext(q), first.value, |q.db|);
      TurnsExact(CodeNext(q), first.value, |q.db|);
    }
  }

  /** `sent` of the answers has been written; `pending` is the entry the scan will act on next. */
  ghost predicate Answering(q: Query, all: seq<nat>, sent: seq<nat>, pending: Option<nat>) {
    && (pending.Some? ==> pending.value < |q.db| && Halts(CodeNext(q), pending.value))
    && all == sent + ChainFrom(q, pending)
  }

  lemma AnswerTaken(q: Query, all: seq<nat>, sent: seq<nat>, i: nat)
    requires GoodDb(q) && Answering(q, all, sent, Some(i))
    ensures Answering(q, all, sent + [i], CodeNext(q)(i))
    ensures CodeNext(q)(i).Some? ==> Turns(CodeNext(q), CodeNext(q)(i).value) < Turns(CodeNext(q), i)
  {
    TurnsStep(CodeNext(q), i);
    assert sent + ([i] + ChainFrom(q, CodeNext(q)(i))) == sent + [i] + ChainFrom(q, CodeNext(q)(i));
  }

  lemma {:induction false} AnswerBytesAppend(q: Query, a: seq<nat>, b: seq<nat>)
    requires Sendable(q, a) && Sendable(q, b)
    ensures Sendable(q, a + b) && AnswerBytes(q, a + b) == AnswerBytes(q, a) + AnswerBytes(q, b)
  {
    if a == [] {
      assert a + b == b;
    } else {
      assert (a + b)[1..] == a[1..] + b;
      assert Sendable(q, a[1..]);
      AnswerBytesAppend(q, a[1..], b);
      Regroup(RrBytes(AnswerRr(q, a[0]), 0), AnswerBytes(q, a[1..]), AnswerBytes(q, b));
    }
  }

  /** The buffer holds `done` at its start and is still zero behind it. */
  ghost predicate Written(w: seq<Byte>, done: seq<Byte>) {
    |done| <= |w| && w == Spliced(Zeros(|w|), 0, done)
  }

  lemma WrittenTail(w: seq<Byte>, done: seq<Byte>, k: nat)
    requires Written(w, done) && |done| <= k < |w|
    ensures w[k] == 0
  {
  }

  lemma WrittenMore(w: seq<Byte>, done: seq<Byte>, src: seq<Byte>)
    requires Written(w, done) && |done| + |src| <= |w|
    ensures Written(Spliced(w, |done|, src), done + src)
  {
    SpliceTwice(Zeros(|w|), 0, done, src);
  }

  lemma RrBytesLength(rr: RR, hole: Byte)
    requires |rr.rdata| < 0x1_0000
    ensures |RrBytes(rr, hole)| == |RrBytes(rr, 0)| > |NameBytes(rr.name)|
  {
  }

  /** Add one record to the response. */
  method SendAnswer(rr: RR, response: array<Byte>, index: nat, ghost done: seq<Byte>) returns (index': nat)
    requires |rr.name| < BUFFER_MAX && |rr.rdata| < 0x1_0000
    requires index == |done| && index + |RrBytes(rr, 0)| <= response.Length && Written(response[..], done)
    modifies response
    ensures index' == index + |RrBytes(rr, 0)|
    ensures Written(response[..], done + RrBytes(rr, 0))
  {
    RrBytesLength(rr, 0);
    WrittenTail(response[..], done, index + |NameBytes(rr.name)|);
    WrittenMore(response[..], done, RrBytes(rr, 0));
    var len := RrToWire(rr, response, index);
    index' := index + len;
  }

  /** The name an alias's data spells. */
  method DecodeTarget(e: Entry) returns (name: seq<Byte>)
    requires |e.rr.rdata| <= BUFFER_MAX && Decodes(e) && |Walk(AliasData(e), 0)| < BUFFER_MAX
    ensures name == Target(e)
  {
    var rdata := e.rr.rdata;
    var buffer := new Byte[BUFFER_MAX](i => if 0 <= i < |rdata| then rdata[i] else 0);
    assert buffer[..] == AliasData(e);
    var text, _ := NameFromWire(buffer, 0);
    name := CString(text);
  }

  /** Room for the answers still to come. */
  lemma AnswerFits(q: Query, all: seq<nat>, sent: seq<nat>, i: nat)
    requires GoodDb(q) && Sendable(q, all) && Answering(q, all, sent, Some(i))
    ensures Sendable(q, sent) && Sendable(q, sent + [i])
    ensures AnswerBytes(q, sent + [i]) == AnswerBytes(q, sent) + RrBytes(AnswerRr(q, i), 0)
    ensures |AnswerBytes(q, sent + [i])| <= |AnswerBytes(q, all)|
  {
    AnswerTaken(q, all, sent, i);
    var rest := ChainFrom(q, CodeNext(q)(i));
    assert all == sent + [i] + rest;
    Subchain(q, all, sent + [i], rest);
    Subchain(q, sent + [i], sent, [i]);
    AnswerBytesAppend(q, sent + [i], rest);
    AnswerBytesAppend(q, sent, [i]);
    assert AnswerBytes(q, [i]) == RrBytes(AnswerRr(q, i), 0) + [];
  }

  lemma Subchain(q: Query, all: seq<nat>, a: seq<nat>, b: seq<nat>)
    requires all == a + b && Sendable(q, all)
    ensures Sendable(q, a) && Sendable(q, b)
  {
    assert forall k :: 0 <= k < |a| ==> a[k] == all[k];
    assert forall k :: 0 <= k < |b| ==> b[k] == all[|a| + k];
  }

  /** A buffer of this size has room for all the answers. */
  ghost predicate Room(q: Query, all: seq<nat>, head: seq<Byte>, size: nat) {
    GoodDb(q) && Sendable(q, all) && |head| + |AnswerBytes(q, all)| <= size
  }

  /** The response holds the answers `sent`, and `index` is just past them. */
  ghost predicate Filled(q: Query, sent: seq<nat>, head: seq<Byte>, w: seq<Byte>, index: nat) {
    && Sendable(q, sent)
    && Written(w, head + AnswerBytes(q, sent))
    && index == |head| + |AnswerBytes(q, sent)|
  }

  /** Append entry i to the response. */
  method SendEntry(q: Query, i: nat, response: array<Byte>, index: nat, ghost all: seq<nat>, ghost sent: seq<nat>,
                   ghost head: seq<Byte>)
    returns (index': nat)
    requires Room(q, all, head, response.Length) && Filled(q, sent, head, response[..], index)
    requires Answering(q, all, sent, Some(i))
    modifies response
    ensures Filled(q, sent + [i], head, response[..], index')
    ensures Answering(q, all, sent + [i], CodeNext(q)(i))
    ensures CodeNext(q)(i).Some? ==> Turns(CodeNext(q), CodeNext(q)(i).value) < Turns(CodeNext(q), i)
  {
    AnswerFits(q, all, sent, i);
    AnswerTaken(q, all, sent, i);
    Regroup(head, AnswerBytes(q, sent), RrBytes(AnswerRr(q, i), 0));
    index' := SendAnswer(AnswerRr(q, i), response, index, head + AnswerBytes(q, sent));
  }

  /** An upper bound on the restarts still to come. */
  ghost function Restarts(q: Query, pending: Option<nat>): nat
    requires pending.Some? ==> Halts(CodeNext(q), pending.value)
  {
    if pending.Some? then Turns(CodeNext(q), pending.value) + 1 else 0
  }

  /** The scan stands at entry i looking for `name`, having used `sent` so far, all of them aliases. */
  ghost predicate Scanning(q: Query, all: seq<nat>, sent: seq<nat>, name: seq<Byte>, i: nat, rank: nat) {
    && Answering(q, all, sent, FirstMatch(q, name, i))
    && rank == Restarts(q, FirstMatch(q, name, i))
    && (sent != [] ==> IsAlias(q, sent[|sent| - 1]))
  }

  lemma ScanStart(q: Query, name: seq<Byte>)
    requires LookupEnds(q, name)
    ensures Scanning(q, Answers(q, name), [], name, 0, Restarts(q, FirstMatch(q, name, 0)))
  {
    assert [] + ChainFrom(q, FirstMatch(q, name, 0)) == Answers(q, name);
  }

  lemma ScanHit(q: Query, all: seq<nat>, sent: seq<nat>, name: seq<Byte>, i: nat, rank: nat)
    requires Scanning(q, all, sent, name, i, rank) && i < |q.db| && Matches(q, q.db[i], name)
    ensures Answering(q, all, sent, Some(i)) && rank == Restarts(q, Some(i))
  {
  }

  lemma ScanMiss(q: Query, all: seq<nat>, sent: seq<nat>, name: seq<Byte>, i: nat, rank: nat)
    requires Scanning(q, all, sent, name, i, rank) && i < |q.db| && !Matches(q, q.db[i], name)
    ensures Scanning(q, all, sent, name, i + 1, rank)
  {
  }

  lemma ScanFinal(q: Query, all: seq<nat>, sent: seq<nat>, i: nat)
    requires Answering(q, all, sent + [i], CodeNext(q)(i)) && i < |q.db| && q.db[i].rr.rtype == q.qtype
    ensures all == sent + [i] && Found(q, all)
  {
  }

  lemma ScanAlias(q: Query, all: seq<nat>, sent: seq<nat>, i: nat)
    requires Answering(q, all, sent + [i], CodeNext(q)(i)) && IsAlias(q, i) && Decodes(q.db[i])
    ensures CodeNext(q)(i) == FirstMatch(q, Target(q.db[i]), 1)
    ensures Scanning(q, all, sent + [i], Target(q.db[i]), 1, Restarts(q, CodeNext(q)(i)))
  {
  }

  lemma ScanEnd(q: Query, all: seq<nat>, sent: seq<nat>, name: seq<Byte>, i: nat, rank: nat)
    requires Scanning(q, all, sent, name, i, rank) && i >= |q.db|
    ensures all == sent && !Found(q, all)
  {
  }

  /** The loop body for an entry that matches: send it, then stop or go on with the name it points to. */
  method UseMatch(q: Query, i: nat, response: array<Byte>, index: nat, ghost all: seq<nat>, ghost sent: seq<nat>,
                  ghost head: seq<Byte>)
    returns (index': nat, final: bool, name': seq<Byte>, ghost sent': seq<nat>, ghost rank': nat)
    requires Room(q, all, head, response.Length) && Filled(q, sent, head, response[..], index)
    requires Answering(q, all, sent, Some(i)) && (q.db[i].rr.rtype == q.qtype || q.db[i].rr.rtype == CNAME)
    modifies response
    ensures Filled(q, sent', head, response[..], index') && |sent'| == |sent| + 1
    ensures final ==> all == sent' && Found(q, all)
    ensures !final ==> Scanning(q, all, sent', name', 1, rank') && rank' < Restarts(q, Some(i))
  {
    index' := SendEntry(q, i, response, index, all, sent, head);
    name', sent', rank' := [], sent + [i], Restarts(q, CodeNext(q)(i));
    final := q.db[i].rr.rtype == q.qtype;
    if final {
      ScanFinal(q, all, sent, i);
    } else {
      HaltingDecodes(q, i);
      ScanAlias(q, all, sent, i);
      assert GoodEntry(q.db[i], q.now);
      name' := DecodeTarget(q.db[i]);
    }
  }

  /** Between two turns of the loop. */
  ghost predicate Looping(q: Query, all: seq<nat>, head: seq<Byte>, w: seq<Byte>, index: nat, numAnswers: nat,
                          sent: seq<nat>, name: seq<Byte>, i: nat, rank: nat) {
    Filled(q, sent, head, w, index) && Scanning(q, all, sent, name, i, rank) && numAnswers == |sent|
  }

  /** One turn of the loop; after an alias i is set back and then incremented, so the scan goes on at entry 1. */
  method ScanEntry(q: Query, i: nat, name: seq<Byte>, response: array<Byte>, index: nat, numAnswers: nat,
                   ghost all: seq<nat>, ghost sent: seq<nat>, ghost head: seq<Byte>, ghost rank: nat)
    returns (i': nat, name': seq<Byte>, index': nat, numAnswers': nat, final: bool, ghost sent': seq<nat>,
      ghost rank': nat)
    requires Room(q, all, head, response.Length) && i < |q.db|
    requires Looping(q, all, head, response[..], index, numAnswers, sent, name, i, rank)
    modifies response
    ensures final ==> Filled(q, all, head, response[..], index') && Found(q, all) && numAnswers' == |all|
    ensures !final ==> Looping(q, all, head, response[..], index', numAnswers', sent', name', i', rank')
    ensures !final ==> rank' < rank || (rank' == rank && i' == i + 1)
  {
    i', name', index', numAnswers', final, sent', rank' := i, name, index, numAnswers, false, sent, rank;
    var cur := q.db[i];
    var remaining := cur.expires - q.now;
    if cur.rr.name == name && remaining > 0 && (cur.rr.rtype == q.qtype || cur.rr.rtype == CNAME) {
      ScanHit(q, all, sent, name, i, rank);
      index', final, name', sent', rank' := UseMatch(q, i, response, index, all, sent, head);
      numAnswers' := numAnswers + 1;
      if final {
        return;
      }
      i' := 0;
    } else {
      ScanMiss(q, all, sent, name, i, rank);
    }
    i' := i' + 1;
  }

  /** The loop over the cache: i runs upward, goes back to the start after an alias, and stops at a final match. */
  method AppendAnswers(q: Query, question: seq<Byte>, response: array<Byte>, start: nat, ghost head: seq<Byte>)
    returns (index: nat, numAnswers: nat, found: bool)
    requires LookupEnds(q, question)
    requires Room(q, Answers(q, question), head, response.Length) && Filled(q, [], head, response[..], start)
    modifies response
    ensures Filled(q, Answers(q, question), head, response[..], index)
    ensures numAnswers == |Answers(q, question)|
    ensures found == Found(q, Answers(q, question))
  {
    ghost var all := Answers(q, question);
    ghost var sent: seq<nat> := [];
    ghost var rank := Restarts(q, FirstMatch(q, question, 0));
    ScanStart(q, question);
    index, numAnswers, found := start, 0, false;
    var name := question;
    var i: nat := 0;
    while i < |q.db|
      invariant Looping(q, all, head, response[..], index, numAnswers, sent, name, i, rank) && !found
      decreases rank, |q.db| - i
    {
      i, name, index, numAnswers, found, sent, rank := ScanEntry(q, i, name, response, index, numAnswers, all, sent,
        head, rank);
      if found {
        return;
      }
    }
    ScanEnd(q, all, sent, name, i, rank);
  }

  // ---------- get_response ----------

  ghost function QuestionOf(request: seq<Byte>): (question: Parsed)
    requires Parsable(request, 12, true)
    ensures question.Question?
  {
    Parse(request, 12, true).0
  }

  /** The request's question can be read, the cache's entries fit the buffers, and the lookup ends. */
  ghost predicate Answerable(request: seq<Byte>, db: seq<Entry>, now: int) {
    && 12 <= |request| && Parsable(request, 12, true)
    && var question := QuestionOf(request);
    && var q := Query(db, question.rtype, now);
    && GoodDb(q) && LookupEnds(q, question.name)
  }

  ghost function ChainOf(request: seq<Byte>, db: seq<Entry>, now: int): (chain: seq<nat>)
    requires Answerable(request, db, now)
    ensures Sendable(Query(db, QuestionOf(request).rtype, now), chain) && |chain| < 0x1_0000
  {
    var question := QuestionOf(request);
    var q := Query(db, question.rtype, now);
    ChainMembers(q, FirstMatch(q, question.name, 0));
    Answers(q, question.name)
  }

  /** The response to a valid request: header, question, answers. */
  ghost function Response(request: seq<Byte>, db: seq<Entry>, now: int): seq<Byte>
    requires Answerable(request, db, now)
  {
    var question := QuestionOf(request);
    var q, chain := Query(db, question.rtype, now), ChainOf(request, db, now);
    var rcode := if Found(q, chain) then 0 else 3;
    Header(request[..2], Flags(RecursionDesired(request), rcode), |chain|)
    + QuestionBytes(question.name, question.rtype, question.rclass)
    + AnswerBytes(q, chain)
  }

  lemma PatchFlags(w: seq<Byte>, id: seq<Byte>, before: U16, now: U16, answers: U16, body: seq<Byte>)
    requires |id| == 2 && Written(w, Header(id, before, answers) + body)
    ensures Written(Spliced(w, 2, Put16(now)), Header(id, now, answers) + body)
  {
    var a, b := Header(id, before, answers) + body, Header(id, now, answers) + body;
    assert b == Spliced(a, 2, Put16(now));
    PatchInside(w, a, 2, Put16(now));
  }

  lemma PatchCount(w: seq<Byte>, id: seq<Byte>, flags: U16, before: U16, now: U16, body: seq<Byte>)
    requires |id| == 2 && Written(w, Header(id, flags, before) + body)
    ensures Written(Spliced(w, 6, Put16(now)), Header(id, flags, now) + body)
  {
    var a, b := Header(id, flags, before) + body, Header(id, flags, now) + body;
    assert b == Spliced(a, 6, Put16(now));
    PatchInside(w, a, 6, Put16(now));
  }

  /** Patching octets that have been written changes those and no others. */
  lemma PatchInside(w: seq<Byte>, done: seq<Byte>, at: nat, bytes: seq<Byte>)
    requires Written(w, done) && at + |bytes| <= |done|
    ensures Written(Spliced(w, at, bytes), Spliced(done, at, bytes))
  {
  }

  /** ID, QR and RD, one question, no records yet. */
  method WriteHeader(request: array<Byte>, response: array<Byte>, flags: U16)
    requires 12 <= request.Length && 12 <= response.Length && request != response
    requires response[..] == Zeros(response.Length)
    modifies response
    ensures Written(response[..], Header(request[..2], flags, 0))
  {
    ghost var zero := response[..];
    Append(request[..2], response, 0, zero, 0, []);
    Append(Put16(flags), response, 2, zero, 0, [] + request[..2]);
    Append(Put16(1), response, 4, zero, 0, [] + request[..2] + Put16(flags));
    Append([0, 0, 0, 0, 0, 0], response, 6, zero, 0, [] + request[..2] + Put16(flags) + Put16(1));
    assert [] + request[..2] + Put16(flags) + Put16(1) + [0, 0, 0, 0, 0, 0] == Header(request[..2], flags, 0);
  }

  method WriteQuestion(question: Parsed, response: array<Byte>, ghost head: seq<Byte>) returns (index: nat)
    requires question.Question? && |question.name| < BUFFER_MAX && |head| == 12
    requires 12 + |QuestionBytes(question.name, question.rtype, question.rclass)| <= response.Length
    requires Written(response[..], head)
    modifies response
    ensures index == 12 + |QuestionBytes(question.name, question.rtype, question.rclass)|
    ensures Written(response[..], head + QuestionBytes(question.name, question.rtype, question.rclass))
  {
    ghost var zero := Zeros(response.Length);
    index := NameToWire(question.name, response, 12);
    SpliceTwice(zero, 0, head, NameBytes(question.name));
    index := 12 + index;
    ghost var done := head + NameBytes(question.name);
    Append(Put16(question.rtype), response, index, zero, 0, done);
    Append(Put16(question.rclass), response, index + 2, zero, 0, done + Put16(question.rtype));
    index := index + 4;
    assert done + Put16(question.rtype) + Put16(question.rclass)
        == head + QuestionBytes(question.name, question.rtype, question.rclass);
  }

  /**
   get_response, into a zeroed buffer large enough for the reply. An invalid request gets the flags in the
   host's (little-endian) order and a bare header; a valid one gets exactly `Response`.
   */
  method GetResponse(request: array<Byte>, db: seq<Entry>, now: int, response: array<Byte>) returns (len: nat)
    requires 12 <= request.Length && 12 <= response.Length && request != response
    requires response[..] == Zeros(response.Length)
    requires ValidRequest(request[..]) ==>
      Answerable(request[..], db, now) && |Response(request[..], db, now)| <= response.Length
    modifies response
    ensures ValidRequest(request[..]) ==>
      len == |Response(request[..], db, now)| && Written(response[..], Response(request[..], db, now))
    ensures !ValidRequest(request[..]) ==>
      len == 12 && Written(response[..], request[..2] + [1, Flags(RecursionDesired(request[..]), 0) / 256])
  {
    var rd := request[2] % 2 == 1;
    var flags := Flags(rd, 0);
    var valid := IsValidRequest(request);
    if !valid {
      flags := Flags(rd, 1);
      ghost var zero := response[..];
      Append(request[..2], response, 0, zero, 0, []);
      Append([flags % 256, flags / 256], response, 2, zero, 0, [] + request[..2]);
      assert [] + request[..2] + [flags % 256, flags / 256] == request[..2] + [1, Flags(rd, 0) / 256];
      return 12;
    }
    len := Answer(request, db, now, response, flags);
  }

  /** The late patches: the response code when nothing was found, and the number of answers. */
  method PatchHeader(response: array<Byte>, ghost id: seq<Byte>, flags: U16, found: bool, numAnswers: U16,
                     ghost body: seq<Byte>)
    requires |id| == 2 && flags <= 0xFFF0 && Written(response[..], Header(id, flags, 0) + body)
    modifies response
    ensures Written(response[..], Header(id, if found then flags else flags + 3, numAnswers) + body)
  {
    if !found {
      PatchFlags(response[..], id, flags, flags + 3, 0, body);
      CopyTo(response, 2, Put16(flags + 3));
    }
    if numAnswers != 0 {
      PatchCount(response[..], id, if found then flags else flags + 3, 0, numAnswers, body);
      CopyTo(response, 6, Put16(numAnswers));
    }
  }

  /** Header and question, before any answer. */
  ghost function Head(request: seq<Byte>, flags: U16): seq<Byte>
    requires 12 <= |request| && Parsable(request, 12, true)
  {
    var question := QuestionOf(request);
    Header(request[..2], flags, 0) + QuestionBytes(question.name, question.rtype, question.rclass)
  }

  /** The response is what the loop leaves behind, with the two header fields patched. */
  lemma ResponseParts(request: seq<Byte>, db: seq<Entry>, now: int, flags: U16)
    requires Answerable(request, db, now) && flags == Flags(RecursionDesired(request), 0)
    ensures var question, chain := QuestionOf(request), ChainOf(request, db, now);
      var q := Query(db, question.rtype, now);
      var body := QuestionBytes(question.name, question.rtype, question.rclass) + AnswerBytes(q, chain);
      && Head(request, flags) + AnswerBytes(q, chain) == Header(request[..2], flags, 0) + body
      && Response(request, db, now) == Header(request[..2], if Found(q, chain) then flags else flags + 3,
        |chain|) + body
      && |Response(request, db, now)| == |Head(request, flags)| + |AnswerBytes(q, chain)|
  {
    var question, chain := QuestionOf(request), ChainOf(request, db, now);
    var q := Query(db, question.rtype, now);
    Regroup(Header(request[..2], flags, 0), QuestionBytes(question.name, question.rtype, question.rclass),
      AnswerBytes(q, chain));
    Regroup(Header(request[..2], if Found(q, chain) then flags else flags + 3, |chain|),
            QuestionBytes(question.name, question.rtype, question.rclass), AnswerBytes(q, chain));
  }

  lemma Regroup(a: seq<Byte>, b: seq<Byte>, c: seq<Byte>)
    ensures a + (b + c) == a + b + c
  {
  }

  /** Header and question written, ready for the answers. */
  method StartResponse(request: array<Byte>, response: array<Byte>, flags: U16) returns (question: Parsed, index: nat)
    requires 12 <= request.Length && request != response && Parsable(request[..], 12, true)
    requires response[..] == Zeros(response.Length) && |Head(request[..], flags)| <= response.Length
    modifies response
    ensures question == QuestionOf(request[..])
    ensures index == |Head(request[..], flags)| && Written(response[..], Head(request[..], flags))
  {
    WriteHeader(request, response, flags);
    question, index := RrFromWire(request, 12, true);
    index := WriteQuestion(question, response, Header(request[..2], flags, 0));
    assert request[..2] == request[..][..2];
  }

  method Answer(request: array<Byte>, db: seq<Entry>, now: int, response: array<Byte>, flags: U16) returns (len: nat)
    requires 12 <= request.Length && 12 <= response.Length && request != response
    requires response[..] == Zeros(response.Length)
    requires Answerable(request[..], db, now) && |Response(request[..], db, now)| <= response.Length
    requires flags == Flags(RecursionDesired(request[..]), 0)
    modifies response
    ensures len == |Response(request[..], db, now)|
    ensures Written(response[..], Response(request[..], db, now))
  {
    ghost var req := request[..];
    ResponseParts(req, db, now, flags);
    var question, index := StartResponse(request, response, flags);
    var q := Query(db, question.rtype, now);
    ghost var head := Head(req, flags);
    assert head + AnswerBytes(q, []) == head;
    var numAnswers: nat, found: bool;
    index, numAnswers, found := AppendAnswers(q, question.name, response, index, head);
    PatchHeader(response, req[..2], flags, found, numAnswers,
      QuestionBytes(question.name, question.rtype, question.rclass) + AnswerBytes(q, ChainOf(req, db, now)));
    len := index;
  }
}
