/** What the alias-chasing lookup finds, when it ends, where it departs from the standard, and what the reply says. */
module DnsServerProperties {
  import opened Bytes
  import opened Options
  import opened Orbits
  import opened DnsName
  import opened DnsNameProperties
  import opened DnsRecord
  import opened DnsRoundTrips
  import opened DnsServer

  // ---------- the answers form an alias chain ----------

  /** An entry that may be sent: in the cache, unexpired, with a TTL that is positive on the wire. */
  ghost predicate Live(q: Query, i: nat) {
    i < |q.db| && q.db[i].expires - q.now > 0 && 0 < AnswerRr(q, i).ttl == q.db[i].expires - q.now
  }

  /** The chain starts at the question's name; every alias leads to the owner of the next record. */
  ghost predicate AliasChain(q: Query, name: seq<Byte>, chain: seq<nat>) {
    && (forall k :: 0 <= k < |chain| ==> Live(q, chain[k]))
    && (chain != [] ==> q.db[chain[0]].rr.name == name)
    && (forall k :: 0 <= k < |chain| - 1 ==> LeadsTo(q, chain[k], chain[k + 1]))
  }

  ghost predicate LeadsTo(q: Query, i: nat, j: nat) {
    && IsAlias(q, i) && Decodes(q.db[i])
    && j < |q.db| && q.db[j].rr.name == Target(q.db[i])
  }

  lemma MatchIsLive(q: Query, name: seq<Byte>, from: nat)
    requires GoodDb(q) && FirstMatch(q, name, from).Some?
    ensures var i := FirstMatch(q, name, from).value;
      Live(q, i) && q.db[i].rr.name == name && (q.db[i].rr.rtype == q.qtype || IsAlias(q, i))
  {
    FirstMatchIsFirst(q, name, from);
  }

  lemma {:induction false} PathIsAliasChain(q: Query, name: seq<Byte>, from: nat)
    requires GoodDb(q) && FirstMatch(q, name, from).Some? && Halts(CodeNext(q), FirstMatch(q, name, from).value)
    ensures var chain := ChainFrom(q, FirstMatch(q, name, from));
      && AliasChain(q, name, chain) && chain != []
      && (Found(q, chain) || LastIsDangling(q, chain[|chain| - 1]))
    decreases Turns(CodeNext(q), FirstMatch(q, name, from).value)
  {
    var i := FirstMatch(q, name, from).value;
    MatchIsLive(q, name, from);
    TurnsStep(CodeNext(q), i);
    var chain := ChainFrom(q, Some(i));
    if CodeNext(q)(i).Some? {
      HaltingDecodes(q, i);
      PathIsAliasChain(q, Target(q.db[i]), 1);
      var rest := ChainFrom(q, CodeNext(q)(i));
      assert chain == [i] + rest;
      assert chain[|chain| - 1] == rest[|rest| - 1];
    } else {
      assert chain == [i] && GoodEntry(q.db[i], q.now);
      if IsAlias(q, i) {
        HaltingDecodes(q, i);
        DanglingHasNoMatch(q, i);
      }
    }
  }

  /** An alias whose target the restarted scan does not find. */
  ghost predicate LastIsDangling(q: Query, i: nat) {
    && IsAlias(q, i) && Decodes(q.db[i])
    && forall j :: 1 <= j < |q.db| ==> !Matches(q, q.db[j], Target(q.db[i]))
  }

  lemma DanglingHasNoMatch(q: Query, i: nat)
    requires IsAlias(q, i) && Decodes(q.db[i]) && FirstMatch(q, Target(q.db[i]), 1).None?
    ensures LastIsDangling(q, i)
  {
    FirstMatchIsFirst(q, Target(q.db[i]), 1);
  }

  /** The answers form an alias chain from the question's name; it ends in a record of the type asked for, or in
      an alias that leads nowhere; and it is empty only if no entry could start it. */
  lemma AnswersFormAliasChain(q: Query, name: seq<Byte>)
    requires GoodDb(q) && LookupEnds(q, name)
    ensures var chain := Answers(q, name);
      && AliasChain(q, name, chain)
      && (chain == [] <==> forall i :: 0 <= i < |q.db| ==> !Matches(q, q.db[i], name))
      && (chain != [] ==> Found(q, chain) || LastIsDangling(q, chain[|chain| - 1]))
  {
    FirstMatchIsFirst(q, name, 0);
    if FirstMatch(q, name, 0).Some? {
      PathIsAliasChain(q, name, 0);
    }
  }

  lemma {:induction false} CStringStops(s: seq<Byte>)
    ensures CString(s) == s || s[|CString(s)|] == 0
  {
    if s != [] && s[0] != 0 {
      CStringStops(s[1..]);
    }
  }

  /** The name an alias leads to is what its data spells up to a zero octet inside a label. */
  lemma TargetStopsAtZero(e: Entry)
    requires Decodes(e)
    ensures var t, text := Target(e), Walk(AliasData(e), 0);
      0 !in t && t <= text && (t == text || text[|t|] == 0)
  {
    CStringStops(Walk(AliasData(e), 0));
  }

  // ---------- when the lookup ends ----------

  /** From alias to the entry its target restarts at, as far as aliases decode. */
  ghost function AliasNext(q: Query): Next {
    (i: nat) => if IsAlias(q, i) && Decodes(q.db[i]) then FirstMatch(q, Target(q.db[i]), 1) else None
  }

  /** Every alias that this lookup uses decodes. */
  ghost predicate AllDecode(q: Query, first: nat) {
    forall k: nat :: After(AliasNext(q), first, k).Some? ==> DecodesAt(q, After(AliasNext(q), first, k).value)
  }

  ghost predicate DecodesAt(q: Query, i: nat) {
    IsAlias(q, i) ==> Decodes(q.db[i])
  }

  /** Where every alias decodes the program does not stay anywhere. */
  lemma DecodingAgrees(q: Query, i: nat)
    ensures AliasNext(q)(i) == CodeNext(q)(i) <==> DecodesAt(q, i)
  {
  }

  lemma AllDecodeIff(q: Query, first: nat)
    ensures SameOrbit(AliasNext(q), CodeNext(q), first) <==> AllDecode(q, first)
  {
    SameOrbitIff(AliasNext(q), CodeNext(q), first);
    forall k: nat | After(AliasNext(q), first, k).Some?
      ensures var i := After(AliasNext(q), first, k).value; AliasNext(q)(i) == CodeNext(q)(i) <==> DecodesAt(q, i)
    {
      DecodingAgrees(q, After(AliasNext(q), first, k).value);
    }
    if AllDecode(q, first) {
      assert AgreeOn(AliasNext(q), CodeNext(q), first);
    }
  }

  /** A lookup that ends has decoded every alias it came to. */
  lemma HaltingAllDecode(q: Query, first: nat)
    requires Halts(CodeNext(q), first)
    ensures AllDecode(q, first)
  {
    forall k: nat ensures After(AliasNext(q), first, k) == After(CodeNext(q), first, k) {
      HaltingSame(q, first, k);
    }
    AllDecodeIff(q, first);
  }

  lemma {:induction false} HaltingSame(q: Query, i: nat, k: nat)
    requires Halts(CodeNext(q), i)
    ensures After(AliasNext(q), i, k) == After(CodeNext(q), i, k)
    decreases k
  {
    TurnsStep(CodeNext(q), i);
    if IsAlias(q, i) {
      HaltingDecodes(q, i);
    }
    if k > 0 && CodeNext(q)(i).Some? {
      HaltingSame(q, CodeNext(q)(i).value, k - 1);
    }
  }

  /** The lookup ends if and only if it never uses the same entry twice and every alias it uses decodes. */
  lemma LookupEndsIff(q: Query, name: seq<Byte>)
    ensures LookupEnds(q, name) <==>
      FirstMatch(q, name, 0).Some? ==>
        var first := FirstMatch(q, name, 0).value; !Repeats(AliasNext(q), first) && AllDecode(q, first)
  {
    if FirstMatch(q, name, 0).Some? {
      HaltsIffDecodingNoRepeat(q, FirstMatch(q, name, 0).value);
    }
  }

  lemma HaltsIffDecodingNoRepeat(q: Query, first: nat)
    ensures Halts(CodeNext(q), first) <==> !Repeats(AliasNext(q), first) && AllDecode(q, first)
  {
    HaltsIffNoRepeat(AliasNext(q), first, |q.db|);
    AllDecodeIff(q, first);
    if Halts(CodeNext(q), first) {
      HaltingAllDecode(q, first);
      SameOrbitFlipped(AliasNext(q), CodeNext(q), first);
      SameOrbitSamePath(CodeNext(q), AliasNext(q), first);
    }
    if !Repeats(AliasNext(q), first) && AllDecode(q, first) {
      SameOrbitSamePath(AliasNext(q), CodeNext(q), first);
    }
  }

  /** All aliases decode, and they go strictly downhill in some ranking of names: the alias graph has no cycle. */
  ghost predicate Acyclic(q: Query, rank: seq<Byte> -> nat) {
    forall i :: 0 <= i < |q.db| && IsAlias(q, i) ==>
      Decodes(q.db[i]) && rank(Target(q.db[i])) < rank(q.db[i].rr.name)
  }

  lemma AcyclicLookupEnds(q: Query, rank: seq<Byte> -> nat, name: seq<Byte>)
    requires Acyclic(q, rank)
    ensures LookupEnds(q, name)
  {
    if FirstMatch(q, name, 0).Some? {
      var byEntry := (i: nat) => if i < |q.db| then rank(q.db[i].rr.name) else 0;
      forall i: nat | CodeNext(q)(i).Some? ensures byEntry(CodeNext(q)(i).value) < byEntry(i) {
        FirstMatchIsFirst(q, Target(q.db[i]), 1);
      }
      DescentHalts(CodeNext(q), byEntry, FirstMatch(q, name, 0).value);
    }
  }

  /** Some lookup comes to this entry. */
  ghost predicate Used(q: Query, i: nat) {
    exists name, k: nat :: Comes(q, name, k, i)
  }

  ghost predicate Comes(q: Query, name: seq<Byte>, k: nat, i: nat) {
    FirstMatch(q, name, 0).Some? && After(CodeNext(q), FirstMatch(q, name, 0).value, k) == Some(i)
  }

  /** Among the entries in use every alias decodes and ranks above the entry that it leads to. */
  ghost predicate Ranked(q: Query, rank: nat -> nat) {
    forall i: nat :: Used(q, i) ==> DecodesAt(q, i) && DropsAt(AliasNext(q), rank, i)
  }

  /** All lookups in a cache end if and only if the entries in use can be ranked so. */
  lemma AllLookupsEndIff(q: Query)
    ensures (forall name :: LookupEnds(q, name)) <==> exists rank: nat -> nat :: Ranked(q, rank)
  {
    if forall name :: LookupEnds(q, name) {
      var rank := (i: nat) => if Halts(CodeNext(q), i) then Turns(CodeNext(q), i) else 0;
      forall i: nat | Used(q, i) ensures DecodesAt(q, i) && DropsAt(AliasNext(q), rank, i) {
        var name, k: nat :| Comes(q, name, k, i);
        assert LookupEnds(q, name);
        TurnsAfter(CodeNext(q), FirstMatch(q, name, 0).value, k);
        TurnsStep(CodeNext(q), i);
        if IsAlias(q, i) {
          HaltingDecodes(q, i);
        }
        DecodingAgrees(q, i);
      }
      assert Ranked(q, rank);
    }
    if exists rank: nat -> nat :: Ranked(q, rank) {
      var rank: nat -> nat :| Ranked(q, rank);
      forall name ensures LookupEnds(q, name) {
        RankedLookupEnds(q, rank, name);
      }
    }
  }

  lemma RankedLookupEnds(q: Query, rank: nat -> nat, name: seq<Byte>)
    requires Ranked(q, rank)
    ensures LookupEnds(q, name)
  {
    if FirstMatch(q, name, 0).Some? {
      var first := FirstMatch(q, name, 0).value;
      forall k: nat | After(CodeNext(q), first, k).Some?
        ensures DropsAt(CodeNext(q), rank, After(CodeNext(q), first, k).value)
      {
        assert Comes(q, name, k, After(CodeNext(q), first, k).value);
        DecodingAgrees(q, After(CodeNext(q), first, k).value);
      }
      DescendingLoopHalts(CodeNext(q), rank, first);
    }
  }

  /** Two aliases for each other make the scan run forever. */
  lemma AliasCycleNeverEnds(q: Query, i: nat, j: nat, name: seq<Byte>)
    requires FirstMatch(q, name, 0) == Some(i) && CodeNext(q)(i) == Some(j) && CodeNext(q)(j) == Some(i)
    ensures !LookupEnds(q, name)
  {
    assert After(CodeNext(q), i, 0) == Some(i);
    assert After(CodeNext(q), i, 2) == Some(i) by {
      assert After(CodeNext(q), j, 1) == Some(i);
    }
    assert Repeats(CodeNext(q), i);
    HaltsIffNoRepeat(CodeNext(q), i, |q.db|);
  }

  // ---------- the reply ----------

  /** Where things are in a reply: header, question name, type and class, then the answers in chain order. */
  ghost predicate Laid(request: seq<Byte>, db: seq<Entry>, now: int, w: seq<Byte>)
    requires Answerable(request, db, now)
  {
    var question, chain := QuestionOf(request), ChainOf(request, db, now);
    var q := Query(db, question.rtype, now);
    var name := NameBytes(question.name);
    && HoldsAt(w, 0, Header(request[..2], Flags(RecursionDesired(request), if Found(q, chain) then 0 else 3), |chain|))
    && HoldsAt(w, 12, name)
    && HoldsAt(w, 12 + |name|, Put16(question.rtype) + Put16(question.rclass))
    && HoldsAt(w, 12 + |name| + 4, AnswerBytes(q, chain))
  }

  lemma FourParts(w: seq<Byte>, a: seq<Byte>, b: seq<Byte>, c: seq<Byte>, d: seq<Byte>)
    requires HoldsAt(w, 0, a + (b + c) + d)
    ensures HoldsAt(w, 0, a) && HoldsAt(w, |a|, b) && HoldsAt(w, |a| + |b|, c) && HoldsAt(w, |a| + |b| + |c|, d)
  {
    Parts(w, 0, a + (b + c), d);
    Parts(w, 0, a, b + c);
    Parts(w, |a|, b, c);
  }

  lemma ResponseIs(request: seq<Byte>, db: seq<Entry>, now: int)
    requires Answerable(request, db, now)
    ensures var question, chain := QuestionOf(request), ChainOf(request, db, now);
      var q := Query(db, question.rtype, now);
      var header := Header(request[..2], Flags(RecursionDesired(request), if Found(q, chain) then 0 else 3), |chain|);
      var fields := Put16(question.rtype) + Put16(question.rclass);
      Response(request, db, now) == header + (NameBytes(question.name) + fields) + AnswerBytes(q, chain)
  {
    var question := QuestionOf(request);
    var fields := Put16(question.rtype) + Put16(question.rclass);
    assert QuestionBytes(question.name, question.rtype, question.rclass) == NameBytes(question.name) + fields;
  }

  lemma ReplyLayout(request: seq<Byte>, db: seq<Entry>, now: int, w: seq<Byte>)
    requires Answerable(request, db, now)
    requires HoldsAt(w, 0, Response(request, db, now))
    ensures Laid(request, db, now, w)
    ensures |Response(request, db, now)| == 12 + |NameBytes(QuestionOf(request).name)| + 4
         + |AnswerBytes(Query(db, QuestionOf(request).rtype, now), ChainOf(request, db, now))|
  {
    var question, chain := QuestionOf(request), ChainOf(request, db, now);
    var q := Query(db, question.rtype, now);
    var header := Header(request[..2], Flags(RecursionDesired(request), if Found(q, chain) then 0 else 3), |chain|);
    var fields := Put16(question.rtype) + Put16(question.rclass);
    ResponseIs(request, db, now);
    FourParts(w, header, NameBytes(question.name), fields, AnswerBytes(q, chain));
  }

  lemma HeaderFields(w: seq<Byte>, id: seq<Byte>, rd: bool, rcode: nat, answers: U16)
    requires |id| == 2 && rcode < 16 && HoldsAt(w, 0, Header(id, Flags(rd, rcode), answers))
    ensures 12 <= |w| && w[..2] == id
    ensures w[2] == 128 + (if rd then 1 else 0) && w[3] == rcode
    ensures Get16(w, 4) == 1 && Get16(w, 6) == answers && Get16(w, 8) == 0 && Get16(w, 10) == 0
  {
    var header := Header(id, Flags(rd, rcode), answers);
    var front := w[0..12];
    assert front == header;
    assert forall k :: 0 <= k < 12 ==> w[k] == front[k];
  }

  /** The header of a reply to a valid request, read as section 4.1.1 of RFC 1035 prescribes: QR is set, RD is copied,
      the opcode, AA, TC, RA and Z are 0. */
  lemma ReplyHeader(request: seq<Byte>, db: seq<Entry>, now: int, w: seq<Byte>)
    requires Answerable(request, db, now)
    requires HoldsAt(w, 0, Response(request, db, now))
    ensures 12 <= |w| && w[..2] == request[..2]
    ensures w[2] == 128 + request[2] % 2
    ensures w[3] == if Found(Query(db, QuestionOf(request).rtype, now), ChainOf(request, db, now)) then 0 else 3
    ensures Get16(w, 4) == 1 && Get16(w, 6) == |ChainOf(request, db, now)| && Get16(w, 8) == 0 && Get16(w, 10) == 0
  {
    ReplyLayout(request, db, now, w);
    var found := Found(Query(db, QuestionOf(request).rtype, now), ChainOf(request, db, now));
    HeaderFields(w, request[..2], RecursionDesired(request), if found then 0 else 3, |ChainOf(request, db, now)|);
  }

  /**
   A client that reads the reply's question section gets the normal form of the name it asked for, with type and class:
   the question it asked exactly when it used no dots that separate nothing.
   */
  lemma ReplyQuestion(request: seq<Byte>, db: seq<Entry>, now: int, w: seq<Byte>)
    requires Answerable(request, db, now)
    requires HoldsAt(w, 0, Response(request, db, now))
    ensures TryParse(w, 12, true).Some?
    ensures var question, read := QuestionOf(request), TryParse(w, 12, true).value.0;
      && read == Question(Dotted(Tokens(question.name)), question.rtype, question.rclass)
      && (read == question <==> Normal(question.name))
  {
    ReplyLayout(request, db, now, w);
    var question := QuestionOf(request);
    DecodedIsShort(request, 12);
    var i := 12 + |NameBytes(question.name)|;
    Parts(w, i, Put16(question.rtype), Put16(question.rclass));
    Get16At(w, i, question.rtype);
    Get16At(w, i + 2, question.rclass);
    QuestionDecodes(w, 12, question.name, i);
  }

  /** The reply to an invalid request carries its flags with the octets exchanged: read as the standard prescribes it
      is not a response at all, and its code is FORMERR only if the request had RD set. */
  lemma FormErrIsGarbled(request: seq<Byte>, w: seq<Byte>)
    requires 12 <= |request| && 12 <= |w|
    requires Written(w, request[..2] + [1, Flags(RecursionDesired(request), 0) / 256])
    ensures w[2] < 128 && (w[3] % 16 == 1 <==> request[2] % 2 == 1)
  {
    var done := request[..2] + [1, Flags(RecursionDesired(request), 0) / 256];
    assert w[2] == done[2] && w[3] == done[3];
  }

  // ---------- init_db ----------

  /** The labels of an alias's target can be written and read again. */
  predicate GoodTarget(data: seq<Byte>) {
    0 !in data && ShortLabels(data)
  }

  /** The lookup and the responder can use the entry at any time from `start` on. */
  ghost predicate FitFrom(e: Entry, start: int) {
    forall now :: start <= now ==> GoodEntry(e, now)
  }

  /** The entry that a line of the cache file gives; `address` is what inet_pton made of the data. */
  function EntryOf(host: seq<Byte>, ttl: int, cls: string, kind: string, data: seq<Byte>, address: seq<Byte>,
                   start: int): (e: Entry)
    ensures e.rr.name == host && e.expires == start + ttl && (0 <= ttl < 0x8000_0000 ==> e.rr.ttl == ttl)
    ensures e.rr.rclass == 1 <==> cls == "IN"
    ensures cls != "IN" ==> e.rr.rclass == 0
    ensures e.rr.rtype == TYPE_A <==> kind == "A"
    ensures e.rr.rtype == CNAME <==> kind == "CNAME"
    ensures kind != "A" && kind != "CNAME" ==> e.rr.rtype == 0
    ensures e.rr.rdata == if kind == "A" then address else if kind == "CNAME" then NameBytes(data) else []
  {
    var rtype := if kind == "A" then TYPE_A else if kind == "CNAME" then CNAME else 0;
    var rdata := if kind == "A" then address else if kind == "CNAME" then NameBytes(data) else [];
    Entry(RR(host, rtype, if cls == "IN" then 1 else 0, ttl % 0x1_0000_0000, rdata), start + ttl)
  }

  /**
   One line of the cache file, split into words. If an alias has a good target, the entry is fit for the lookup, and the
   alias's target is that name in its normal form.
   */
  method LoadEntry(host: seq<Byte>, ttl: int, cls: string, kind: string, data: seq<Byte>, address: seq<Byte>,
                   start: int)
    returns (e: Entry)
    requires |host| < BUFFER_MAX && |data| < BUFFER_MAX && |NameBytes(data)| <= BUFFER_MAX
    requires |address| == 4 && ttl < 0x8000_0000
    ensures e == EntryOf(host, ttl, cls, kind, data, address, start)
    ensures (kind == "CNAME" ==> GoodTarget(data)) ==> FitFrom(e, start)
    ensures kind == "CNAME" && GoodTarget(data) ==> Decodes(e) && Target(e) == Dotted(Tokens(data))
  {
    var rclass: U16 := 0;
    if cls == "IN" {
      rclass := 1;
    }
    var rtype, rdata := LoadData(kind, data, address);
    e := Entry(RR(host, rtype, rclass, ttl % 0x1_0000_0000, rdata), start + ttl);
    if kind == "CNAME" ==> GoodTarget(data) {
      LoadedIsFit(e, kind, data, start, ttl);
    }
  }

  lemma LoadedIsFit(e: Entry, kind: string, data: seq<Byte>, start: int, ttl: int)
    requires |e.rr.name| < BUFFER_MAX && e.expires == start + ttl && ttl < 0x8000_0000
    requires e.rr.rtype == CNAME <==> kind == "CNAME"
    requires kind == "CNAME" ==> |data| < BUFFER_MAX && |NameBytes(data)| <= BUFFER_MAX && e.rr.rdata == NameBytes(data)
    requires kind == "CNAME" ==> GoodTarget(data)
    requires kind != "CNAME" ==> |e.rr.rdata| <= 4
    ensures FitFrom(e, start)
    ensures kind == "CNAME" ==> Decodes(e) && Target(e) == Dotted(Tokens(data))
  {
    if kind == "CNAME" {
      LoadedAlias(e, data);
    }
    LoadedIsGood(e, start, ttl);
  }

  /** Type and data of the entry. */
  method LoadData(kind: string, data: seq<Byte>, address: seq<Byte>) returns (rtype: U16, rdata: seq<Byte>)
    requires |data| < BUFFER_MAX && |NameBytes(data)| <= BUFFER_MAX
    ensures kind == "A" ==> rtype == TYPE_A && rdata == address
    ensures kind == "CNAME" ==> rtype == CNAME && rdata == NameBytes(data)
    ensures kind != "A" && kind != "CNAME" ==> rtype == 0 && rdata == []
  {
    rtype, rdata := 0, [];
    if kind == "A" {
      rtype := TYPE_A;
    } else if kind == "CNAME" {
      rtype := CNAME;
    }
    if rtype == TYPE_A {
      rdata := address;
    } else if rtype == CNAME {
      var buffer := new Byte[BUFFER_MAX](_ => 0);
      var len := NameToWire(data, buffer, 0);
      rdata := buffer[..len];
    }
  }

  lemma LoadedIsGood(e: Entry, start: int, ttl: int)
    requires |e.rr.name| < BUFFER_MAX && |e.rr.rdata| <= BUFFER_MAX && e.expires == start + ttl && ttl < 0x8000_0000
    requires e.rr.rtype == CNAME && Decodes(e) ==> |Walk(AliasData(e), 0)| < BUFFER_MAX
    ensures FitFrom(e, start)
  {
  }

  /** The data of a loaded alias decodes to its target, the name in the file with superfluous dots removed. */
  lemma LoadedAlias(e: Entry, data: seq<Byte>)
    requires |data| < BUFFER_MAX && GoodTarget(data) && e.rr.rdata == NameBytes(data)
    ensures Decodes(e) && |Walk(AliasData(e), 0)| < BUFFER_MAX && Target(e) == Dotted(Tokens(data))
  {
    var w := AliasData(e);
    assert w[0..0 + |NameBytes(data)|] == NameBytes(data);
    DecodeAt(w, 0, data);
    NormalFormIsText(data);
  }
}
