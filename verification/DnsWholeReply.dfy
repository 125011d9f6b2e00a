/** The examples of the standard and one exchange in full, octet by octet. */
module DnsWholeReply {
  import opened Bytes
  import opened Options
  import opened Orbits
  import opened DnsName
  import opened DnsNameProperties
  import opened DnsRecord
  import opened DnsRoundTrips
  import opened DnsServer
  import opened DnsReply
  import opened DnsExamples

  // ---------- the message of section 4.1.4 of RFC 1035 ----------

  const F_ISI_ARPA: seq<Byte> := [70, 46, 73, 83, 73, 46, 65, 82, 80, 65]

  /** F.ISI.ARPA at 20, FOO.F.ISI.ARPA at 40, ARPA at 64 and the root at 92, the second and the third compressed. */
  ghost predicate StandardExample(w: seq<Byte>) {
    && 93 <= |w|
    && w[20] == 1 && w[21] == 70 && w[22] == 3 && w[23] == 73 && w[24] == 83 && w[25] == 73
    && w[26] == 4 && w[27] == 65 && w[28] == 82 && w[29] == 80 && w[30] == 65 && w[31] == 0
    && w[40] == 3 && w[41] == 70 && w[42] == 79 && w[43] == 79 && w[44] == 192 && w[45] == 20
    && w[64] == 192 && w[65] == 26
    && w[92] == 0
  }

  /** A label of this length and what comes behind it. */
  lemma OneMoreLabel(w: seq<Byte>, p: nat, l: seq<Byte>)
    requires 0 < |l| < COMPRESSED_VAL && p + 1 + |l| < |w| && w[p] == |l| && w[p + 1..p + 1 + |l|] == l
    requires Ends(w, p + 1 + |l|)
    ensures Ends(w, p) && AfterName(w, p) == AfterName(w, p + 1 + |l|)
    ensures Walk(w, p) == l + (if w[p + 1 + |l|] != 0 then [DOT] else []) + Walk(w, p + 1 + |l|)
  {
    EndsStep(w, p);
    WalkStep(w, p);
  }

  lemma NameAt20(w: seq<Byte>)
    requires StandardExample(w)
    ensures Ends(w, 26) && Walk(w, 26) == [65, 82, 80, 65]
    ensures Ends(w, 20) && Walk(w, 20) == F_ISI_ARPA && AfterName(w, 20) == 32
  {
    EmptyNameAt(w, 31);
    assert w[27..31] == [65, 82, 80, 65];
    OneMoreLabel(w, 26, [65, 82, 80, 65]);
    assert w[23..26] == [73, 83, 73];
    OneMoreLabel(w, 22, [73, 83, 73]);
    assert w[21..22] == [70];
    OneMoreLabel(w, 20, [70]);
  }

  /** All four names decode to what the standard says. */
  lemma StandardNames(w: seq<Byte>)
    requires StandardExample(w)
    ensures Ends(w, 20) && Walk(w, 20) == F_ISI_ARPA && AfterName(w, 20) == 32
    ensures Ends(w, 40) && Walk(w, 40) == [70, 79, 79, 46] + F_ISI_ARPA && AfterName(w, 40) == 46
    ensures Ends(w, 64) && Walk(w, 64) == [65, 82, 80, 65] && AfterName(w, 64) == 66
    ensures Ends(w, 92) && Walk(w, 92) == [] && AfterName(w, 92) == 93
  {
    NameAt20(w);
    PointerName(w, 64);
    PointerName(w, 44);
    assert w[41..44] == [70, 79, 79];
    OneMoreLabel(w, 40, [70, 79, 79]);
    EmptyNameAt(w, 92);
  }

  // ---------- one exchange ----------

  /** Some address, then a as an alias for b, and the address of b. */
  function AliasThenAddress(): Query {
    Query([AddressOf(C_NAME), AliasOf(A_NAME, B_WIRE), AddressOf(B_NAME)], TYPE_A, 0)
  }

  lemma AliasThenAddressAnswers()
    ensures GoodDb(AliasThenAddress()) && LookupEnds(AliasThenAddress(), A_NAME)
    ensures Answers(AliasThenAddress(), A_NAME) == [1, 2] && Found(AliasThenAddress(), [1, 2])
  {
    var q := AliasThenAddress();
    OneLetter(q.db[1], 98);
    assert FirstMatch(q, A_NAME, 0) == FirstMatch(q, A_NAME, 1) == Some(1);
    assert FirstMatch(q, B_NAME, 1) == FirstMatch(q, B_NAME, 2) == Some(2);
    StopsAt(q, 2);
    HaltsStep(CodeNext(q), 1);
    TurnsStep(CodeNext(q), 1);
  }

  /** Number 7, recursion desired, one question: the address of a, class IN. */
  const REQUEST: seq<Byte> := [0, 7, 1, 0, 0, 1, 0, 0, 0, 0, 0, 0, 1, 97, 0, 0, 1, 0, 1]

  /** Number 7, a response, recursion desired, no error, one question, two answers; the question again; a is an alias
      for b for 30 seconds; b has the address 192.0.2.1 for 30 seconds. */
  const REPLY: seq<Byte> := [0, 7, 129, 0, 0, 1, 0, 2, 0, 0, 0, 0] + [1, 97, 0, 0, 1, 0, 1]
    + [1, 97, 0, 0, 5, 0, 1, 0, 0, 0, 30, 0, 3, 1, 98, 0] + [1, 98, 0, 0, 1, 0, 1, 0, 0, 0, 30, 0, 4, 192, 0, 2, 1]

  lemma LetterIsNormal(a: Byte)
    requires a != DOT && a != 0
    ensures NameBytes([a]) == [1, a, 0] && Normal([a]) && ShortLabels([a]) && 0 !in [a]
  {
    OneLetterName(a);
    TokensOfDotted([[a]]);
    assert Dotted([[a]]) == [a];
  }

  lemma RequestOctets()
    ensures |REQUEST| == 19 && REQUEST[2] == 1 && REQUEST[4] == 0 && REQUEST[5] == 1
    ensures HoldsAt(REQUEST, 12, [1, 97, 0]) && TwoBytes(REQUEST, 15, 1) && TwoBytes(REQUEST, 17, 1)
  {
  }

  lemma Asks(request: seq<Byte>)
    requires |request| == 19 && request[2] == 1 && request[4] == 0 && request[5] == 1
    requires HoldsAt(request, 12, [1, 97, 0]) && TwoBytes(request, 15, 1) && TwoBytes(request, 17, 1)
    ensures ValidRequest(request) && RecursionDesired(request) && Parsable(request, 12, true)
    ensures QuestionOf(request) == Question(A_NAME, 1, 1)
  {
    LetterIsNormal(97);
    ValidRequestIff(request);
    QuestionAsked(request, A_NAME, 1, 1);
  }

  lemma RequestAsks()
    ensures ValidRequest(REQUEST) && RecursionDesired(REQUEST) && Parsable(REQUEST, 12, true)
    ensures QuestionOf(REQUEST) == Question(A_NAME, 1, 1)
  {
    RequestOctets();
    Asks(REQUEST);
  }

  lemma AliasRecord()
    ensures RrBytes(AnswerRr(AliasThenAddress(), 1), 0) == [1, 97, 0, 0, 5, 0, 1, 0, 0, 0, 30, 0, 3, 1, 98, 0]
  {
    OneLetterName(97);
    RrBytesParts(AnswerRr(AliasThenAddress(), 1), 0);
  }

  lemma AddressRecord()
    ensures RrBytes(AnswerRr(AliasThenAddress(), 2), 0) == [1, 98, 0, 0, 1, 0, 1, 0, 0, 0, 30, 0, 4, 192, 0, 2, 1]
  {
    OneLetterName(98);
    RrBytesParts(AnswerRr(AliasThenAddress(), 2), 0);
  }

  lemma BothRecords()
    ensures Sendable(AliasThenAddress(), [1, 2])
    ensures AnswerBytes(AliasThenAddress(), [1, 2]) == [1, 97, 0, 0, 5, 0, 1, 0, 0, 0, 30, 0, 3, 1, 98, 0]
      + [1, 98, 0, 0, 1, 0, 1, 0, 0, 0, 30, 0, 4, 192, 0, 2, 1]
  {
    var q := AliasThenAddress();
    AliasThenAddressAnswers();
    AliasRecord();
    AddressRecord();
    var rest: seq<nat> := [2];
    assert rest[1..] == [];
    assert AnswerBytes(q, rest) == RrBytes(AnswerRr(q, 2), 0) + [];
    assert [1, 2][1..] == rest;
  }

  lemma HeaderOctets()
    ensures Header(REQUEST[..2], Flags(true, 0), 2) == [0, 7, 129, 0, 0, 1, 0, 2, 0, 0, 0, 0]
    ensures QuestionBytes(A_NAME, 1, 1) == [1, 97, 0, 0, 1, 0, 1]
  {
    OneLetterName(97);
  }

  /** The reply to a request with two octets of number, recursion desired, and two answers. */
  lemma ReplyTo(request: seq<Byte>)
    requires 12 <= |request| && Parsable(request, 12, true) && RecursionDesired(request)
    requires QuestionOf(request) == Question(A_NAME, 1, 1)
    ensures Answerable(request, AliasThenAddress().db, 0) && Sendable(AliasThenAddress(), [1, 2])
    ensures Response(request, AliasThenAddress().db, 0) == Header(request[..2], Flags(true, 0), 2)
      + QuestionBytes(A_NAME, 1, 1) + AnswerBytes(AliasThenAddress(), [1, 2])
  {
    AliasThenAddressAnswers();
    assert Query(AliasThenAddress().db, 1, 0) == AliasThenAddress();
  }

  /** The whole reply. */
  lemma WholeReply()
    ensures Answerable(REQUEST, AliasThenAddress().db, 0)
    ensures Response(REQUEST, AliasThenAddress().db, 0) == REPLY
  {
    RequestAsks();
    RequestOctets();
    ReplyTo(REQUEST);
    BothRecords();
    HeaderOctets();
    Joined(Header(REQUEST[..2], Flags(true, 0), 2), QuestionBytes(A_NAME, 1, 1),
      AnswerBytes(AliasThenAddress(), [1, 2]));
  }

  lemma Joined(header: seq<Byte>, question: seq<Byte>, answers: seq<Byte>)
    requires header == [0, 7, 129, 0, 0, 1, 0, 2, 0, 0, 0, 0] && question == [1, 97, 0, 0, 1, 0, 1]
    requires answers == [1, 97, 0, 0, 5, 0, 1, 0, 0, 0, 30, 0, 3, 1, 98, 0]
      + [1, 98, 0, 0, 1, 0, 1, 0, 0, 0, 30, 0, 4, 192, 0, 2, 1]
    ensures header + question + answers == REPLY
  {
  }
}
