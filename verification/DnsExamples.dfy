/** Small caches on which the lookup of labs/dnsserverlab-handout/server.c departs from the standard, or never ends. */
module DnsExamples {
  import opened Bytes
  import opened Options
  import opened Orbits
  import opened DnsName
  import opened DnsNameProperties
  import opened DnsRecord
  import opened DnsServer
  import opened DnsServerProperties
  import opened DnsStandard

  const IN: U16 := 1
  const TXT: U16 := 16
  const A_NAME: seq<Byte> := [97]
  const B_NAME: seq<Byte> := [98]
  const C_NAME: seq<Byte> := [99]
  const A_WIRE: seq<Byte> := [1, 97, 0]
  const B_WIRE: seq<Byte> := [1, 98, 0]

  function AddressOf(name: seq<Byte>): Entry {
    Entry(RR(name, TYPE_A, IN, 30, [192, 0, 2, 1]), 30)
  }

  function AliasOf(name: seq<Byte>, wire: seq<Byte>): Entry {
    Entry(RR(name, CNAME, IN, 30, wire), 30)
  }

  /** A name of one letter is its own only label. */
  lemma LetterName(a: Byte, b: Byte)
    requires 97 <= a <= 122 && 97 <= b <= 122
    ensures SameName([a], [b]) <==> a == b
    ensures Canonical([a])
  {
    TokensOfDotted([[a]]);
    TokensOfDotted([[b]]);
    assert Dotted([[a]]) == [a] && Dotted([[b]]) == [b];
    assert Folded([a]) == [a] && Folded([b]) == [b];
    assert [[a]][0] == [a] && [[b]][0] == [b];
    assert [a][0] == a && [b][0] == b;
  }

  /** An alias's data of one label of one octet. */
  lemma OneLetter(e: Entry, letter: Byte)
    requires e.rr.rdata == [1, letter, 0] && letter != 0 && letter != DOT
    ensures Decodes(e) && Target(e) == [letter] && |Walk(AliasData(e), 0)| < BUFFER_MAX
  {
    var w := AliasData(e);
    assert w[0] == 1 && w[1] == letter && w[2] == 0;
    EndsStep(w, 2);
    EndsStep(w, 0);
    WalkStep(w, 2);
    WalkStep(w, 0);
    assert Walk(w, 0) == [letter];
  }

  /** The address of b, then a as an alias for b. */
  function AddressFirst(): Query {
    Query([AddressOf(B_NAME), AliasOf(A_NAME, B_WIRE)], TYPE_A, 0)
  }

  lemma AddressFirstNodes()
    ensures Node(AddressFirst(), IN, A_NAME) == [1] && Node(AddressFirst(), IN, B_NAME) == [0]
  {
    var q := AddressFirst();
    LetterName(97, 98);
    LetterName(98, 97);
    assert Records(q, IN, A_NAME, true, 2) == [];
    assert Records(q, IN, A_NAME, true, 1) == [1];
    assert !Wanted(q, IN, A_NAME, true, 0);
    assert Records(q, IN, B_NAME, true, 1) == [] && !Wanted(q, IN, B_NAME, true, 0);
    assert Records(q, IN, B_NAME, false, 1) == [] && Wanted(q, IN, B_NAME, false, 0);
  }

  lemma AddressFirstPath()
    ensures Halts(NodeNext(AddressFirst(), IN), 1) && Path(NodeNext(AddressFirst(), IN), 1) == [1, 0]
  {
    var q := AddressFirst();
    OneLetter(q.db[1], 98);
    AddressFirstNodes();
    var next := NodeNext(q, IN);
    assert next(1) == Some(0) && next(0) == None;
    HaltsStep(next, 0);
    HaltsStep(next, 1);
    TurnsStep(next, 0);
    TurnsStep(next, 1);
    assert Path(next, 1) == [1] + [0];
  }

  /** The standard gives the alias and the address. */
  lemma AddressFirstAnswers()
    ensures RfcEnds(AddressFirst(), IN, A_NAME) && RfcAnswers(AddressFirst(), IN, A_NAME) == [1, 0]
  {
    AddressFirstNodes();
    AddressFirstPath();
    assert LastRecords(AddressFirst(), IN, 0) == [0];
  }

  lemma AddressFirstFirst()
    ensures FirstMatch(AddressFirst(), A_NAME, 0) == Some(1) && GoodDb(AddressFirst())
    ensures Decodes(AddressFirst().db[1]) && Target(AddressFirst().db[1]) == B_NAME
  {
    var q := AddressFirst();
    OneLetter(q.db[1], 98);
    assert FirstMatch(q, A_NAME, 0) == FirstMatch(q, A_NAME, 1) == Some(1);
  }

  /** Asked for a, the standard gives the alias and the address; the program gives the alias and says there is no
      such name. */
  lemma AddressInFrontIsMissed()
    ensures var q := AddressFirst();
      && GoodDb(q) && LookupEnds(q, A_NAME) && RfcEnds(q, IN, A_NAME)
      && RfcAnswers(q, IN, A_NAME) == [1, 0]
      && Answers(q, A_NAME) == [1] && !Found(q, Answers(q, A_NAME))
  {
    AddressFirstFirst();
    AddressFirstAnswers();
    TargetInEntryZeroIsMissed(AddressFirst(), A_NAME, 1);
  }

  /** Some address, then two of a. */
  function TwoAddresses(): Query {
    Query([AddressOf(C_NAME), AddressOf(A_NAME), AddressOf(A_NAME)], TYPE_A, 0)
  }

  lemma TwoAddressesNode()
    ensures Node(TwoAddresses(), IN, A_NAME) == [1, 2]
  {
    var q := TwoAddresses();
    LetterName(99, 97);
    assert Records(q, IN, A_NAME, true, 2) == [];
    assert Records(q, IN, A_NAME, true, 0) == [];
    assert Records(q, IN, A_NAME, false, 2) == [2] + Records(q, IN, A_NAME, false, 3) == [2];
    assert Records(q, IN, A_NAME, false, 1) == [1] + [2];
    assert !Wanted(q, IN, A_NAME, false, 0);
  }

  /** The standard gives both addresses. */
  lemma TwoAddressesAnswers()
    ensures RfcEnds(TwoAddresses(), IN, A_NAME) && RfcAnswers(TwoAddresses(), IN, A_NAME) == [1, 2]
  {
    var q := TwoAddresses();
    TwoAddressesNode();
    StopsAt(q, 1);
    assert RfcPath(q, IN, A_NAME) == [1] && LastRecords(q, IN, 1) == [1, 2];
    assert [1][..0] + [1, 2] == [1, 2];
  }

  lemma TwoAddressesFirst()
    ensures FirstMatch(TwoAddresses(), A_NAME, 0) == Some(1) && AvoidsZero(TwoAddresses(), 1) && GoodDb(TwoAddresses())
  {
    var q := TwoAddresses();
    assert FirstMatch(q, A_NAME, 0) == FirstMatch(q, A_NAME, 1) == Some(1);
    assert forall i: nat :: !LeadsToZero(q, i);
  }

  /** Asked for a, the standard gives both addresses, the program the first, though no alias is involved. */
  lemma SecondAddressIsMissed()
    ensures var q := TwoAddresses();
      && GoodDb(q) && FirstMatch(q, A_NAME, 0) == Some(1) && AvoidsZero(q, 1)
      && LookupEnds(q, A_NAME) && Answers(q, A_NAME) == [1]
      && RfcEnds(q, IN, A_NAME) && RfcAnswers(q, IN, A_NAME) == [1, 2]
  {
    TwoAddressesAnswers();
    TwoAddressesFirst();
    StopsAt(TwoAddresses(), 1);
    AnswersAre(TwoAddresses(), A_NAME, 1);
  }

  /** A lookup stops at an entry that is no alias. */
  lemma StopsAt(q: Query, i: nat)
    requires i < |q.db| && q.db[i].rr.rtype != CNAME
    ensures Halts(CodeNext(q), i) && Path(CodeNext(q), i) == [i]
    ensures forall cls: U16 :: Halts(NodeNext(q, cls), i) && Path(NodeNext(q, cls), i) == [i]
  {
    HaltsStep(CodeNext(q), i);
    TurnsStep(CodeNext(q), i);
    forall cls: U16 ensures Halts(NodeNext(q, cls), i) && Path(NodeNext(q, cls), i) == [i] {
      HaltsStep(NodeNext(q, cls), i);
      TurnsStep(NodeNext(q, cls), i);
    }
  }

  /** An address of a in another class. */
  function OtherClass(): Query {
    Query([Entry(RR(A_NAME, TYPE_A, 0, 30, [192, 0, 2, 1]), 30)], TYPE_A, 0)
  }

  /** Asked for a of class IN, the standard gives nothing, the program that address. */
  lemma ClassIsIgnored()
    ensures var q := OtherClass();
      && GoodDb(q) && LookupEnds(q, A_NAME) && RfcEnds(q, IN, A_NAME)
      && RfcAnswers(q, IN, A_NAME) == [] && Answers(q, A_NAME) == [0]
  {
    var q := OtherClass();
    StopsAt(q, 0);
    AnswersAre(q, A_NAME, 0);
    assert Node(q, IN, A_NAME) == [];
  }

  /** Asked for A, the standard gives the address of a, the program nothing. */
  lemma CapitalsAreMissed()
    ensures var q := Query([AddressOf(A_NAME)], TYPE_A, 0); var asked: seq<Byte> := [65];
      && GoodDb(q) && LookupEnds(q, asked) && RfcEnds(q, IN, asked)
      && RfcAnswers(q, IN, asked) == [0] && Answers(q, asked) == []
  {
    var q := Query([AddressOf(A_NAME)], TYPE_A, 0);
    var asked: seq<Byte> := [65];
    assert Folded(asked) == [97] && Folded(A_NAME) == [97];
    assert Wanted(q, IN, asked, false, 0) && !Wanted(q, IN, asked, true, 0);
    assert Records(q, IN, asked, true, 1) == [] && Records(q, IN, asked, false, 1) == [];
    assert Node(q, IN, asked) == [0] + [];
    SameNameSameNode(q, IN, A_NAME, asked);
    StopsAt(q, 0);
    assert RfcPath(q, IN, asked) == [0] && LastRecords(q, IN, 0) == [0];
    assert [0][..0] + [0] == [0];
  }

  /** Asked for a text of a, which owns an address, the program says that there is no such name. */
  lemma NoDataIsNameError()
    ensures var q := Query([AddressOf(A_NAME)], TXT, 0);
      LookupEnds(q, A_NAME) && NameExists(q, IN, A_NAME) && !Found(q, Answers(q, A_NAME))
  {
    assert AtNode(Query([AddressOf(A_NAME)], TXT, 0), IN, A_NAME, 0);
  }

  /** Some address, then a and b as aliases for each other. */
  function MutualAliases(): Query {
    Query([AddressOf(C_NAME), AliasOf(A_NAME, B_WIRE), AliasOf(B_NAME, A_WIRE)], TYPE_A, 0)
  }

  /** The lookup of a in this cache never ends. */
  lemma MutualAliasesNeverEnd()
    ensures GoodDb(MutualAliases()) && !LookupEnds(MutualAliases(), A_NAME)
  {
    var q := MutualAliases();
    OneLetter(q.db[1], 98);
    OneLetter(q.db[2], 97);
    assert FirstMatch(q, A_NAME, 0) == FirstMatch(q, A_NAME, 1) == Some(1);
    assert FirstMatch(q, B_NAME, 1) == FirstMatch(q, B_NAME, 2) == Some(2);
    AliasCycleNeverEnds(q, 1, 2, A_NAME);
  }

  /** A label of 192 octets. */
  function LongLabel(): (l: seq<Byte>)
    ensures |l| == 192
  {
    [1, 97, 192, 1] + seq(188, _ => 97)
  }

  /** Some address, then the line of the file that makes a an alias for that label. */
  function LongTarget(): Query {
    Query([AddressOf(C_NAME), EntryOf(A_NAME, 30, "IN", "CNAME", LongLabel(), [0, 0, 0, 0], 0)], TYPE_A, 0)
  }

  lemma NameLength()
    ensures NameBytes(LongLabel()) == [192] + LongLabel() + [0]
  {
    var ls := [LongLabel()];
    assert Dotted(ls) == LongLabel();
    TokensOfDotted(ls);
    assert ls[1..] == [];
    assert EncodeLabels(ls) == [192] + LongLabel();
  }

  lemma LongTargetData()
    ensures var w := AliasData(LongTarget().db[1]);
      |w| == BUFFER_MAX && w[0] == 192 && w[1] == 1 && w[2] == 97 && w[3] == 192 && w[4] == 1
  {
    var e := LongTarget().db[1];
    assert e.rr.rdata == NameBytes(LongLabel());
    NameLength();
    LabelFirst(e);
  }

  lemma LabelFirst(e: Entry)
    requires e.rr.rdata == [192] + LongLabel() + [0]
    ensures var w := AliasData(e);
      |w| == BUFFER_MAX && w[0] == 192 && w[1] == 1 && w[2] == 97 && w[3] == 192 && w[4] == 1
  {
    var l := LongLabel();
    assert l[0] == 1 && l[1] == 97 && l[2] == 192 && l[3] == 1;
    assert |e.rr.rdata| == 194;
    assert AliasData(e)[..194] == e.rr.rdata;
  }

  /** Its decoding goes from the pointer to the label and back. */
  lemma LongTargetLoops()
    ensures !Decodes(LongTarget().db[1])
  {
    var w := AliasData(LongTarget().db[1]);
    LongTargetData();
    LoopNeverEnds(w);
  }

  lemma LoopNeverEnds(w: seq<Byte>)
    requires |w| == BUFFER_MAX && w[0] == 192 && w[1] == 1 && w[2] == 97 && w[3] == 192 && w[4] == 1
    ensures !Ends(w, 0)
  {
    var next := WalkNext(w);
    assert next(0) == Some(1) && next(1) == Some(3) && next(3) == Some(1);
    assert After(next, 0, 1) == Some(1);
    assert After(next, 0, 3) == Some(1) by {
      assert After(next, 3, 1) == Some(1);
      assert After(next, 1, 2) == Some(1);
    }
    assert Repeats(next, 0);
    WalkHaltsIff(w, 0);
  }

  lemma LongTargetEntry()
    ensures |LongTarget().db| == 2
    ensures var e := LongTarget().db[1];
      e.rr.name == A_NAME && e.rr.rtype == CNAME && |e.rr.rdata| == 194 && e.expires == 30
  {
    NameLength();
  }

  lemma LongTargetIsGood()
    ensures GoodDb(LongTarget())
  {
    LongTargetLoops();
    LongTargetEntry();
  }

  lemma LongTargetFirst()
    ensures FirstMatch(LongTarget(), A_NAME, 0) == Some(1)
  {
    var q := LongTarget();
    LongTargetEntry();
    assert FirstMatch(q, A_NAME, 0) == FirstMatch(q, A_NAME, 1) == Some(1);
  }

  /** An alias that does not decode is never left. */
  lemma NotDecodingNeverEnds(q: Query, i: nat)
    requires IsAlias(q, i) && !Decodes(q.db[i])
    ensures !Repeats(AliasNext(q), i) && !AllDecode(q, i) && !Halts(CodeNext(q), i)
  {
    assert After(AliasNext(q), i, 0) == Some(i) && !DecodesAt(q, i);
    HaltsStep(AliasNext(q), i);
    HaltsIffNoRepeat(AliasNext(q), i, |q.db|);
    HaltsIffDecodingNoRepeat(q, i);
  }

  /** The lookup of a never ends, though it uses one alias only, and once: that alias's data is decoded for ever. */
  lemma LongTargetNeverEnds()
    ensures var q := LongTarget();
      && GoodDb(q) && FirstMatch(q, A_NAME, 0) == Some(1)
      && !Repeats(AliasNext(q), 1) && !AllDecode(q, 1) && !LookupEnds(q, A_NAME)
  {
    LongTargetLoops();
    LongTargetIsGood();
    LongTargetFirst();
    NotDecodingNeverEnds(LongTarget(), 1);
  }
}
