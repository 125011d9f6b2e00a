/** The lookup of labs/dnsserverlab-handout/server.c against that of section 4.3.2 of RFC 1034. */
module DnsStandard {
  import opened Bytes
  import opened Options
  import opened Orbits
  import opened DnsName
  import opened DnsRecord
  import opened DnsRoundTrips
  import opened DnsServer
  import opened DnsServerProperties

  // ---------- the standard ----------

  /** The QTYPE and QCLASS that match everything. */
  const ANY: U16 := 255

  /** Names are compared without regard to the case of letters, label by label. */
  function Folded(name: seq<Byte>): seq<Byte> {
    seq(|name|, i requires 0 <= i < |name| => if 65 <= name[i] <= 90 then name[i] + 32 else name[i])
  }

  predicate SameName(a: seq<Byte>, b: seq<Byte>) {
    Tokens(Folded(a)) == Tokens(Folded(b))
  }

  predicate CodeMatches(code: U16, asked: U16) {
    asked == ANY || code == asked
  }

  /** Entry i is a record of this name and class that has not expired. */
  predicate AtNode(q: Query, cls: U16, name: seq<Byte>, i: nat) {
    && i < |q.db| && q.db[i].expires - q.now > 0
    && SameName(q.db[i].rr.name, name) && CodeMatches(q.db[i].rr.rclass, cls)
  }

  /** One of the node's aliases, or one of its records of the type asked for. */
  predicate Wanted(q: Query, cls: U16, name: seq<Byte>, aliases: bool, i: nat) {
    AtNode(q, cls, name, i) && if aliases then q.db[i].rr.rtype == CNAME else CodeMatches(q.db[i].rr.rtype, q.qtype)
  }

  function Records(q: Query, cls: U16, name: seq<Byte>, aliases: bool, from: nat): seq<nat>
    decreases |q.db| - from
  {
    if from >= |q.db| then []
    else (if Wanted(q, cls, name, aliases, from) then [from] else []) + Records(q, cls, name, aliases, from + 1)
  }

  /** An alias is followed unless aliases are what is asked for. */
  predicate Followed(q: Query, i: nat) {
    i < |q.db| && q.db[i].rr.rtype == CNAME && !CodeMatches(CNAME, q.qtype)
  }

  /** What step 3a copies into the answer section for a name: its alias, or else all records of the type asked for. */
  function Node(q: Query, cls: U16, name: seq<Byte>): seq<nat> {
    var aliases := Records(q, cls, name, true, 0);
    if !CodeMatches(CNAME, q.qtype) && aliases != [] then [aliases[0]] else Records(q, cls, name, false, 0)
  }

  function Head(s: seq<nat>): Option<nat> {
    if s == [] then None else Some(s[0])
  }

  /** From an alias to the first record of its target's node. */
  ghost function NodeNext(q: Query, cls: U16): Next {
    (i: nat) =>
      if !Followed(q, i) then None
      else if Decodes(q.db[i]) then Head(Node(q, cls, Target(q.db[i])))
      else Some(i)
  }

  ghost predicate RfcEnds(q: Query, cls: U16, name: seq<Byte>) {
    Node(q, cls, name) != [] ==> Halts(NodeNext(q, cls), Node(q, cls, name)[0])
  }

  ghost function RfcPath(q: Query, cls: U16, name: seq<Byte>): (path: seq<nat>)
    requires RfcEnds(q, cls, name) && Node(q, cls, name) != []
    ensures path != [] && path[0] == Node(q, cls, name)[0]
  {
    Path(NodeNext(q, cls), Node(q, cls, name)[0])
  }

  /** All that is copied at the entry where a path ends: the entry itself if it is an alias that leads nowhere. */
  function LastRecords(q: Query, cls: U16, last: nat): seq<nat> {
    if last < |q.db| && !Followed(q, last) then Node(q, cls, q.db[last].rr.name) else [last]
  }

  /** The answer section of section 4.3.2: the aliases on the way, then all records of the last node. */
  ghost function RfcAnswers(q: Query, cls: U16, name: seq<Byte>): seq<nat>
    requires RfcEnds(q, cls, name)
  {
    if Node(q, cls, name) == [] then [] else
      var path := RfcPath(q, cls, name);
      path[..|path| - 1] + LastRecords(q, cls, path[|path| - 1])
  }

  lemma {:induction false} RecordsAre(q: Query, cls: U16, name: seq<Byte>, aliases: bool, from: nat, i: nat)
    ensures i in Records(q, cls, name, aliases, from) <==> from <= i && Wanted(q, cls, name, aliases, i)
    decreases |q.db| - from
  {
    if from < |q.db| {
      RecordsAre(q, cls, name, aliases, from + 1, i);
    }
  }

  lemma {:induction false} FirstRecord(q: Query, cls: U16, name: seq<Byte>, aliases: bool, from: nat)
    ensures var rs := Records(q, cls, name, aliases, from);
      if rs == [] then forall i: nat :: from <= i ==> !Wanted(q, cls, name, aliases, i)
      else
        && from <= rs[0] && Wanted(q, cls, name, aliases, rs[0])
        && forall i: nat :: from <= i < rs[0] ==> !Wanted(q, cls, name, aliases, i)
    decreases |q.db| - from
  {
    if from < |q.db| {
      FirstRecord(q, cls, name, aliases, from + 1);
    }
  }

  /** A node depends on the name's labels only. */
  lemma {:induction false} SameNameSameRecords(q: Query, cls: U16, a: seq<Byte>, b: seq<Byte>, aliases: bool, from: nat)
    requires SameName(a, b)
    ensures Records(q, cls, a, aliases, from) == Records(q, cls, b, aliases, from)
    decreases |q.db| - from
  {
    if from < |q.db| {
      SameNameSameRecords(q, cls, a, b, aliases, from + 1);
      assert Wanted(q, cls, a, aliases, from) == Wanted(q, cls, b, aliases, from);
    }
  }

  lemma SameNameSameNode(q: Query, cls: U16, a: seq<Byte>, b: seq<Byte>)
    requires SameName(a, b)
    ensures Node(q, cls, a) == Node(q, cls, b)
  {
    SameNameSameRecords(q, cls, a, b, true, 0);
    SameNameSameRecords(q, cls, a, b, false, 0);
  }

  /** The first record of a node is one of its records, and its owner's node is that node. */
  lemma HeadOfNode(q: Query, cls: U16, name: seq<Byte>)
    requires Node(q, cls, name) != []
    ensures var i := Node(q, cls, name)[0];
      && AtNode(q, cls, name, i) && Node(q, cls, q.db[i].rr.name) == Node(q, cls, name)
      && (Followed(q, i) || CodeMatches(q.db[i].rr.rtype, q.qtype))
  {
    FirstRecord(q, cls, name, true, 0);
    FirstRecord(q, cls, name, false, 0);
    SameNameSameNode(q, cls, q.db[Node(q, cls, name)[0]].rr.name, name);
  }

  // ---------- when the program answers as the standard ----------

  /**
   Looking for a name from entry `from` on, the program finds what the standard copies first: that record is not passed
   over, its owner is spelled as the name is, and no entry in front of it will do for the program.
   */
  predicate Follows(q: Query, cls: U16, name: seq<Byte>, from: nat) {
    match Head(Node(q, cls, name))
    case None => forall j :: from <= j < |q.db| ==> !Matches(q, q.db[j], name)
    case Some(r) =>
      from <= r < |q.db| && q.db[r].rr.name == name && forall j :: from <= j < r ==> !Matches(q, q.db[j], name)
  }

  lemma FollowsIff(q: Query, cls: U16, name: seq<Byte>, from: nat)
    requires q.qtype != ANY
    ensures Follows(q, cls, name, from) <==> FirstMatch(q, name, from) == Head(Node(q, cls, name))
  {
    FirstMatchIsFirst(q, name, from);
    if Node(q, cls, name) != [] {
      HeadOfNode(q, cls, name);
    }
  }

  /** Every alias on the standard's way that decodes is followed alike. */
  ghost predicate FollowsAll(q: Query, cls: U16, first: nat) {
    forall k: nat :: After(NodeNext(q, cls), first, k).Some? ==>
      FollowsAt(q, cls, After(NodeNext(q, cls), first, k).value)
  }

  ghost predicate FollowsAt(q: Query, cls: U16, i: nat) {
    Followed(q, i) && Decodes(q.db[i]) ==> Follows(q, cls, Target(q.db[i]), 1)
  }

  lemma FollowsAtIff(q: Query, cls: U16, i: nat)
    requires q.qtype != ANY
    ensures FollowsAt(q, cls, i) <==> NodeNext(q, cls)(i) == CodeNext(q)(i)
  {
    assert Followed(q, i) <==> IsAlias(q, i);
    if Followed(q, i) && Decodes(q.db[i]) {
      FollowsIff(q, cls, Target(q.db[i]), 1);
    }
  }

  lemma FollowsAllIff(q: Query, cls: U16, first: nat)
    requires q.qtype != ANY
    ensures FollowsAll(q, cls, first) <==> SameOrbit(NodeNext(q, cls), CodeNext(q), first)
  {
    SameOrbitIff(NodeNext(q, cls), CodeNext(q), first);
    forall k: nat | After(NodeNext(q, cls), first, k).Some?
      ensures var i := After(NodeNext(q, cls), first, k).value;
        FollowsAt(q, cls, i) <==> NodeNext(q, cls)(i) == CodeNext(q)(i)
    {
      FollowsAtIff(q, cls, After(NodeNext(q, cls), first, k).value);
    }
    if FollowsAll(q, cls, first) {
      assert AgreeOn(NodeNext(q, cls), CodeNext(q), first);
    }
  }

  /** Question and aliases are followed alike, and there is only one record to copy in the end. */
  ghost predicate AnswerableAsStandard(q: Query, cls: U16, name: seq<Byte>)
    requires RfcEnds(q, cls, name)
  {
    && Follows(q, cls, name, 0)
    && (Node(q, cls, name) != [] ==>
          var path := RfcPath(q, cls, name);
          FollowsAll(q, cls, path[0]) && |LastRecords(q, cls, path[|path| - 1])| == 1)
  }

  /** Where the standard's answers start and end. */
  lemma RfcShape(q: Query, cls: U16, name: seq<Byte>)
    requires RfcEnds(q, cls, name) && Node(q, cls, name) != []
    ensures var path, answers := RfcPath(q, cls, name), RfcAnswers(q, cls, name);
      var n := |path| - 1; var last := LastRecords(q, cls, path[n]);
      && last != [] && last[0] == path[n] && answers == path[..n] + last && answers != [] && answers[0] == path[0]
  {
    var path := RfcPath(q, cls, name);
    var n := |path| - 1;
    PathHead(q, cls, name, n);
    FirstKept(path, LastRecords(q, cls, path[n]));
  }

  lemma FirstKept(path: seq<nat>, last: seq<nat>)
    requires path != [] && last != [] && last[0] == path[|path| - 1]
    ensures path[..|path| - 1] + last != [] && (path[..|path| - 1] + last)[0] == path[0]
  {
  }

  /** Every entry on the standard's way heads the node of its own name. */
  lemma PathHead(q: Query, cls: U16, name: seq<Byte>, k: nat)
    requires RfcEnds(q, cls, name) && Node(q, cls, name) != [] && k < |RfcPath(q, cls, name)|
    ensures var i := RfcPath(q, cls, name)[k];
      i < |q.db| && q.db[i].expires - q.now > 0 && Head(Node(q, cls, q.db[i].rr.name)) == Some(i)
      && (Followed(q, i) || CodeMatches(q.db[i].rr.rtype, q.qtype))
  {
    var first := Node(q, cls, name)[0];
    if k == 0 {
      HeadOfNode(q, cls, name);
    } else {
      PathSteps(NodeNext(q, cls), first, k - 1);
      var j := RfcPath(q, cls, name)[k - 1];
      PathHalts(NodeNext(q, cls), first, k - 1);
      RfcDecodes(q, cls, j);
      HeadOfNode(q, cls, Target(q.db[j]));
    }
  }

  lemma RfcDecodes(q: Query, cls: U16, i: nat)
    requires Halts(NodeNext(q, cls), i) && Followed(q, i)
    ensures Decodes(q.db[i])
  {
    TurnsStep(NodeNext(q, cls), i);
  }

  /**
   The exact condition, for any cache and class and every type but ANY: the program answers as the standard if and only
   if the name asked for and every target on the way are found alike, and the last node has a single record to copy.
   */
  lemma AnswersAsStandardIff(q: Query, cls: U16, name: seq<Byte>)
    requires q.qtype != ANY && RfcEnds(q, cls, name)
    ensures LookupEnds(q, name) && Answers(q, name) == RfcAnswers(q, cls, name) <==> AnswerableAsStandard(q, cls, name)
  {
    FollowsIff(q, cls, name, 0);
    if Node(q, cls, name) != [] {
      RfcShape(q, cls, name);
      if AnswerableAsStandard(q, cls, name) {
        FollowedAnswers(q, cls, name);
      }
      if LookupEnds(q, name) && Answers(q, name) == RfcAnswers(q, cls, name) {
        AnswersFollowed(q, cls, name);
      }
    }
  }

  lemma AnswersAre(q: Query, name: seq<Byte>, first: nat)
    requires FirstMatch(q, name, 0) == Some(first) && Halts(CodeNext(q), first)
    ensures LookupEnds(q, name) && Answers(q, name) == Path(CodeNext(q), first)
  {
  }

  /** With a single record in the end the standard's answers are the entries on its way. */
  lemma SingleAnswersArePath(q: Query, cls: U16, name: seq<Byte>)
    requires RfcEnds(q, cls, name) && Node(q, cls, name) != []
    requires var path := RfcPath(q, cls, name); |LastRecords(q, cls, path[|path| - 1])| == 1
    ensures RfcAnswers(q, cls, name) == RfcPath(q, cls, name)
  {
    RfcShape(q, cls, name);
    FrontAndLast(RfcPath(q, cls, name));
  }

  lemma FrontAndLast(path: seq<nat>)
    requires path != []
    ensures path[..|path| - 1] + [path[|path| - 1]] == path
  {
  }

  lemma FollowedAnswers(q: Query, cls: U16, name: seq<Byte>)
    requires q.qtype != ANY && RfcEnds(q, cls, name) && Node(q, cls, name) != [] && AnswerableAsStandard(q, cls, name)
    ensures LookupEnds(q, name) && Answers(q, name) == RfcAnswers(q, cls, name)
  {
    var first := Node(q, cls, name)[0];
    FollowsIff(q, cls, name, 0);
    FollowsAllIff(q, cls, first);
    SameOrbitSamePath(NodeNext(q, cls), CodeNext(q), first);
    AnswersAre(q, name, first);
    SingleAnswersArePath(q, cls, name);
  }

  lemma AnswersFollowed(q: Query, cls: U16, name: seq<Byte>)
    requires q.qtype != ANY && RfcEnds(q, cls, name) && Node(q, cls, name) != []
    requires LookupEnds(q, name) && Answers(q, name) == RfcAnswers(q, cls, name)
    ensures AnswerableAsStandard(q, cls, name)
  {
    FirstMatchFound(q, cls, name);
    PathsAreSame(q, cls, name);
    FollowsIff(q, cls, name, 0);
    SamePathSameOrbit(NodeNext(q, cls), CodeNext(q), RfcPath(q, cls, name)[0]);
    FollowsAllIff(q, cls, RfcPath(q, cls, name)[0]);
  }

  lemma PathsAreSame(q: Query, cls: U16, name: seq<Byte>)
    requires q.qtype != ANY && RfcEnds(q, cls, name) && Node(q, cls, name) != []
    requires LookupEnds(q, name) && Answers(q, name) == RfcAnswers(q, cls, name)
    requires FirstMatch(q, name, 0) == Some(RfcPath(q, cls, name)[0])
    ensures var path := RfcPath(q, cls, name);
      Path(CodeNext(q), path[0]) == path && |LastRecords(q, cls, path[|path| - 1])| == 1
  {
    var path := RfcPath(q, cls, name);
    CodePathIs(q, cls, name);
    EndsTogether(q, cls, name, LastRecords(q, cls, path[|path| - 1]));
    FrontAndLast(path);
  }

  lemma CodePathIs(q: Query, cls: U16, name: seq<Byte>)
    requires RfcEnds(q, cls, name) && Node(q, cls, name) != []
    requires LookupEnds(q, name) && Answers(q, name) == RfcAnswers(q, cls, name)
    requires FirstMatch(q, name, 0) == Some(RfcPath(q, cls, name)[0])
    ensures var path := RfcPath(q, cls, name); var n := |path| - 1; var last := LastRecords(q, cls, path[n]);
      Path(CodeNext(q), path[0]) == path[..n] + last && last != [] && last[0] == path[n]
  {
    RfcShape(q, cls, name);
    AnswersAre(q, name, RfcPath(q, cls, name)[0]);
  }

  lemma FirstMatchFound(q: Query, cls: U16, name: seq<Byte>)
    requires RfcEnds(q, cls, name) && Node(q, cls, name) != []
    requires LookupEnds(q, name) && Answers(q, name) == RfcAnswers(q, cls, name)
    ensures FirstMatch(q, name, 0) == Some(RfcPath(q, cls, name)[0])
  {
    RfcShape(q, cls, name);
  }

  /** The program stops at the last entry of the standard's way: more than one record is never copied there. */
  lemma EndsTogether(q: Query, cls: U16, name: seq<Byte>, last: seq<nat>)
    requires q.qtype != ANY && RfcEnds(q, cls, name) && Node(q, cls, name) != []
    requires var path := RfcPath(q, cls, name); var n := |path| - 1;
      && Halts(CodeNext(q), path[0]) && Path(CodeNext(q), path[0]) == path[..n] + last
      && last == LastRecords(q, cls, path[n]) && last != [] && last[0] == path[n]
    ensures last == [RfcPath(q, cls, name)[|RfcPath(q, cls, name)| - 1]]
  {
    var path := RfcPath(q, cls, name);
    var n := |path| - 1;
    if !Followed(q, path[n]) {
      var code := Path(CodeNext(q), path[0]);
      assert code[n] == path[n];
      PathHead(q, cls, name, n);
      PathSteps(CodeNext(q), path[0], n);
      assert |code| == n + 1;
    }
  }

  // ---------- orderly caches ----------

  /** A name as the decoder and the file's usual spelling give it: no capitals, no dots that separate nothing. */
  predicate Canonical(name: seq<Byte>) {
    Folded(name) == name && Normal(name)
  }

  lemma CanonicalSame(a: seq<Byte>, b: seq<Byte>)
    requires Canonical(a) && Canonical(b)
    ensures SameName(a, b) <==> a == b
  {
  }

  ghost predicate OrderlyEntry(q: Query, cls: U16, i: nat)
    requires i < |q.db|
  {
    && Canonical(q.db[i].rr.name) && CodeMatches(q.db[i].rr.rclass, cls)
    && (q.db[i].rr.rtype == CNAME && Decodes(q.db[i]) ==> Canonical(Target(q.db[i])))
  }

  /** Entries i and j of one name are not an alias and something else. */
  predicate AliasAlone(q: Query, i: nat, j: nat)
    requires i < |q.db| && j < |q.db|
  {
    q.db[i].rr.name == q.db[j].rr.name && q.db[i].rr.rtype == CNAME ==> i == j
  }

  /** All names are canonical, all records of the class asked for, and, as section 3.6.2 demands, aliases alone at their
      nodes. */
  ghost predicate Orderly(q: Query, cls: U16) {
    && (forall i :: 0 <= i < |q.db| && q.db[i].expires - q.now > 0 ==> OrderlyEntry(q, cls, i))
    && (forall i, j :: 0 <= i < |q.db| && 0 <= j < |q.db| && q.db[i].expires - q.now > 0 && q.db[j].expires - q.now > 0
          ==> AliasAlone(q, i, j))
  }

  /** There a name's node are the entries with that very name. */
  lemma OrderlyNode(q: Query, cls: U16, name: seq<Byte>, i: nat)
    requires Orderly(q, cls) && Canonical(name) && i < |q.db| && q.db[i].expires - q.now > 0
    ensures AtNode(q, cls, name, i) <==> q.db[i].rr.name == name
  {
    assert OrderlyEntry(q, cls, i);
    CanonicalSame(q.db[i].rr.name, name);
  }

  /** The scan of the whole cache finds what the standard copies first. */
  lemma OrderlyFollows(q: Query, cls: U16, name: seq<Byte>)
    requires Orderly(q, cls) && Canonical(name) && q.qtype != ANY
    ensures FirstMatch(q, name, 0) == Head(Node(q, cls, name))
  {
    FirstMatchIsFirst(q, name, 0);
    var m := FirstMatch(q, name, 0);
    if m.Some? {
      OrderlyNode(q, cls, name, m.value);
      MatchIsFirstRecord(q, cls, name, m.value);
    } else if Node(q, cls, name) != [] {
      var r := Node(q, cls, name)[0];
      HeadOfNode(q, cls, name);
      OrderlyNode(q, cls, name, r);
      assert Matches(q, q.db[r], name);
    }
  }

  lemma MatchIsFirstRecord(q: Query, cls: U16, name: seq<Byte>, m: nat)
    requires Orderly(q, cls) && Canonical(name) && q.qtype != ANY
    requires AtNode(q, cls, name, m) && q.db[m].rr.name == name
    requires q.db[m].rr.rtype == q.qtype || q.db[m].rr.rtype == CNAME
    requires forall i :: 0 <= i < m ==> !Matches(q, q.db[i], name)
    ensures Node(q, cls, name) != [] && Node(q, cls, name)[0] == m
  {
    FirstRecord(q, cls, name, true, 0);
    FirstRecord(q, cls, name, false, 0);
    assert Wanted(q, cls, name, q.db[m].rr.rtype == CNAME && q.qtype != CNAME, m);
    if Node(q, cls, name) != [] {
      var r := Node(q, cls, name)[0];
      HeadOfNode(q, cls, name);
      OrderlyNode(q, cls, name, r);
      assert Matches(q, q.db[r], name);
      assert AliasAlone(q, r, m) && AliasAlone(q, m, r);
    }
  }

  /** The two ways agree as far as both go over unexpired entries. */
  lemma OrderlyStep(q: Query, cls: U16, i: nat)
    requires Orderly(q, cls) && q.qtype != ANY && i < |q.db| && q.db[i].expires - q.now > 0
    ensures NodeNext(q, cls)(i) == WholeNext(q)(i)
  {
    assert OrderlyEntry(q, cls, i);
    if IsAlias(q, i) && Decodes(q.db[i]) {
      OrderlyFollows(q, cls, Target(q.db[i]));
    }
  }

  lemma {:induction false} OrderlyWay(q: Query, cls: U16, i: nat, k: nat)
    requires Orderly(q, cls) && q.qtype != ANY && i < |q.db| && q.db[i].expires - q.now > 0
    ensures After(NodeNext(q, cls), i, k) == After(WholeNext(q), i, k)
    decreases k
  {
    OrderlyStep(q, cls, i);
    if k > 0 && WholeNext(q)(i).Some? {
      if Decodes(q.db[i]) {
        FirstMatchIsFirst(q, Target(q.db[i]), 0);
      }
      OrderlyWay(q, cls, WholeNext(q)(i).value, k - 1);
    }
  }

  lemma OrderlySame(q: Query, cls: U16, first: nat)
    requires Orderly(q, cls) && q.qtype != ANY && first < |q.db| && q.db[first].expires - q.now > 0
    ensures SameOrbit(NodeNext(q, cls), WholeNext(q), first)
  {
    forall k: nat ensures After(NodeNext(q, cls), first, k) == After(WholeNext(q), first, k) {
      OrderlyWay(q, cls, first, k);
    }
  }

  /** Where the standard's lookup in an orderly cache begins, and that it is the scan of the whole cache. */
  lemma OrderlyStart(q: Query, cls: U16, name: seq<Byte>)
    requires Orderly(q, cls) && Canonical(name) && q.qtype != ANY && RfcEnds(q, cls, name) && Node(q, cls, name) != []
    ensures var first := Node(q, cls, name)[0];
      && FirstMatch(q, name, 0) == Some(first) && first < |q.db| && q.db[first].expires - q.now > 0
      && WholeEnds(q, name) && WholeAnswers(q, name) == RfcPath(q, cls, name)
  {
    var first := Node(q, cls, name)[0];
    OrderlyFollows(q, cls, name);
    HeadOfNode(q, cls, name);
    OrderlySame(q, cls, first);
    SameOrbitSamePath(NodeNext(q, cls), WholeNext(q), first);
  }

  /** One record is all there is to copy where the chain ends. */
  ghost predicate SingleInTheEnd(q: Query, cls: U16, chain: seq<nat>) {
    Found(q, chain) ==> |Records(q, cls, q.db[chain[|chain| - 1]].rr.name, false, 0)| == 1
  }

  /**
   In an orderly cache the program answers as the standard if and only if no alias on the way is answered by entry 0 and
   the last name has only one record of the type asked for.
   */
  lemma OrderlyAnswersIff(q: Query, cls: U16, name: seq<Byte>, first: nat)
    requires Orderly(q, cls) && Canonical(name) && q.qtype != ANY && RfcEnds(q, cls, name)
    requires FirstMatch(q, name, 0) == Some(first)
    ensures WholeEnds(q, name)
    ensures LookupEnds(q, name) && Answers(q, name) == RfcAnswers(q, cls, name)
       <==> AvoidsZero(q, first) && SingleInTheEnd(q, cls, WholeAnswers(q, name))
  {
    OrderlyAnswerable(q, cls, name, first);
    AnswersAsStandardIff(q, cls, name);
  }

  lemma OrderlyAnswerable(q: Query, cls: U16, name: seq<Byte>, first: nat)
    requires Orderly(q, cls) && Canonical(name) && q.qtype != ANY && RfcEnds(q, cls, name)
    requires FirstMatch(q, name, 0) == Some(first)
    ensures WholeEnds(q, name)
    ensures AnswerableAsStandard(q, cls, name)
       <==> AvoidsZero(q, first) && SingleInTheEnd(q, cls, WholeAnswers(q, name))
  {
    OrderlyFirst(q, cls, name, first);
    OrderlyAvoidsZero(q, cls, first);
    AnswerableIff(q, cls, name, first);
  }

  lemma AnswerableIff(q: Query, cls: U16, name: seq<Byte>, first: nat)
    requires q.qtype != ANY && RfcEnds(q, cls, name) && WholeEnds(q, name)
    requires Node(q, cls, name) != [] && Node(q, cls, name)[0] == first && Follows(q, cls, name, 0)
    requires WholeAnswers(q, name) == RfcPath(q, cls, name) && (FollowsAll(q, cls, first) <==> AvoidsZero(q, first))
    ensures AnswerableAsStandard(q, cls, name)
       <==> AvoidsZero(q, first) && SingleInTheEnd(q, cls, WholeAnswers(q, name))
  {
    OrderlyEnd(q, cls, name);
    AnswerableParts(q, cls, name, RfcPath(q, cls, name));
  }

  lemma AnswerableParts(q: Query, cls: U16, name: seq<Byte>, path: seq<nat>)
    requires RfcEnds(q, cls, name) && Node(q, cls, name) != [] && path == RfcPath(q, cls, name)
    ensures AnswerableAsStandard(q, cls, name) <==>
      Follows(q, cls, name, 0) && FollowsAll(q, cls, path[0]) && |LastRecords(q, cls, path[|path| - 1])| == 1
  {
  }

  lemma OrderlyFirst(q: Query, cls: U16, name: seq<Byte>, first: nat)
    requires Orderly(q, cls) && Canonical(name) && q.qtype != ANY && RfcEnds(q, cls, name)
    requires FirstMatch(q, name, 0) == Some(first)
    ensures Node(q, cls, name) != [] && Node(q, cls, name)[0] == first && Follows(q, cls, name, 0)
    ensures first < |q.db| && q.db[first].expires - q.now > 0
    ensures WholeEnds(q, name) && WholeAnswers(q, name) == RfcPath(q, cls, name)
  {
    OrderlyFollows(q, cls, name);
    OrderlyStart(q, cls, name);
    FollowsIff(q, cls, name, 0);
  }

  lemma OrderlyAvoidsZero(q: Query, cls: U16, first: nat)
    requires Orderly(q, cls) && q.qtype != ANY && first < |q.db| && q.db[first].expires - q.now > 0
    ensures FollowsAll(q, cls, first) <==> AvoidsZero(q, first)
  {
    OrderlySame(q, cls, first);
    FollowsAllIff(q, cls, first);
    AgreesWithWholeScanIff(q, first);
    SameOrbitChain(NodeNext(q, cls), WholeNext(q), CodeNext(q), first);
  }

  lemma SameOrbitChain(f: Next, g: Next, h: Next, x: nat)
    requires SameOrbit(f, g, x)
    ensures SameOrbit(f, h, x) <==> SameOrbit(g, h, x)
  {
    if SameOrbit(f, h, x) {
      forall k: nat ensures After(g, x, k) == After(h, x, k) {
        assert After(f, x, k) == After(g, x, k) && After(f, x, k) == After(h, x, k);
      }
    }
    if SameOrbit(g, h, x) {
      forall k: nat ensures After(f, x, k) == After(h, x, k) {
        assert After(f, x, k) == After(g, x, k) && After(g, x, k) == After(h, x, k);
      }
    }
  }

  lemma OrderlyEnd(q: Query, cls: U16, name: seq<Byte>)
    requires q.qtype != ANY && RfcEnds(q, cls, name) && Node(q, cls, name) != []
    ensures var path := RfcPath(q, cls, name);
      SingleInTheEnd(q, cls, path) <==> |LastRecords(q, cls, path[|path| - 1])| == 1
  {
    var path := RfcPath(q, cls, name);
    var last := path[|path| - 1];
    PathHead(q, cls, name, |path| - 1);
    var owner := q.db[last].rr.name;
    FirstRecord(q, cls, owner, true, 0);
  }

  // ---------- response codes ----------

  /** The name owns a record of some type: then section 4.3.2 knows no name error. */
  ghost predicate NameExists(q: Query, cls: U16, name: seq<Byte>) {
    exists i: nat :: AtNode(q, cls, name, i)
  }

  /** In an orderly cache the program reports a name error for every name that does not exist; and for an existing one
      only if that owns neither an alias nor the type asked for, or its aliases lead nowhere. */
  lemma NameErrorCases(q: Query, cls: U16, name: seq<Byte>)
    requires Orderly(q, cls) && Canonical(name) && GoodDb(q) && LookupEnds(q, name)
    ensures !NameExists(q, cls, name) ==> !Found(q, Answers(q, name))
    ensures var chain := Answers(q, name);
      NameExists(q, cls, name) ==>
        (!Found(q, chain) <==> chain == [] || LastIsDangling(q, chain[|chain| - 1]))
  {
    FirstMatchIsFirst(q, name, 0);
    AnswersFormAliasChain(q, name);
    if FirstMatch(q, name, 0).Some? {
      OrderlyNode(q, cls, name, FirstMatch(q, name, 0).value);
    }
  }

  // ---------- QTYPE ANY ----------

  /** Asked for all types, the program leaves out every record that is not an alias. */
  lemma AnyTypeIsIncomplete(q: Query, cls: U16, name: seq<Byte>, i: nat)
    requires q.qtype == ANY && LookupEnds(q, name) && RfcEnds(q, cls, name)
    requires AtNode(q, cls, name, i) && q.db[i].rr.rtype != CNAME && q.db[i].rr.rtype != ANY
    ensures i in RfcAnswers(q, cls, name) && i !in Answers(q, name)
  {
    RecordsAre(q, cls, name, false, 0, i);
    RfcShape(q, cls, name);
    HeadOfNode(q, cls, name);
    TurnsStep(NodeNext(q, cls), Node(q, cls, name)[0]);
    if i in Answers(q, name) {
      var k :| 0 <= k < |Answers(q, name)| && Answers(q, name)[k] == i;
      AnswerMatches(q, name, k);
    }
  }

  /** What the program sends is an alias or of the type asked for. */
  lemma AnswerMatches(q: Query, name: seq<Byte>, k: nat)
    requires LookupEnds(q, name) && k < |Answers(q, name)|
    ensures var i := Answers(q, name)[k]; i < |q.db| && (q.db[i].rr.rtype == q.qtype || q.db[i].rr.rtype == CNAME)
  {
    var first := FirstMatch(q, name, 0).value;
    FirstMatchIsFirst(q, name, 0);
    if k > 0 {
      PathSteps(CodeNext(q), first, k - 1);
      PathHalts(CodeNext(q), first, k - 1);
      var j := Answers(q, name)[k - 1];
      HaltingDecodes(q, j);
      FirstMatchIsFirst(q, Target(q.db[j]), 1);
    }
  }

  /** An alias is not followed then, and the answer is the node. */
  lemma AnyAnswers(q: Query, cls: U16, name: seq<Byte>)
    requires q.qtype == ANY
    ensures RfcEnds(q, cls, name) && RfcAnswers(q, cls, name) == Node(q, cls, name)
  {
    if Node(q, cls, name) != [] {
      var first := Node(q, cls, name)[0];
      HaltsStep(NodeNext(q, cls), first);
      TurnsStep(NodeNext(q, cls), first);
      HeadOfNode(q, cls, name);
    }
  }

  /** One record that the program sends, and leaves it at that. */
  ghost predicate SentAlone(q: Query, node: seq<nat>) {
    && |node| == 1 && node[0] < |q.db| && (q.db[node[0]].rr.rtype == CNAME || q.db[node[0]].rr.rtype == ANY)
    && CodeNext(q)(node[0]) == None
  }

  lemma SentAloneIsAnswer(q: Query, cls: U16, name: seq<Byte>)
    requires Orderly(q, cls) && Canonical(name) && q.qtype == ANY && SentAlone(q, Node(q, cls, name))
    ensures LookupEnds(q, name) && Answers(q, name) == Node(q, cls, name)
  {
    var r := Node(q, cls, name)[0];
    RecordsAre(q, cls, name, false, 0, r);
    OrderlyNode(q, cls, name, r);
    assert Matches(q, q.db[r], name);
    FirstMatchIsFirst(q, name, 0);
    var m := FirstMatch(q, name, 0).value;
    OrderlyNode(q, cls, name, m);
    RecordsAre(q, cls, name, false, 0, m);
    HaltsStep(CodeNext(q), r);
    TurnsStep(CodeNext(q), r);
    AnswersAre(q, name, r);
  }

  lemma AnswerIsSentAlone(q: Query, cls: U16, name: seq<Byte>)
    requires Orderly(q, cls) && Canonical(name) && q.qtype == ANY && Node(q, cls, name) != []
    requires LookupEnds(q, name) && Answers(q, name) == Node(q, cls, name)
    ensures SentAlone(q, Node(q, cls, name))
  {
    var node := Node(q, cls, name);
    FirstMatchIsFirst(q, name, 0);
    var r := node[0];
    PathSteps(CodeNext(q), r, 0);
    if |node| > 1 {
      AliasIsAll(q, cls, name, r, node[1]);
      TurnsStep(CodeNext(q), r);
      assert false;
    }
  }

  lemma AliasIsAll(q: Query, cls: U16, name: seq<Byte>, r: nat, r': nat)
    requires Orderly(q, cls) && Canonical(name) && r < |q.db| && q.db[r].rr.rtype == CNAME
    requires r in Records(q, cls, name, false, 0) && r' in Records(q, cls, name, false, 0)
    ensures r == r'
  {
    RecordsAre(q, cls, name, false, 0, r);
    RecordsAre(q, cls, name, false, 0, r');
    OrderlyNode(q, cls, name, r);
    OrderlyNode(q, cls, name, r');
    assert AliasAlone(q, r, r');
  }

  /** In an orderly cache the answers to such a question are the standard's if and only if the name does not exist, or
      has one record only, an alias that leads nowhere (or a record of that reserved type). */
  lemma AnyTypeIff(q: Query, cls: U16, name: seq<Byte>)
    requires Orderly(q, cls) && Canonical(name) && q.qtype == ANY
    ensures RfcEnds(q, cls, name)
    ensures LookupEnds(q, name) && Answers(q, name) == RfcAnswers(q, cls, name)
       <==> Node(q, cls, name) == [] || SentAlone(q, Node(q, cls, name))
  {
    AnyAnswers(q, cls, name);
    if Node(q, cls, name) == [] {
      NothingToSend(q, cls, name);
    } else if SentAlone(q, Node(q, cls, name)) {
      SentAloneIsAnswer(q, cls, name);
    } else if LookupEnds(q, name) && Answers(q, name) == Node(q, cls, name) {
      AnswerIsSentAlone(q, cls, name);
    }
  }

  lemma NothingToSend(q: Query, cls: U16, name: seq<Byte>)
    requires Orderly(q, cls) && Canonical(name) && q.qtype == ANY && Node(q, cls, name) == []
    ensures LookupEnds(q, name) && Answers(q, name) == []
  {
    FirstMatchIsFirst(q, name, 0);
    if FirstMatch(q, name, 0).Some? {
      var m := FirstMatch(q, name, 0).value;
      OrderlyNode(q, cls, name, m);
      RecordsAre(q, cls, name, false, 0, m);
    }
  }

  // ---------- the scan without its shortcut ----------

  /** A restart that looks at the whole cache again. */
  ghost function WholeNext(q: Query): Next {
    (i: nat) =>
      if !IsAlias(q, i) then None
      else if Decodes(q.db[i]) then FirstMatch(q, Target(q.db[i]), 0)
      else Some(i)
  }

  ghost predicate WholeEnds(q: Query, name: seq<Byte>) {
    FirstMatch(q, name, 0).Some? ==> Halts(WholeNext(q), FirstMatch(q, name, 0).value)
  }

  ghost function WholeAnswers(q: Query, name: seq<Byte>): seq<nat>
    requires WholeEnds(q, name)
  {
    match FirstMatch(q, name, 0)
    case None => []
    case Some(i) => Path(WholeNext(q), i)
  }

  /** This alias's target is answered by entry 0. */
  ghost predicate LeadsToZero(q: Query, i: nat) {
    IsAlias(q, i) && Decodes(q.db[i]) && FirstMatch(q, Target(q.db[i]), 0) == Some(0)
  }

  /** Starting at entry 1 instead of 0 makes a difference exactly when entry 0 would have been used. */
  lemma SkippingZero(q: Query, i: nat)
    ensures WholeNext(q)(i) == CodeNext(q)(i) <==> !LeadsToZero(q, i)
  {
    if IsAlias(q, i) && Decodes(q.db[i]) {
      var name := Target(q.db[i]);
      var here := 0 < |q.db| && Matches(q, q.db[0], name);
      assert FirstMatch(q, name, 0) == if here then Some(0) else FirstMatch(q, name, 1);
    }
  }

  /** No alias on the way is answered by entry 0. */
  ghost predicate AvoidsZero(q: Query, first: nat) {
    forall k: nat :: After(WholeNext(q), first, k).Some? ==> !LeadsToZero(q, After(WholeNext(q), first, k).value)
  }

  /** The program goes through the same entries as the scan of the whole cache if and only if no alias on the way is
      answered by entry 0. */
  lemma AgreesWithWholeScanIff(q: Query, first: nat)
    ensures SameOrbit(WholeNext(q), CodeNext(q), first) <==> AvoidsZero(q, first)
  {
    SameOrbitIff(WholeNext(q), CodeNext(q), first);
    forall k: nat | After(WholeNext(q), first, k).Some?
      ensures var i := After(WholeNext(q), first, k).value; WholeNext(q)(i) == CodeNext(q)(i) <==> !LeadsToZero(q, i)
    {
      SkippingZero(q, After(WholeNext(q), first, k).value);
    }
    if AvoidsZero(q, first) {
      assert AgreeOn(WholeNext(q), CodeNext(q), first);
    }
  }

  /** No alias points at the name of entry 0. */
  ghost predicate EntryZeroIsNoTarget(q: Query) {
    forall i :: 0 <= i < |q.db| && IsAlias(q, i) && Decodes(q.db[i]) ==> Target(q.db[i]) != q.db[0].rr.name
  }

  /** Then every question gets the answers of that scan, if it ends. */
  lemma AnswersAsWholeScan(q: Query, name: seq<Byte>)
    requires EntryZeroIsNoTarget(q) && WholeEnds(q, name)
    ensures LookupEnds(q, name) && Answers(q, name) == WholeAnswers(q, name)
  {
    if FirstMatch(q, name, 0).Some? {
      var first := FirstMatch(q, name, 0).value;
      forall k: nat | After(WholeNext(q), first, k).Some? ensures !LeadsToZero(q, After(WholeNext(q), first, k).value) {
        var i := After(WholeNext(q), first, k).value;
        if IsAlias(q, i) && Decodes(q.db[i]) {
          FirstMatchIsFirst(q, Target(q.db[i]), 0);
        }
      }
      AgreesWithWholeScanIff(q, first);
      SameOrbitSamePath(WholeNext(q), CodeNext(q), first);
    }
  }

  /** A question gets the answers of that scan if and only if no alias on the way is answered by entry 0. */
  lemma AnswersAsWholeScanIff(q: Query, name: seq<Byte>, first: nat)
    requires FirstMatch(q, name, 0) == Some(first) && WholeEnds(q, name) && LookupEnds(q, name)
    ensures Answers(q, name) == WholeAnswers(q, name) <==> AvoidsZero(q, first)
  {
    AgreesWithWholeScanIff(q, first);
    if AvoidsZero(q, first) {
      SameOrbitSamePath(WholeNext(q), CodeNext(q), first);
    }
    if Answers(q, name) == WholeAnswers(q, name) {
      SamePathSameOrbit(WholeNext(q), CodeNext(q), first);
    }
  }

  /** Where the program departs: an alias whose target is owned by entry 0 alone is answered as if it did not exist. */
  lemma TargetInEntryZeroIsMissed(q: Query, name: seq<Byte>, i: nat)
    requires FirstMatch(q, name, 0) == Some(i) && IsAlias(q, i) && Decodes(q.db[i])
    requires Matches(q, q.db[0], Target(q.db[i])) && q.db[0].rr.rtype == q.qtype
    requires forall j :: 1 <= j < |q.db| ==> q.db[j].rr.name != Target(q.db[i])
    ensures WholeNext(q)(i) == Some(0)
    ensures LookupEnds(q, name) && Answers(q, name) == [i] && !Found(q, [i])
  {
    FirstMatchIsFirst(q, Target(q.db[i]), 1);
    HaltsStep(CodeNext(q), i);
    TurnsStep(CodeNext(q), i);
  }
}
