/** Exactly which names survive encoding and decoding. */
module DnsRoundTrips {
  import opened Bytes
  import opened Options
  import opened DnsName
  import opened DnsNameProperties
  import opened DnsRecord

  /** The length octet of every label reads as a length. */
  predicate ShortLabels(name: seq<Byte>) {
    forall l <- Tokens(name) :: |l| < COMPRESSED_VAL
  }

  /** No dot that separates nothing. */
  predicate Normal(name: seq<Byte>) {
    name == Dotted(Tokens(name))
  }

  /** Decoding at p gives a text that starts with the name, and ends where the encoding of the name ends. */
  ghost predicate DecodesTo(w: seq<Byte>, p: nat, name: seq<Byte>) {
    Ends(w, p) && name <= Walk(w, p) && AfterName(w, p) == p + |NameBytes(name)|
  }

  /** A length octet, a label and what follows them. */
  lemma LabelAt(w: seq<Byte>, p: nat, c: Byte, l: seq<Byte>, tail: seq<Byte>)
    requires HoldsAt(w, p, [c] + l + tail)
    ensures p < |w| && p + 1 + |l| <= |w| && w[p] == c && w[p + 1..p + 1 + |l|] == l && HoldsAt(w, p + 1 + |l|, tail)
  {
    Parts(w, p, [c] + l, tail);
    Parts(w, p, [c], l);
  }

  /** A name that starts with the label l. */
  predicate StartsWith(name: seq<Byte>, l: seq<Byte>, rest: seq<Byte>) {
    name == l + rest && l != [] && DOT !in l && (rest == [] || rest[0] == DOT)
  }

  lemma FirstToken(name: seq<Byte>, l: seq<Byte>, rest: seq<Byte>)
    requires StartsWith(name, l, rest)
    ensures Tokens(name) == [l] + Tokens(rest)
    ensures NameBytes(name) == [|l| % 256] + l + NameBytes(rest)
  {
    RunOf(l, rest);
    assert name[..|l|] == l && name[|l|..] == rest;
    assert name[0] == l[0] && l[0] in l;
    assert ([l] + Tokens(rest))[1..] == Tokens(rest);
    assert [|l| % 256] + l + EncodeLabels(Tokens(rest)) + [0] == [|l| % 256] + l + (EncodeLabels(Tokens(rest)) + [0]);
  }

  /** Where the octet after a label is not zero, the walk puts a dot. */
  lemma DotAfter(w: seq<Byte>, p: nat)
    requires Ends(w, p) && 0 < w[p] < COMPRESSED_VAL && p + 1 + w[p] < |w| && w[p + 1 + w[p]] != 0
    ensures w[p] < |Walk(w, p)| && Walk(w, p)[w[p]] == DOT && Walk(w, p)[0] == w[p + 1]
  {
    WalkStep(w, p);
    var a, b := w[p + 1..p + 1 + w[p]], Walk(w, p + 1 + w[p]);
    assert Walk(w, p) == a + [DOT] + b;
    assert (a + [DOT] + b)[|a|] == DOT && (a + [DOT] + b)[0] == a[0];
  }

  /** What the walk makes of a label whose length octet is its length cut to a char. */
  lemma CutLength(w: seq<Byte>, p: nat, l: seq<Byte>)
    requires Ends(w, p) && p + 1 + |l| < |w| && w[p + 1..p + 1 + |l|] == l && 0 !in l && w[p] == |l| % 256
    requires COMPRESSED_VAL <= |l|
    ensures w[p] == 0 || COMPRESSED_VAL <= w[p] ==> AfterName(w, p) <= p + 2
    ensures 0 < w[p] < COMPRESSED_VAL ==> w[p] < |l| && w[p] < |Walk(w, p)| && Walk(w, p)[w[p]] == DOT
  {
    if 0 < w[p] < COMPRESSED_VAL {
      assert w[p + 1 + w[p]] == w[p + 1..p + 1 + |l|][w[p]];
      assert l[w[p]] in l;
      DotAfter(w, p);
    }
  }

  /** A label of 192 octets or more: its octet ends the name too early, or puts a dot inside the label. */
  lemma LongLabelFails(w: seq<Byte>, p: nat, name: seq<Byte>, l: seq<Byte>, rest: seq<Byte>)
    requires HoldsAt(w, p, NameBytes(name)) && StartsWith(name, l, rest) && 0 !in name && COMPRESSED_VAL <= |l|
    ensures !DecodesTo(w, p, name)
  {
    FirstToken(name, l, rest);
    LabelAt(w, p, |l| % 256, l, NameBytes(rest));
    assert forall k :: 0 <= k < |l| ==> l[k] == name[k] && l[k] in name && l[k] in l;
    if Ends(w, p) {
      CutLength(w, p, l);
    }
  }

  /** The first two octets of an encoded name: a zero, or a length and something other than a dot. */
  lemma FirstOctets(w: seq<Byte>, p: nat, name: seq<Byte>)
    requires HoldsAt(w, p, NameBytes(name))
    ensures p < |w| && (w[p] == 0 || p + 1 < |w|)
    ensures w[p] == 0 ==> Tokens(name) == [] || |NameBytes(name)| > 1
    ensures w[p] != 0 ==> w[p + 1] != DOT && w[p] < |NameBytes(name)| - 1
  {
    var ls := Tokens(name);
    TokensAreLabels(name);
    if ls != [] {
      var tail := EncodeLabels(ls[1..]) + [0];
      assert NameBytes(name) == [|ls[0]| % 256] + ls[0] + tail;
      LabelAt(w, p, |ls[0]| % 256, ls[0], tail);
      assert ls[0][0] in ls[0] && w[p + 1] == w[p + 1..p + 1 + |ls[0]|][0];
    } else {
      assert w[p] == w[p..p + 1][0];
    }
  }

  lemma WalkFirst(w: seq<Byte>, p: nat)
    requires Ends(w, p)
    ensures p < |w| && (w[p] == 0 ==> Walk(w, p) == [] && AfterName(w, p) == p + 1)
    ensures 0 < w[p] < COMPRESSED_VAL ==> p + 1 < |w| && Walk(w, p) != [] && Walk(w, p)[0] == w[p + 1]
    ensures COMPRESSED_VAL <= w[p] ==> AfterName(w, p) == p + 2
  {
    WalkStep(w, p);
  }

  /** The walk over a name starts with its first label, never with a dot, or stops early. */
  lemma WalkStartsWithLabel(w: seq<Byte>, p: nat, name: seq<Byte>)
    requires HoldsAt(w, p, NameBytes(name)) && Ends(w, p)
    ensures Walk(w, p) == [] || Walk(w, p)[0] != DOT || AfterName(w, p) < p + |NameBytes(name)|
  {
    FirstOctets(w, p, name);
    WalkFirst(w, p);
  }

  /** A text that starts with a dot is never the result. */
  lemma LeadingDotFails(w: seq<Byte>, p: nat, name: seq<Byte>)
    requires HoldsAt(w, p, NameBytes(name)) && name != [] && name[0] == DOT
    ensures !DecodesTo(w, p, name)
  {
    if Ends(w, p) {
      WalkStartsWithLabel(w, p, name);
    }
  }

  lemma {:induction false} LongNameFails(w: seq<Byte>, p: nat, name: seq<Byte>)
    requires HoldsAt(w, p, NameBytes(name)) && 0 !in name && !ShortLabels(name)
    ensures !DecodesTo(w, p, name)
    decreases |name|
  {
    if name[0] == DOT {
      LeadingDotFails(w, p, name);
    } else {
      var l, rest := name[..Run(name)], name[Run(name)..];
      if COMPRESSED_VAL <= |l| {
        LongLabelFails(w, p, name, l, rest);
      } else {
        LongLater(w, p, name, l, rest);
        LongNameFails(w, p + 1 + |l|, rest[1..]);
      }
    }
  }

  /** A short first label hands the question on to what follows it. */
  lemma LongLater(w: seq<Byte>, p: nat, name: seq<Byte>, l: seq<Byte>, rest: seq<Byte>)
    requires HoldsAt(w, p, NameBytes(name)) && 0 !in name && !ShortLabels(name)
    requires StartsWith(name, l, rest) && |l| < COMPRESSED_VAL
    ensures rest != [] && HoldsAt(w, p + 1 + |l|, NameBytes(rest[1..])) && 0 !in rest[1..] && !ShortLabels(rest[1..])
    ensures DecodesTo(w, p, name) ==> DecodesTo(w, p + 1 + |l|, rest[1..])
  {
    FirstToken(name, l, rest);
    LabelAt(w, p, |l|, l, NameBytes(rest));
    assert !ShortLabels(rest);
    assert rest[0] == DOT && Tokens(rest) == Tokens(rest[1..]);
    assert forall c :: c in rest[1..] ==> c in name;
    if DecodesTo(w, p, name) {
      NextDecodes(w, p, l, rest);
    }
  }

  lemma AfterDot(text: seq<Byte>, l: seq<Byte>, rest: seq<Byte>, text': seq<Byte>)
    requires text == l + [DOT] + text' && l + rest <= text && rest != []
    ensures rest[1..] <= text'
  {
    assert rest[1..] == (l + rest)[|l| + 1..] <= text[|l| + 1..] == text';
  }

  lemma NextDecodes(w: seq<Byte>, p: nat, l: seq<Byte>, rest: seq<Byte>)
    requires Ends(w, p) && l + rest <= Walk(w, p) && AfterName(w, p) == p + 1 + |l| + |NameBytes(rest)|
    requires p + 1 + |l| < |w| && w[p] == |l| && 0 < |l| < COMPRESSED_VAL && w[p + 1..p + 1 + |l|] == l
    requires rest != [] && rest[0] == DOT && |NameBytes(rest)| > 1
    ensures DecodesTo(w, p + 1 + |l|, rest[1..])
  {
    var q := p + 1 + |l|;
    WalkStep(w, p);
    WalkStep(w, q);
    assert w[q] != 0;
    AfterDot(Walk(w, p), l, rest, Walk(w, q));
    assert NameBytes(rest[1..]) == NameBytes(rest);
  }

  /** The exact condition for the round trip of a C string, wherever its encoding stands. */
  lemma DecodesToIff(w: seq<Byte>, p: nat, name: seq<Byte>)
    requires HoldsAt(w, p, NameBytes(name)) && 0 !in name
    ensures Ends(w, p) && Walk(w, p) == name && AfterName(w, p) == p + |NameBytes(name)|
       <==> Normal(name) && ShortLabels(name)
    ensures Ends(w, p) && CString(Walk(w, p)) == name && AfterName(w, p) == p + |NameBytes(name)|
       <==> Normal(name) && ShortLabels(name)
  {
    if ShortLabels(name) {
      DecodeAt(w, p, name);
      TokensAreLabels(name);
      DottedHasNoZero(Tokens(name));
    } else {
      LongNameFails(w, p, name);
    }
  }

  lemma {:induction false} DottedHasNoZero(ls: seq<seq<Byte>>)
    requires forall i :: 0 <= i < |ls| ==> 0 !in ls[i]
    ensures 0 !in Dotted(ls)
  {
    if |ls| > 1 {
      DottedHasNoZero(ls[1..]);
    }
  }

  /** For labels joined by dots: every label has to be shorter than 192 octets. */
  lemma RoundTripIff(w: seq<Byte>, p: nat, ls: seq<seq<Byte>>)
    requires forall l <- ls :: l != [] && DOT !in l && 0 !in l
    requires HoldsAt(w, p, NameBytes(Dotted(ls)))
    ensures Ends(w, p) && Walk(w, p) == Dotted(ls) && AfterName(w, p) == p + |NameBytes(Dotted(ls))|
       <==> forall l <- ls :: |l| < COMPRESSED_VAL
  {
    assert forall i :: 0 <= i < |ls| ==> ls[i] in ls;
    TokensOfDotted(ls);
    DottedHasNoZero(ls);
    DecodesToIff(w, p, Dotted(ls));
  }

  // ---------- questions ----------

  /** Splitting and joining only removes dots. */
  lemma {:induction false} NormalFormIsShorter(name: seq<Byte>)
    ensures |Dotted(Tokens(name))| <= |name|
    decreases |name|
  {
    if name != [] {
      if name[0] == DOT {
        NormalFormIsShorter(name[1..]);
      } else {
        var l, rest := name[..Run(name)], name[Run(name)..];
        FirstToken(name, l, rest);
        if rest != [] {
          assert Tokens(rest) == Tokens(rest[1..]);
          NormalFormIsShorter(rest[1..]);
        }
        assert ([l] + Tokens(rest))[1..] == Tokens(rest);
      }
    }
  }

  lemma NormalFormIsText(name: seq<Byte>)
    requires 0 !in name
    ensures 0 !in Dotted(Tokens(name)) && |Dotted(Tokens(name))| <= |name|
  {
    TokensAreLabels(name);
    DottedHasNoZero(Tokens(name));
    NormalFormIsShorter(name);
  }

  /** Question mode on any encoded name whose lengths read as lengths: the name's normal form, and the four octets
      behind it. */
  lemma QuestionDecodes(w: seq<Byte>, p: nat, name: seq<Byte>, i: nat)
    requires 0 !in name && |name| < BUFFER_MAX && ShortLabels(name)
    requires HoldsAt(w, p, NameBytes(name)) && i == p + |NameBytes(name)| && i + 4 <= |w|
    ensures TryParse(w, p, true) == Some((Question(Dotted(Tokens(name)), Get16(w, i), Get16(w, i + 2)), i + 4))
  {
    DecodeAt(w, p, name);
    NormalFormIsText(name);
    QuestionFields(w, p, Dotted(Tokens(name)), i, Get16(w, i), Get16(w, i + 2));
  }

  /** What a question read back says about its name. */
  lemma QuestionNamed(w: seq<Byte>, p: nat, name: seq<Byte>, rtype: U16, rclass: U16, i: nat)
    requires TryParse(w, p, true) == Some((Question(name, rtype, rclass), i + 4))
    ensures Ends(w, p) && CString(Walk(w, p)) == name && AfterName(w, p) == i
  {
  }

  /** A record's question reads back from where rr_to_wire put the record iff its name is normal with short labels. */
  lemma QuestionRoundTripIff(w: seq<Byte>, p: nat, rr: RR, hole: Byte)
    requires 0 !in rr.name && |rr.name| < BUFFER_MAX && |rr.rdata| < 0x1_0000
    requires HoldsAt(w, p, RrBytes(rr, hole))
    ensures TryParse(w, p, true) == Some((Question(rr.name, rr.rtype, rr.rclass), p + |NameBytes(rr.name)| + 4))
       <==> Normal(rr.name) && ShortLabels(rr.name)
  {
    if Normal(rr.name) && ShortLabels(rr.name) {
      QuestionComesBack(w, p, rr, hole);
    } else {
      NameInRecord(w, p, rr, hole);
      QuestionIsLost(w, p, rr, p + |NameBytes(rr.name)|);
    }
  }

  lemma QuestionComesBack(w: seq<Byte>, p: nat, rr: RR, hole: Byte)
    requires 0 !in rr.name && |rr.name| < BUFFER_MAX && |rr.rdata| < 0x1_0000
    requires HoldsAt(w, p, RrBytes(rr, hole)) && Normal(rr.name) && ShortLabels(rr.name)
    ensures TryParse(w, p, true) == Some((Question(rr.name, rr.rtype, rr.rclass), p + |NameBytes(rr.name)| + 4))
  {
    NameInRecord(w, p, rr, hole);
    FieldsInRecord(w, p, rr, hole);
    QuestionStands(w, p, rr, p + |NameBytes(rr.name)|);
  }

  lemma QuestionIsLost(w: seq<Byte>, p: nat, rr: RR, i: nat)
    requires 0 !in rr.name && HoldsAt(w, p, NameBytes(rr.name)) && i == p + |NameBytes(rr.name)|
    requires !(Normal(rr.name) && ShortLabels(rr.name))
    ensures TryParse(w, p, true) != Some((Question(rr.name, rr.rtype, rr.rclass), i + 4))
  {
    if TryParse(w, p, true) == Some((Question(rr.name, rr.rtype, rr.rclass), i + 4)) {
      QuestionIsNormal(w, p, rr, i);
    }
  }

  lemma QuestionIsNormal(w: seq<Byte>, p: nat, rr: RR, i: nat)
    requires 0 !in rr.name && HoldsAt(w, p, NameBytes(rr.name)) && i == p + |NameBytes(rr.name)|
    requires TryParse(w, p, true) == Some((Question(rr.name, rr.rtype, rr.rclass), i + 4))
    ensures Normal(rr.name) && ShortLabels(rr.name)
  {
    QuestionNamed(w, p, rr.name, rr.rtype, rr.rclass, i);
    DecodesToIff(w, p, rr.name);
  }

  lemma QuestionStands(w: seq<Byte>, p: nat, rr: RR, i: nat)
    requires 0 !in rr.name && |rr.name| < BUFFER_MAX && Normal(rr.name) && ShortLabels(rr.name)
    requires HoldsAt(w, p, NameBytes(rr.name)) && i == p + |NameBytes(rr.name)| && FieldsAt(w, i, rr)
    ensures TryParse(w, p, true) == Some((Question(rr.name, rr.rtype, rr.rclass), i + 4))
  {
    QuestionDecodes(w, p, rr.name, i);
  }

  lemma NormalNotSkipped(name: seq<Byte>)
    requires Normal(name) && ShortLabels(name) && 0 !in name
    ensures !Skips(name)
  {
    var ls := Tokens(name);
    TokensAreLabels(name);
    assert forall i :: 0 <= i < |ls| ==> ls[i] in ls;
    CleanNameLength(ls);
  }

  /** Behind a normal name no octet is skipped: the fields stand right there. */
  lemma FieldsInRecord(w: seq<Byte>, p: nat, rr: RR, hole: Byte)
    requires Normal(rr.name) && ShortLabels(rr.name) && 0 !in rr.name
    requires |rr.rdata| < 0x1_0000 && HoldsAt(w, p, RrBytes(rr, hole))
    ensures FieldsAt(w, p + |NameBytes(rr.name)|, rr)
  {
    NormalNotSkipped(rr.name);
    FixedInRecord(w, p, rr, hole);
    FixedStands(w, p + |NameBytes(rr.name)|, rr);
  }

  lemma FixedInRecord(w: seq<Byte>, p: nat, rr: RR, hole: Byte)
    requires !Skips(rr.name) && |rr.rdata| < 0x1_0000 && HoldsAt(w, p, RrBytes(rr, hole))
    ensures HoldsAt(w, p + |NameBytes(rr.name)|, FixedBytes(rr))
  {
    RrBytesParts(rr, hole);
    Parts(w, p, NameBytes(rr.name), FixedBytes(rr));
  }

  lemma NameInRecord(w: seq<Byte>, p: nat, rr: RR, hole: Byte)
    requires |rr.rdata| < 0x1_0000 && HoldsAt(w, p, RrBytes(rr, hole))
    ensures HoldsAt(w, p, NameBytes(rr.name))
  {
    var tail := (if Skips(rr.name) then [hole] else []) + FixedBytes(rr);
    assert RrBytes(rr, hole) == NameBytes(rr.name) + tail;
    Parts(w, p, NameBytes(rr.name), tail);
  }

  // ---------- decoded names ----------

  /** No stretch without a dot is so long that its length would read as a pointer. */
  ghost predicate ShortRuns(s: seq<Byte>) {
    forall i, j :: 0 <= i <= j <= |s| && COMPRESSED_VAL <= j - i ==> DOT in s[i..j]
  }

  lemma ShortRunsOfPart(s: seq<Byte>, a: nat, b: nat)
    requires a <= b <= |s| && ShortRuns(s)
    ensures ShortRuns(s[a..b])
  {
    var t := s[a..b];
    forall i, j | 0 <= i <= j <= |t| && COMPRESSED_VAL <= j - i ensures DOT in t[i..j] {
      var k :| a + i <= k < a + j && s[k] == DOT by {
        assert DOT in s[a + i..a + j];
        var m :| 0 <= m < j - i && s[a + i..a + j][m] == DOT;
        assert s[a + i + m] == DOT;
      }
      assert t[i..j][k - a - i] == DOT;
    }
  }

  lemma ShortRunsJoined(l: seq<Byte>, rest: seq<Byte>)
    requires |l| < COMPRESSED_VAL && ShortRuns(rest)
    ensures ShortRuns(l + [DOT] + rest)
  {
    var s := l + [DOT] + rest;
    forall i, j | 0 <= i <= j <= |s| && COMPRESSED_VAL <= j - i ensures DOT in s[i..j] {
      if i > |l| {
        assert s[i..j] == rest[i - |l| - 1..j - |l| - 1];
      } else {
        assert s[i..j][|l| - i] == DOT;
      }
    }
  }

  lemma ShortRunsStep(l: seq<Byte>, dot: bool, rest: seq<Byte>)
    requires |l| < COMPRESSED_VAL && ShortRuns(rest) && (!dot ==> rest == [])
    ensures ShortRuns(l + (if dot then [DOT] else []) + rest)
  {
    if dot {
      ShortRunsJoined(l, rest);
    } else {
      assert l + [] + [] == l;
    }
  }

  lemma {:induction false} ShortRunsShortLabels(name: seq<Byte>)
    requires ShortRuns(name)
    ensures ShortLabels(name)
    decreases |name|
  {
    if name != [] {
      var k := if name[0] == DOT then 1 else Run(name);
      ShortRunsOfPart(name, k, |name|);
      assert name[k..|name|] == name[k..];
      ShortRunsShortLabels(name[k..]);
      if name[0] != DOT {
        assert name[0..k] == name[..k];
        assert Tokens(name) == [name[..k]] + Tokens(name[k..]);
      }
    }
  }

  lemma {:induction false} WalkHasShortRuns(w: seq<Byte>, p: nat)
    requires Ends(w, p)
    ensures ShortRuns(Walk(w, p))
    decreases TurnsLeft(w, p)
  {
    WalkStep(w, p);
    WalkTurn(w, p);
    if w[p] >= COMPRESSED_VAL {
      WalkHasShortRuns(w, w[p + 1]);
    } else if w[p] != 0 {
      var q := p + 1 + w[p];
      WalkHasShortRuns(w, q);
      WalkFirst(w, q);
      ShortRunsStep(w[p + 1..q], w[q] != 0, Walk(w, q));
    }
  }

  /** Whatever the decoder returns, its labels are short enough to be encoded again. */
  lemma DecodedIsShort(w: seq<Byte>, p: nat)
    requires Ends(w, p)
    ensures ShortLabels(CString(Walk(w, p)))
  {
    var text, name := Walk(w, p), CString(Walk(w, p));
    WalkHasShortRuns(w, p);
    ShortRunsOfPart(text, 0, |name|);
    assert text[0..|name|] == name;
    ShortRunsShortLabels(name);
  }
}
