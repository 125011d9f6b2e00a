/** What decoding a name yields: round trips, the expansion of RFC 1035 section 4.1.4, and when the walk ends. */
module DnsNameProperties {
  import opened Bytes
  import opened Options
  import opened Orbits
  import opened DnsName

  // ---------- round trip ----------

  /** A label that survives encoding: 1 to 191 octets (the standard allows 63), no dot, no zero. */
  predicate CleanLabel(l: seq<Byte>) {
    0 < |l| < COMPRESSED_VAL && DOT !in l && 0 !in l
  }

  predicate Clean(ls: seq<seq<Byte>>) {
    forall i :: 0 <= i < |ls| ==> CleanLabel(ls[i])
  }

  lemma RunOf(l: seq<Byte>, rest: seq<Byte>)
    requires DOT !in l && (rest == [] || rest[0] == DOT)
    ensures Run(l + rest) == |l|
  {
    var name, k := l + rest, Run(l + rest);
    assert forall j :: 0 <= j < |l| ==> name[j] == l[j];
    assert rest != [] ==> name[|l|] == DOT;
    assert forall j :: 0 <= j < k ==> name[j] == name[..k][j];
  }

  /** Splitting a dotted name gives back its labels. */
  lemma {:induction false} TokensOfDotted(ls: seq<seq<Byte>>)
    requires forall i :: 0 <= i < |ls| ==> ls[i] != [] && DOT !in ls[i]
    ensures Tokens(Dotted(ls)) == ls
  {
    if ls != [] {
      var rest := if |ls| == 1 then [] else [DOT] + Dotted(ls[1..]);
      assert Dotted(ls) == ls[0] + rest;
      RunOf(ls[0], rest);
      assert (ls[0] + rest)[..|ls[0]|] == ls[0] && (ls[0] + rest)[|ls[0]|..] == rest;
      TokensOfDotted(ls[1..]);
      if |ls| > 1 {
        assert rest[1..] == Dotted(ls[1..]);
      }
      assert ls == [ls[0]] + ls[1..];
    }
  }

  /** Every token is a non-empty dot-free run. */
  lemma {:induction false} TokensAreLabels(name: seq<Byte>)
    ensures forall i :: 0 <= i < |Tokens(name)| ==> Tokens(name)[i] != [] && DOT !in Tokens(name)[i]
    ensures 0 !in name ==> forall i :: 0 <= i < |Tokens(name)| ==> 0 !in Tokens(name)[i]
    decreases |name|
  {
    if name != [] {
      if name[0] == DOT {
        TokensAreLabels(name[1..]);
      } else {
        TokensAreLabels(name[Run(name)..]);
      }
    }
  }

  /** No label is empty or so long that its length octet reads as a pointer. */
  predicate Short(ls: seq<seq<Byte>>) {
    forall i :: 0 <= i < |ls| ==> 0 < |ls[i]| < COMPRESSED_VAL
  }

  lemma ShortTail(ls: seq<seq<Byte>>)
    requires Short(ls) && ls != []
    ensures Short(ls[1..])
  {
  }

  /** The bytes of a list of labels, and the zero octet after them, stand at p. */
  ghost predicate Standing(w: seq<Byte>, p: nat, ls: seq<seq<Byte>>) {
    && Short(ls)
    && p + |EncodeLabels(ls)| < |w|
    && w[p..p + |EncodeLabels(ls)|] == EncodeLabels(ls)
    && w[p + |EncodeLabels(ls)|] == 0
  }

  lemma EncodeFirst(ls: seq<seq<Byte>>)
    requires ls != [] && |ls[0]| < COMPRESSED_VAL
    ensures EncodeLabels(ls) == [|ls[0]|] + ls[0] + EncodeLabels(ls[1..])
  {
  }

  lemma LabelParts(w: seq<Byte>, p: nat, l: seq<Byte>, tail: seq<Byte>)
    requires |l| < COMPRESSED_VAL && p + 1 + |l| + |tail| <= |w|
    requires w[p..p + 1 + |l| + |tail|] == [|l|] + l + tail
    ensures w[p] == |l| && w[p + 1..p + 1 + |l|] == l && w[p + 1 + |l|..p + 1 + |l| + |tail|] == tail
  {
    Parts(w, p, [|l|] + l, tail);
    Parts(w, p, [|l|], l);
  }

  lemma StandingFirst(w: seq<Byte>, p: nat, ls: seq<seq<Byte>>)
    requires Standing(w, p, ls) && ls != []
    ensures w[p] == |ls[0]| && p + 1 + |ls[0]| < |w| && w[p + 1..p + 1 + |ls[0]|] == ls[0]
    ensures Standing(w, p + 1 + |ls[0]|, ls[1..])
    ensures |EncodeLabels(ls)| == 1 + |ls[0]| + |EncodeLabels(ls[1..])|
  {
    EncodeFirst(ls);
    LabelParts(w, p, ls[0], EncodeLabels(ls[1..]));
    ShortTail(ls);
  }

  lemma Parts(w: seq<Byte>, p: nat, a: seq<Byte>, b: seq<Byte>)
    requires p + |a| + |b| <= |w| && w[p..p + |a| + |b|] == a + b
    ensures w[p..p + |a|] == a && w[p + |a|..p + |a| + |b|] == b
    ensures |a| > 0 ==> w[p] == a[0]
  {
    var ab := w[p..p + |a| + |b|];
    assert w[p..p + |a|] == ab[..|a|];
    assert w[p + |a|..p + |a| + |b|] == ab[|a|..];
    assert |a| > 0 ==> ab[0] == w[p];
  }

  /** A label at p, in front of octets that decode. */
  lemma WalkLabel(w: seq<Byte>, p: nat, l: seq<Byte>)
    requires 0 < |l| < COMPRESSED_VAL && p + 1 + |l| < |w| && w[p] == |l| && w[p + 1..p + 1 + |l|] == l
    requires Ends(w, p + 1 + |l|)
    ensures Ends(w, p) && AfterName(w, p) == AfterName(w, p + 1 + |l|)
    ensures Walk(w, p) == l + (if w[p + 1 + |l|] != 0 then [DOT] else []) + Walk(w, p + 1 + |l|)
  {
    EndsStep(w, p);
    WalkStep(w, p);
  }

  /** Wherever the bytes of a list of labels stand, the decoder reads those labels and steps just past them. */
  lemma {:induction false} WalkEncoded(w: seq<Byte>, p: nat, ls: seq<seq<Byte>>)
    requires Standing(w, p, ls)
    ensures Ends(w, p) && Walk(w, p) == Dotted(ls)
    ensures AfterName(w, p) == p + |EncodeLabels(ls)| + 1
    decreases |ls|
  {
    if ls == [] {
      EndsStep(w, p);
      WalkStep(w, p);
    } else {
      var l, q := ls[0], p + 1 + |ls[0]|;
      StandingFirst(w, p, ls);
      WalkEncoded(w, q, ls[1..]);
      WalkLabel(w, p, l);
      if |ls| > 1 {
        StandingFirst(w, q, ls[1..]);
      } else {
        assert l + [] + [] == l;
      }
    }
  }

  /** The buffer holds these octets from p on. */
  ghost predicate HoldsAt(w: seq<Byte>, p: nat, bytes: seq<Byte>) {
    p + |bytes| <= |w| && w[p..p + |bytes|] == bytes
  }

  lemma HoldsMiddle(before: seq<Byte>, bytes: seq<Byte>, after: seq<Byte>)
    ensures HoldsAt(before + bytes + after, |before|, bytes)
  {
  }

  /** Decoding where the encoding of a name stands gives its labels joined by single dots. */
  lemma DecodeAt(w: seq<Byte>, p: nat, name: seq<Byte>)
    requires forall i :: 0 <= i < |Tokens(name)| ==> |Tokens(name)[i]| < COMPRESSED_VAL
    requires HoldsAt(w, p, NameBytes(name))
    ensures Ends(w, p)
    ensures Walk(w, p) == Dotted(Tokens(name))
    ensures AfterName(w, p) == p + |NameBytes(name)|
  {
    var e := EncodeLabels(Tokens(name));
    TokensAreLabels(name);
    Parts(w, p, e, [0]);
    assert w[p + |e|..p + |e| + 1][0] == 0;
    WalkEncoded(w, p, Tokens(name));
  }

  /** Encoding any name whose labels are short enough and decoding it anywhere gives its labels joined by single
      dots. */
  lemma DecodeOfEncode(before: seq<Byte>, name: seq<Byte>, after: seq<Byte>)
    requires forall i :: 0 <= i < |Tokens(name)| ==> |Tokens(name)[i]| < COMPRESSED_VAL
    ensures var w := before + NameBytes(name) + after;
      && Ends(w, |before|)
      && Walk(w, |before|) == Dotted(Tokens(name))
      && AfterName(w, |before|) == |before| + |NameBytes(name)|
  {
    HoldsMiddle(before, NameBytes(name), after);
    DecodeAt(before + NameBytes(name) + after, |before|, name);
  }

  /** The round trip: a dotted name of clean labels comes back unchanged, at any offset, and the index moves by its
      length. */
  lemma RoundTrip(before: seq<Byte>, ls: seq<seq<Byte>>, after: seq<Byte>)
    requires Clean(ls)
    ensures var w := before + NameBytes(Dotted(ls)) + after;
      && Ends(w, |before|)
      && Walk(w, |before|) == Dotted(ls)
      && AfterName(w, |before|) == |before| + |NameBytes(Dotted(ls))|
  {
    TokensOfDotted(ls);
    DecodeOfEncode(before, Dotted(ls), after);
  }

  /** A second round trip changes nothing. */
  lemma NormalFormIsStable(name: seq<Byte>)
    ensures NameBytes(Dotted(Tokens(name))) == NameBytes(name)
  {
    TokensAreLabels(name);
    TokensOfDotted(Tokens(name));
  }

  /** The length octet of a label of 192 to 255 octets reads as a pointer, and the name seems to end right behind it. */
  lemma LongLabelIsPointer(w: seq<Byte>, p: nat, l: seq<Byte>)
    requires COMPRESSED_VAL <= |l| < 256 && p + 1 + |l| < |w| && w[p..p + 1 + |l|] == [|l|] + l
    ensures WalkNext(w)(p) == Some(l[0]) && AfterName(w, p) == p + 2
  {
    assert w[p] == |l| && w[p + 1] == l[0];
  }

  // ---------- when the walk ends ----------

  /** A position never moves further than one longest label past the end of the buffer. */
  lemma WalkWithin(w: seq<Byte>)
    ensures Within(WalkNext(w), |w| + 256)
  {
  }

  /** The decoding loop stops if and only if it never stands on the same octet twice; |w| + 256 turns tell. */
  lemma WalkHaltsIff(w: seq<Byte>, p: nat)
    ensures Halts(WalkNext(w), p) <==> !Repeats(WalkNext(w), p)
    ensures Halts(WalkNext(w), p) <==> HaltsIn(WalkNext(w), p, |w| + 256)
  {
    WalkWithin(w);
    HaltsIffNoRepeat(WalkNext(w), p, |w| + 256);
  }

  /** Every pointer met targets an offset below the start of the run of labels in which it stands. */
  predicate PointersDescend(w: seq<Byte>, p: nat, start: nat)
    decreases start, |w| - p
  {
    p < |w| &&
    (w[p] == 0 ||
     if w[p] < COMPRESSED_VAL then PointersDescend(w, p + 1 + w[p], start)
     else p + 1 < |w| && w[p + 1] < start && PointersDescend(w, w[p + 1], w[p + 1]))
  }

  lemma {:induction false} DescendingPointersEnd(w: seq<Byte>, p: nat, start: nat)
    requires PointersDescend(w, p, start)
    ensures Ends(w, p)
    decreases start, |w| - p
  {
    EndsStep(w, p);
    if w[p] != 0 {
      if w[p] < COMPRESSED_VAL {
        DescendingPointersEnd(w, p + 1 + w[p], start);
      } else {
        DescendingPointersEnd(w, w[p + 1], w[p + 1]);
      }
    }
  }

  /** Pointing below the pointer itself is not enough: label "a" followed by a pointer back to that label. */
  lemma BackwardPointerCanCycle()
    ensures var w: seq<Byte> := [1, 97, 192, 0];
      && w[3] < 2
      && !Ends(w, 0) && !Ends(w, 2)
  {
    var w: seq<Byte> := [1, 97, 192, 0];
    var next := WalkNext(w);
    assert next(0) == Some(2) && next(2) == Some(0);
    assert After(next, 0, 2) == Some(0) by {
      assert After(next, 2, 1) == Some(0);
    }
    assert After(next, 2, 2) == Some(2) by {
      assert After(next, 0, 1) == Some(2);
    }
    assert After(next, 0, 0) == Some(0) && After(next, 2, 0) == Some(2);
    assert Repeats(next, 0) && Repeats(next, 2);
    WalkHaltsIff(w, 0);
    WalkHaltsIff(w, 2);
  }

  // ---------- the labels, and the trailing dot ----------

  /** The labels along the walk. */
  ghost function Labels(w: seq<Byte>, p: nat): seq<seq<Byte>>
    requires Ends(w, p)
    decreases TurnsLeft(w, p)
  {
    WalkTurn(w, p);
    if w[p] == 0 then []
    else if w[p] < COMPRESSED_VAL then [w[p + 1..p + 1 + w[p]]] + Labels(w, p + 1 + w[p])
    else Labels(w, w[p + 1])
  }

  /** The last label is followed by a pointer to a zero octet instead of by a zero octet. */
  ghost predicate RootPointer(w: seq<Byte>, p: nat)
    requires Ends(w, p)
    decreases TurnsLeft(w, p)
  {
    WalkTurn(w, p);
    if w[p] == 0 then false
    else if w[p] < COMPRESSED_VAL then
      (w[p + 1 + w[p]] >= COMPRESSED_VAL && Labels(w, p + 1 + w[p]) == []) || RootPointer(w, p + 1 + w[p])
    else RootPointer(w, w[p + 1])
  }

  lemma {:induction false} NoLabels(w: seq<Byte>, p: nat)
    requires Ends(w, p) && Labels(w, p) == []
    ensures Walk(w, p) == [] && !RootPointer(w, p) && p < |w| && (w[p] == 0 || w[p] >= COMPRESSED_VAL)
    decreases TurnsLeft(w, p)
  {
    WalkStep(w, p);
    if w[p] >= COMPRESSED_VAL {
      NoLabels(w, w[p + 1]);
    }
  }

  /** A label in front of a dotted text: with a dot in between, unless nothing follows. */
  lemma DottedFirst(l: seq<Byte>, dot: bool, ls: seq<seq<Byte>>, tail: seq<Byte>)
    requires ls != [] ==> dot
    requires ls == [] ==> tail == []
    ensures l + (if dot then [DOT] else []) + (Dotted(ls) + tail)
         == Dotted([l] + ls) + if ls == [] && dot then [DOT] else tail
  {
    assert ([l] + ls)[1..] == ls;
    if ls == [] {
      assert l + (if dot then [DOT] else []) + ([] + []) == l + if dot then [DOT] else [];
    } else {
      assert l + [DOT] + (Dotted(ls) + tail) == (l + [DOT] + Dotted(ls)) + tail;
    }
  }

  /** Labels and trailing dot, one turn on. */
  lemma LabelsStep(w: seq<Byte>, p: nat)
    requires Ends(w, p)
    ensures p < |w| && (w[p] == 0 ==> Labels(w, p) == [] && !RootPointer(w, p))
    ensures 0 < w[p] < COMPRESSED_VAL ==>
      && p + 1 + w[p] < |w| && Ends(w, p + 1 + w[p])
      && Labels(w, p) == [w[p + 1..p + 1 + w[p]]] + Labels(w, p + 1 + w[p])
      && (RootPointer(w, p) <==>
            (w[p + 1 + w[p]] >= COMPRESSED_VAL && Labels(w, p + 1 + w[p]) == []) || RootPointer(w, p + 1 + w[p]))
    ensures COMPRESSED_VAL <= w[p] ==>
      && p + 1 < |w| && Ends(w, w[p + 1])
      && Labels(w, p) == Labels(w, w[p + 1]) && (RootPointer(w, p) <==> RootPointer(w, w[p + 1]))
  {
    WalkTurn(w, p);
  }

  /** The text: the labels joined by dots, and a further dot if a pointer leads from the last label to the root. */
  ghost predicate IsDotted(w: seq<Byte>, p: nat)
    requires Ends(w, p)
  {
    Walk(w, p) == Dotted(Labels(w, p)) + if RootPointer(w, p) then [DOT] else []
  }

  /** The text of a label and of what follows it. */
  lemma LabelText(w: seq<Byte>, p: nat)
    requires Ends(w, p) && 0 < w[p] < COMPRESSED_VAL
    ensures var q := p + 1 + w[p];
      q < |w| && Ends(w, q) && Walk(w, p) == w[p + 1..q] + (if w[q] != 0 then [DOT] else []) + Walk(w, q)
  {
    WalkStep(w, p);
  }

  /** What comes after a label: nothing, a pointer to the root, or more labels. */
  lemma AfterLabel(w: seq<Byte>, q: nat)
    requires Ends(w, q)
    ensures q < |w| && (Labels(w, q) == [] ==> !RootPointer(w, q) && (w[q] == 0 || COMPRESSED_VAL <= w[q]))
    ensures Labels(w, q) != [] ==> w[q] != 0
  {
    LabelsStep(w, q);
    if Labels(w, q) == [] {
      NoLabels(w, q);
    }
  }

  lemma LabelIsDotted(w: seq<Byte>, p: nat)
    requires Ends(w, p) && 0 < w[p] < COMPRESSED_VAL
    requires Ends(w, p + 1 + w[p]) && IsDotted(w, p + 1 + w[p])
    ensures IsDotted(w, p)
  {
    var q := p + 1 + w[p];
    LabelText(w, p);
    LabelsStep(w, p);
    AfterLabel(w, q);
    DottedFirst(w[p + 1..q], w[q] != 0, Labels(w, q), if RootPointer(w, q) then [DOT] else []);
  }

  /** The decoded text is the labels joined by dots, with one extra dot exactly when a pointer leads from the
      last label to the root. */
  lemma {:induction false} WalkIsDotted(w: seq<Byte>, p: nat)
    requires Ends(w, p)
    ensures IsDotted(w, p)
    decreases TurnsLeft(w, p)
  {
    WalkTurn(w, p);
    if w[p] >= COMPRESSED_VAL {
      WalkIsDotted(w, w[p + 1]);
      PointerIsDotted(w, p);
    } else if w[p] != 0 {
      WalkIsDotted(w, p + 1 + w[p]);
      LabelIsDotted(w, p);
    } else {
      ZeroIsDotted(w, p);
    }
  }

  lemma PointerIsDotted(w: seq<Byte>, p: nat)
    requires Ends(w, p) && COMPRESSED_VAL <= w[p] && p + 1 < |w| && Ends(w, w[p + 1]) && IsDotted(w, w[p + 1])
    ensures IsDotted(w, p)
  {
    WalkStep(w, p);
    LabelsStep(w, p);
  }

  lemma ZeroIsDotted(w: seq<Byte>, p: nat)
    requires Ends(w, p) && w[p] == 0
    ensures IsDotted(w, p)
  {
    WalkStep(w, p);
    LabelsStep(w, p);
  }

  lemma DottedIffNoRootPointer(w: seq<Byte>, p: nat)
    requires Ends(w, p)
    ensures Walk(w, p) == Dotted(Labels(w, p)) <==> !RootPointer(w, p)
  {
    WalkIsDotted(w, p);
    assert |Dotted(Labels(w, p)) + [DOT]| == |Dotted(Labels(w, p))| + 1;
  }

  // ---------- RFC 1035 section 4.1.4 ----------

  /** The standard's step: labels have at most 63 octets, and a pointer's offset is 14 bits wide. */
  function RfcNext(w: seq<Byte>): Next {
    (p: nat) =>
      if p < |w| && w[p] != 0 then
        if w[p] < 64 then Some(p + 1 + w[p])
        else if w[p] >= COMPRESSED_VAL && p + 1 < |w| then Some((w[p] - COMPRESSED_VAL) * 256 + w[p + 1])
        else None
      else None
  }

  /** `labels` is what section 4.1.4 says a name at p stands for, read in k turns. */
  ghost predicate RfcExpands(w: seq<Byte>, p: nat, labels: seq<seq<Byte>>, k: nat)
    decreases k
  {
    p < |w| &&
    if w[p] == 0 then labels == []
    else
      && k > 0 && RfcNext(w)(p).Some?
      && var q := RfcNext(w)(p).value;
      if w[p] < 64 then
        q <= |w| && labels != [] && labels[0] == w[p + 1..q] && RfcExpands(w, q, labels[1..], k - 1)
      else RfcExpands(w, q, labels, k - 1)
  }

  /** Every pointer on the standard's walk is the octet 0xC0 and one more. */
  ghost predicate OneOctetPointers(w: seq<Byte>, p: nat) {
    forall k: nat :: After(RfcNext(w), p, k).Some? ==> OneOctetAt(w, After(RfcNext(w), p, k).value)
  }

  ghost predicate OneOctetAt(w: seq<Byte>, q: nat) {
    q < |w| ==> w[q] <= COMPRESSED_VAL
  }

  /** Along a name that the standard can expand there is no octet from 64 to 191 and no broken pointer. */
  lemma {:induction false} ExpansionIsWellFormed(w: seq<Byte>, p: nat, labels: seq<seq<Byte>>, k: nat, m: nat)
    requires RfcExpands(w, p, labels, k) && After(RfcNext(w), p, m).Some?
    ensures var q := After(RfcNext(w), p, m).value;
      q < |w| && (w[q] < 64 || (w[q] >= COMPRESSED_VAL && q + 1 < |w|))
    decreases m
  {
    if m > 0 {
      var q := RfcNext(w)(p).value;
      ExpansionIsWellFormed(w, q, if w[p] < 64 then labels[1..] else labels, k - 1, m - 1);
    }
  }

  /** For a name the standard can expand, the program visits the standard's positions exactly when all its
      pointers fit in one octet: it drops the six high bits of the others. */
  lemma SameWalkAsStandardIff(w: seq<Byte>, p: nat, labels: seq<seq<Byte>>, k: nat)
    requires RfcExpands(w, p, labels, k)
    ensures SameOrbit(RfcNext(w), WalkNext(w), p) <==> OneOctetPointers(w, p)
  {
    SameOrbitIff(RfcNext(w), WalkNext(w), p);
    forall m: nat | After(RfcNext(w), p, m).Some?
      ensures var q := After(RfcNext(w), p, m).value;
        RfcNext(w)(q) == WalkNext(w)(q) <==> OneOctetAt(w, q)
    {
      ExpansionIsWellFormed(w, p, labels, k, m);
    }
    if OneOctetPointers(w, p) {
      assert AgreeOn(RfcNext(w), WalkNext(w), p);
    }
  }

  lemma NextOneOctetPointers(w: seq<Byte>, p: nat)
    requires OneOctetPointers(w, p) && RfcNext(w)(p).Some?
    ensures OneOctetAt(w, p) && OneOctetPointers(w, RfcNext(w)(p).value)
  {
    var q := RfcNext(w)(p).value;
    assert After(RfcNext(w), p, 0) == Some(p);
    assert OneOctetAt(w, After(RfcNext(w), p, 0).value);
    forall m: nat | After(RfcNext(w), q, m).Some? ensures OneOctetAt(w, After(RfcNext(w), q, m).value) {
      assert After(RfcNext(w), p, m + 1) == After(RfcNext(w), q, m);
    }
  }

  lemma {:induction false} LabelsAsStandard(w: seq<Byte>, p: nat, labels: seq<seq<Byte>>, k: nat)
    requires RfcExpands(w, p, labels, k) && OneOctetPointers(w, p)
    ensures Ends(w, p) && Labels(w, p) == labels
    decreases k
  {
    EndsStep(w, p);
    if w[p] != 0 {
      var q := RfcNext(w)(p).value;
      NextOneOctetPointers(w, p);
      LabelsAsStandard(w, q, if w[p] < 64 then labels[1..] else labels, k - 1);
      assert WalkNext(w)(p) == Some(q);
      LabelsStep(w, p);
    }
  }

  /** Then the program reads exactly the labels of section 4.1.4. */
  lemma DecodesAsStandard(w: seq<Byte>, p: nat, labels: seq<seq<Byte>>, k: nat)
    requires RfcExpands(w, p, labels, k) && OneOctetPointers(w, p)
    ensures Ends(w, p) && Labels(w, p) == labels
    ensures Walk(w, p) == Dotted(labels) <==> !RootPointer(w, p)
  {
    LabelsAsStandard(w, p, labels, k);
    DottedIffNoRootPointer(w, p);
  }

  /** A length the standard allows, or the first octet of a pointer below 256. */
  predicate StandardOctet(w: seq<Byte>, q: nat) {
    q < |w| ==> w[q] < 64 || w[q] == COMPRESSED_VAL
  }

  /** The program's walk from p meets no others. */
  ghost predicate StandardOctets(w: seq<Byte>, p: nat) {
    forall k: nat :: After(WalkNext(w), p, k).Some? ==> StandardOctet(w, After(WalkNext(w), p, k).value)
  }

  lemma NextStandardOctets(w: seq<Byte>, p: nat)
    requires StandardOctets(w, p)
    ensures StandardOctet(w, p)
    ensures WalkNext(w)(p).Some? ==> StandardOctets(w, WalkNext(w)(p).value)
  {
    assert After(WalkNext(w), p, 0) == Some(p);
    assert StandardOctet(w, After(WalkNext(w), p, 0).value);
    if WalkNext(w)(p).Some? {
      var q := WalkNext(w)(p).value;
      forall k: nat | After(WalkNext(w), q, k).Some? ensures StandardOctet(w, After(WalkNext(w), q, k).value) {
        assert After(WalkNext(w), p, k + 1) == After(WalkNext(w), q, k);
      }
    }
  }

  /** Such a walk is the standard's, and what it reads is what section 4.1.4 says. */
  lemma {:induction false} LabelsExpand(w: seq<Byte>, p: nat)
    requires Ends(w, p) && StandardOctets(w, p)
    ensures RfcExpands(w, p, Labels(w, p), TurnsLeft(w, p))
    decreases TurnsLeft(w, p)
  {
    NextStandardOctets(w, p);
    WalkTurn(w, p);
    LabelsStep(w, p);
    if w[p] != 0 {
      TurnsStep(WalkNext(w), p);
      var q := WalkNext(w)(p).value;
      LabelsExpand(w, q);
      assert RfcNext(w)(p) == Some(q);
    }
  }

  lemma StandardOctetsSameWalk(w: seq<Byte>, p: nat)
    requires StandardOctets(w, p)
    ensures OneOctetPointers(w, p)
  {
    assert AgreeOn(WalkNext(w), RfcNext(w), p);
    SameOrbitIff(WalkNext(w), RfcNext(w), p);
    forall k: nat | After(RfcNext(w), p, k).Some? ensures OneOctetAt(w, After(RfcNext(w), p, k).value) {
      assert After(RfcNext(w), p, k) == After(WalkNext(w), p, k);
      assert StandardOctet(w, After(WalkNext(w), p, k).value);
    }
  }

  lemma ExpansionHasStandardOctets(w: seq<Byte>, p: nat, labels: seq<seq<Byte>>, k: nat)
    requires RfcExpands(w, p, labels, k) && OneOctetPointers(w, p)
    ensures StandardOctets(w, p)
  {
    SameWalkAsStandardIff(w, p, labels, k);
    forall m: nat | After(WalkNext(w), p, m).Some? ensures StandardOctet(w, After(WalkNext(w), p, m).value) {
      assert After(RfcNext(w), p, m) == After(WalkNext(w), p, m);
      ExpansionIsWellFormed(w, p, labels, k, m);
      assert OneOctetAt(w, After(RfcNext(w), p, m).value);
    }
  }

  ghost predicate Expandable(w: seq<Byte>, p: nat) {
    exists labels: seq<seq<Byte>>, k: nat :: RfcExpands(w, p, labels, k)
  }

  lemma ExpandableAs(w: seq<Byte>, p: nat, labels: seq<seq<Byte>>, k: nat)
    requires RfcExpands(w, p, labels, k)
    ensures Expandable(w, p)
  {
  }

  /** The standard gives a name with one-octet pointers a meaning exactly when the program's walk ends and meets only
      the standard's octets. */
  lemma ExpandsIff(w: seq<Byte>, p: nat)
    ensures OneOctetPointers(w, p) && Expandable(w, p) <==> Ends(w, p) && StandardOctets(w, p)
  {
    if OneOctetPointers(w, p) && Expandable(w, p) {
      var labels: seq<seq<Byte>>, k: nat :| RfcExpands(w, p, labels, k);
      LabelsAsStandard(w, p, labels, k);
      ExpansionHasStandardOctets(w, p, labels, k);
    }
    if Ends(w, p) && StandardOctets(w, p) {
      StandardOctetsSameWalk(w, p);
      LabelsExpand(w, p);
      ExpandableAs(w, p, Labels(w, p), TurnsLeft(w, p));
    }
  }

  /** Where pointers lead to earlier names and each octet met is the standard's, the program reads what the standard
      says. */
  lemma EarlierNamesExpand(w: seq<Byte>, p: nat)
    requires PointersDescend(w, p, p) && StandardOctets(w, p)
    ensures Ends(w, p) && RfcExpands(w, p, Labels(w, p), TurnsLeft(w, p))
  {
    DescendingPointersEnd(w, p, p);
    LabelsExpand(w, p);
  }
}
