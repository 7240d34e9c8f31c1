/** Diagnostics, their equality and their order (tsc/internal/ast/diagnostic.go). */
module DiagnosticOrder {
  import opened Options
  import opened Ordering

  datatype SourceFile = SourceFile(fileName: string, path: string)

  datatype TextRange = TextRange(pos: int, end: int)

  /** A finite diagnostic tree.  `ref` stands for the address, so value equality is pointer equality. */
  datatype Diagnostic = Diagnostic(
    ref: nat,
    file: Option<SourceFile>,
    loc: TextRange,
    code: int,
    category: int,
    source: string,
    message: Option<string>,
    messageText: string,
    messageKey: string,
    messageArgs: seq<string>,
    messageChain: seq<Diagnostic>,
    relatedInformation: seq<Diagnostic>)

  function DiagnosticPath(d: Diagnostic): string {
    if d.file.Some? then d.file.value.fileName else ""
  }

  function MessageIdentity(d: Diagnostic): string {
    if d.messageText != "" then d.messageText
    else if d.message.Some? && d.code == -1 then d.message.value
    else d.messageKey
  }

  // ---------- equality ----------

  predicate EqualMessageChain(c1: Diagnostic, c2: Diagnostic)
    decreases c1
  {
    c1 == c2 ||
    (&& c1.code == c2.code
     && c1.messageArgs == c2.messageArgs
     && EqualMessageChains(c1.messageChain, c2.messageChain))
  }

  predicate EqualMessageChains(s: seq<Diagnostic>, t: seq<Diagnostic>)
    decreases s
  {
    && |s| == |t|
    && (s == [] || (EqualMessageChain(s[0], t[0]) && EqualMessageChains(s[1..], t[1..])))
  }

  predicate EqualNoRelatedInfo(d1: Diagnostic, d2: Diagnostic) {
    d1 == d2 ||
    (&& DiagnosticPath(d1) == DiagnosticPath(d2)
     && d1.loc == d2.loc
     && d1.code == d2.code
     && d1.category == d2.category
     && d1.source == d2.source
     && MessageIdentity(d1) == MessageIdentity(d2)
     && d1.messageArgs == d2.messageArgs
     && EqualMessageChains(d1.messageChain, d2.messageChain))
  }

  predicate Equal(d1: Diagnostic, d2: Diagnostic)
    decreases d1
  {
    d1 == d2 ||
    (EqualNoRelatedInfo(d1, d2) && EqualRelated(d1.relatedInformation, d2.relatedInformation))
  }

  predicate EqualRelated(s: seq<Diagnostic>, t: seq<Diagnostic>)
    decreases s
  {
    && |s| == |t|
    && (s == [] || (Equal(s[0], t[0]) && EqualRelated(s[1..], t[1..])))
  }

  // ---------- order ----------

  function CompareChainSize(c1: seq<Diagnostic>, c2: seq<Diagnostic>): int
    decreases c1, 1
  {
    if |c1| != |c2| then |c2| - |c1| else CompareChainSizeElements(c1, c2)
  }

  function CompareChainSizeElements(c1: seq<Diagnostic>, c2: seq<Diagnostic>): int
    requires |c1| == |c2|
    decreases c1, 0
  {
    if c1 == [] then 0
    else Then(CompareChainSize(c1[0].messageChain, c2[0].messageChain),
              CompareChainSizeElements(c1[1..], c2[1..]))
  }

  /** The two chains are trees of the same shape, so indexing one by the other's indices is in bounds. */
  predicate SameShape(c1: seq<Diagnostic>, c2: seq<Diagnostic>)
    decreases c1
  {
    && |c1| == |c2|
    && (c1 == [] ||
        (SameShape(c1[0].messageChain, c2[0].messageChain) && SameShape(c1[1..], c2[1..])))
  }

  function CompareChainContent(c1: seq<Diagnostic>, c2: seq<Diagnostic>): int
    requires SameShape(c1, c2)
    decreases c1
  {
    if c1 == [] then 0
    else Then(CompareArgs(c1[0].messageArgs, c2[0].messageArgs),
         Then(CompareChainContent(c1[0].messageChain, c2[0].messageChain),
              CompareChainContent(c1[1..], c2[1..])))
  }

  /** compareMessageChainSize returns 0 exactly on chains of the same shape. */
  lemma {:induction false} ChainSizeZeroIsSameShape(c1: seq<Diagnostic>, c2: seq<Diagnostic>)
    ensures CompareChainSize(c1, c2) == 0 <==> SameShape(c1, c2)
    decreases c1
  {
    if |c1| == |c2| && c1 != [] {
      ChainSizeZeroIsSameShape(c1[0].messageChain, c2[0].messageChain);
      ChainSizeZeroIsSameShape(c1[1..], c2[1..]);
    }
  }

  function CompareMessages(d1: Diagnostic, d2: Diagnostic): int {
    Then(CompareArgs(d1.messageArgs, d2.messageArgs),
      var size := CompareChainSize(d1.messageChain, d2.messageChain);
      if size != 0 then size
      else
        ChainSizeZeroIsSameShape(d1.messageChain, d2.messageChain);
        CompareChainContent(d1.messageChain, d2.messageChain))
  }

  /** Every key compared before the related information, in order. */
  function CompareHead(d1: Diagnostic, d2: Diagnostic): int {
    Then(CompareStrings(DiagnosticPath(d1), DiagnosticPath(d2)),
    Then(d1.loc.pos - d2.loc.pos,
    Then(d1.loc.end - d2.loc.end,
    Then(d1.code - d2.code,
    Then(d1.category - d2.category,
    Then(CompareStrings(d1.source, d2.source),
    Then(CompareStrings(MessageIdentity(d1), MessageIdentity(d2)),
         CompareMessages(d1, d2))))))))
  }

  function Compare(d1: Diagnostic, d2: Diagnostic): int
    decreases d1, 0
  {
    if d1 == d2 then 0
    else Then(CompareHead(d1, d2), CompareRelated(d1.relatedInformation, d2.relatedInformation))
  }

  function CompareRelated(r1: seq<Diagnostic>, r2: seq<Diagnostic>): int
    decreases r1, 1
  {
    if |r1| != |r2| then |r2| - |r1| else CompareRelatedElements(r1, r2)
  }

  function CompareRelatedElements(r1: seq<Diagnostic>, r2: seq<Diagnostic>): int
    requires |r1| == |r2|
    decreases r1, 0
  {
    if r1 == [] then 0 else Then(Compare(r1[0], r2[0]), CompareRelatedElements(r1[1..], r2[1..]))
  }

  // ---------- antisymmetry ----------

  lemma {:induction false} SameShapeSymmetric(c1: seq<Diagnostic>, c2: seq<Diagnostic>)
    requires SameShape(c1, c2)
    ensures SameShape(c2, c1)
    decreases c1
  {
    if c1 != [] {
      SameShapeSymmetric(c1[0].messageChain, c2[0].messageChain);
      SameShapeSymmetric(c1[1..], c2[1..]);
    }
  }

  lemma {:induction false} ChainSizeAntisymmetric(c1: seq<Diagnostic>, c2: seq<Diagnostic>)
    ensures CompareChainSize(c1, c2) == -CompareChainSize(c2, c1)
    decreases c1
  {
    if |c1| == |c2| && c1 != [] {
      ChainSizeAntisymmetric(c1[0].messageChain, c2[0].messageChain);
      ChainSizeAntisymmetric(c1[1..], c2[1..]);
    }
  }

  lemma {:induction false} ChainContentAntisymmetric(c1: seq<Diagnostic>, c2: seq<Diagnostic>)
    requires SameShape(c1, c2) && SameShape(c2, c1)
    ensures CompareChainContent(c1, c2) == -CompareChainContent(c2, c1)
    decreases c1
  {
    if c1 != [] {
      CompareArgsAntisymmetric(c1[0].messageArgs, c2[0].messageArgs);
      ChainContentAntisymmetric(c1[0].messageChain, c2[0].messageChain);
      ChainContentAntisymmetric(c1[1..], c2[1..]);
    }
  }

  lemma MessagesAntisymmetric(d1: Diagnostic, d2: Diagnostic)
    ensures CompareMessages(d1, d2) == -CompareMessages(d2, d1)
  {
    var c1, c2 := d1.messageChain, d2.messageChain;
    CompareArgsAntisymmetric(d1.messageArgs, d2.messageArgs);
    ChainSizeAntisymmetric(c1, c2);
    ChainSizeZeroIsSameShape(c1, c2);
    if SameShape(c1, c2) {
      SameShapeSymmetric(c1, c2);
      ChainContentAntisymmetric(c1, c2);
    }
  }

  lemma HeadAntisymmetric(d1: Diagnostic, d2: Diagnostic)
    ensures CompareHead(d1, d2) == -CompareHead(d2, d1)
  {
    CompareStringsAntisymmetric(DiagnosticPath(d1), DiagnosticPath(d2));
    CompareStringsAntisymmetric(d1.source, d2.source);
    CompareStringsAntisymmetric(MessageIdentity(d1), MessageIdentity(d2));
    MessagesAntisymmetric(d1, d2);
  }

  /** Swapping the arguments negates the result. */
  lemma {:induction false} CompareAntisymmetric(d1: Diagnostic, d2: Diagnostic)
    ensures Compare(d1, d2) == -Compare(d2, d1)
    decreases d1
  {
    HeadAntisymmetric(d1, d2);
    RelatedAntisymmetric(d1.relatedInformation, d2.relatedInformation);
  }

  lemma {:induction false} RelatedAntisymmetric(r1: seq<Diagnostic>, r2: seq<Diagnostic>)
    ensures CompareRelated(r1, r2) == -CompareRelated(r2, r1)
    decreases r1
  {
    if |r1| == |r2| && r1 != [] {
      CompareAntisymmetric(r1[0], r2[0]);
      RelatedAntisymmetric(r1[1..], r2[1..]);
    }
  }

  // ---------- reflexivity on structurally equal trees ----------

  lemma {:induction false} EqualChainsCompareZero(s: seq<Diagnostic>, t: seq<Diagnostic>)
    requires EqualMessageChains(s, t)
    ensures SameShape(s, t) && CompareChainContent(s, t) == 0
    decreases s
  {
    if s != [] {
      CompareArgsZero(s[0].messageArgs, t[0].messageArgs);
      EqualChainsReflexive(s[0].messageChain);
      EqualChainsCompareZero(s[0].messageChain, t[0].messageChain);
      EqualChainsCompareZero(s[1..], t[1..]);
    }
  }

  lemma {:induction false} EqualChainsReflexive(s: seq<Diagnostic>)
    ensures EqualMessageChains(s, s)
  {
    if s != [] { EqualChainsReflexive(s[1..]); }
  }

  lemma {:induction false} EqualRelatedReflexive(s: seq<Diagnostic>)
    ensures EqualRelated(s, s)
  {
    if s != [] { EqualRelatedReflexive(s[1..]); }
  }

  /** The pointer shortcut is invisible: comparing everything gives 0 on a diagnostic and itself as well. */
  lemma EqualHeadZero(d1: Diagnostic, d2: Diagnostic)
    requires EqualNoRelatedInfo(d1, d2)
    ensures CompareHead(d1, d2) == 0
  {
    EqualChainsReflexive(d1.messageChain);
    CompareStringsZero(DiagnosticPath(d1), DiagnosticPath(d2));
    CompareStringsZero(d1.source, d2.source);
    CompareStringsZero(MessageIdentity(d1), MessageIdentity(d2));
    CompareArgsZero(d1.messageArgs, d2.messageArgs);
    EqualChainsCompareZero(d1.messageChain, d2.messageChain);
    ChainSizeZeroIsSameShape(d1.messageChain, d2.messageChain);
  }

  /** Diagnostics that deduplication identifies are never told apart by the order. */
  lemma {:induction false} EqualImpliesCompareZero(d1: Diagnostic, d2: Diagnostic)
    requires Equal(d1, d2)
    ensures Compare(d1, d2) == 0
    ensures CompareHead(d1, d2) == 0 && CompareRelated(d1.relatedInformation, d2.relatedInformation) == 0
    decreases d1
  {
    EqualHeadZero(d1, d2);
    EqualRelatedReflexive(d1.relatedInformation);
    EqualRelatedCompareZero(d1.relatedInformation, d2.relatedInformation);
  }

  lemma {:induction false} EqualRelatedCompareZero(s: seq<Diagnostic>, t: seq<Diagnostic>)
    requires EqualRelated(s, t)
    ensures CompareRelated(s, t) == 0
    decreases s
  {
    if s != [] {
      EqualImpliesCompareZero(s[0], t[0]);
      EqualRelatedCompareZero(s[1..], t[1..]);
    }
  }

  /** Without the pointer shortcut the comparison gives the same answer. */
  lemma CompareWithoutShortcut(d1: Diagnostic, d2: Diagnostic)
    ensures Compare(d1, d2) == Then(CompareHead(d1, d2), CompareRelated(d1.relatedInformation, d2.relatedInformation))
  {
    if d1 == d2 { EqualImpliesCompareZero(d1, d2); }
  }

  // ---------- transitivity ----------

  lemma ChainSizeUnfold(c1: seq<Diagnostic>, c2: seq<Diagnostic>)
    requires |c1| == |c2| && c1 != []
    ensures CompareChainSize(c1, c2) ==
            Then(CompareChainSize(c1[0].messageChain, c2[0].messageChain), CompareChainSize(c1[1..], c2[1..]))
  {
  }

  lemma {:induction false} ChainSizeCoherent(c1: seq<Diagnostic>, c2: seq<Diagnostic>, c3: seq<Diagnostic>)
    ensures Coherent(CompareChainSize(c1, c2), CompareChainSize(c2, c3), CompareChainSize(c1, c3))
    decreases c1
  {
    if |c1| == |c2| == |c3| && c1 != [] {
      ChainSizeUnfold(c1, c2);
      ChainSizeUnfold(c2, c3);
      ChainSizeUnfold(c1, c3);
      ChainSizeCoherent(c1[0].messageChain, c2[0].messageChain, c3[0].messageChain);
      ChainSizeCoherent(c1[1..], c2[1..], c3[1..]);
    }
  }

  lemma {:induction false} ChainContentCoherent(c1: seq<Diagnostic>, c2: seq<Diagnostic>, c3: seq<Diagnostic>)
    requires SameShape(c1, c2) && SameShape(c2, c3) && SameShape(c1, c3)
    ensures Coherent(CompareChainContent(c1, c2), CompareChainContent(c2, c3), CompareChainContent(c1, c3))
    decreases c1
  {
    if c1 != [] {
      CompareArgsCoherent(c1[0].messageArgs, c2[0].messageArgs, c3[0].messageArgs);
      ChainContentCoherent(c1[0].messageChain, c2[0].messageChain, c3[0].messageChain);
      ChainContentCoherent(c1[1..], c2[1..], c3[1..]);
    }
  }

  lemma MessagesCoherent(d1: Diagnostic, d2: Diagnostic, d3: Diagnostic)
    ensures Coherent(CompareMessages(d1, d2), CompareMessages(d2, d3), CompareMessages(d1, d3))
  {
    var c1, c2, c3 := d1.messageChain, d2.messageChain, d3.messageChain;
    CompareArgsCoherent(d1.messageArgs, d2.messageArgs, d3.messageArgs);
    ChainSizeCoherent(c1, c2, c3);
    ChainSizeZeroIsSameShape(c1, c2);
    ChainSizeZeroIsSameShape(c2, c3);
    ChainSizeZeroIsSameShape(c1, c3);
    if SameShape(c1, c2) && SameShape(c2, c3) {
      ChainContentCoherent(c1, c2, c3);
    }
  }

  lemma HeadCoherent(d1: Diagnostic, d2: Diagnostic, d3: Diagnostic)
    ensures Coherent(CompareHead(d1, d2), CompareHead(d2, d3), CompareHead(d1, d3))
  {
    CompareStringsCoherent(DiagnosticPath(d1), DiagnosticPath(d2), DiagnosticPath(d3));
    CompareStringsCoherent(d1.source, d2.source, d3.source);
    CompareStringsCoherent(MessageIdentity(d1), MessageIdentity(d2), MessageIdentity(d3));
    MessagesCoherent(d1, d2, d3);
  }

  lemma RelatedUnfold(r1: seq<Diagnostic>, r2: seq<Diagnostic>)
    requires |r1| == |r2| && r1 != []
    ensures CompareRelated(r1, r2) == Then(Compare(r1[0], r2[0]), CompareRelated(r1[1..], r2[1..]))
  {
  }

  /** Transitivity in all its strict and weak forms. */
  lemma {:induction false} CompareCoherent(d1: Diagnostic, d2: Diagnostic, d3: Diagnostic)
    ensures Coherent(Compare(d1, d2), Compare(d2, d3), Compare(d1, d3))
    decreases d1
  {
    CompareWithoutShortcut(d1, d2);
    CompareWithoutShortcut(d2, d3);
    CompareWithoutShortcut(d1, d3);
    HeadCoherent(d1, d2, d3);
    RelatedCoherent(d1.relatedInformation, d2.relatedInformation, d3.relatedInformation);
  }

  lemma {:induction false} RelatedCoherent(r1: seq<Diagnostic>, r2: seq<Diagnostic>, r3: seq<Diagnostic>)
    ensures Coherent(CompareRelated(r1, r2), CompareRelated(r2, r3), CompareRelated(r1, r3))
    decreases r1
  {
    if |r1| == |r2| == |r3| && r1 != [] {
      RelatedUnfold(r1, r2);
      RelatedUnfold(r2, r3);
      RelatedUnfold(r1, r3);
      CompareCoherent(r1[0], r2[0], r3[0]);
      RelatedCoherent(r1[1..], r2[1..], r3[1..]);
    }
  }

  /** CompareDiagnostics is a total preorder on all finite diagnostic trees. */
  lemma CompareIsTotalPreorder(d1: Diagnostic, d2: Diagnostic, d3: Diagnostic)
    ensures Compare(d1, d1) == 0
    ensures Sign(Compare(d1, d2)) == -Sign(Compare(d2, d1))
    ensures Compare(d1, d2) <= 0 && Compare(d2, d3) <= 0 ==> Compare(d1, d3) <= 0
    ensures Compare(d1, d2) <= 0 && Compare(d2, d3) < 0 ==> Compare(d1, d3) < 0
    ensures Compare(d1, d2) == 0 ==> Sign(Compare(d1, d3)) == Sign(Compare(d2, d3))
  {
    CompareAntisymmetric(d1, d2);
    CompareCoherent(d1, d2, d3);
  }
}
