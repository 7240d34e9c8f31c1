/** What CompareDiagnostics and EqualDiagnostics look at (tsc/internal/ast/diagnostic.go), written down as plain data:
    one list of keys for the order, one tree without addresses for equality. */
module DiagnosticKeys {
  import opened Options
  import opened Ordering
  import opened DiagnosticOrder

  // ---------- the order ----------

  datatype Key = Number(n: int) | Text(text: string) | Words(words: seq<string>)

  ghost predicate KeyLess(a: Key, b: Key) {
    match (a, b)
    case (Number(m), Number(n)) => m < n
    case (Text(s), Text(t)) => TextLess(s, t)
    case (Words(v), Words(w)) => WordsLess(v, w)
    case _ => false
  }

  /** At the first place where the lists differ, s has the smaller key. */
  ghost predicate KeysLess(s: seq<Key>, t: seq<Key>) {
    exists k :: LessFrom(s, t, k)
  }

  ghost predicate LessFrom(s: seq<Key>, t: seq<Key>, k: nat) {
    k < |s| && k < |t| && s[..k] == t[..k] && KeyLess(s[k], t[k])
  }

  /** The lengths of a chain and of the chains in it, in preorder; the longer of two comes first. */
  function Lengths(chain: seq<Diagnostic>): seq<Key>
    decreases chain, 1
  {
    [Number(-|chain|)] + LengthsWithin(chain)
  }

  function LengthsWithin(chain: seq<Diagnostic>): seq<Key>
    decreases chain, 0
  {
    if chain == [] then [] else Lengths(chain[0].messageChain) + LengthsWithin(chain[1..])
  }

  /** The message arguments of all links of a chain, in preorder. */
  function ChainArgs(chain: seq<Diagnostic>): seq<Key> {
    if chain == [] then []
    else [Words(chain[0].messageArgs)] + ChainArgs(chain[0].messageChain) + ChainArgs(chain[1..])
  }

  function OwnKeys(d: Diagnostic): seq<Key> {
    [Text(DiagnosticPath(d)), Number(d.loc.pos), Number(d.loc.end), Number(d.code), Number(d.category),
     Text(d.source), Text(MessageIdentity(d)), Words(d.messageArgs)]
  }

  /** Everything that orders a diagnostic, the deciding keys first. */
  function Keys(d: Diagnostic): seq<Key>
    decreases d, 0
  {
    OwnKeys(d) + Lengths(d.messageChain) + ChainArgs(d.messageChain) + RelatedKeys(d.relatedInformation)
  }

  function RelatedKeys(related: seq<Diagnostic>): seq<Key>
    decreases related, 2
  {
    [Number(-|related|)] + KeysOfAll(related)
  }

  function KeysOfAll(s: seq<Diagnostic>): seq<Key>
    decreases s, 1
  {
    if s == [] then [] else Keys(s[0]) + KeysOfAll(s[1..])
  }

  /** The result c of a comparison is that of these two lists of keys. */
  ghost predicate Agrees(c: int, s: seq<Key>, t: seq<Key>) {
    && (c == 0 ==> s == t)
    && (c < 0 ==> KeysLess(s, t))
    && (c > 0 ==> KeysLess(t, s))
  }

  lemma LessFromFurther(s: seq<Key>, t: seq<Key>, s': seq<Key>, t': seq<Key>, k: nat)
    requires LessFrom(s, t, k)
    ensures LessFrom(s + s', t + t', k)
  {
    assert (s + s')[..k] == s[..k] && (t + t')[..k] == t[..k];
  }

  lemma LessFromBehind(s: seq<Key>, s': seq<Key>, t': seq<Key>, k: nat)
    requires LessFrom(s', t', k)
    ensures LessFrom(s + s', s + t', |s| + k)
  {
    assert (s + s')[..|s| + k] == s + s'[..k] && (s + t')[..|s| + k] == s + t'[..k];
  }

  lemma KeysLessFurther(s: seq<Key>, t: seq<Key>, s': seq<Key>, t': seq<Key>)
    requires KeysLess(s, t)
    ensures KeysLess(s + s', t + t')
  {
    var k: nat :| LessFrom(s, t, k);
    LessFromFurther(s, t, s', t', k);
  }

  lemma KeysLessBehind(s: seq<Key>, s': seq<Key>, t': seq<Key>)
    requires KeysLess(s', t')
    ensures KeysLess(s + s', s + t')
  {
    var k: nat :| LessFrom(s', t', k);
    LessFromBehind(s, s', t', k);
  }

  lemma AgreesThen(c: int, s: seq<Key>, t: seq<Key>, c': int, s': seq<Key>, t': seq<Key>)
    requires Agrees(c, s, t) && (c == 0 ==> Agrees(c', s', t'))
    ensures Agrees(Then(c, c'), s + s', t + t')
  {
    hide KeysLess;
    if c < 0 { KeysLessFurther(s, t, s', t'); }
    if c > 0 { KeysLessFurther(t, s, t', s'); }
    if c == 0 && c' < 0 { KeysLessBehind(s, s', t'); }
    if c == 0 && c' > 0 { KeysLessBehind(s, t', s'); }
  }

  lemma AgreesOne(c: int, a: Key, b: Key)
    requires c == 0 ==> a == b
    requires (c < 0 ==> KeyLess(a, b)) && (c > 0 ==> KeyLess(b, a))
    ensures Agrees(c, [a], [b])
  {
    hide KeyLess;
    if c < 0 { assert LessFrom([a], [b], 0); }
    if c > 0 { assert LessFrom([b], [a], 0); }
  }

  lemma TextAgrees(s: string, t: string)
    ensures Agrees(CompareStrings(s, t), [Text(s)], [Text(t)])
  {
    hide CompareStrings, Agrees;
    CompareStringsZero(s, t);
    CompareStringsIsTextLess(s, t);
    AgreesOne(CompareStrings(s, t), Text(s), Text(t));
  }

  lemma WordsAgrees(v: seq<string>, w: seq<string>)
    ensures Agrees(CompareArgs(v, w), [Words(v)], [Words(w)])
  {
    hide CompareArgs, Agrees;
    CompareArgsZero(v, w);
    CompareArgsIsWordsLess(v, w);
    AgreesOne(CompareArgs(v, w), Words(v), Words(w));
  }

  lemma NumberAgrees(m: int, n: int)
    ensures Agrees(m - n, [Number(m)], [Number(n)])
  {
    AgreesOne(m - n, Number(m), Number(n));
  }

  lemma {:induction false} LengthsAgree(c1: seq<Diagnostic>, c2: seq<Diagnostic>)
    ensures Agrees(CompareChainSize(c1, c2), Lengths(c1), Lengths(c2))
    decreases c1, 1
  {
    hide Agrees;
    NumberAgrees(-|c1|, -|c2|);
    if |c1| == |c2| { LengthsWithinAgree(c1, c2); }
    AgreesThen(|c2| - |c1|, [Number(-|c1|)], [Number(-|c2|)],
               if |c1| == |c2| then CompareChainSizeElements(c1, c2) else 0, LengthsWithin(c1), LengthsWithin(c2));
  }

  lemma {:induction false} LengthsWithinAgree(c1: seq<Diagnostic>, c2: seq<Diagnostic>)
    requires |c1| == |c2|
    ensures Agrees(CompareChainSizeElements(c1, c2), LengthsWithin(c1), LengthsWithin(c2))
    decreases c1, 0
  {
    if c1 != [] {
      hide Agrees;
      var s1, s2 := c1[0].messageChain, c2[0].messageChain;
      LengthsAgree(s1, s2);
      LengthsWithinAgree(c1[1..], c2[1..]);
      AgreesThen(CompareChainSize(s1, s2), Lengths(s1), Lengths(s2),
                 CompareChainSizeElements(c1[1..], c2[1..]), LengthsWithin(c1[1..]), LengthsWithin(c2[1..]));
    }
  }

  lemma {:induction false} ChainArgsAgree(c1: seq<Diagnostic>, c2: seq<Diagnostic>)
    requires SameShape(c1, c2)
    ensures Agrees(CompareChainContent(c1, c2), ChainArgs(c1), ChainArgs(c2))
    decreases c1
  {
    if c1 != [] {
      hide Agrees;
      var d1, d2, r1, r2 := c1[0], c2[0], c1[1..], c2[1..];
      var a1, a2 := [Words(d1.messageArgs)], [Words(d2.messageArgs)];
      var s1, s2 := ChainArgs(d1.messageChain), ChainArgs(d2.messageChain);
      var own := CompareArgs(d1.messageArgs, d2.messageArgs);
      var within := CompareChainContent(d1.messageChain, d2.messageChain);
      WordsAgrees(d1.messageArgs, d2.messageArgs);
      ChainArgsAgree(d1.messageChain, d2.messageChain);
      ChainArgsAgree(r1, r2);
      AgreesThen(own, a1, a2, within, s1, s2);
      AgreesThen(Then(own, within), a1 + s1, a2 + s2, CompareChainContent(r1, r2), ChainArgs(r1), ChainArgs(r2));
    }
  }

  lemma ChainsAgree(c1: seq<Diagnostic>, c2: seq<Diagnostic>)
    ensures var size := CompareChainSize(c1, c2);
      && (size == 0 ==> SameShape(c1, c2))
      && Agrees(if size != 0 then size else CompareChainContent(c1, c2),
                Lengths(c1) + ChainArgs(c1), Lengths(c2) + ChainArgs(c2))
  {
    hide Agrees, CompareChainContent, ChainArgs, Lengths;
    var size := CompareChainSize(c1, c2);
    LengthsAgree(c1, c2);
    ChainSizeZeroIsSameShape(c1, c2);
    if size == 0 { ChainArgsAgree(c1, c2); }
    AgreesThen(size, Lengths(c1), Lengths(c2), if size == 0 then CompareChainContent(c1, c2) else 0,
               ChainArgs(c1), ChainArgs(c2));
  }

  lemma MessagesAgree(d1: Diagnostic, d2: Diagnostic)
    ensures Agrees(CompareMessages(d1, d2),
                   [Words(d1.messageArgs)] + (Lengths(d1.messageChain) + ChainArgs(d1.messageChain)),
                   [Words(d2.messageArgs)] + (Lengths(d2.messageChain) + ChainArgs(d2.messageChain)))
  {
    hide Agrees, CompareChainContent, ChainArgs, Lengths, CompareChainSize, CompareArgs, SameShape;
    var c1, c2 := d1.messageChain, d2.messageChain;
    var size := CompareChainSize(c1, c2);
    WordsAgrees(d1.messageArgs, d2.messageArgs);
    ChainsAgree(c1, c2);
    AgreesThen(CompareArgs(d1.messageArgs, d2.messageArgs), [Words(d1.messageArgs)], [Words(d2.messageArgs)],
               if size != 0 then size else CompareChainContent(c1, c2),
               Lengths(c1) + ChainArgs(c1), Lengths(c2) + ChainArgs(c2));
  }

  function PlaceKeys(d: Diagnostic): seq<Key> {
    [Text(DiagnosticPath(d))] + [Number(d.loc.pos)] + [Number(d.loc.end)] + [Number(d.code)]
  }

  function TextKeys(d: Diagnostic): seq<Key> {
    [Number(d.category)] + [Text(d.source)] + [Text(MessageIdentity(d))]
  }

  lemma PlaceAgrees(d1: Diagnostic, d2: Diagnostic)
    ensures Agrees(Then(Then(Then(CompareStrings(DiagnosticPath(d1), DiagnosticPath(d2)), d1.loc.pos - d2.loc.pos),
                             d1.loc.end - d2.loc.end), d1.code - d2.code),
                   PlaceKeys(d1), PlaceKeys(d2))
  {
    hide Agrees, CompareStrings, DiagnosticPath;
    var name1, name2 := Text(DiagnosticPath(d1)), Text(DiagnosticPath(d2));
    var byName := CompareStrings(DiagnosticPath(d1), DiagnosticPath(d2));
    var byPos := Then(byName, d1.loc.pos - d2.loc.pos);
    TextAgrees(DiagnosticPath(d1), DiagnosticPath(d2));
    NumberAgrees(d1.loc.pos, d2.loc.pos);
    NumberAgrees(d1.loc.end, d2.loc.end);
    NumberAgrees(d1.code, d2.code);
    AgreesThen(byName, [name1], [name2], d1.loc.pos - d2.loc.pos, [Number(d1.loc.pos)], [Number(d2.loc.pos)]);
    AgreesThen(byPos, [name1] + [Number(d1.loc.pos)], [name2] + [Number(d2.loc.pos)],
               d1.loc.end - d2.loc.end, [Number(d1.loc.end)], [Number(d2.loc.end)]);
    AgreesThen(Then(byPos, d1.loc.end - d2.loc.end),
               [name1] + [Number(d1.loc.pos)] + [Number(d1.loc.end)],
               [name2] + [Number(d2.loc.pos)] + [Number(d2.loc.end)],
               d1.code - d2.code, [Number(d1.code)], [Number(d2.code)]);
  }

  lemma TextsAgree(d1: Diagnostic, d2: Diagnostic)
    ensures Agrees(Then(Then(d1.category - d2.category, CompareStrings(d1.source, d2.source)),
                        CompareStrings(MessageIdentity(d1), MessageIdentity(d2))),
                   TextKeys(d1), TextKeys(d2))
  {
    hide Agrees, CompareStrings, MessageIdentity;
    NumberAgrees(d1.category, d2.category);
    TextAgrees(d1.source, d2.source);
    TextAgrees(MessageIdentity(d1), MessageIdentity(d2));
    AgreesThen(d1.category - d2.category, [Number(d1.category)], [Number(d2.category)],
               CompareStrings(d1.source, d2.source), [Text(d1.source)], [Text(d2.source)]);
    AgreesThen(Then(d1.category - d2.category, CompareStrings(d1.source, d2.source)),
               [Number(d1.category)] + [Text(d1.source)], [Number(d2.category)] + [Text(d2.source)],
               CompareStrings(MessageIdentity(d1), MessageIdentity(d2)),
               [Text(MessageIdentity(d1))], [Text(MessageIdentity(d2))]);
  }

  function HeadKeys(d: Diagnostic): seq<Key> {
    OwnKeys(d) + Lengths(d.messageChain) + ChainArgs(d.messageChain)
  }

  lemma HeadKeysParts(d: Diagnostic)
    ensures HeadKeys(d) ==
            PlaceKeys(d) + TextKeys(d)
            + ([Words(d.messageArgs)] + (Lengths(d.messageChain) + ChainArgs(d.messageChain)))
  {
    hide Lengths, ChainArgs;
  }

  lemma HeadAgrees(d1: Diagnostic, d2: Diagnostic)
    ensures Agrees(CompareHead(d1, d2), HeadKeys(d1), HeadKeys(d2))
  {
    hide Agrees, CompareStrings, MessageIdentity, DiagnosticPath, CompareMessages, PlaceKeys, TextKeys, HeadKeys;
    var place := Then(Then(Then(CompareStrings(DiagnosticPath(d1), DiagnosticPath(d2)), d1.loc.pos - d2.loc.pos),
                           d1.loc.end - d2.loc.end), d1.code - d2.code);
    var text := Then(Then(d1.category - d2.category, CompareStrings(d1.source, d2.source)),
                     CompareStrings(MessageIdentity(d1), MessageIdentity(d2)));
    PlaceAgrees(d1, d2);
    TextsAgree(d1, d2);
    MessagesAgree(d1, d2);
    AgreesThen(place, PlaceKeys(d1), PlaceKeys(d2), text, TextKeys(d1), TextKeys(d2));
    AgreesThen(Then(place, text), PlaceKeys(d1) + TextKeys(d1), PlaceKeys(d2) + TextKeys(d2), CompareMessages(d1, d2),
               [Words(d1.messageArgs)] + (Lengths(d1.messageChain) + ChainArgs(d1.messageChain)),
               [Words(d2.messageArgs)] + (Lengths(d2.messageChain) + ChainArgs(d2.messageChain)));
    HeadKeysParts(d1);
    HeadKeysParts(d2);
  }

  lemma {:induction false} CompareAgrees(d1: Diagnostic, d2: Diagnostic)
    ensures Agrees(Compare(d1, d2), Keys(d1), Keys(d2))
    decreases d1, 0
  {
    hide Agrees, CompareHead, OwnKeys, Lengths, ChainArgs, RelatedKeys, CompareRelated;
    var r1, r2 := d1.relatedInformation, d2.relatedInformation;
    CompareWithoutShortcut(d1, d2);
    HeadAgrees(d1, d2);
    RelatedAgree(r1, r2);
    AgreesThen(CompareHead(d1, d2), HeadKeys(d1), HeadKeys(d2),
               CompareRelated(r1, r2), RelatedKeys(r1), RelatedKeys(r2));
  }

  lemma {:induction false} RelatedAgree(r1: seq<Diagnostic>, r2: seq<Diagnostic>)
    ensures Agrees(CompareRelated(r1, r2), RelatedKeys(r1), RelatedKeys(r2))
    decreases r1, 2
  {
    hide Agrees, KeysOfAll;
    NumberAgrees(-|r1|, -|r2|);
    if |r1| == |r2| { AllAgree(r1, r2); }
    AgreesThen(|r2| - |r1|, [Number(-|r1|)], [Number(-|r2|)],
               if |r1| == |r2| then CompareRelatedElements(r1, r2) else 0, KeysOfAll(r1), KeysOfAll(r2));
  }

  lemma {:induction false} AllAgree(r1: seq<Diagnostic>, r2: seq<Diagnostic>)
    requires |r1| == |r2|
    ensures Agrees(CompareRelatedElements(r1, r2), KeysOfAll(r1), KeysOfAll(r2))
    decreases r1, 1
  {
    if r1 != [] {
      hide Agrees, Compare, Keys;
      CompareAgrees(r1[0], r2[0]);
      AllAgree(r1[1..], r2[1..]);
      AgreesThen(Compare(r1[0], r2[0]), Keys(r1[0]), Keys(r2[0]),
                 CompareRelatedElements(r1[1..], r2[1..]), KeysOfAll(r1[1..]), KeysOfAll(r2[1..]));
    } else {
      assert Agrees(0, [], []);
    }
  }

  lemma KeyLessIsStrict(a: Key, b: Key)
    ensures KeyLess(a, b) ==> a != b && !KeyLess(b, a)
  {
    match (a, b)
    case (Text(s), Text(t)) => CompareStringsIsTextLess(s, t); CompareStringsZero(s, t);
    case (Words(v), Words(w)) => CompareArgsIsWordsLess(v, w); CompareArgsZero(v, w);
    case _ =>
  }

  lemma LessFromIsStrict(s: seq<Key>, t: seq<Key>, j: nat, k: nat)
    requires LessFrom(s, t, j)
    ensures s != t && !LessFrom(t, s, k)
  {
    hide KeyLess;
    KeyLessIsStrict(s[j], t[j]);
    if k < j {
      assert s[..j][k] == s[k] && t[..j][k] == t[k];
      KeyLessIsStrict(t[k], s[k]);
    } else if j < k && k < |s| && k < |t| {
      assert s[..k][j] == s[j] && t[..k][j] == t[j];
    }
  }

  lemma KeysLessIsStrict(s: seq<Key>, t: seq<Key>)
    requires KeysLess(s, t)
    ensures s != t && !KeysLess(t, s)
  {
    hide LessFrom;
    var j: nat :| LessFrom(s, t, j);
    forall k: nat ensures !LessFrom(t, s, k) && s != t { LessFromIsStrict(s, t, j, k); }
    assert s != t;
  }

  /** CompareDiagnostics orders by the first key that differs, and only what has the same keys is tied. */
  lemma CompareIsByKeys(d1: Diagnostic, d2: Diagnostic)
    ensures Compare(d1, d2) < 0 <==> KeysLess(Keys(d1), Keys(d2))
    ensures Compare(d1, d2) == 0 <==> Keys(d1) == Keys(d2)
    ensures Compare(d1, d2) > 0 <==> KeysLess(Keys(d2), Keys(d1))
  {
    hide Compare, Keys, KeysLess;
    CompareAgrees(d1, d2);
    if KeysLess(Keys(d1), Keys(d2)) { KeysLessIsStrict(Keys(d1), Keys(d2)); }
    if KeysLess(Keys(d2), Keys(d1)) { KeysLessIsStrict(Keys(d2), Keys(d1)); }
  }

  // ---------- the keys one by one ----------

  ghost predicate SamePlace(d1: Diagnostic, d2: Diagnostic) {
    DiagnosticPath(d1) == DiagnosticPath(d2) && d1.loc == d2.loc
  }

  ghost predicate SameOwnKeys(d1: Diagnostic, d2: Diagnostic) {
    && SamePlace(d1, d2)
    && d1.code == d2.code && d1.category == d2.category && d1.source == d2.source
    && MessageIdentity(d1) == MessageIdentity(d2) && d1.messageArgs == d2.messageArgs
  }

  /** The name of the file decides first, then the position, the end, and the code. */
  lemma PlaceDecides(d1: Diagnostic, d2: Diagnostic)
    ensures TextLess(DiagnosticPath(d1), DiagnosticPath(d2)) ==> Compare(d1, d2) < 0
    ensures DiagnosticPath(d1) == DiagnosticPath(d2) && d1.loc.pos < d2.loc.pos ==> Compare(d1, d2) < 0
    ensures DiagnosticPath(d1) == DiagnosticPath(d2) && d1.loc.pos == d2.loc.pos && d1.loc.end < d2.loc.end ==>
      Compare(d1, d2) < 0
    ensures SamePlace(d1, d2) && d1.code < d2.code ==> Compare(d1, d2) < 0
  {
    hide CompareStrings, DiagnosticPath, TextLess, CompareMessages, CompareRelated;
    CompareWithoutShortcut(d1, d2);
    CompareStringsIsTextLess(DiagnosticPath(d1), DiagnosticPath(d2));
    CompareStringsZero(DiagnosticPath(d1), DiagnosticPath(d2));
  }

  /** At one place and with one code it is the category, then the source, the message, and its arguments. */
  lemma MessageDecides(d1: Diagnostic, d2: Diagnostic)
    requires SamePlace(d1, d2) && d1.code == d2.code
    ensures d1.category < d2.category ==> Compare(d1, d2) < 0
    ensures d1.category == d2.category && TextLess(d1.source, d2.source) ==> Compare(d1, d2) < 0
    ensures d1.category == d2.category && d1.source == d2.source ==>
      (TextLess(MessageIdentity(d1), MessageIdentity(d2)) ==> Compare(d1, d2) < 0)
    ensures d1.category == d2.category && d1.source == d2.source && MessageIdentity(d1) == MessageIdentity(d2) ==>
      (WordsLess(d1.messageArgs, d2.messageArgs) ==> Compare(d1, d2) < 0)
  {
    hide CompareStrings, DiagnosticPath, MessageIdentity, TextLess, WordsLess, CompareArgs, CompareRelated;
    hide CompareChainSize, CompareChainContent;
    CompareWithoutShortcut(d1, d2);
    CompareStringsZero(DiagnosticPath(d1), DiagnosticPath(d2));
    CompareStringsIsTextLess(d1.source, d2.source);
    CompareStringsZero(d1.source, d2.source);
    CompareStringsIsTextLess(MessageIdentity(d1), MessageIdentity(d2));
    CompareStringsZero(MessageIdentity(d1), MessageIdentity(d2));
    CompareArgsIsWordsLess(d1.messageArgs, d2.messageArgs);
  }

  lemma SameOwnKeysCompare(d1: Diagnostic, d2: Diagnostic)
    requires SameOwnKeys(d1, d2)
    ensures Compare(d1, d2) ==
      Then(CompareMessages(d1, d2), CompareRelated(d1.relatedInformation, d2.relatedInformation))
    ensures CompareArgs(d1.messageArgs, d2.messageArgs) == 0
  {
    hide CompareStrings, DiagnosticPath, MessageIdentity, CompareArgs, CompareMessages, CompareRelated;
    CompareWithoutShortcut(d1, d2);
    CompareStringsZero(DiagnosticPath(d1), DiagnosticPath(d2));
    CompareStringsZero(d1.source, d2.source);
    CompareStringsZero(MessageIdentity(d1), MessageIdentity(d2));
    CompareArgsZero(d1.messageArgs, d2.messageArgs);
  }

  /** With the same keys of its own, the diagnostic with the longer message chain comes first, then the one whose
      chain is longer further in, and among chains of one shape the first arguments that differ decide. */
  lemma ChainDecides(d1: Diagnostic, d2: Diagnostic)
    requires SameOwnKeys(d1, d2)
    ensures |d1.messageChain| > |d2.messageChain| ==> Compare(d1, d2) < 0
    ensures KeysLess(Lengths(d1.messageChain), Lengths(d2.messageChain)) ==> Compare(d1, d2) < 0
    ensures Lengths(d1.messageChain) == Lengths(d2.messageChain) ==>
      (KeysLess(ChainArgs(d1.messageChain), ChainArgs(d2.messageChain)) ==> Compare(d1, d2) < 0)
  {
    hide SameOwnKeys, Lengths, ChainArgs, KeysLess, CompareRelated, CompareChainContent, CompareArgs, Compare;
    var c1, c2 := d1.messageChain, d2.messageChain;
    SameOwnKeysCompare(d1, d2);
    LengthsAgree(c1, c2);
    ChainSizeZeroIsSameShape(c1, c2);
    if KeysLess(Lengths(c1), Lengths(c2)) { KeysLessIsStrict(Lengths(c1), Lengths(c2)); }
    if KeysLess(Lengths(c2), Lengths(c1)) { KeysLessIsStrict(Lengths(c2), Lengths(c1)); }
    if CompareChainSize(c1, c2) == 0 {
      ChainArgsAgree(c1, c2);
      if KeysLess(ChainArgs(c1), ChainArgs(c2)) { KeysLessIsStrict(ChainArgs(c1), ChainArgs(c2)); }
    }
  }

  ghost predicate SameHead(d1: Diagnostic, d2: Diagnostic) {
    && SameOwnKeys(d1, d2)
    && Lengths(d1.messageChain) == Lengths(d2.messageChain)
    && ChainArgs(d1.messageChain) == ChainArgs(d2.messageChain)
  }

  lemma SameHeadComparesRelated(d1: Diagnostic, d2: Diagnostic)
    requires SameHead(d1, d2)
    ensures Compare(d1, d2) == CompareRelated(d1.relatedInformation, d2.relatedInformation)
  {
    hide SameOwnKeys, Lengths, ChainArgs, KeysLess, CompareRelated, CompareChainContent, CompareArgs, Compare;
    var c1, c2 := d1.messageChain, d2.messageChain;
    SameOwnKeysCompare(d1, d2);
    LengthsAgree(c1, c2);
    ChainSizeZeroIsSameShape(c1, c2);
    if KeysLess(Lengths(c1), Lengths(c2)) { KeysLessIsStrict(Lengths(c1), Lengths(c2)); }
    if CompareChainSize(c1, c2) == 0 {
      ChainArgsAgree(c1, c2);
      if KeysLess(ChainArgs(c1), ChainArgs(c2)) { KeysLessIsStrict(ChainArgs(c1), ChainArgs(c2)); }
    }
  }

  /** Of two lists of one length the first k elements are tied, and the next comes first in r1. */
  ghost predicate FirstUntied(r1: seq<Diagnostic>, r2: seq<Diagnostic>, k: nat) {
    && |r1| == |r2| && k < |r1| && Compare(r1[k], r2[k]) < 0
    && forall i :: 0 <= i < k ==> Compare(r1[i], r2[i]) == 0
  }

  lemma {:induction false} FirstRelatedDecides(r1: seq<Diagnostic>, r2: seq<Diagnostic>, k: nat)
    requires FirstUntied(r1, r2, k)
    ensures CompareRelated(r1, r2) < 0
  {
    hide Compare;
    RelatedUnfold(r1, r2);
    if k > 0 {
      assert Compare(r1[0], r2[0]) == 0;
      forall i | 0 <= i < k - 1 ensures Compare(r1[1..][i], r2[1..][i]) == 0 {
        assert Compare(r1[i + 1], r2[i + 1]) == 0;
      }
      FirstRelatedDecides(r1[1..], r2[1..], k - 1);
    }
  }

  /** Last come the related diagnostics: more of them first, then the first of them that are not tied. */
  lemma RelatedDecides(d1: Diagnostic, d2: Diagnostic, k: nat)
    requires SameHead(d1, d2)
    ensures |d1.relatedInformation| > |d2.relatedInformation| ==> Compare(d1, d2) < 0
    ensures FirstUntied(d1.relatedInformation, d2.relatedInformation, k) ==> Compare(d1, d2) < 0
  {
    hide SameHead, Compare;
    var r1, r2 := d1.relatedInformation, d2.relatedInformation;
    SameHeadComparesRelated(d1, d2);
    if FirstUntied(r1, r2, k) { FirstRelatedDecides(r1, r2, k); }
  }

  /** d is not behind e by file name, position, end and code. */
  ghost predicate NotBehind(d: Diagnostic, e: Diagnostic) {
    || TextLess(DiagnosticPath(d), DiagnosticPath(e))
    || (DiagnosticPath(d) == DiagnosticPath(e) && RangeNotBehind(d, e))
  }

  ghost predicate RangeNotBehind(d: Diagnostic, e: Diagnostic) {
    || d.loc.pos < e.loc.pos
    || (&& d.loc.pos == e.loc.pos
        && (d.loc.end < e.loc.end || (d.loc.end == e.loc.end && d.code <= e.code)))
  }

  lemma OrderedIsNotBehind(d: Diagnostic, e: Diagnostic)
    requires Compare(d, e) <= 0
    ensures NotBehind(d, e)
  {
    hide Compare, TextLess, DiagnosticPath, CompareStrings;
    CompareAntisymmetric(d, e);
    PlaceDecides(e, d);
    CompareStringsIsTextLess(DiagnosticPath(d), DiagnosticPath(e));
    CompareStringsZero(DiagnosticPath(d), DiagnosticPath(e));
  }

  // ---------- equality ----------

  datatype SeenChain = SeenChain(code: int, args: seq<string>, chain: seq<SeenChain>)

  /** What is left of a diagnostic when addresses are forgotten and a file is its name. */
  datatype Seen = Seen(
    fileName: string,
    loc: TextRange,
    code: int,
    category: int,
    source: string,
    message: string,
    messageArgs: seq<string>,
    chain: seq<SeenChain>,
    related: seq<Seen>)

  function SeeChain(chain: seq<Diagnostic>): seq<SeenChain> {
    if chain == [] then []
    else [SeenChain(chain[0].code, chain[0].messageArgs, SeeChain(chain[0].messageChain))] + SeeChain(chain[1..])
  }

  function See(d: Diagnostic): Seen
    decreases d
  {
    Seen(DiagnosticPath(d), d.loc, d.code, d.category, d.source, MessageIdentity(d), d.messageArgs,
         SeeChain(d.messageChain), SeeAll(d.relatedInformation))
  }

  function SeeAll(s: seq<Diagnostic>): seq<Seen>
    decreases s
  {
    if s == [] then [] else [See(s[0])] + SeeAll(s[1..])
  }

  lemma SameCons<T>(x: T, s: seq<T>, y: T, t: seq<T>)
    ensures [x] + s == [y] + t <==> x == y && s == t
  {
    assert ([x] + s)[0] == x && ([x] + s)[1..] == s;
    assert ([y] + t)[0] == y && ([y] + t)[1..] == t;
  }

  lemma {:induction false} ChainsEqualIffSeen(s: seq<Diagnostic>, t: seq<Diagnostic>)
    ensures EqualMessageChains(s, t) <==> SeeChain(s) == SeeChain(t)
    decreases s
  {
    if s != [] && t != [] {
      EqualChainsReflexive(s[0].messageChain);
      ChainsEqualIffSeen(s[0].messageChain, t[0].messageChain);
      ChainsEqualIffSeen(s[1..], t[1..]);
      SameCons(SeenChain(s[0].code, s[0].messageArgs, SeeChain(s[0].messageChain)), SeeChain(s[1..]),
               SeenChain(t[0].code, t[0].messageArgs, SeeChain(t[0].messageChain)), SeeChain(t[1..]));
    }
  }

  /** EqualDiagnostics holds exactly of diagnostics that look the same once addresses are forgotten. */
  lemma {:induction false} EqualIffSeen(d1: Diagnostic, d2: Diagnostic)
    ensures Equal(d1, d2) <==> See(d1) == See(d2)
    decreases d1
  {
    hide SeeChain, SeeAll, EqualMessageChains, EqualRelated;
    ChainsEqualIffSeen(d1.messageChain, d2.messageChain);
    RelatedEqualIffSeen(d1.relatedInformation, d2.relatedInformation);
  }

  lemma {:induction false} RelatedEqualIffSeen(s: seq<Diagnostic>, t: seq<Diagnostic>)
    ensures EqualRelated(s, t) <==> SeeAll(s) == SeeAll(t)
    decreases s
  {
    if s != [] && t != [] {
      EqualIffSeen(s[0], t[0]);
      RelatedEqualIffSeen(s[1..], t[1..]);
      SameCons(See(s[0]), SeeAll(s[1..]), See(t[0]), SeeAll(t[1..]));
    }
  }

  /** The diagnostic with every address in it replaced by 0. */
  function Forget(d: Diagnostic): Diagnostic
    decreases d
  {
    d.(ref := 0, messageChain := ForgetAll(d.messageChain), relatedInformation := ForgetAll(d.relatedInformation))
  }

  function ForgetAll(s: seq<Diagnostic>): seq<Diagnostic>
    decreases s
  {
    if s == [] then [] else [Forget(s[0])] + ForgetAll(s[1..])
  }

  lemma {:induction false} ForgottenChainSeen(s: seq<Diagnostic>)
    ensures SeeChain(ForgetAll(s)) == SeeChain(s)
    decreases s
  {
    if s != [] {
      ForgottenChainSeen(s[0].messageChain);
      ForgottenChainSeen(s[1..]);
      assert ForgetAll(s)[1..] == ForgetAll(s[1..]);
    }
  }

  lemma {:induction false} ForgottenSeen(d: Diagnostic)
    ensures See(Forget(d)) == See(d)
    decreases d
  {
    ForgottenChainSeen(d.messageChain);
    ForgottenAllSeen(d.relatedInformation);
  }

  lemma {:induction false} ForgottenAllSeen(s: seq<Diagnostic>)
    ensures SeeAll(ForgetAll(s)) == SeeAll(s)
    decreases s
  {
    if s != [] {
      ForgottenSeen(s[0]);
      ForgottenAllSeen(s[1..]);
      assert ForgetAll(s)[1..] == ForgetAll(s[1..]);
    }
  }

  /** A copy at other addresses is Equal, and is filed under the same name, place and code. */
  lemma CopyIsEqual(d1: Diagnostic, d2: Diagnostic)
    requires Forget(d1) == Forget(d2)
    ensures Equal(d1, d2) && d1.file == d2.file && d1.loc == d2.loc && d1.code == d2.code
  {
    hide See, Equal, ForgetAll;
    ForgottenSeen(d1);
    ForgottenSeen(d2);
    EqualIffSeen(d1, d2);
  }

  /** A diagnostic with a text is told by it, one with code -1 by its message, any other by its key. */
  lemma MessageTellsApart(d1: Diagnostic, d2: Diagnostic)
    requires Equal(d1, d2)
    ensures d1.messageText != "" && d2.messageText != "" ==> d1.messageText == d2.messageText
    ensures d1.messageText == "" && d2.messageText == "" ==>
      if d1.message.Some? && d2.message.Some? && d1.code == -1 then d1.message == d2.message
      else (d1.message.None? && d2.message.None?) || d1.code != -1 ==> d1.messageKey == d2.messageKey
  {
    hide EqualRelated, EqualMessageChains;
  }
}
