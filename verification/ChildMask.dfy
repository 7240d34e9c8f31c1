/** Finding a property among the children by its rank in the mask. */
module ChildMask {
  import opened FlatAst
  import opened FlatEncoder

  predicate IsBit(bit: bv8) {
    bit == 0x01 || bit == 0x02 || bit == 0x04 || bit == 0x08 || bit == 0x10 || bit == 0x20 || bit == 0x40 || bit == 0x80
  }

  function BitValue(i: nat): (bit: bv8)
    requires i < 8
    ensures IsBit(bit)
  {
    match i
    case 0 => 0x01 case 1 => 0x02 case 2 => 0x04 case 3 => 0x08
    case 4 => 0x10 case 5 => 0x20 case 6 => 0x40 case _ => 0x80
  }

  predicate TestBit(mask: bv8, i: nat)
    requires i < 8
  {
    Meets(mask, BitValue(i))
  }

  function OneBit(x: bv8, bit: bv8): nat {
    if x & bit != 0 then 1 else 0
  }

  /** popcount8. */
  function PopCount(x: bv8): nat {
    OneBit(x, 0x01) + OneBit(x, 0x02) + OneBit(x, 0x04) + OneBit(x, 0x08) +
    OneBit(x, 0x10) + OneBit(x, 0x20) + OneBit(x, 0x40) + OneBit(x, 0x80)
  }

  /** (0xff << order) & 0xff */
  function HighOnes(order: nat): bv8
    requires order < 8
  {
    match order
    case 0 => 0xff case 1 => 0xfe case 2 => 0xfc case 3 => 0xf8
    case 4 => 0xf0 case 5 => 0xe0 case 6 => 0xc0 case _ => 0x80
  }

  /** How many of the bits below `order` are clear. */
  function MissingBelow(mask: bv8, order: nat): nat
    requires order < 8
  {
    PopCount(!(mask | HighOnes(order)))
  }

  /** Bit i counts as missing below `order`. */
  function Missing(mask: bv8, i: nat, order: nat): nat
    requires i < 8
  {
    if i < order && !TestBit(mask, i) then 1 else 0
  }

  predicate Meets(x: bv8, bit: bv8) { x & bit != 0 }

  lemma InverseBit(mask: bv8, high: bv8, bit: bv8)
    requires IsBit(bit)
    ensures OneBit(!(mask | high), bit) == if Meets(mask, bit) || Meets(high, bit) then 0 else 1
  {
  }

  lemma HighBit(order: nat, i: nat)
    requires order < 8 && i < 8
    ensures Meets(HighOnes(order), BitValue(i)) <==> i >= order
  {
  }

  lemma OneMissing(mask: bv8, order: nat, i: nat)
    requires order < 8 && i < 8
    ensures OneBit(!(mask | HighOnes(order)), BitValue(i)) == Missing(mask, i, order)
  {
    hide HighOnes, BitValue, IsBit, OneBit, Meets;
    InverseBit(mask, HighOnes(order), BitValue(i));
    HighBit(order, i);
  }

  lemma MissingBelowIsCount(mask: bv8, order: nat)
    requires order < 8
    ensures MissingBelow(mask, order) ==
      Missing(mask, 0, order) + Missing(mask, 1, order) + Missing(mask, 2, order) + Missing(mask, 3, order) +
      Missing(mask, 4, order) + Missing(mask, 5, order) + Missing(mask, 6, order) + Missing(mask, 7, order)
  {
    hide OneBit, HighOnes, Missing;
    OneMissing(mask, order, 0);
    OneMissing(mask, order, 1);
    OneMissing(mask, order, 2);
    OneMissing(mask, order, 3);
    OneMissing(mask, order, 4);
    OneMissing(mask, order, 5);
    OneMissing(mask, order, 6);
    OneMissing(mask, order, 7);
  }

  lemma MissingBelowStep(mask: bv8, order: nat)
    requires order < 7
    ensures MissingBelow(mask, 0) == 0
    ensures MissingBelow(mask, order + 1) == MissingBelow(mask, order) + if TestBit(mask, order) then 0 else 1
  {
    hide MissingBelow, TestBit;
    MissingBelowIsCount(mask, 0);
    MissingBelowIsCount(mask, order);
    MissingBelowIsCount(mask, order + 1);
  }

  predicate IsWritten(v: Value) {
    Written(v) != []
  }

  lemma MaskBit(properties: seq<Value>, i: nat)
    requires i < 8
    ensures TestBit(Mask(properties), i) <==> i < |properties| && IsWritten(properties[i])
  {
    hide Written;
    var w := seq(8, k requires 0 <= k < 8 => k < |properties| && IsWritten(properties[k]));
    assert TestBit(Mask(properties), i) <==> w[i] by {
      MaskOfBits(w[0], w[1], w[2], w[3], w[4], w[5], w[6], w[7], i);
    }
  }

  function BitIf(b: bool, bit: bv8): bv8 {
    if b then bit else 0
  }

  lemma MaskOfBits(b0: bool, b1: bool, b2: bool, b3: bool, b4: bool, b5: bool, b6: bool, b7: bool, i: nat)
    requires i < 8
    ensures TestBit(BitIf(b0, 0x01) | BitIf(b1, 0x02) | BitIf(b2, 0x04) | BitIf(b3, 0x08) |
                    BitIf(b4, 0x10) | BitIf(b5, 0x20) | BitIf(b6, 0x40) | BitIf(b7, 0x80), i) <==>
      match i case 0 => b0 case 1 => b1 case 2 => b2 case 3 => b3 case 4 => b4 case 5 => b5 case 6 => b6 case _ => b7
  {
  }

  /** How many of the first `order` properties are written. */
  function Rank(properties: seq<Value>, order: nat): nat
    requires order <= |properties|
  {
    if order == 0 then 0 else Rank(properties, order - 1) + if IsWritten(properties[order - 1]) then 1 else 0
  }

  /** The order less the missing bits below it is the rank among the properties written. */
  lemma {:induction false} RankByMask(properties: seq<Value>, order: nat)
    requires order < 8 && order <= |properties|
    ensures order - MissingBelow(Mask(properties), order) == Rank(properties, order)
  {
    hide MissingBelow, TestBit, Mask, IsWritten;
    if order == 0 {
      MissingBelowStep(Mask(properties), 0);
    } else {
      RankByMask(properties, order - 1);
      MissingBelowStep(Mask(properties), order - 1);
      MaskBit(properties, order - 1);
    }
  }

  lemma {:induction false} RankCons(v: Value, rest: seq<Value>, order: nat)
    requires order <= |rest|
    ensures Rank([v] + rest, order + 1) == (if IsWritten(v) then 1 else 0) + Rank(rest, order)
  {
    hide IsWritten;
    if order > 0 { RankCons(v, rest, order - 1); }
  }

  // ---------- where a property stands among the children ----------

  /** How many children are written before the property. */
  function Offset(members: seq<Member>, order: nat): (n: nat)
    requires order < |Properties(members)|
    ensures n <= |WrittenOf(members)|
  {
    var m := members[0];
    if m.encoded && order == 0 then 0
    else |Written(m.value)| + Offset(members[1..], if m.encoded then order - 1 else order)
  }

  /** Nothing is written before the property for which there is no bit: no member without one, and no second
      node of a raw list. */
  predicate Straight(members: seq<Member>, order: nat)
    requires order < |Properties(members)|
  {
    var m := members[0];
    if m.encoded then order == 0 || (|Written(m.value)| <= 1 && Straight(members[1..], order - 1))
    else !IsWritten(m.value) && Straight(members[1..], order)
  }

  lemma PropertiesCons(members: seq<Member>)
    requires members != []
    ensures Properties(members) ==
      if members[0].encoded then [members[0].value] + Properties(members[1..]) else Properties(members[1..])
    ensures WrittenOf(members) == Written(members[0].value) + WrittenOf(members[1..])
  {
  }

  /** The rank is the offset exactly when nothing without a bit is written before the property; else it is less. */
  lemma {:induction false} RankIsOffset(members: seq<Member>, order: nat)
    requires order < |Properties(members)|
    ensures Rank(Properties(members), order) <= Offset(members, order)
    ensures Rank(Properties(members), order) == Offset(members, order) <==> Straight(members, order)
  {
    assert members != [];
    hide Properties, Written, WrittenOf, Rank;
    PropertiesCons(members);
    var m, rest := members[0], members[1..];
    if m.encoded {
      if order == 0 {
        RankNone(Properties(members));
      } else {
        RankIsOffset(rest, order - 1);
        RankCons(m.value, Properties(rest), order - 1);
      }
    } else {
      RankIsOffset(rest, order);
    }
  }

  lemma RankNone(properties: seq<Value>)
    ensures Rank(properties, 0) == 0
  {
  }

  predicate StandsAt(w: seq<Item>, children: seq<Item>, from: nat) {
    from + |w| <= |children| && children[from..from + |w|] == w
  }

  /** The property's rows start at its offset. */
  lemma {:induction false} PropertyIsChild(members: seq<Member>, order: nat)
    requires order < |Properties(members)|
    ensures StandsAt(Written(Properties(members)[order]), WrittenOf(members), Offset(members, order))
  {
    hide Properties, Written, WrittenOf, Offset, StandsAt;
    OffsetCons(members, order);
    PropertiesCons(members);
    var m, rest := members[0], members[1..];
    if m.encoded && order == 0 {
      InFront(Written(m.value), WrittenOf(rest));
    } else {
      var k := if m.encoded then order - 1 else order;
      PropertyIsChild(rest, k);
      Behind(Written(m.value), WrittenOf(rest), Written(Properties(rest)[k]), Offset(rest, k));
    }
  }

  lemma OffsetCons(members: seq<Member>, order: nat)
    requires order < |Properties(members)|
    ensures members != []
    ensures members[0].encoded && order == 0 ==> Offset(members, order) == 0
    ensures members[0].encoded && order > 0 ==>
      && order - 1 < |Properties(members[1..])|
      && Offset(members, order) == |Written(members[0].value)| + Offset(members[1..], order - 1)
      && Properties(members)[order] == Properties(members[1..])[order - 1]
    ensures !members[0].encoded ==>
      && order < |Properties(members[1..])|
      && Offset(members, order) == |Written(members[0].value)| + Offset(members[1..], order)
      && Properties(members)[order] == Properties(members[1..])[order]
  {
    assert members != [];
    hide Properties, Written;
    PropertiesCons(members);
  }

  lemma InFront(a: seq<Item>, b: seq<Item>)
    ensures StandsAt(a, a + b, 0)
  {
  }

  lemma Behind(a: seq<Item>, b: seq<Item>, w: seq<Item>, from: nat)
    requires StandsAt(w, b, from)
    ensures StandsAt(w, a + b, |a| + from)
  {
  }

  /** The children without a bit of their own: members that are not encoded, and raw lists behind their first node. */
  function Surplus(members: seq<Member>): seq<Item> {
    if members == [] then []
    else
      var w := Written(members[0].value);
      (if members[0].encoded && w != [] then w[1..] else if members[0].encoded then [] else w) + Surplus(members[1..])
  }

  lemma SurplusCons(members: seq<Member>)
    requires members != []
    ensures forall x :: x in Surplus(members[1..]) ==> x in Surplus(members)
    ensures !members[0].encoded ==> forall x :: x in Written(members[0].value) ==> x in Surplus(members)
    ensures members[0].encoded && |Written(members[0].value)| > 1 ==> Written(members[0].value)[1] in Surplus(members)
  {
    hide Written;
    var w := Written(members[0].value);
    if |w| > 1 { assert w[1] == w[1..][0]; }
  }

  /** All properties written before this one stand straight. */
  ghost predicate StraightBelow(members: seq<Member>, order: nat)
    requires order <= |Properties(members)|
  {
    forall j :: 0 <= j < order && IsWritten(Properties(members)[j]) ==> Straight(members, j)
  }

  lemma StraightCons(members: seq<Member>, order: nat)
    requires order < |Properties(members)|
    ensures members != []
    ensures members[0].encoded && order == 0 ==> Straight(members, order)
    ensures members[0].encoded && order > 0 ==>
      && order - 1 < |Properties(members[1..])|
      && Properties(members)[order] == Properties(members[1..])[order - 1]
      && (Straight(members, order) <==> |Written(members[0].value)| <= 1 && Straight(members[1..], order - 1))
    ensures !members[0].encoded ==>
      && order < |Properties(members[1..])|
      && Properties(members)[order] == Properties(members[1..])[order]
      && (Straight(members, order) <==> !IsWritten(members[0].value) && Straight(members[1..], order))
  {
    assert members != [];
    hide Properties, Written;
    PropertiesCons(members);
  }

  lemma StraightBelowEncoded(members: seq<Member>, order: nat)
    requires 0 < order < |Properties(members)| && StraightBelow(members, order) && members[0].encoded
    ensures order - 1 < |Properties(members[1..])| && StraightBelow(members[1..], order - 1)
    ensures |Written(members[0].value)| > 1 ==>
      forall j :: 0 <= j < order - 1 ==> !IsWritten(Properties(members[1..])[j])
  {
    hide Properties, IsWritten, Straight, Written;
    StraightCons(members, order);
    forall j | 0 <= j < order - 1 && IsWritten(Properties(members[1..])[j])
      ensures |Written(members[0].value)| <= 1 && Straight(members[1..], j) {
      StraightCons(members, j + 1);
      assert Straight(members, j + 1);
    }
  }

  lemma StraightBelowHidden(members: seq<Member>, order: nat)
    requires order < |Properties(members)| && StraightBelow(members, order)
    requires members != [] && !members[0].encoded
    ensures order < |Properties(members[1..])| && StraightBelow(members[1..], order)
    ensures IsWritten(members[0].value) ==> forall j :: 0 <= j < order ==> !IsWritten(Properties(members)[j])
  {
    hide Properties, IsWritten, Straight;
    StraightCons(members, order);
    forall j | 0 <= j < order && IsWritten(Properties(members)[j])
      ensures !IsWritten(members[0].value) && j < |Properties(members[1..])| && Straight(members[1..], j) {
      StraightCons(members, j);
      assert Straight(members, j);
    }
    forall j | 0 <= j < order && IsWritten(Properties(members[1..])[j]) ensures Straight(members[1..], j) {
      StraightCons(members, j);
    }
  }

  /** At the rank of the first property that does not stand straight is a child without a bit. */
  lemma {:induction false} FirstMisplaced(members: seq<Member>, order: nat)
    requires order < |Properties(members)| && IsWritten(Properties(members)[order]) && !Straight(members, order)
    requires StraightBelow(members, order)
    ensures Rank(Properties(members), order) < |WrittenOf(members)|
    ensures WrittenOf(members)[Rank(Properties(members), order)] in Surplus(members)
  {
    hide Properties, WrittenOf, Rank, StraightBelow, Straight, Surplus, Written;
    StraightCons(members, order);
    PropertiesCons(members);
    SurplusCons(members);
    var m, rest := members[0], members[1..];
    var w := Written(m.value);
    if m.encoded {
      StraightBelowEncoded(members, order);
      RankCons(m.value, Properties(rest), order - 1);
      if |w| <= 1 {
        FirstMisplaced(rest, order - 1);
        InConcat(w, WrittenOf(rest), |w| + Rank(Properties(rest), order - 1));
      } else {
        RankWhileNone(Properties(rest), order - 1);
        InConcat(w, WrittenOf(rest), 1);
      }
    } else if w == [] {
      StraightBelowHidden(members, order);
      FirstMisplaced(rest, order);
      InConcat(w, WrittenOf(rest), Rank(Properties(rest), order));
    } else {
      StraightBelowHidden(members, order);
      RankWhileNone(Properties(members), order);
      InConcat(w, WrittenOf(rest), 0);
    }
  }

  lemma InConcat(a: seq<Item>, b: seq<Item>, k: nat)
    requires k < |a| + |b|
    ensures (a + b)[k] == if k < |a| then a[k] else b[k - |a|]
  {
  }

  lemma {:induction false} RankWhileNone(properties: seq<Value>, order: nat)
    requires order <= |properties| && forall j :: 0 <= j < order ==> !IsWritten(properties[j])
    ensures Rank(properties, order) == 0
  {
    if order > 0 { RankWhileNone(properties, order - 1); }
  }

  /** A member without a bit takes the place of the property behind it: a function to which a JSDoc comment gives
      a full signature is asked for its body and answers with the signature. */
  lemma {:induction false} HiddenMemberIsAnswered(before: seq<Member>, signature: Item, body: Item, after: seq<Member>)
    requires forall m :: m in before ==> m.encoded && |Written(m.value)| <= 1
    requires signature.Node? && body.Node?
    ensures var members := before + ([Member(false, One(signature)), Member(true, One(body))] + after);
      var order := |before|;
      && order < |Properties(members)| && Properties(members)[order] == One(body)
      && !Straight(members, order)
      && Offset(members, order) == Rank(Properties(members), order) + 1
      && WrittenOf(members)[Rank(Properties(members), order)] == signature
  {
    hide Written, Properties, WrittenOf, Rank, IsWritten, Straight, Offset;
    var pair := [Member(false, One(signature)), Member(true, One(body))];
    if before == [] {
      assert before + (pair + after) == pair + after;
      HiddenInFront(signature, body, after);
    } else {
      var rest := before[1..] + (pair + after);
      HiddenMemberIsAnswered(before[1..], signature, body, after);
      assert before[0] in before;
      HiddenBehind(before[0], rest, |before| - 1);
      assert before + (pair + after) == [before[0]] + rest;
    }
  }

  lemma HiddenInFront(signature: Item, body: Item, after: seq<Member>)
    requires signature.Node? && body.Node?
    ensures var members := [Member(false, One(signature)), Member(true, One(body))] + after;
      && 0 < |Properties(members)| && Properties(members)[0] == One(body) && !Straight(members, 0)
      && Offset(members, 0) == Rank(Properties(members), 0) + 1
      && 0 < |WrittenOf(members)| && WrittenOf(members)[Rank(Properties(members), 0)] == signature
  {
    hide Written, Properties, WrittenOf, Rank, IsWritten, Straight, Offset;
    var own := Member(true, One(body));
    var members := [Member(false, One(signature)), own] + after;
    assert members[1..] == [own] + after;
    PropertiesCons(members);
    PropertiesCons(members[1..]);
    RankNone(Properties(members));
    NodeIsWritten(signature);
    StraightCons(members, 0);
    OffsetCons(members, 0);
    OffsetCons(members[1..], 0);
    InConcat([signature], WrittenOf(members[1..]), 0);
  }

  /** One more member in front, of at most one row and with a bit, shifts everything by that row. */
  lemma HiddenBehind(m: Member, rest: seq<Member>, order: nat)
    requires m.encoded && |Written(m.value)| <= 1
    requires order < |Properties(rest)| && !Straight(rest, order)
    requires Offset(rest, order) == Rank(Properties(rest), order) + 1
    requires Rank(Properties(rest), order) < |WrittenOf(rest)|
    ensures var members := [m] + rest;
      && order + 1 < |Properties(members)| && Properties(members)[order + 1] == Properties(rest)[order]
      && !Straight(members, order + 1)
      && Offset(members, order + 1) == Rank(Properties(members), order + 1) + 1
      && Rank(Properties(members), order + 1) < |WrittenOf(members)|
      && WrittenOf(members)[Rank(Properties(members), order + 1)] == WrittenOf(rest)[Rank(Properties(rest), order)]
  {
    hide Written, Properties, WrittenOf, Rank, IsWritten, Straight, Offset;
    var members := [m] + rest;
    assert members[0] == m && members[1..] == rest;
    PropertiesCons(members);
    RankCons(m.value, Properties(rest), order);
    WrittenOnce(m.value);
    StraightCons(members, order + 1);
    OffsetCons(members, order + 1);
    InConcat(Written(m.value), WrittenOf(rest), Rank(Properties(members), order + 1));
  }

  lemma NodeIsWritten(x: Item)
    requires x.Node?
    ensures Written(One(x)) == [x] && IsWritten(One(x))
  {
  }

  lemma WrittenOnce(v: Value)
    requires |Written(v)| <= 1
    ensures |Written(v)| == if IsWritten(v) then 1 else 0
  {
  }
}
