/** Packing a node's boolean and SyntaxKind-union members into the six common-data bits
    (tools/scripts/tsc/generate-encoder.ts). A word is the set of its one bits. */
module BitLayout {

  type Word = set<nat>

  /** KindUnknown, the decoded value of an absent member. */
  const UNKNOWN: nat := 0

  datatype Member = Flag | Kinds(values: seq<nat>, optional: bool)

  datatype Value = Bool(b: bool) | Kind(k: nat)

  ghost predicate WellFormed(m: Member) {
    m.Kinds? ==>
      && m.values != []
      && (forall i, j :: 0 <= i < j < |m.values| ==> m.values[i] != m.values[j])
      && (m.optional ==> UNKNOWN !in m.values)
  }

  // ---------- widths and positions ----------

  /** ceil(log2(count)) */
  function CeilLog2(count: nat): nat {
    if count <= 1 then 0 else 1 + CeilLog2((count + 1) / 2)
  }

  function Pow2(n: nat): (p: nat)
    ensures p > 0
  {
    if n == 0 then 1 else 2 * Pow2(n - 1)
  }

  /** The smallest width with room for all counts. */
  lemma {:induction false} CeilLog2IsLeast(count: nat)
    requires count > 0
    ensures count <= Pow2(CeilLog2(count))
    ensures count > 1 ==> CeilLog2(count) > 0 && Pow2(CeilLog2(count) - 1) < count
  {
    if count > 1 {
      CeilLog2IsLeast((count + 1) / 2);
    }
  }

  function Count(m: Member): nat {
    match m
    case Flag => 2
    case Kinds(values, optional) => if optional then |values| + 1 else |values|
  }

  /** unionBitWidth for a union, one bit for a bool. */
  function Width(m: Member): nat {
    CeilLog2(Count(m))
  }

  datatype Slot = Slot(member: Member, bitPos: nat, bitWidth: nat)

  function Layout(ms: seq<Member>, at: nat): seq<Slot> {
    if ms == [] then [] else [Slot(ms[0], at, Width(ms[0]))] + Layout(ms[1..], at + Width(ms[0]))
  }

  function TotalWidth(ms: seq<Member>): nat {
    if ms == [] then 0 else Width(ms[0]) + TotalWidth(ms[1..])
  }

  lemma {:induction false} LayoutAppend(ms: seq<Member>, m: Member, at: nat)
    ensures Layout(ms + [m], at) == Layout(ms, at) + [Slot(m, at + TotalWidth(ms), Width(m))]
    ensures TotalWidth(ms + [m]) == TotalWidth(ms) + Width(m)
  {
    if ms == [] {
      assert [] + [m] == [m];
    } else {
      assert (ms + [m])[1..] == ms[1..] + [m];
      LayoutAppend(ms[1..], m, at + Width(ms[0]));
    }
  }

  lemma FlagWidth(m: Member)
    requires m.Flag?
    ensures Width(m) == 1
  {
    assert CeilLog2(2) == 1;
  }

  lemma NoLayout(ms: seq<Member>)
    requires ms == []
    ensures Layout(ms, 0) == [] && TotalWidth(ms) == 0
  {
  }

  method GetAutoEncodedLayout(bools: seq<Member>, unions: seq<Member>) returns (layout: seq<Slot>)
    requires forall m :: m in bools ==> m.Flag?
    ensures layout == Layout(bools + unions, 0)
  {
    hide Layout, TotalWidth, Width;
    NoLayout(bools[..0]);
    layout := [];
    var bitPos := 0;
    for i := 0 to |bools|
      invariant layout == Layout(bools[..i], 0) && bitPos == TotalWidth(bools[..i])
    {
      LayoutAppend(bools[..i], bools[i], 0);
      assert bools[..i + 1] == bools[..i] + [bools[i]];
      FlagWidth(bools[i]);
      layout := layout + [Slot(bools[i], bitPos, 1)];
      bitPos := bitPos + 1;
    }
    assert bools[..|bools|] == bools && bools + unions[..0] == bools;
    for i := 0 to |unions|
      invariant layout == Layout(bools + unions[..i], 0) && bitPos == TotalWidth(bools + unions[..i])
    {
      LayoutAppend(bools + unions[..i], unions[i], 0);
      assert bools + unions[..i + 1] == bools + unions[..i] + [unions[i]];
      var width := Width(unions[i]);
      layout := layout + [Slot(unions[i], bitPos, width)];
      bitPos := bitPos + width;
    }
    assert unions[..|unions|] == unions;
  }

  lemma {:induction false} LayoutAt(ms: seq<Member>, at: nat, i: nat)
    requires i < |ms|
    ensures |Layout(ms, at)| == |ms|
    ensures Layout(ms, at)[i] == Slot(ms[i], at + TotalWidth(ms[..i]), Width(ms[i]))
    ensures TotalWidth(ms[..i + 1]) == TotalWidth(ms[..i]) + Width(ms[i])
  {
    assert ms[..i + 1] == ms[..i] + [ms[i]];
    LayoutAppend(ms[..i], ms[i], at);
    if i > 0 {
      LayoutAt(ms[1..], at + Width(ms[0]), i - 1);
      assert ms[..i][1..] == ms[1..][..i - 1];
    } else if |ms| > 1 {
      LayoutAt(ms[1..], at + Width(ms[0]), 0);
    }
  }

  /** The ranges follow one another without gap or overlap, from the first bit to the last. */
  lemma LayoutIsContiguous(ms: seq<Member>, at: nat, i: nat)
    requires i < |ms| == |Layout(ms, at)|
    ensures var layout := Layout(ms, at);
      && layout[0].bitPos == at
      && layout[i].member == ms[i]
      && layout[i].bitPos + layout[i].bitWidth == if i + 1 < |ms| then layout[i + 1].bitPos else at + TotalWidth(ms)
  {
    LayoutAt(ms, at, 0);
    LayoutAt(ms, at, i);
    if i + 1 < |ms| {
      LayoutAt(ms, at, i + 1);
    } else {
      assert ms[..i + 1] == ms;
    }
  }

  // ---------- one member ----------

  function IndexOf(values: seq<nat>, k: nat): (i: nat)
    ensures i <= |values|
    ensures i < |values| ==> values[i] == k
    ensures i == |values| ==> k !in values
  {
    if values == [] then 0 else if values[0] == k then 0 else 1 + IndexOf(values[1..], k)
  }

  /** The index getNodeCommonData emits; a value that is no member of the union takes the default's. */
  function EncodeIndex(m: Member, v: Value): nat {
    match m
    case Flag => if v.Bool? && v.b then 1 else 0
    case Kinds(values, optional) =>
      if v.Bool? then 0
      else
        var i := IndexOf(values, v.k);
        if i == |values| then 0 else if optional then i + 1 else i
  }

  function DecodeIndex(m: Member, index: nat): Value {
    match m
    case Flag => Bool(index != 0)
    case Kinds(values, optional) =>
      if optional then Kind(if 1 <= index <= |values| then values[index - 1] else UNKNOWN)
      else if |values| == 2 then Kind(if index != 0 then values[1] else values[0])
      else Kind(if index < |values| then values[index] else UNKNOWN)
  }

  /** The values a member can have. */
  predicate Typed(m: Member, v: Value) {
    match m
    case Flag => v.Bool?
    case Kinds(values, optional) => v.Kind? && (v.k in values || (optional && v.k == UNKNOWN))
  }

  /** The index gives the value back exactly when the member can have it. */
  lemma IndexRoundTrip(m: Member, v: Value)
    requires WellFormed(m)
    ensures DecodeIndex(m, EncodeIndex(m, v)) == v <==> Typed(m, v)
    ensures EncodeIndex(m, v) < Count(m)
  {
  }

  lemma EveryIndexIsUsed(m: Member, index: nat) returns (v: Value)
    requires WellFormed(m) && index < Count(m)
    ensures Typed(m, v) && EncodeIndex(m, v) == index
  {
    match m
    case Flag => v := Bool(index == 1);
    case Kinds(values, optional) =>
      if optional && index == 0 {
        v := Kind(UNKNOWN);
      } else {
        v := Kind(values[if optional then index - 1 else index]);
      }
  }

  // ---------- words ----------

  /** n << at */
  function Shifted(n: nat, at: nat): Word
    decreases n
  {
    if n == 0 then {} else (if n % 2 == 1 then {at} else {}) + Shifted(n / 2, at + 1)
  }

  /** (word >> at) & ((1 << width) - 1) */
  function Field(word: Word, at: nat, width: nat): nat
    decreases width
  {
    if width == 0 then 0 else (if at in word then 1 else 0) + 2 * Field(word, at + 1, width - 1)
  }

  lemma {:induction false} ShiftedRange(n: nat, at: nat, width: nat)
    requires n < Pow2(width)
    ensures forall b :: b in Shifted(n, at) ==> at <= b < at + width
    decreases n
  {
    if n != 0 { ShiftedRange(n / 2, at + 1, width - 1); }
  }

  lemma {:induction false} ShiftedAbove(n: nat, at: nat)
    ensures forall b :: b in Shifted(n, at) ==> at <= b
    decreases n
  {
    if n != 0 { ShiftedAbove(n / 2, at + 1); }
  }

  /** A field holds n when the word has n's bits there and nothing else. */
  lemma {:induction false} FieldHolds(word: Word, n: nat, at: nat, width: nat)
    requires n < Pow2(width)
    requires forall b :: at <= b < at + width ==> (b in word <==> b in Shifted(n, at))
    ensures Field(word, at, width) == n
    decreases width
  {
    if width > 0 {
      ShiftedAbove(n / 2, at + 1);
      FieldHolds(word, n / 2, at + 1, width - 1);
    }
  }

  lemma {:induction false} FieldBelow(word: Word, at: nat, width: nat, top: nat)
    requires at <= top && forall b :: b in word ==> b < top
    ensures Field(word, at, width) < Pow2(if width <= top - at then width else top - at)
    decreases width
  {
    if width > 0 && at < top {
      FieldBelow(word, at + 1, width - 1, top);
    } else if width > 0 {
      EmptyField(word, at, width);
    }
  }

  lemma {:induction false} EmptyField(word: Word, at: nat, width: nat)
    requires forall b :: b in word ==> b < at
    ensures Field(word, at, width) == 0
    decreases width
  {
    if width > 0 { EmptyField(word, at + 1, width - 1); }
  }

  // ---------- a whole node ----------

  predicate TypedAll(ms: seq<Member>, vs: seq<Value>) {
    |vs| == |ms| && forall i :: 0 <= i < |ms| ==> Typed(ms[i], vs[i])
  }

  ghost predicate WellFormedAll(ms: seq<Member>) {
    forall m :: m in ms ==> WellFormed(m)
  }

  /** getNodeCommonData: the members' indices, each shifted to its place from bit 24 on. */
  function Encode(ms: seq<Member>, vs: seq<Value>, at: nat): Word
    requires |vs| == |ms|
  {
    if ms == [] then {}
    else Shifted(EncodeIndex(ms[0], vs[0]), 24 + at) + Encode(ms[1..], vs[1..], at + Width(ms[0]))
  }

  /** A node's data word: 32 bits of data type, common data and child mask or string index. */
  function DataWord(common: Word, dataType: Word, low: Word): Word {
    set b | b in dataType + common + low && b < 32
  }

  /** uint8((data >> 24) & 0x3f), left in place. */
  function CommonData(data: Word): Word {
    set b | b in data && 24 <= b < 30
  }

  function Decode(ms: seq<Member>, common: Word, at: nat): seq<Value> {
    if ms == [] then []
    else [DecodeIndex(ms[0], Field(common, 24 + at, Width(ms[0])))] + Decode(ms[1..], common, at + Width(ms[0]))
  }

  lemma IndexFits(m: Member, v: Value)
    requires WellFormed(m)
    ensures EncodeIndex(m, v) < Pow2(Width(m))
  {
    IndexRoundTrip(m, v);
    CeilLog2IsLeast(Count(m));
  }

  predicate Within(word: Word, from: nat, to: nat) {
    forall b :: b in word ==> from <= b < to
  }

  lemma WithinUnion(a: Word, b: Word, from: nat, mid: nat, to: nat)
    requires from <= mid <= to && Within(a, from, mid) && Within(b, mid, to)
    ensures Within(a + b, from, to)
  {
  }

  lemma FirstWithin(m: Member, v: Value, at: nat)
    requires WellFormed(m)
    ensures Within(Shifted(EncodeIndex(m, v), at), at, at + Width(m))
  {
    hide EncodeIndex, Width, Shifted;
    IndexFits(m, v);
    ShiftedRange(EncodeIndex(m, v), at, Width(m));
  }

  lemma NothingEncoded(ms: seq<Member>, vs: seq<Value>, at: nat)
    requires ms == [] && vs == []
    ensures Within(Encode(ms, vs, at), 24 + at, 24 + at + TotalWidth(ms))
  {
  }

  lemma {:induction false} EncodeRange(ms: seq<Member>, vs: seq<Value>, at: nat)
    requires WellFormedAll(ms) && |vs| == |ms|
    ensures Within(Encode(ms, vs, at), 24 + at, 24 + at + TotalWidth(ms))
  {
    hide EncodeIndex, Width, Shifted, Encode, TotalWidth, Within, WellFormed;
    if ms == [] {
      NothingEncoded(ms, vs, at);
    } else {
      var w := Width(ms[0]);
      FirstWithin(ms[0], vs[0], 24 + at);
      EncodeRange(ms[1..], vs[1..], at + w);
      EncodeUnfolds(ms, vs, at);
      WithinUnion(Shifted(EncodeIndex(ms[0], vs[0]), 24 + at), Encode(ms[1..], vs[1..], at + w),
                  24 + at, 24 + at + w, 24 + at + TotalWidth(ms));
    }
  }

  lemma EncodeUnfolds(ms: seq<Member>, vs: seq<Value>, at: nat)
    requires ms != [] && |vs| == |ms|
    ensures Encode(ms, vs, at) ==
      Shifted(EncodeIndex(ms[0], vs[0]), 24 + at) + Encode(ms[1..], vs[1..], at + Width(ms[0]))
    ensures TotalWidth(ms) == Width(ms[0]) + TotalWidth(ms[1..])
  {
    hide EncodeIndex, Width, Shifted;
  }

  /** The bits of the first member and those of the others do not meet. */
  lemma EncodedParts(ms: seq<Member>, vs: seq<Value>, at: nat)
    requires WellFormedAll(ms) && |vs| == |ms| && ms != []
    ensures var first, rest, end := Shifted(EncodeIndex(ms[0], vs[0]), 24 + at),
      Encode(ms[1..], vs[1..], at + Width(ms[0])), 24 + at + Width(ms[0]);
      && (forall b :: 24 + at <= b < end ==> (b in Encode(ms, vs, at) <==> b in first))
      && (forall b :: end <= b ==> (b in Encode(ms, vs, at) <==> b in rest))
  {
    hide EncodeIndex, Shifted, Width;
    assert WellFormed(ms[0]);
    IndexFits(ms[0], vs[0]);
    ShiftedRange(EncodeIndex(ms[0], vs[0]), 24 + at, Width(ms[0]));
    EncodeRange(ms[1..], vs[1..], at + Width(ms[0]));
  }

  /** Decoding sees only the bits from its own start on. */
  lemma {:induction false} DecodeEncoded(ms: seq<Member>, vs: seq<Value>, at: nat, common: Word)
    requires WellFormedAll(ms) && TypedAll(ms, vs)
    requires forall b :: 24 + at <= b < 24 + at + TotalWidth(ms) ==> (b in common <==> b in Encode(ms, vs, at))
    ensures Decode(ms, common, at) == vs
  {
    if ms != [] {
      hide Encode, EncodeIndex, DecodeIndex, Shifted, Field, Width;
      var m, v, w := ms[0], vs[0], Width(ms[0]);
      assert WellFormed(m) && Typed(m, v);
      hide WellFormed, Typed;
      IndexFits(m, v);
      IndexRoundTrip(m, v);
      EncodedParts(ms, vs, at);
      FieldHolds(common, EncodeIndex(m, v), 24 + at, w);
      DecodeEncoded(ms[1..], vs[1..], at + w, common);
      assert vs == [v] + vs[1..];
    }
  }

  /** What the decoder reads from a node whose members were packed with this data type and low part. */
  function Reread(ms: seq<Member>, vs: seq<Value>, dataType: Word, low: Word): seq<Value>
    requires |vs| == |ms|
  {
    Decode(ms, CommonData(DataWord(Encode(ms, vs, 0), dataType, low)), 0)
  }

  ghost predicate Surroundings(dataType: Word, low: Word) {
    (forall b :: b in dataType ==> b == 30 || b == 31) && (forall b :: b in low ==> b < 24)
  }

  /** Members of at most six bits come back, and leave the data type and the low part alone. */
  lemma PackedComesBack(ms: seq<Member>, vs: seq<Value>, dataType: Word, low: Word)
    requires WellFormedAll(ms) && TypedAll(ms, vs) && TotalWidth(ms) <= 6 && Surroundings(dataType, low)
    ensures Reread(ms, vs, dataType, low) == vs
    ensures var data := DataWord(Encode(ms, vs, 0), dataType, low);
      (set b | b in data && b >= 30) == dataType && (set b | b in data && b < 24) == low
  {
    EncodeRange(ms, vs, 0);
    DecodeEncoded(ms, vs, 0, CommonData(DataWord(Encode(ms, vs, 0), dataType, low)));
  }

  /** A member that ends behind bit 5 has a value whose top bit is lost. */
  lemma {:induction false} LostValue(ms: seq<Member>, at: nat) returns (vs: seq<Value>)
    requires WellFormedAll(ms) && at <= 6 < at + TotalWidth(ms)
    ensures TypedAll(ms, vs)
    ensures forall common: Word :: (forall b :: b in common ==> b < 30) ==> Decode(ms, common, at) != vs
  {
    var m, w := ms[0], Width(ms[0]);
    assert WellFormed(m);
    hide WellFormed, Width, Typed, EncodeIndex, DecodeIndex, Field, Count;
    if at + w > 6 {
      var v := TopIndexIsUsed(m);
      var others := AnyValues(ms[1..]);
      vs := [v] + others;
      forall common: Word | forall b :: b in common ==> b < 30 ensures Decode(ms, common, at) != vs {
        TopIsLost(m, v, common, at);
        assert Decode(ms, common, at)[0] != v;
      }
    } else {
      var others := LostValue(ms[1..], at + w);
      var v := EveryIndexIsUsed(m, 0);
      vs := [v] + others;
      forall common: Word | forall b :: b in common ==> b < 30 ensures Decode(ms, common, at) != vs {
        assert Decode(ms, common, at)[1..] == Decode(ms[1..], common, at + w);
        assert vs[1..] == others;
      }
    }
  }

  /** A value whose index has the member's top bit. */
  lemma TopIndexIsUsed(m: Member) returns (v: Value)
    requires WellFormed(m) && Width(m) > 0
    ensures Typed(m, v) && EncodeIndex(m, v) == Pow2(Width(m) - 1)
  {
    CeilLog2IsLeast(Count(m));
    v := EveryIndexIsUsed(m, Pow2(Width(m) - 1));
  }

  lemma TopIsLost(m: Member, v: Value, common: Word, at: nat)
    requires WellFormed(m) && at <= 6 < at + Width(m) && Typed(m, v) && EncodeIndex(m, v) == Pow2(Width(m) - 1)
    requires forall b :: b in common ==> b < 30
    ensures DecodeIndex(m, Field(common, 24 + at, Width(m))) != v
  {
    hide WellFormed, Typed, EncodeIndex, DecodeIndex, Field, Width;
    FieldBelow(common, 24 + at, Width(m), 30);
    Pow2Grows(6 - at, Width(m) - 1);
    DifferentIndices(m, v, Field(common, 24 + at, Width(m)));
  }

  lemma DifferentIndices(m: Member, v: Value, index: nat)
    requires WellFormed(m) && Typed(m, v) && index < EncodeIndex(m, v)
    ensures DecodeIndex(m, index) != v
  {
  }

  lemma {:induction false} Pow2Grows(a: nat, b: nat)
    requires a <= b
    ensures Pow2(a) <= Pow2(b)
  {
    if a < b { Pow2Grows(a, b - 1); }
  }

  lemma {:induction false} AnyValues(ms: seq<Member>) returns (vs: seq<Value>)
    requires WellFormedAll(ms)
    ensures TypedAll(ms, vs)
  {
    if ms == [] {
      vs := [];
    } else {
      assert WellFormed(ms[0]);
      var v := EveryIndexIsUsed(ms[0], 0);
      var others := AnyValues(ms[1..]);
      vs := [v] + others;
    }
  }

  /** All values of all members survive packing exactly when the members need no more than six bits. */
  lemma FitsIffLossless(ms: seq<Member>, dataType: Word, low: Word)
    requires WellFormedAll(ms) && Surroundings(dataType, low)
    ensures TotalWidth(ms) <= 6 <==> forall vs :: TypedAll(ms, vs) ==> Reread(ms, vs, dataType, low) == vs
  {
    if TotalWidth(ms) <= 6 {
      forall vs | TypedAll(ms, vs) ensures Reread(ms, vs, dataType, low) == vs {
        PackedComesBack(ms, vs, dataType, low);
      }
    } else {
      var vs := LostValue(ms, 0);
      assert Decode(ms, CommonData(DataWord(Encode(ms, vs, 0), dataType, low)), 0) != vs;
      assert TypedAll(ms, vs) && Reread(ms, vs, dataType, low) != vs;
    }
  }
}
