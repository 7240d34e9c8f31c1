/** How values are written in a text (EncodeJSStringRune, tsc/internal/stringutil/util.go), and that the decoder the
    position map is built with reads back exactly these. */
module JSStrings {
  import opened PositionMaps

  const MAX_RUNE := 0x10FFFF

  predicate IsRune(v: int) { 0 <= v <= MAX_RUNE }

  predicate IsSurrogate(v: int) { 0xD800 <= v <= 0xDFFF }

  /** The table in section 3 of RFC 3629, with no gap where the surrogates are. */
  function Utf8Bytes(v: int): seq<Byte>
    requires IsRune(v)
  {
    if v < 0x80 then [v]
    else if v < 0x800 then [0xC0 + v / 0x40, 0x80 + v % 0x40]
    else if v < 0x10000 then [0xE0 + v / 0x1000, 0x80 + v / 0x40 % 0x40, 0x80 + v % 0x40]
    else [0xF0 + v / 0x40000, 0x80 + v / 0x1000 % 0x40, 0x80 + v / 0x40 % 0x40, 0x80 + v % 0x40]
  }

  /** Go writes a value that is no rune as the replacement character; a lone surrogate is spelled out. */
  function EncodeJSStringRune(v: int): seq<Byte> {
    if IsSurrogate(v) then [0xED, 0x80 + v / 0x40 % 0x40, 0x80 + v % 0x40]
    else if IsRune(v) then Utf8Bytes(v)
    else Utf8Bytes(0xFFFD)
  }

  /** A lone surrogate gets the three bytes the table would give it. */
  lemma SurrogateBytes(v: int)
    ensures IsRune(v) ==> EncodeJSStringRune(v) == Utf8Bytes(v)
    ensures !IsRune(v) ==> EncodeJSStringRune(v) == [0xEF, 0xBF, 0xBD]
  {
  }

  lemma SplitBits(v: int)
    requires IsRune(v)
    ensures v / 0x40 / 0x40 == v / 0x1000 && v / 0x1000 / 0x40 == v / 0x40000
    ensures v == v / 0x40 * 0x40 + v % 0x40
    ensures v / 0x40 == v / 0x1000 * 0x40 + v / 0x40 % 0x40
    ensures v / 0x1000 == v / 0x40000 * 0x40 + v / 0x1000 % 0x40
  {
  }

  /** Decoding what was encoded, with anything behind it, gives the value and the number of its bytes. */
  lemma DecodeEncoded(v: int, rest: seq<Byte>)
    requires IsRune(v)
    ensures DecodeJSStringRune(EncodeJSStringRune(v) + rest) == Rune(v, |EncodeJSStringRune(v)|)
  {
    SurrogateBytes(v);
    SplitBits(v);
  }

  lemma JoinBits(a: nat, b: int)
    requires 0 <= b < 0x40
    ensures (a * 0x40 + b) / 0x40 == a && (a * 0x40 + b) % 0x40 == b
  {
  }

  lemma OneByte(b: Byte)
    requires b < 0x80
    ensures Utf8Bytes(b) == [b]
  {
  }

  lemma TwoBytes(x: nat, y: int)
    requires 2 <= x < 0x20 && 0 <= y < 0x40
    ensures Utf8Bytes(x * 0x40 + y) == [0xC0 + x, 0x80 + y]
  {
    JoinBits(x, y);
  }

  lemma ThreeBytes(x: nat, y: int, z: int)
    requires x < 0x10 && 0 <= y < 0x40 && 0 <= z < 0x40 && (x == 0 ==> y >= 0x20)
    ensures Utf8Bytes(x * 0x1000 + y * 0x40 + z) == [0xE0 + x, 0x80 + y, 0x80 + z]
  {
    JoinBits(x, y);
    JoinBits(x * 0x40 + y, z);
    SplitBits(x * 0x1000 + y * 0x40 + z);
  }

  lemma FourBytes(x: nat, y: int, z: int, w: int)
    requires x <= 4 && 0 <= y < 0x40 && 0 <= z < 0x40 && 0 <= w < 0x40
    requires (x == 0 ==> y >= 0x10) && (x == 4 ==> y < 0x10)
    ensures Utf8Bytes(x * 0x40000 + y * 0x1000 + z * 0x40 + w) == [0xF0 + x, 0x80 + y, 0x80 + z, 0x80 + w]
  {
    JoinBits(x, y);
    JoinBits(x * 0x40 + y, z);
    JoinBits(x * 0x1000 + y * 0x40 + z, w);
    SplitBits(x * 0x40000 + y * 0x1000 + z * 0x40 + w);
  }

  /** What the decoder takes for more than one error byte is the encoding of the value it gives. */
  lemma EncodeDecoded(s: seq<Byte>)
    requires s != [] && DecodeJSStringRune(s) != RUNE_ERROR
    ensures var r := DecodeJSStringRune(s);
      IsRune(r.value) && r.size == |EncodeJSStringRune(r.value)| && EncodeJSStringRune(r.value) <= s
  {
    hide Utf8Bytes, EncodeJSStringRune;
    var r := DecodeJSStringRune(s);
    SurrogateBytes(r.value);
    match r.size
    case 1 => OneByte(s[0]);
    case 2 => TwoBytes(s[0] - 0xC0, s[1] - 0x80);
    case 3 => ThreeBytes(s[0] - 0xE0, s[1] - 0x80, s[2] - 0x80);
    case _ => FourBytes(s[0] - 0xF0, s[1] - 0x80, s[2] - 0x80, s[3] - 0x80);
  }

  /** A value is decoded exactly where its bytes stand. */
  lemma DecodesExactly(s: seq<Byte>, v: int)
    requires s != [] && IsRune(v)
    ensures EncodeJSStringRune(v) <= s <==> DecodeJSStringRune(s) == Rune(v, |EncodeJSStringRune(v)|)
  {
    var e := EncodeJSStringRune(v);
    hide DecodeJSStringRune;
    if e <= s {
      assert s == e + s[|e|..];
      DecodeEncoded(v, s[|e|..]);
    } else if DecodeJSStringRune(s) == Rune(v, |e|) {
      EncodeDecoded(s);
    }
  }

  /** An error byte is what no encoding starts with. */
  lemma ErrorExactly(s: seq<Byte>)
    requires s != []
    ensures DecodeJSStringRune(s) == RUNE_ERROR <==> forall v :: IsRune(v) ==> !(EncodeJSStringRune(v) <= s)
  {
    hide DecodeJSStringRune;
    if DecodeJSStringRune(s) == RUNE_ERROR {
      forall v | IsRune(v) ensures !(EncodeJSStringRune(v) <= s) { DecodesExactly(s, v); }
    } else {
      EncodeDecoded(s);
    }
  }

  // ---------- a text of many values ----------

  function EncodeAll(values: seq<int>): seq<Byte> {
    if values == [] then [] else EncodeJSStringRune(values[0]) + EncodeAll(values[1..])
  }

  /** The length in UTF-16: a pair for every value above the basic plane. */
  function UnitsOf(values: seq<int>): nat {
    if values == [] then 0 else (if values[0] >= 0x10000 then 2 else 1) + UnitsOf(values[1..])
  }

  lemma FirstCharOfEncoded(v: int, rest: seq<Byte>)
    requires IsRune(v)
    ensures var text := EncodeJSStringRune(v) + rest;
      && text != [] && FirstChar(text).size == |EncodeJSStringRune(v)|
      && FirstChar(text).units == if v >= 0x10000 then 2 else 1
  {
    hide DecodeJSStringRune;
    DecodeEncoded(v, rest);
    SurrogateBytes(v);
  }

  lemma {:induction false} CharsOfEncoded(values: seq<int>)
    requires forall v :: v in values ==> IsRune(v)
    ensures |Chars(EncodeAll(values))| == |values|
    ensures forall i :: 0 <= i < |values| ==>
      && Chars(EncodeAll(values))[i].size == |EncodeJSStringRune(values[i])|
      && Chars(EncodeAll(values))[i].units == if values[i] >= 0x10000 then 2 else 1
  {
    if values != [] {
      hide FirstChar, EncodeJSStringRune;
      var v, rest := values[0], EncodeAll(values[1..]);
      FirstCharOfEncoded(v, rest);
      CharsOfEncoded(values[1..]);
      assert (EncodeJSStringRune(v) + rest)[|EncodeJSStringRune(v)|..] == rest;
    }
  }

  lemma {:induction false} EncodeSnoc(values: seq<int>, v: int)
    ensures EncodeAll(values + [v]) == EncodeAll(values) + EncodeJSStringRune(v)
    ensures UnitsOf(values + [v]) == UnitsOf(values) + if v >= 0x10000 then 2 else 1
  {
    hide EncodeJSStringRune;
    if values == [] {
      assert values + [v] == [v] && [v][1..] == [];
    } else {
      assert (values + [v])[1..] == values[1..] + [v];
      EncodeSnoc(values[1..], v);
    }
  }

  lemma {:induction false} OffsetsOfEncoded(values: seq<int>, i: nat)
    requires (forall v :: v in values ==> IsRune(v)) && i <= |values|
    ensures var chars := Chars(EncodeAll(values));
      && |chars| == |values|
      && Bytes(chars[..i]) == |EncodeAll(values[..i])| && Units(chars[..i]) == UnitsOf(values[..i])
  {
    hide Chars, EncodeJSStringRune;
    CharsOfEncoded(values);
    var chars := Chars(EncodeAll(values));
    if i > 0 {
      OffsetsOfEncoded(values, i - 1);
      assert chars[..i][..i - 1] == chars[..i - 1];
      assert values[..i] == values[..i - 1] + [values[i - 1]];
      EncodeSnoc(values[..i - 1], values[i - 1]);
    } else {
      assert chars[..0] == [] && values[..0] == [];
    }
  }

  /** The UTF-16 length of an encoded text counts 1 or 2 for every value. */
  lemma Utf16LengthOfEncoded(values: seq<int>)
    requires forall v :: v in values ==> IsRune(v)
    ensures Utf16Length(EncodeAll(values)) == UnitsOf(values)
  {
    hide Chars, EncodeAll, UnitsOf;
    OffsetsOfEncoded(values, |values|);
    var chars := Chars(EncodeAll(values));
    assert chars[..|values|] == chars && values[..|values|] == values;
  }

  /** In front of every value the map leads from the bytes written so far to their UTF-16 length, and back. */
  lemma EncodedOffsets(values: seq<int>, i: nat)
    requires (forall v :: v in values ==> IsRune(v)) && i <= |values|
    ensures var chars := Chars(EncodeAll(values));
      && ToUtf16(chars, |EncodeAll(values[..i])|) == UnitsOf(values[..i])
      && ToUtf8(chars, UnitsOf(values[..i])) == |EncodeAll(values[..i])|
  {
    hide Chars, EncodeAll, UnitsOf, ToUtf16, ToUtf8;
    var text := EncodeAll(values);
    OffsetsOfEncoded(values, i);
    AtBoundary(text, i);
    CharsOfPrefix(text, i);
  }
}
