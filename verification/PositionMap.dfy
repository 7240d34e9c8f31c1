/** The UTF-8/UTF-16 position map (tsc/internal/ast/positionmap.go) over the decoder it uses. */
module PositionMaps {

  type Byte = b: int | 0 <= b < 0x100

  // ---------- decoding one rune (tsc/internal/stringutil/util.go and section 3 of RFC 3629) ----------

  datatype Rune = Rune(value: int, size: nat)

  const RUNE_ERROR := Rune(0xFFFD, 1)

  predicate IsContinuation(b: Byte) { 0x80 <= b <= 0xBF }

  /** The data bits of a byte, once its marker is taken off. */
  function Payload(b: int, marker: int): int { b - marker }

  /** unicode/utf8's DecodeRuneInString: an ill-formed sequence is one error rune of size 1. */
  function DecodeUtf8(s: seq<Byte>): Rune {
    if s == [] then Rune(0xFFFD, 0)
    else if s[0] < 0x80 then Rune(s[0], 1)
    else if 0xC2 <= s[0] <= 0xDF then
      if |s| >= 2 && IsContinuation(s[1]) then Rune(Payload(s[0], 0xC0) * 0x40 + Payload(s[1], 0x80), 2)
      else RUNE_ERROR
    else if 0xE0 <= s[0] <= 0xEF then
      var low := if s[0] == 0xE0 then 0xA0 else 0x80;
      var high := if s[0] == 0xED then 0x9F else 0xBF;
      if |s| >= 3 && low <= s[1] <= high && IsContinuation(s[2])
      then Rune(Payload(s[0], 0xE0) * 0x1000 + Payload(s[1], 0x80) * 0x40 + Payload(s[2], 0x80), 3)
      else RUNE_ERROR
    else if 0xF0 <= s[0] <= 0xF4 then
      var low := if s[0] == 0xF0 then 0x90 else 0x80;
      var high := if s[0] == 0xF4 then 0x8F else 0xBF;
      if |s| >= 4 && low <= s[1] <= high && IsContinuation(s[2]) && IsContinuation(s[3])
      then Rune(Payload(s[0], 0xF0) * 0x40000 + Payload(s[1], 0x80) * 0x1000 + Payload(s[2], 0x80) * 0x40
                + Payload(s[3], 0x80), 4)
      else RUNE_ERROR
    else RUNE_ERROR
  }

  /** A lone surrogate is stored as the three bytes UTF-8 would give it. */
  function DecodeJSStringRune(s: seq<Byte>): Rune {
    if |s| >= 3 && s[0] == 0xED && 0xA0 <= s[1] <= 0xBF && IsContinuation(s[2])
    then Rune(0xD000 + Payload(s[1], 0x80) * 0x40 + Payload(s[2], 0x80), 3)
    else DecodeUtf8(s)
  }

  /** Only four-byte sequences carry the runes that need a surrogate pair. */
  lemma DecodedSize(s: seq<Byte>)
    requires s != []
    ensures var r := DecodeJSStringRune(s);
      1 <= r.size <= 4 && r.size <= |s| && (r.value >= 0x10000 <==> r.size == 4)
  {
  }

  /** What follows a rune has no say in how it is decoded. */
  lemma DecodingIgnoresWhatFollows(s: seq<Byte>, k: nat)
    requires s != [] && DecodeJSStringRune(s).size <= k <= |s|
    ensures s[..k] != [] && DecodeJSStringRune(s[..k]) == DecodeJSStringRune(s)
  {
    DecodedSize(s);
  }

  // ---------- a text as a sequence of characters ----------

  /** One character: its bytes, its UTF-16 code units, and whether the table has an entry for it. */
  datatype Char = Char(size: nat, units: nat, entered: bool)

  ghost predicate ValidChar(c: Char) {
    && 1 <= c.units <= c.size
    && (!c.entered ==> c.size == c.units == 1)
  }

  function FirstChar(text: seq<Byte>): (c: Char)
    requires text != []
    ensures ValidChar(c) && c.size <= |text|
  {
    DecodedSize(text);
    if text[0] < 0x80 then Char(1, 1, false)
    else
      var r := DecodeJSStringRune(text);
      Char(r.size, if r.value >= 0x10000 then 2 else 1, true)
  }

  function Chars(text: seq<Byte>): seq<Char> {
    if text == [] then [] else [FirstChar(text)] + Chars(text[FirstChar(text).size..])
  }

  ghost predicate ValidChars(chars: seq<Char>) {
    forall c :: c in chars ==> ValidChar(c)
  }

  function Bytes(chars: seq<Char>): nat {
    if chars == [] then 0 else Bytes(chars[..|chars| - 1]) + chars[|chars| - 1].size
  }

  function Units(chars: seq<Char>): nat {
    if chars == [] then 0 else Units(chars[..|chars| - 1]) + chars[|chars| - 1].units
  }

  /** The UTF-16 length of a text. */
  function Utf16Length(text: seq<Byte>): nat {
    Units(Chars(text))
  }

  lemma {:induction false} CharsValid(text: seq<Byte>)
    ensures ValidChars(Chars(text))
  {
    if text != [] { CharsValid(text[FirstChar(text).size..]); }
  }

  lemma {:induction false} BytesConcat(a: seq<Char>, b: seq<Char>)
    ensures Bytes(a + b) == Bytes(a) + Bytes(b) && Units(a + b) == Units(a) + Units(b)
  {
    if b == [] {
      assert a + b == a;
    } else {
      BytesConcat(a, b[..|b| - 1]);
      assert (a + b)[..|a + b| - 1] == a + b[..|b| - 1];
    }
  }

  lemma {:induction false} CharsCoverText(text: seq<Byte>)
    ensures Bytes(Chars(text)) == |text|
  {
    if text != [] {
      var c := FirstChar(text);
      CharsCoverText(text[c.size..]);
      BytesConcat([c], Chars(text[c.size..]));
      assert [c][..0] == [];
    }
  }

  /** At a character boundary the characters before it are those of the text cut there. */
  lemma {:induction false} CharsOfPrefix(text: seq<Byte>, k: nat)
    requires k <= |Chars(text)|
    ensures Bytes(Chars(text)[..k]) <= |text|
    ensures Chars(text[..Bytes(Chars(text)[..k])]) == Chars(text)[..k]
    decreases k
  {
    assert k > 0 ==> text != [];
    hide FirstChar, Chars, Bytes;
    if k > 0 {
      CharsUnfold(text);
      CharsOfPrefix(text[FirstChar(text).size..], k - 1);
      PrefixStep(text, k);
    } else {
      NoChars();
      assert Chars(text)[..0] == [] && text[..0] == [];
    }
  }

  lemma PrefixStep(text: seq<Byte>, k: nat)
    requires text != [] && 0 < k <= |Chars(text)|
    requires var rest := text[FirstChar(text).size..];
      && k - 1 <= |Chars(rest)| && Bytes(Chars(rest)[..k - 1]) <= |rest|
      && Chars(rest[..Bytes(Chars(rest)[..k - 1])]) == Chars(rest)[..k - 1]
    ensures Bytes(Chars(text)[..k]) <= |text|
    ensures Chars(text[..Bytes(Chars(text)[..k])]) == Chars(text)[..k]
  {
    hide FirstChar, Chars, Bytes;
    CharsUnfold(text);
    var c := FirstChar(text);
    var before := Chars(text[c.size..])[..k - 1];
    assert Chars(text)[..k] == [c] + before;
    BytesConcat([c], before);
    OneChar(c);
    var cut := c.size + Bytes(before);
    CutBehind(text, c.size, Bytes(before));
    FirstCharOfPrefix(text, cut);
    CharsUnfold(text[..cut]);
  }

  lemma CharsUnfold(text: seq<Byte>)
    requires text != []
    ensures FirstChar(text).size <= |text| && Chars(text) == [FirstChar(text)] + Chars(text[FirstChar(text).size..])
  {
  }

  lemma CutBehind(text: seq<Byte>, n: nat, m: nat)
    requires n + m <= |text|
    ensures text[..n + m][n..] == text[n..][..m]
  {
  }

  lemma OneChar(c: Char)
    ensures Bytes([c]) == c.size
  {
    assert [c][..0] == [];
  }

  lemma NoChars()
    ensures Chars([]) == [] && Bytes([]) == 0
  {
  }

  /** A first character is the same in a prefix that holds it. */
  lemma FirstCharOfPrefix(text: seq<Byte>, cut: nat)
    requires text != [] && FirstChar(text).size <= cut <= |text|
    ensures cut > 0 && FirstChar(text[..cut]) == FirstChar(text)
  {
    DecodedSize(text);
    if text[0] >= 0x80 { DecodingIgnoresWhatFollows(text, cut); }
  }

  // ---------- the entry table ----------

  datatype Entry = Entry(utf8Pos: int, delta: int)

  /** One entry behind every character that is not ASCII. */
  function Entries(chars: seq<Char>): seq<Entry> {
    if chars == [] then []
    else
      var init := Entries(chars[..|chars| - 1]);
      if chars[|chars| - 1].entered then init + [Entry(Bytes(chars), Bytes(chars) - Units(chars))] else init
  }

  /** Strictly increasing in both coordinates. */
  ghost predicate Increasing(entries: seq<Entry>) {
    forall i, j :: 0 <= i < j < |entries| ==>
      entries[i].utf8Pos < entries[j].utf8Pos && Utf16Pos(entries[i]) < Utf16Pos(entries[j])
  }

  function Utf16Pos(e: Entry): int { e.utf8Pos - e.delta }

  lemma {:induction false} EntriesIncreasing(chars: seq<Char>)
    requires ValidChars(chars)
    ensures Increasing(Entries(chars))
    ensures forall e :: e in Entries(chars) ==>
      0 < e.utf8Pos <= Bytes(chars) && 0 < Utf16Pos(e) <= Units(chars)
  {
    if chars != [] {
      EntriesIncreasing(chars[..|chars| - 1]);
      assert ValidChar(chars[|chars| - 1]);
    }
  }

  /** The delta of the last entry not past a byte offset, 0 when there is none. */
  function DeltaAtByte(entries: seq<Entry>, offset: int): int {
    if entries == [] then 0
    else if entries[|entries| - 1].utf8Pos <= offset then entries[|entries| - 1].delta
    else DeltaAtByte(entries[..|entries| - 1], offset)
  }

  function DeltaAtUnit(entries: seq<Entry>, offset: int): int {
    if entries == [] then 0
    else if Utf16Pos(entries[|entries| - 1]) <= offset then entries[|entries| - 1].delta
    else DeltaAtUnit(entries[..|entries| - 1], offset)
  }

  function ToUtf16(chars: seq<Char>, offset: int): int { offset - DeltaAtByte(Entries(chars), offset) }

  function ToUtf8(chars: seq<Char>, offset: int): int { offset + DeltaAtUnit(Entries(chars), offset) }

  // ---------- the two conversions, character by character ----------

  /** The table stands still from the end of a prefix until the next character has been passed. */
  lemma {:induction false} AcrossCharacter(chars: seq<Char>, k: nat, byte: int, unit: int)
    requires ValidChars(chars) && k <= |chars|
    requires Bytes(chars[..k]) <= byte && (k < |chars| ==> byte < Bytes(chars[..k]) + chars[k].size)
    requires Units(chars[..k]) <= unit && (k < |chars| ==> unit < Units(chars[..k]) + chars[k].units)
    ensures ToUtf16(chars, byte) == byte - Bytes(chars[..k]) + Units(chars[..k])
    ensures ToUtf8(chars, unit) == unit - Units(chars[..k]) + Bytes(chars[..k])
  {
    if k == |chars| {
      assert chars[..k] == chars;
      PastTheEnd(chars, byte, unit);
    } else {
      var n := |chars| - 1;
      var init := chars[..n];
      assert init[..k] == chars[..k];
      BytesGrow(chars, k + 1, n + 1);
      assert chars[..k + 1][..k] == chars[..k] && chars[..n + 1] == chars;
      AcrossCharacter(init, k, byte, unit);
    }
  }

  lemma {:induction false} PastTheEnd(chars: seq<Char>, byte: int, unit: int)
    requires ValidChars(chars) && Bytes(chars) <= byte && Units(chars) <= unit
    ensures DeltaAtByte(Entries(chars), byte) == Bytes(chars) - Units(chars)
    ensures DeltaAtUnit(Entries(chars), unit) == Bytes(chars) - Units(chars)
  {
    if chars != [] {
      assert ValidChar(chars[|chars| - 1]);
      PastTheEnd(chars[..|chars| - 1], byte, unit);
    }
  }

  lemma {:induction false} BytesGrow(chars: seq<Char>, i: nat, j: nat)
    requires ValidChars(chars) && i <= j <= |chars|
    ensures Bytes(chars[..i]) <= Bytes(chars[..j]) && Units(chars[..i]) <= Units(chars[..j])
    ensures i < j ==> Bytes(chars[..i]) < Bytes(chars[..j]) && Units(chars[..i]) < Units(chars[..j])
    decreases j
  {
    if i < j {
      assert chars[..j][..j - 1] == chars[..j - 1];
      assert ValidChar(chars[j - 1]);
      BytesGrow(chars, i, j - 1);
    }
  }

  lemma {:induction false} BelowZero(chars: seq<Char>, offset: int)
    requires ValidChars(chars) && offset < 0
    ensures ToUtf16(chars, offset) == offset && ToUtf8(chars, offset) == offset
  {
    EntriesIncreasing(chars);
    NoEntryYet(Entries(chars), offset);
  }

  lemma {:induction false} NoEntryYet(entries: seq<Entry>, offset: int)
    requires offset < 0 && forall e :: e in entries ==> 0 < e.utf8Pos && 0 < Utf16Pos(e)
    ensures DeltaAtByte(entries, offset) == 0 && DeltaAtUnit(entries, offset) == 0
  {
    if entries != [] { NoEntryYet(entries[..|entries| - 1], offset); }
  }

  /** The character a UTF-16 offset falls into, |chars| when it is past the end. */
  ghost function CharAtUnit(chars: seq<Char>, unit: nat): (k: nat)
    requires ValidChars(chars)
    ensures k <= |chars| && Units(chars[..k]) <= unit
    ensures k < |chars| ==> unit < Units(chars[..k]) + chars[k].units
  {
    if Units(chars) <= unit then assert chars[..|chars|] == chars; |chars|
    else
      var n := |chars| - 1;
      var k := CharAtUnit(chars[..n], unit);
      assert chars[..n][..k] == chars[..k];
      k
  }

  ghost function CharAtByte(chars: seq<Char>, byte: nat): (k: nat)
    requires ValidChars(chars)
    ensures k <= |chars| && Bytes(chars[..k]) <= byte
    ensures k < |chars| ==> byte < Bytes(chars[..k]) + chars[k].size
  {
    if Bytes(chars) <= byte then assert chars[..|chars|] == chars; |chars|
    else
      var n := |chars| - 1;
      var k := CharAtByte(chars[..n], byte);
      assert chars[..n][..k] == chars[..k];
      k
  }

  // ---------- main results ----------

  /** At every character boundary both directions give the length of the prefix, and the last boundary is the end of
      the text. */
  lemma AtBoundary(text: seq<Byte>, k: nat)
    requires k <= |Chars(text)|
    ensures var cut := Bytes(Chars(text)[..k]);
      && cut <= |text|
      && ToUtf16(Chars(text), cut) == Utf16Length(text[..cut])
      && ToUtf8(Chars(text), Utf16Length(text[..cut])) == cut
      && (k == |Chars(text)| ==> cut == |text|)
  {
    var chars := Chars(text);
    CharsCoverText(text);
    assert chars[..|chars|] == chars;
    CharsValid(text);
    CharsOfPrefix(text, k);
    if k < |chars| { assert ValidChar(chars[k]); }
    AcrossCharacter(chars, k, Bytes(chars[..k]), Units(chars[..k]));
  }

  /** Going to UTF-8 and back is the identity on every offset, inside surrogate pairs as well. */
  lemma RoundTrip(chars: seq<Char>, u: int)
    requires ValidChars(chars)
    ensures ToUtf16(chars, ToUtf8(chars, u)) == u
  {
    if u < 0 {
      BelowZero(chars, u);
    } else {
      var k := CharAtUnit(chars, u);
      var byte := Bytes(chars[..k]) + (u - Units(chars[..k]));
      if k < |chars| { assert ValidChar(chars[k]); }
      AcrossCharacter(chars, k, byte, u);
    }
  }

  lemma ToUtf8Successor(chars: seq<Char>, u: int)
    requires ValidChars(chars)
    ensures ToUtf8(chars, u) < ToUtf8(chars, u + 1)
  {
    hide ToUtf8, ToUtf16, CharAtUnit;
    if u + 1 < 0 {
      BelowZero(chars, u);
      BelowZero(chars, u + 1);
    } else if u + 1 == 0 {
      BelowZero(chars, u);
      var k := CharAtUnit(chars, 0);
      if k < |chars| { assert ValidChar(chars[k]); }
      AcrossCharacter(chars, k, Bytes(chars[..k]), 0);
    } else {
      var k := CharAtUnit(chars, u);
      if k < |chars| { assert ValidChar(chars[k]); }
      AcrossCharacter(chars, k, Bytes(chars[..k]), u);
      var k' := CharAtUnit(chars, u + 1);
      if k' < |chars| { assert ValidChar(chars[k']); }
      AcrossCharacter(chars, k', Bytes(chars[..k']), u + 1);
      if k' < k {
        BytesGrow(chars, k', k);
        assert chars[..k' + 1][..k'] == chars[..k'];
        BytesGrow(chars, k' + 1, k);
      } else if k < k' {
        assert chars[..k + 1][..k] == chars[..k];
        BytesGrow(chars, k + 1, k');
      }
    }
  }

  /** UTF16ToUTF8 is strictly increasing everywhere. */
  lemma {:induction false} ToUtf8StrictlyIncreasing(chars: seq<Char>, u: int, v: int)
    requires ValidChars(chars) && u < v
    ensures ToUtf8(chars, u) < ToUtf8(chars, v)
    decreases v - u
  {
    ToUtf8Successor(chars, u);
    if u + 1 < v { ToUtf8StrictlyIncreasing(chars, u + 1, v); }
  }

  /** Going to UTF-16 and back returns a byte offset exactly when no more bytes than its character has
      code units lie before it in that character: at every boundary, and nowhere late in a character. */
  lemma RoundTripFromByte(chars: seq<Char>, b: nat)
    requires ValidChars(chars)
    ensures var k := CharAtByte(chars, b);
      ToUtf8(chars, ToUtf16(chars, b)) == b <==> k == |chars| || b - Bytes(chars[..k]) < chars[k].units
  {
    hide ToUtf16, ToUtf8, Bytes, Units, CharAtByte, CharAtUnit;
    var k := CharAtByte(chars, b);
    if k < |chars| { assert ValidChar(chars[k]); }
    AcrossCharacter(chars, k, b, Units(chars[..k]));
    var u := Units(chars[..k]) + (b - Bytes(chars[..k]));
    if k == |chars| || b - Bytes(chars[..k]) < chars[k].units {
      AcrossCharacter(chars, k, b, u);
    } else {
      var k' := CharAtUnit(chars, u);
      if k' < |chars| { assert ValidChar(chars[k']); }
      AcrossCharacter(chars, k', Bytes(chars[..k']), u);
      if ToUtf8(chars, u) == b {
        UnitsBehind(chars, k, k', u);
      }
    }
  }

  lemma UnitsBehind(chars: seq<Char>, k: nat, k': nat, u: int)
    requires ValidChars(chars) && k < |chars| && k' <= |chars|
    requires Units(chars[..k]) + chars[k].units <= u && Units(chars[..k']) <= u
    requires k' < |chars| ==> u < Units(chars[..k']) + chars[k'].units
    ensures k < k'
    ensures Bytes(chars[..k]) + chars[k].size <= Bytes(chars[..k'])
  {
    if k' < k {
      assert chars[..k' + 1][..k'] == chars[..k'];
      BytesGrow(chars, k' + 1, k);
    } else if k < k' {
      assert chars[..k + 1][..k] == chars[..k];
      BytesGrow(chars, k + 1, k');
    }
  }

  // ---------- the map itself ----------

  /** One more character read: the loop's view of Chars, Bytes, Units and Entries. */
  lemma NextChar(text: seq<Byte>, done: seq<Char>, i: nat) returns (done': seq<Char>)
    requires i < |text| && Chars(text) == done + Chars(text[i..])
    ensures var c := FirstChar(text[i..]);
      && done' == done + [c]
      && i + c.size <= |text|
      && Chars(text) == done' + Chars(text[i + c.size..])
      && Bytes(done') == Bytes(done) + c.size && Units(done') == Units(done) + c.units
      && (c.entered ==> Entries(done') == Entries(done) + [Entry(Bytes(done'), Bytes(done') - Units(done'))])
      && (!c.entered ==> Entries(done') == Entries(done))
  {
    hide FirstChar, Chars;
    CharsUnfold(text[i..]);
    var c := FirstChar(text[i..]);
    done' := done + [c];
    assert text[i..][c.size..] == text[i + c.size..];
    assert done'[..|done|] == done;
    assert done + ([c] + Chars(text[i + c.size..])) == done' + Chars(text[i + c.size..]);
  }

  lemma StartAndEnd(text: seq<Byte>)
    ensures Chars(text) == [] + Chars(text[0..])
    ensures Chars(text[|text|..]) == []
    ensures Entries([]) == []
  {
    assert text[0..] == text;
  }

  class PositionMap {
    var asciiOnly: bool
    var entries: seq<Entry>

    ghost predicate For(text: seq<Byte>)
      reads this
    {
      entries == Entries(Chars(text)) && asciiOnly == (entries == [])
    }

    constructor Compute(text: seq<Byte>)
      ensures For(text)
    {
      entries := [];
      asciiOnly := false;
      new;
      hide Chars, Entries, DecodeJSStringRune;
      var delta, i := 0, 0;
      ghost var done: seq<Char> := [];
      StartAndEnd(text);
      while i < |text|
        invariant 0 <= i <= |text|
        invariant Chars(text) == done + Chars(text[i..])
        invariant i == Bytes(done) && delta == Bytes(done) - Units(done)
        invariant entries == Entries(done)
      {
        var b := text[i];
        assert text[i..][0] == b;
        done := NextChar(text, done, i);
        if b < 0x80 {
          i := i + 1;
        } else {
          var r := DecodeJSStringRune(text[i..]);
          var utf16Size := 1;
          if r.value >= 0x10000 {
            utf16Size := 2;
          }
          delta := delta + r.size - utf16Size;
          entries := entries + [Entry(i + r.size, delta)];
          i := i + r.size;
        }
      }
      asciiOnly := entries == [];
      assert i == |text| && Chars(text) == done + [] == done;
    }

    method UTF8ToUTF16(utf8Offset: int, ghost text: seq<Byte>) returns (r: int)
      requires For(text)
      ensures r == ToUtf16(Chars(text), utf8Offset)
    {
      if asciiOnly {
        return utf8Offset;
      }
      CharsValid(text);
      EntriesIncreasing(Chars(text));
      var lo, hi := 0, |entries|;
      while lo < hi
        invariant 0 <= lo <= hi <= |entries|
        invariant forall i :: 0 <= i < lo ==> entries[i].utf8Pos <= utf8Offset
        invariant forall i :: hi <= i < |entries| ==> utf8Offset < entries[i].utf8Pos
      {
        var mid := lo + (hi - lo) / 2;
        if entries[mid].utf8Pos <= utf8Offset {
          lo := mid + 1;
        } else {
          hi := mid;
        }
      }
      DeltaAtByteIs(entries, utf8Offset, lo);
      if lo == 0 {
        return utf8Offset;
      }
      r := utf8Offset - entries[lo - 1].delta;
    }

    method UTF16ToUTF8(utf16Offset: int, ghost text: seq<Byte>) returns (r: int)
      requires For(text)
      ensures r == ToUtf8(Chars(text), utf16Offset)
    {
      if asciiOnly {
        return utf16Offset;
      }
      CharsValid(text);
      EntriesIncreasing(Chars(text));
      var lo, hi := 0, |entries|;
      while lo < hi
        invariant 0 <= lo <= hi <= |entries|
        invariant forall i :: 0 <= i < lo ==> Utf16Pos(entries[i]) <= utf16Offset
        invariant forall i :: hi <= i < |entries| ==> utf16Offset < Utf16Pos(entries[i])
      {
        var mid := lo + (hi - lo) / 2;
        var utf16Pos := entries[mid].utf8Pos - entries[mid].delta;
        if utf16Pos <= utf16Offset {
          lo := mid + 1;
        } else {
          hi := mid;
        }
      }
      DeltaAtUnitIs(entries, utf16Offset, lo);
      if lo == 0 {
        return utf16Offset;
      }
      r := utf16Offset + entries[lo - 1].delta;
    }
  }

  lemma {:induction false} DeltaAtByteIs(entries: seq<Entry>, offset: int, lo: nat)
    requires lo <= |entries|
    requires lo > 0 ==> entries[lo - 1].utf8Pos <= offset
    requires forall i :: lo <= i < |entries| ==> offset < entries[i].utf8Pos
    ensures DeltaAtByte(entries, offset) == if lo == 0 then 0 else entries[lo - 1].delta
  {
    if lo < |entries| { DeltaAtByteIs(entries[..|entries| - 1], offset, lo); }
  }

  lemma {:induction false} DeltaAtUnitIs(entries: seq<Entry>, offset: int, lo: nat)
    requires lo <= |entries|
    requires lo > 0 ==> Utf16Pos(entries[lo - 1]) <= offset
    requires forall i :: lo <= i < |entries| ==> offset < Utf16Pos(entries[i])
    ensures DeltaAtUnit(entries, offset) == if lo == 0 then 0 else entries[lo - 1].delta
  {
    if lo < |entries| { DeltaAtUnitIs(entries[..|entries| - 1], offset, lo); }
  }
}
