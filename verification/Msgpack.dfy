/** The MessagePack tuple protocol (tsc/internal/api/protocol_msgpack.go): [type, method, payload]. */
module Msgpack {

  type Byte = b: int | 0 <= b < 0x100

  type Bytes = seq<Byte>

  const FIXED_ARRAY_3: Byte := 0x93
  const BIN_8: Byte := 0xC4
  const BIN_16: Byte := 0xC5
  const BIN_32: Byte := 0xC6
  const U_8: Byte := 0xCC

  datatype Error = UnexpectedEof | InvalidRequest

  datatype Result<+T> = Ok(value: T) | Err(error: Error)

  datatype Message = Message(msgType: Byte, name: Bytes, payload: Bytes)

  /** What was read, and what is left of the stream. */
  datatype Read<+T> = Read(item: T, rest: Bytes)

  predicate ValidType(t: Byte) { 1 <= t <= 6 }

  // ---------- the format ----------

  /** Big-endian digits: n truncated to that many bytes. */
  function BigEndian(n: nat, width: nat): (b: Bytes)
    ensures |b| == width
  {
    if width == 0 then [] else BigEndian(n / 0x100, width - 1) + [n % 0x100]
  }

  function FromBigEndian(b: Bytes): nat {
    if b == [] then 0 else FromBigEndian(b[..|b| - 1]) * 0x100 + b[|b| - 1]
  }

  function Capacity(width: nat): nat {
    if width == 0 then 1 else 0x100 * Capacity(width - 1)
  }

  lemma {:induction false} BigEndianTruncates(n: nat, width: nat)
    ensures Capacity(width) > 0
    ensures FromBigEndian(BigEndian(n, width)) == n % Capacity(width)
  {
    if width > 0 {
      BigEndianTruncates(n / 0x100, width - 1);
      var c := Capacity(width - 1);
      Digits(n, c);
    }
  }

  lemma Digits(n: nat, c: nat)
    requires c > 0
    ensures n / 0x100 % c * 0x100 + n % 0x100 == n % (0x100 * c)
  {
    var q, d := n / 0x100 / c, n / 0x100 % c;
    assert n / 0x100 == q * c + d;
    assert n == (q * c + d) * 0x100 + n % 0x100;
    var r := d * 0x100 + n % 0x100;
    assert d <= c - 1;
    assert 0 <= r < 0x100 * c;
    assert n == q * (0x100 * c) + r;
    Remainder(n, q, 0x100 * c, r);
  }

  lemma Remainder(n: nat, q: nat, m: nat, r: nat)
    requires m > 0 && r < m && n == q * m + r
    ensures n % m == r
  {
    var k: int := n / m - q;
    assert n == (n / m) * m + n % m;
    assert k * m == r - n % m;
  }

  /** The length prefix writeBin chooses. */
  function BinHeader(length: nat): Bytes {
    if length < 256 then [BIN_8] + BigEndian(length, 1)
    else if length < 0x1_0000 then [BIN_16] + BigEndian(length, 2)
    else [BIN_32] + BigEndian(length, 4)
  }

  function EncodeBin(data: Bytes): Bytes {
    BinHeader(|data|) + data
  }

  function EncodeTuple(m: Message): Bytes {
    [FIXED_ARRAY_3, m.msgType] + EncodeBin(m.name) + EncodeBin(m.payload)
  }

  function SizeWidth(marker: Byte): nat {
    if marker == BIN_8 then 1 else if marker == BIN_16 then 2 else if marker == BIN_32 then 4 else 0
  }

  /** The marker and the size behind it. */
  function ParseSize(s: Bytes): Result<Read<nat>> {
    if s == [] then Err(UnexpectedEof)
    else
      var width := SizeWidth(s[0]);
      if width == 0 then Err(InvalidRequest)
      else if |s[1..]| < width then Err(UnexpectedEof)
      else Ok(Read(FromBigEndian(s[1..][..width]), s[1..][width..]))
  }

  function Take(s: Bytes, n: nat): Result<Read<Bytes>> {
    if |s| < n then Err(UnexpectedEof) else Ok(Read(s[..n], s[n..]))
  }

  function ParseBin(s: Bytes): Result<Read<Bytes>> {
    match ParseSize(s)
    case Err(e) => Err(e)
    case Ok(size) => Take(size.rest, size.item)
  }

  /** A positive fixint, or a uint8 behind its marker. */
  function ParseType(s: Bytes): Result<Read<Byte>> {
    if s == [] then Err(UnexpectedEof)
    else if s[0] <= 0x7F then Ok(Read(s[0], s[1..]))
    else if s[0] != U_8 then Err(InvalidRequest)
    else if |s| < 2 then Err(UnexpectedEof)
    else Ok(Read(s[1], s[2..]))
  }

  function ParseTuple(s: Bytes): Result<Read<Message>> {
    if s == [] then Err(UnexpectedEof)
    else if s[0] != FIXED_ARRAY_3 then Err(InvalidRequest)
    else match ParseType(s[1..])
      case Err(e) => Err(e)
      case Ok(t) =>
        if ValidType(t.item) then ParseBody(t.item, t.rest) else Err(InvalidRequest)
  }

  function ParseBody(msgType: Byte, s: Bytes): Result<Read<Message>> {
    match ParseBin(s)
    case Err(e) => Err(e)
    case Ok(name) =>
      match ParseBin(name.rest)
      case Err(e) => Err(e)
      case Ok(payload) => Ok(Read(Message(msgType, name.item, payload.item), payload.rest))
  }

  // ---------- round trips ----------

  const LIMIT: nat := 0x1_0000_0000

  lemma Capacities()
    ensures Capacity(1) == 0x100 && Capacity(2) == 0x1_0000 && Capacity(4) == LIMIT
  {
    assert Capacity(3) == 0x100 * Capacity(2);
  }

  lemma HeaderShape(length: nat) returns (marker: Byte, width: nat)
    ensures SizeWidth(marker) == width > 0
    ensures BinHeader(length) == [marker] + BigEndian(length, width)
    ensures FromBigEndian(BigEndian(length, width)) == length % LIMIT
  {
    Capacities();
    marker := if length < 256 then BIN_8 else if length < 0x1_0000 then BIN_16 else BIN_32;
    width := SizeWidth(marker);
    BigEndianTruncates(length, width);
  }

  lemma PrefixOfConcat(a: Bytes, b: Bytes)
    ensures (a + b)[..|a|] == a && (a + b)[|a|..] == b
  {
  }

  /** A header reads back as the length modulo 2^32. */
  lemma HeaderReads(length: nat, x: Bytes)
    ensures ParseSize(BinHeader(length) + x) == Ok(Read(length % LIMIT, x))
  {
    var marker, width := HeaderShape(length);
    hide BinHeader, FromBigEndian, SizeWidth, BigEndian;
    var digits := BigEndian(length, width);
    assert [marker] + digits + x == [marker] + (digits + x);
    PrefixOfConcat([marker], digits + x);
    PrefixOfConcat(digits, x);
  }

  lemma CutHeader(length: nat, k: nat)
    requires k < |BinHeader(length)|
    ensures ParseSize(BinHeader(length)[..k]) == Err(UnexpectedEof)
  {
    var marker, width := HeaderShape(length);
    hide BinHeader, FromBigEndian, SizeWidth, BigEndian;
    if k > 0 { assert BinHeader(length)[..k][0] == marker; }
  }

  /** Reading back what writeBin wrote: the data, cut to its length modulo 2^32. */
  lemma ParseEncodedBin(data: Bytes, rest: Bytes)
    ensures var size := |data| % LIMIT;
      ParseBin(EncodeBin(data) + rest) == Ok(Read(data[..size], data[size..] + rest))
  {
    hide ParseSize, BinHeader;
    HeaderReads(|data|, data + rest);
    assert EncodeBin(data) + rest == BinHeader(|data|) + (data + rest);
    var size := |data| % LIMIT;
    assert data + rest == data[..size] + (data[size..] + rest);
    PrefixOfConcat(data[..size], data[size..] + rest);
  }

  lemma BinRoundTrip(data: Bytes, rest: Bytes)
    ensures ParseBin(EncodeBin(data) + rest) == Ok(Read(data, rest)) <==> |data| < LIMIT
  {
    ParseEncodedBin(data, rest);
    if |data| < LIMIT { assert data[..|data|] == data && data[|data|..] + rest == rest; }
  }

  lemma HeadReads(t: Byte, tail: Bytes)
    ensures ValidType(t) ==> ParseTuple([FIXED_ARRAY_3, t] + tail) == ParseBody(t, tail)
    ensures !ValidType(t) && ParseTuple([FIXED_ARRAY_3, t] + tail).Ok? ==>
      ParseTuple([FIXED_ARRAY_3, t] + tail).value.item.msgType != t
  {
    hide ParseBin;
    var s := [FIXED_ARRAY_3, t] + tail;
    assert s[1..] == [t] + tail;
    assert s[1..][1..] == tail;
  }

  lemma BodyRoundTrip(m: Message, rest: Bytes)
    ensures ParseBody(m.msgType, EncodeBin(m.name) + (EncodeBin(m.payload) + rest)) == Ok(Read(m, rest)) <==>
      |m.name| < LIMIT && |m.payload| < LIMIT
  {
    hide ParseBin, EncodeBin;
    var tail := EncodeBin(m.payload) + rest;
    ParseEncodedBin(m.name, tail);
    BinRoundTrip(m.name, tail);
    BinRoundTrip(m.payload, rest);
    ParseEncodedBin(m.payload, rest);
  }

  /** Whatever follows it, a written tuple reads back as itself exactly when its type is valid and its parts
      are shorter than 2^32 bytes. */
  lemma TupleRoundTrip(m: Message, rest: Bytes)
    ensures ParseTuple(EncodeTuple(m) + rest) == Ok(Read(m, rest)) <==>
      ValidType(m.msgType) && |m.name| < LIMIT && |m.payload| < LIMIT
  {
    hide ParseTuple, ParseBody, EncodeBin;
    var tail := EncodeBin(m.name) + (EncodeBin(m.payload) + rest);
    assert EncodeTuple(m) + rest == [FIXED_ARRAY_3, m.msgType] + tail;
    HeadReads(m.msgType, tail);
    BodyRoundTrip(m, rest);
  }

  // ---------- the bytes ----------

  lemma {:induction false} BigEndianAt(n: nat, width: nat, i: nat)
    requires i < width
    ensures Capacity(width - 1 - i) > 0
    ensures BigEndian(n, width)[i] == n / Capacity(width - 1 - i) % 0x100
  {
    if i < width - 1 {
      BigEndianAt(n / 0x100, width - 1, i);
      var c := Capacity(width - 2 - i);
      assert Capacity(width - 1 - i) == 0x100 * c;
      DivideTwice(n, c);
    }
  }

  lemma DivideTwice(n: nat, c: nat)
    requires c > 0
    ensures n / 0x100 / c == n / (0x100 * c)
  {
    var q, r := n / 0x100 / c, n / 0x100 % c * 0x100 + n % 0x100;
    Digits(n, c);
    assert n == q * (0x100 * c) + r;
    assert n == n / (0x100 * c) * (0x100 * c) + n % (0x100 * c);
    Quotient(q, n / (0x100 * c), 0x100 * c);
  }

  lemma Quotient(p: nat, q: nat, m: nat)
    requires m > 0 && p * m == q * m
    ensures p == q
  {
    var d: int := p - q;
    assert d * m == 0;
  }

  /** The header in the bytes of the format: the least of bin 8, bin 16 and bin 32, most significant byte first. */
  lemma HeaderBytes(n: nat)
    ensures BinHeader(n) ==
      if n < 0x100 then [0xC4, n]
      else if n < 0x1_0000 then [0xC5, n / 0x100, n % 0x100]
      else [0xC6, n / 0x100_0000 % 0x100, n / 0x1_0000 % 0x100, n / 0x100 % 0x100, n % 0x100]
  {
    hide BigEndian;
    Capacities();
    assert Capacity(0) == 1 && Capacity(3) == 0x100_0000;
    var width := if n < 0x100 then 1 else if n < 0x1_0000 then 2 else 4;
    forall i | 0 <= i < width ensures BigEndian(n, width)[i] == n / Capacity(width - 1 - i) % 0x100 {
      BigEndianAt(n, width, i);
    }
  }

  /** A tuple in the bytes of the format. */
  lemma TupleBytes(m: Message)
    ensures EncodeTuple(m) == [0x93, m.msgType] + (BinHeader(|m.name|) + m.name) + (BinHeader(|m.payload|) + m.payload)
  {
    hide BinHeader;
  }

  /** What a reader takes for the head of one: the marker, and a type from 1 to 6 in one byte or behind 0xCC. */
  lemma HeadBytes(s: Bytes)
    ensures ParseTuple(s).Ok? ==>
      && |s| >= 3 && s[0] == 0x93
      && (1 <= s[1] <= 6 || (s[1] == 0xCC && 1 <= s[2] <= 6))
  {
    hide ParseBody;
    if ParseTuple(s).Ok? {
      var t := ParseType(s[1..]).value;
      NothingBehindType(t.item);
      assert t.rest != [];
    }
  }

  lemma NothingBehindType(t: Byte)
    ensures ParseBody(t, []).Err?
  {
  }

  // ---------- streams ----------

  ghost predicate Sendable(m: Message) {
    ValidType(m.msgType) && |m.name| < LIMIT && |m.payload| < LIMIT
  }

  function EncodeAll(ms: seq<Message>): Bytes {
    if ms == [] then [] else EncodeTuple(ms[0]) + EncodeAll(ms[1..])
  }

  lemma ParseConsumes(s: Bytes)
    ensures ParseTuple(s).Ok? ==> |ParseTuple(s).value.rest| < |s|
  {
  }

  /** All messages of a stream that ends behind one. */
  function ParseAll(s: Bytes): Result<seq<Message>>
    decreases |s|
  {
    if s == [] then Ok([])
    else
      ParseConsumes(s);
      match ParseTuple(s)
      case Err(e) => Err(e)
      case Ok(first) =>
        match ParseAll(first.rest)
        case Err(e) => Err(e)
        case Ok(others) => Ok([first.item] + others)
  }

  /** Any concatenation of written tuples reads back as the same messages in the same order. */
  lemma {:induction false} StreamRoundTrip(ms: seq<Message>)
    requires forall m :: m in ms ==> Sendable(m)
    ensures ParseAll(EncodeAll(ms)) == Ok(ms)
  {
    hide ParseTuple, EncodeTuple;
    if ms != [] {
      assert Sendable(ms[0]);
      TupleRoundTrip(ms[0], EncodeAll(ms[1..]));
      StreamRoundTrip(ms[1..]);
      ParseConsumes(EncodeAll(ms));
      assert ms == [ms[0]] + ms[1..];
      assert EncodeAll(ms) != [] by { if EncodeAll(ms) == [] { ParseConsumes([]); EmptyStream(); } }
    }
  }

  lemma EmptyStream()
    ensures ParseTuple([]).Err?
  {
  }

  // ---------- truncated input ----------

  lemma CutBin(data: Bytes, k: nat)
    requires |data| < LIMIT && k < |EncodeBin(data)|
    ensures ParseBin(EncodeBin(data)[..k]) == Err(UnexpectedEof)
  {
    hide ParseSize, BinHeader;
    var h := BinHeader(|data|);
    if k < |h| {
      CutHeader(|data|, k);
      assert (h + data)[..k] == h[..k];
    } else {
      HeaderReads(|data|, data[..k - |h|]);
      assert (h + data)[..k] == h + data[..k - |h|];
    }
  }

  /** No proper prefix of a written tuple is accepted: the reader asks for more. */
  lemma TruncatedTuple(m: Message, k: nat)
    requires Sendable(m) && k < |EncodeTuple(m)|
    ensures ParseTuple(EncodeTuple(m)[..k]) == Err(UnexpectedEof)
  {
    hide ParseBin, EncodeBin;
    var s, name, payload := EncodeTuple(m), EncodeBin(m.name), EncodeBin(m.payload);
    var p := s[..k];
    if k >= 2 {
      assert p[1..][1..] == (name + payload)[..k - 2];
      if k - 2 < |name| {
        assert (name + payload)[..k - 2] == name[..k - 2];
        CutBin(m.name, k - 2);
      } else {
        assert (name + payload)[..k - 2] == name + payload[..k - 2 - |name|];
        BinRoundTrip(m.name, payload[..k - 2 - |name|]);
        CutBin(m.payload, k - 2 - |name|);
      }
    }
  }

  // ---------- what the reader accepts ----------

  /** One of the three bin formats, not necessarily the shortest. */
  ghost predicate IsBin(s: Bytes, data: Bytes) {
    exists width :: width in {1, 2, 4} && IsBinOfWidth(s, data, width)
  }

  ghost predicate IsBinOfWidth(s: Bytes, data: Bytes, width: nat) {
    && (width == 1 || width == 2 || width == 4) && |data| < Capacity(width)
    && s == [if width == 1 then BIN_8 else if width == 2 then BIN_16 else BIN_32] + BigEndian(|data|, width) + data
  }

  lemma {:induction false} DigitsOf(b: Bytes)
    ensures FromBigEndian(b) < Capacity(|b|) && BigEndian(FromBigEndian(b), |b|) == b
  {
    if b != [] {
      DigitsOf(b[..|b| - 1]);
      var high := FromBigEndian(b[..|b| - 1]);
      assert FromBigEndian(b) / 0x100 == high && FromBigEndian(b) % 0x100 == b[|b| - 1];
    }
  }

  lemma ParsedBinIsBin(s: Bytes)
    requires ParseBin(s).Ok?
    ensures var r := ParseBin(s).value;
      |r.rest| < |s| && IsBin(s[..|s| - |r.rest|], r.item) && s[|s| - |r.rest|..] == r.rest
  {
    hide FromBigEndian, BigEndian, SizeWidth, Capacity;
    var width, r, size := SizeWidth(s[0]), ParseBin(s).value, ParseSize(s).value;
    DigitsOf(s[1..][..width]);
    var used := [s[0]] + s[1..][..width] + r.item;
    assert s == used + r.rest;
    PrefixOfConcat(used, r.rest);
    WidthOf(s[0]);
    assert IsBinOfWidth(used, r.item, width);
  }

  lemma WidthOf(marker: Byte)
    ensures match SizeWidth(marker)
      case 0 => true
      case 1 => marker == BIN_8
      case 2 => marker == BIN_16
      case _ => SizeWidth(marker) == 4 && marker == BIN_32
  {
  }

  lemma ParsedParts(s: Bytes)
    requires ParseTuple(s).Ok?
    ensures s != [] && s[0] == FIXED_ARRAY_3 && ParseType(s[1..]).Ok?
    ensures var t := ParseType(s[1..]).value;
      && ValidType(t.item) && ParseBin(t.rest).Ok? && ParseBin(ParseBin(t.rest).value.rest).Ok?
      && var n := ParseBin(t.rest).value; var p := ParseBin(n.rest).value;
         ParseTuple(s).value == Read(Message(t.item, n.item, p.item), p.rest)
  {
    hide ParseBin, ParseType;
  }

  /** What stands before the first bin. */
  lemma ParsedHead(s: Bytes) returns (head: Bytes)
    requires s != [] && s[0] == FIXED_ARRAY_3 && ParseType(s[1..]).Ok?
    ensures var t := ParseType(s[1..]).value;
      && s == head + t.rest
      && (head == [FIXED_ARRAY_3, t.item] || head == [FIXED_ARRAY_3, U_8, t.item])
  {
    head := if s[1] <= 0x7F then s[..2] else s[..3];
  }

  /** An accepted tuple is well formed: the reader takes nothing else for a message. */
  lemma AcceptedTuple(s: Bytes) returns (head: Bytes, name: Bytes, payload: Bytes)
    requires ParseTuple(s).Ok?
    ensures var r := ParseTuple(s).value;
      && s == head + name + payload + r.rest
      && ValidType(r.item.msgType)
      && (head == [FIXED_ARRAY_3, r.item.msgType] || head == [FIXED_ARRAY_3, U_8, r.item.msgType])
      && IsBin(name, r.item.name) && IsBin(payload, r.item.payload)
  {
    hide ParseTuple, ParseType, ParseBin, IsBin;
    ParsedParts(s);
    var t := ParseType(s[1..]).value;
    var n := ParseBin(t.rest).value;
    var p := ParseBin(n.rest).value;
    head := ParsedHead(s);
    ParsedBinIsBin(t.rest);
    ParsedBinIsBin(n.rest);
    name := t.rest[..|t.rest| - |n.rest|];
    payload := n.rest[..|n.rest| - |p.rest|];
    assert t.rest == name + n.rest;
    assert n.rest == payload + p.rest;
    assert head + (name + (payload + p.rest)) == head + name + payload + p.rest;
  }

  // ---------- the protocol object ----------

  class MessagePackProtocol {
    var input: Bytes
    var output: Bytes

    constructor (input: Bytes)
      ensures this.input == input && output == []
    {
      this.input, output := input, [];
    }

    method ReadByte() returns (r: Result<Byte>)
      modifies this`input
      ensures old(input) == [] ==> r == Err(UnexpectedEof) && input == old(input)
      ensures old(input) != [] ==> r == Ok(old(input)[0]) && input == old(input)[1..]
    {
      if input == [] {
        return Err(UnexpectedEof);
      }
      r := Ok(input[0]);
      input := input[1..];
    }

    /** io.ReadFull: all n bytes or none are delivered. */
    method ReadFull(n: nat) returns (r: Result<Bytes>)
      modifies this`input
      ensures |old(input)| < n ==> r == Err(UnexpectedEof)
      ensures |old(input)| >= n ==> r == Ok(old(input)[..n]) && input == old(input)[n..]
    {
      if |input| < n {
        input := [];
        return Err(UnexpectedEof);
      }
      r := Ok(input[..n]);
      input := input[n..];
    }

    method ReadBin() returns (r: Result<Bytes>)
      modifies this`input
      ensures ParseBin(old(input)).Err? ==> r == Err(ParseBin(old(input)).error)
      ensures ParseBin(old(input)).Ok? ==>
        r == Ok(ParseBin(old(input)).value.item) && input == ParseBin(old(input)).value.rest
    {
      ghost var s := input;
      var t := ReadByte();
      if t.Err? {
        return Err(t.error);
      }
      var size: nat;
      if t.value == BIN_8 {
        var b := ReadFull(1);
        if b.Err? { return b; }
        size := FromBigEndian(b.value);
      } else if t.value == BIN_16 {
        var b := ReadFull(2);
        if b.Err? { return b; }
        size := FromBigEndian(b.value);
      } else if t.value == BIN_32 {
        var b := ReadFull(4);
        if b.Err? { return b; }
        size := FromBigEndian(b.value);
      } else {
        return Err(InvalidRequest);
      }
      r := ReadFull(size);
    }

    method ReadTuple() returns (r: Result<Message>)
      modifies this`input
      ensures ParseTuple(old(input)).Err? ==> r == Err(ParseTuple(old(input)).error)
      ensures ParseTuple(old(input)).Ok? ==>
        r == Ok(ParseTuple(old(input)).value.item) && input == ParseTuple(old(input)).value.rest
    {
      hide ParseBin;
      var t := ReadByte();
      if t.Err? { return Err(t.error); }
      if t.value != FIXED_ARRAY_3 {
        return Err(InvalidRequest);
      }
      t := ReadByte();
      if t.Err? { return Err(t.error); }
      var rawType;
      if t.value <= 0x7F {
        rawType := t.value;
      } else if t.value == U_8 {
        t := ReadByte();
        if t.Err? { return Err(t.error); }
        rawType := t.value;
        assert old(input)[1..][2..] == old(input)[1..][1..][1..];
      } else {
        return Err(InvalidRequest);
      }
      if !ValidType(rawType) {
        return Err(InvalidRequest);
      }
      var name := ReadBin();
      if name.Err? { return Err(name.error); }
      var payload := ReadBin();
      if payload.Err? { return Err(payload.error); }
      r := Ok(Message(rawType, name.value, payload.value));
    }

    method WriteBin(data: Bytes)
      modifies this`output
      ensures output == old(output) + EncodeBin(data)
    {
      var length := |data|;
      if length < 256 {
        output := output + [BIN_8];
        output := output + BigEndian(length, 1);
      } else if length < 0x1_0000 {
        output := output + [BIN_16];
        output := output + BigEndian(length, 2);
      } else {
        output := output + [BIN_32];
        output := output + BigEndian(length, 4);
      }
      output := output + data;
    }

    method WriteTuple(m: Message)
      modifies this`output
      ensures output == old(output) + EncodeTuple(m)
    {
      hide EncodeBin;
      output := output + [FIXED_ARRAY_3];
      output := output + [m.msgType];
      WriteBin(m.name);
      WriteBin(m.payload);
    }
  }

  /** Messages sent through one end arrive at the other, all of them and in order. */
  method Transfer(ms: seq<Message>) returns (received: seq<Message>)
    requires forall m :: m in ms ==> Sendable(m)
    ensures received == ms
  {
    hide EncodeTuple, ParseTuple;
    var sender := new MessagePackProtocol([]);
    var i := 0;
    assert ms[0..] == ms;
    while i < |ms|
      invariant i <= |ms| && fresh(sender)
      invariant EncodeAll(ms) == sender.output + EncodeAll(ms[i..])
    {
      assert ms[i..][1..] == ms[i + 1..];
      assert sender.output + (EncodeTuple(ms[i]) + EncodeAll(ms[i + 1..])) ==
             (sender.output + EncodeTuple(ms[i])) + EncodeAll(ms[i + 1..]);
      sender.WriteTuple(ms[i]);
      i := i + 1;
    }
    StreamRoundTrip(ms);
    var receiver := new MessagePackProtocol(sender.output);
    assert receiver.input == EncodeAll(ms);
    var got: seq<Message> := [];
    while receiver.input != []
      invariant fresh(receiver)
      invariant ParseAll(receiver.input).Ok? && got + ParseAll(receiver.input).value == ms
      decreases |receiver.input|
    {
      ParseConsumes(receiver.input);
      var m := receiver.ReadTuple();
      got := got + [m.value];
    }
    assert got + [] == got;
    received := got;
  }
}
