/** Directives in the sources of the synchronous API (packages/typescript/scripts/generateSync.ts:90-187). */
module Directives {
  import opened Options
  import opened Text

  datatype Variant = Sync | Generators

  datatype Marker =
    | GeneratorsSkipStart | GeneratorsSkipEnd
    | SyncSkipStart | SyncSkipEnd
    | GeneratorsOnlyStart | GeneratorsOnlyEnd
    | SyncOnlyStart | SyncOnlyEnd

  function MarkerText(m: Marker): string {
    match m
    case GeneratorsSkipStart => "// @generators-skip-block-start"
    case GeneratorsSkipEnd => "// @generators-skip-block-end"
    case SyncSkipStart => "// @sync-skip-block-start"
    case SyncSkipEnd => "// @sync-skip-block-end"
    case GeneratorsOnlyStart => "// @generators-only-start"
    case GeneratorsOnlyEnd => "// @generators-only-end"
    case SyncOnlyStart => "// @sync-only-start"
    case SyncOnlyEnd => "// @sync-only-end"
  }

  /** In the order in which the code looks for them. */
  const MARKERS := [GeneratorsSkipStart, GeneratorsSkipEnd, SyncSkipStart, SyncSkipEnd,
                    GeneratorsOnlyStart, GeneratorsOnlyEnd, SyncOnlyStart, SyncOnlyEnd]

  /** The marker a trimmed line is, looking from the i-th on. */
  function FirstMarker(trimmed: string, i: nat): (r: Option<Marker>)
    requires i <= |MARKERS|
    decreases |MARKERS| - i
  {
    if i == |MARKERS| then None
    else if trimmed == MarkerText(MARKERS[i]) then Some(MARKERS[i])
    else FirstMarker(trimmed, i + 1)
  }

  /** The marker that makes up the line, white space aside. */
  function MarkerOf(line: string): Option<Marker> {
    FirstMarker(Trim(line), 0)
  }

  predicate IsSkip(m: Marker) {
    m.GeneratorsSkipStart? || m.GeneratorsSkipEnd? || m.SyncSkipStart? || m.SyncSkipEnd?
  }

  lemma MarkersDiffer(m: Marker, n: Marker)
    requires MarkerText(m) == MarkerText(n)
    ensures m == n
  {
    var t := MarkerText(m);
    assert t[4] == 's' || t[4] == 'g';
    assert |t| == |MarkerText(n)|;
  }

  lemma {:induction false} FirstMarkerIs(trimmed: string, i: nat, m: Marker)
    requires i <= |MARKERS|
    ensures FirstMarker(trimmed, i) == Some(m) <==> trimmed == MarkerText(m) && m in MARKERS[i..]
    decreases |MARKERS| - i
  {
    hide MarkerText;
    if i < |MARKERS| {
      assert MARKERS[i..] == [MARKERS[i]] + MARKERS[i + 1..];
      FirstMarkerIs(trimmed, i + 1, m);
      if trimmed == MarkerText(MARKERS[i]) == MarkerText(m) { MarkersDiffer(MARKERS[i], m); }
    }
  }

  /** The chain of comparisons names the one marker whose text the trimmed line is. */
  lemma MarkerOfIs(line: string, m: Marker)
    ensures MarkerOf(line) == Some(m) <==> Trim(line) == MarkerText(m)
  {
    FirstMarkerIs(Trim(line), 0, m);
    assert MARKERS[0..] == MARKERS;
    assert MARKERS == [GeneratorsSkipStart, GeneratorsSkipEnd, SyncSkipStart, SyncSkipEnd,
                       GeneratorsOnlyStart, GeneratorsOnlyEnd, SyncOnlyStart, SyncOnlyEnd];
    assert m in MARKERS by {
      assert MARKERS[0] == GeneratorsSkipStart && MARKERS[1] == GeneratorsSkipEnd && MARKERS[2] == SyncSkipStart
          && MARKERS[3] == SyncSkipEnd && MARKERS[4] == GeneratorsOnlyStart && MARKERS[5] == GeneratorsOnlyEnd
          && MARKERS[6] == SyncOnlyStart && MARKERS[7] == SyncOnlyEnd;
    }
  }

  // ---------- one line ----------

  function UncommentLine(line: string): string {
    var indent, rest := Indent(line), TrimStart(line);
    if "// " <= rest then indent + rest[3..]
    else if rest == "//" then indent
    else line
  }

  lemma SlashIsNotBlank()
    ensures !Blank('/')
  {
  }

  /** The comment that uncommenting takes away. */
  function CommentLine(line: string): string {
    if TrimStart(line) == "" then line + "//" else Indent(line) + "// " + TrimStart(line)
  }

  /** A commented line is uncommented to what it was, whatever it holds. */
  lemma UncommentComment(line: string)
    ensures UncommentLine(CommentLine(line)) == line
  {
    IndentIsBlank(line);
    hide Indent, Blank;
    var indent, rest := Indent(line), TrimStart(line);
    assert line == indent + rest;
    assert !Blank('/') by { SlashIsNotBlank(); }
    if rest == "" {
      assert line == indent;
      IndentOf(indent, "//");
      assert !("// " <= "//");
    } else {
      IndentOf(indent, "// " + rest);
      assert CommentLine(line) == indent + ("// " + rest);
      assert ("// " + rest)[3..] == rest;
    }
  }

  predicate Terminator(c: char) {
    c in "\n\r\U{2028}\U{2029}"
  }

  /** The marker stands at i and everything behind it, at least one character, is on the same line. */
  predicate ReplacementAt(line: string, marker: string, i: nat) {
    At(line, marker, i) && i + |marker| < |line| && forall c :: c in line[i + |marker|..] ==> !Terminator(c)
  }

  function FindReplacement(line: string, marker: string, from: nat): (r: Option<nat>)
    requires from <= |line|
    ensures r.Some? ==> from <= r.value && ReplacementAt(line, marker, r.value)
    ensures r.Some? ==> forall i: nat :: from <= i < r.value ==> !ReplacementAt(line, marker, i)
    ensures r.None? ==> forall i: nat :: from <= i ==> !ReplacementAt(line, marker, i)
    decreases |line| - from
  {
    if ReplacementAt(line, marker, from) then Some(from)
    else if from == |line| then None
    else FindReplacement(line, marker, from + 1)
  }

  const GENERATORS_MARKER := "// @generators: "
  const SYNC_MARKER := "// @sync: "

  function Replaced(line: string, marker: string, at: nat): string
    requires ReplacementAt(line, marker, at)
  {
    Indent(line) + line[at + |marker|..]
  }

  /** What becomes of a line outside all blocks. */
  function LineMeaning(line: string, variant: Variant): (r: seq<string>)
    ensures |r| <= 1
  {
    var g := FindReplacement(line, GENERATORS_MARKER, 0);
    if variant.Generators? && Includes(line, "// @generators-skip") then []
    else if Includes(line, "// @sync-skip") then []
    else if variant.Generators? && g.Some? then [Replaced(line, GENERATORS_MARKER, g.value)]
    else
      var rest := if g.Some? then TrimEnd(line[..g.value]) else line;
      var s := FindReplacement(rest, SYNC_MARKER, 0);
      if s.Some? then [Replaced(rest, SYNC_MARKER, s.value)] else [rest]
  }

  // ---------- all lines ----------

  /** What a line holds for the loop: its marker, what it becomes outside all blocks, and uncommented. */
  datatype Row = Row(marker: Option<Marker>, kept: seq<string>, uncommented: string)

  function Read(line: string, variant: Variant): Row {
    Row(MarkerOf(line), LineMeaning(line, variant), UncommentLine(line))
  }

  function ReadAll(lines: seq<string>, variant: Variant): seq<Row> {
    seq(|lines|, i requires 0 <= i < |lines| => Read(lines[i], variant))
  }

  datatype Flags = Flags(skipBlock: bool, syncOnlyBlock: bool, generatorsOnlyBlock: bool)

  const CLEAR := Flags(false, false, false)

  function NextFlags(f: Flags, marker: Option<Marker>, variant: Variant): Flags {
    match marker
    case Some(GeneratorsSkipStart) => f.(skipBlock := variant.Generators?)
    case Some(GeneratorsSkipEnd) => f.(skipBlock := false)
    case Some(SyncSkipStart) => f.(skipBlock := true)
    case Some(SyncSkipEnd) => f.(skipBlock := false)
    case Some(GeneratorsOnlyStart) => if f.skipBlock then f else f.(generatorsOnlyBlock := true)
    case Some(GeneratorsOnlyEnd) => if f.skipBlock then f else f.(generatorsOnlyBlock := false)
    case Some(SyncOnlyStart) => if f.skipBlock || f.generatorsOnlyBlock then f else f.(syncOnlyBlock := true)
    case Some(SyncOnlyEnd) => if f.skipBlock || f.generatorsOnlyBlock then f else f.(syncOnlyBlock := false)
    case None => f
  }

  function Emitted(f: Flags, row: Row, variant: Variant): seq<string> {
    var m := row.marker;
    if f.skipBlock then []
    else if m.Some? && (IsSkip(m.value) || m.value.GeneratorsOnlyStart? || m.value.GeneratorsOnlyEnd?) then []
    else if f.generatorsOnlyBlock then if variant.Generators? then [row.uncommented] else []
    else if m.Some? then []
    else if f.syncOnlyBlock then [row.uncommented]
    else row.kept
  }

  function FlagsAfter(f: Flags, rows: seq<Row>, variant: Variant): Flags
    decreases |rows|
  {
    if rows == [] then f else FlagsAfter(NextFlags(f, rows[0].marker, variant), rows[1..], variant)
  }

  function Output(f: Flags, rows: seq<Row>, variant: Variant): seq<string>
    decreases |rows|
  {
    if rows == [] then []
    else Emitted(f, rows[0], variant) + Output(NextFlags(f, rows[0].marker, variant), rows[1..], variant)
  }

  /** What becomes of a text. */
  function Process(lines: seq<string>, variant: Variant): seq<string> {
    Output(CLEAR, ReadAll(lines, variant), variant)
  }

  lemma {:induction false} OutputConcat(f: Flags, xs: seq<Row>, ys: seq<Row>, variant: Variant)
    ensures FlagsAfter(f, xs + ys, variant) == FlagsAfter(FlagsAfter(f, xs, variant), ys, variant)
    ensures Output(f, xs + ys, variant) == Output(f, xs, variant) + Output(FlagsAfter(f, xs, variant), ys, variant)
    decreases |xs|
  {
    hide Emitted, NextFlags;
    if xs == [] {
      assert xs + ys == ys;
    } else {
      assert (xs + ys)[0] == xs[0] && (xs + ys)[1..] == xs[1..] + ys;
      OutputConcat(NextFlags(f, xs[0].marker, variant), xs[1..], ys, variant);
    }
  }

  lemma {:induction false} OutputIsShort(f: Flags, rows: seq<Row>, variant: Variant)
    requires forall r :: r in rows ==> |r.kept| <= 1
    ensures |Output(f, rows, variant)| <= |rows|
    decreases |rows|
  {
    if rows != [] {
      assert |rows[0].kept| <= 1;
      OutputIsShort(NextFlags(f, rows[0].marker, variant), rows[1..], variant);
    }
  }

  /** Wherever all three flags are clear a text may be cut and its parts processed on their own. */
  lemma CutWhereClear(xs: seq<string>, ys: seq<string>, variant: Variant)
    requires FlagsAfter(CLEAR, ReadAll(xs, variant), variant) == CLEAR
    ensures Process(xs + ys, variant) == Process(xs, variant) + Process(ys, variant)
  {
    hide Read, FlagsAfter, Output;
    assert ReadAll(xs + ys, variant) == ReadAll(xs, variant) + ReadAll(ys, variant);
    OutputConcat(CLEAR, ReadAll(xs, variant), ReadAll(ys, variant), variant);
  }

  // ---------- blocks ----------

  datatype Kind = GeneratorsSkip | SyncSkip | GeneratorsOnly | SyncOnly

  /** A piece of a text without nesting: a line outside blocks, or a block between the lines of its markers. */
  datatype Piece = Line(row: Row) | Block(kind: Kind, open: Row, body: seq<Row>, close: Row)

  function Opener(k: Kind): Marker {
    match k
    case GeneratorsSkip => GeneratorsSkipStart
    case SyncSkip => SyncSkipStart
    case GeneratorsOnly => GeneratorsOnlyStart
    case SyncOnly => SyncOnlyStart
  }

  function Closer(k: Kind): Marker {
    match k
    case GeneratorsSkip => GeneratorsSkipEnd
    case SyncSkip => SyncSkipEnd
    case GeneratorsOnly => GeneratorsOnlyEnd
    case SyncOnly => SyncOnlyEnd
  }

  predicate Unmarked(rows: seq<Row>) {
    forall r :: r in rows ==> r.marker.None?
  }

  predicate WellFormed(p: Piece) {
    match p
    case Line(row) => row.marker.None?
    case Block(kind, open, body, close) =>
      open.marker == Some(Opener(kind)) && close.marker == Some(Closer(kind)) && Unmarked(body)
  }

  function Rows(p: Piece): seq<Row> {
    match p
    case Line(row) => [row]
    case Block(_, open, body, close) => [open] + (body + [close])
  }

  function RowsOf(pieces: seq<Piece>): seq<Row> {
    if pieces == [] then [] else Rows(pieces[0]) + RowsOf(pieces[1..])
  }

  function Uncommented(rows: seq<Row>): seq<string> {
    if rows == [] then [] else [rows[0].uncommented] + Uncommented(rows[1..])
  }

  function Kept(rows: seq<Row>): seq<string> {
    if rows == [] then [] else rows[0].kept + Kept(rows[1..])
  }

  /** What each kind of block is for. */
  function Meaning(p: Piece, variant: Variant): seq<string> {
    match p
    case Line(row) => row.kept
    case Block(kind, _, body, _) => BodyMeaning(kind, body, variant)
  }

  function BodyMeaning(k: Kind, body: seq<Row>, variant: Variant): seq<string> {
    match k
    case SyncSkip => []
    case GeneratorsSkip => if variant.Generators? then [] else Kept(body)
    case GeneratorsOnly => if variant.Generators? then Uncommented(body) else []
    case SyncOnly => Uncommented(body)
  }

  function Meanings(pieces: seq<Piece>, variant: Variant): seq<string> {
    if pieces == [] then [] else Meaning(pieces[0], variant) + Meanings(pieces[1..], variant)
  }

  /** The flags inside a block. */
  function Inside(k: Kind, variant: Variant): Flags {
    match k
    case GeneratorsSkip => Flags(variant.Generators?, false, false)
    case SyncSkip => Flags(true, false, false)
    case GeneratorsOnly => Flags(false, false, true)
    case SyncOnly => Flags(false, true, false)
  }

  lemma {:induction false} BodyIsItsMeaning(k: Kind, body: seq<Row>, variant: Variant)
    requires Unmarked(body)
    ensures FlagsAfter(Inside(k, variant), body, variant) == Inside(k, variant)
    ensures Output(Inside(k, variant), body, variant) == BodyMeaning(k, body, variant)
  {
    if body != [] {
      BodyIsItsMeaning(k, body[1..], variant);
    }
  }

  lemma BlockIsItsMeaning(kind: Kind, open: Row, body: seq<Row>, close: Row, variant: Variant)
    requires WellFormed(Block(kind, open, body, close))
    ensures FlagsAfter(CLEAR, [open] + (body + [close]), variant) == CLEAR
    ensures Output(CLEAR, [open] + (body + [close]), variant) == BodyMeaning(kind, body, variant)
  {
    hide NextFlags, Emitted, Inside, BodyMeaning;
    MarkerRows(kind, open, close, variant);
    BodyIsItsMeaning(kind, body, variant);
    OutputConcat(Inside(kind, variant), body, [close], variant);
    assert [close][1..] == [] && ([open] + (body + [close]))[1..] == body + [close];
  }

  lemma MarkerRows(k: Kind, open: Row, close: Row, variant: Variant)
    requires open.marker == Some(Opener(k)) && close.marker == Some(Closer(k))
    ensures Emitted(CLEAR, open, variant) == [] && NextFlags(CLEAR, open.marker, variant) == Inside(k, variant)
    ensures Emitted(Inside(k, variant), close, variant) == []
    ensures NextFlags(Inside(k, variant), close.marker, variant) == CLEAR
  {
  }

  lemma PieceIsItsMeaning(p: Piece, variant: Variant)
    requires WellFormed(p)
    ensures FlagsAfter(CLEAR, Rows(p), variant) == CLEAR
    ensures Output(CLEAR, Rows(p), variant) == Meaning(p, variant)
  {
    match p
    case Line(row) => assert [row][1..] == [];
    case Block(kind, open, body, close) => BlockIsItsMeaning(kind, open, body, close, variant);
  }

  lemma {:induction false} OutputIsMeaning(pieces: seq<Piece>, variant: Variant)
    requires forall p :: p in pieces ==> WellFormed(p)
    ensures Output(CLEAR, RowsOf(pieces), variant) == Meanings(pieces, variant)
  {
    if pieces != [] {
      PieceIsItsMeaning(pieces[0], variant);
      OutputConcat(CLEAR, Rows(pieces[0]), RowsOf(pieces[1..]), variant);
      OutputIsMeaning(pieces[1..], variant);
    }
  }

  /** A text whose rows fall into pieces without nesting becomes the meanings of the pieces, in order. */
  lemma ProcessIsMeaning(lines: seq<string>, pieces: seq<Piece>, variant: Variant)
    requires ReadAll(lines, variant) == RowsOf(pieces) && forall p :: p in pieces ==> WellFormed(p)
    ensures Process(lines, variant) == Meanings(pieces, variant)
  {
    OutputIsMeaning(pieces, variant);
  }

  // ---------- nesting ----------

  /** Whether the last marker of a skip block, if there was one, opened a block that counts for the variant. */
  function LastSkipOpens(before: bool, rows: seq<Row>, variant: Variant): bool {
    if rows == [] then before
    else
      match rows[|rows| - 1].marker
      case Some(SyncSkipStart) => true
      case Some(GeneratorsSkipStart) => variant.Generators?
      case Some(SyncSkipEnd) => false
      case Some(GeneratorsSkipEnd) => false
      case _ => LastSkipOpens(before, rows[..|rows| - 1], variant)
  }

  /** Skip blocks do not nest: in any text whatever, a line is skipped exactly when the last skip marker before
      it was an opening one, whichever kind of block it opened. */
  lemma {:induction false} SkipIsTheLastMarker(f: Flags, rows: seq<Row>, variant: Variant)
    ensures FlagsAfter(f, rows, variant).skipBlock == LastSkipOpens(f.skipBlock, rows, variant)
  {
    hide Output, Emitted;
    if rows != [] {
      var init, last := rows[..|rows| - 1], rows[|rows| - 1];
      assert rows == init + [last] && [last][1..] == [];
      SkipIsTheLastMarker(f, init, variant);
      OutputConcat(f, init, [last], variant);
      assert FlagsAfter(f, rows, variant) == NextFlags(FlagsAfter(f, init, variant), last.marker, variant);
    }
  }

  /** So a block that is skipped for generators shows through a block skipped for everyone. */
  lemma NestedSkipShowsThrough(a: Row, b: Row, row: Row)
    requires a.marker == Some(SyncSkipStart) && b.marker == Some(GeneratorsSkipStart) && row.marker.None?
    ensures Output(CLEAR, [a, b, row], Sync) == row.kept
  {
    assert [a, b, row][1..] == [b, row] && [b, row][1..] == [row] && [row][1..] == [];
    var skipping := Flags(true, false, false);
    assert Emitted(CLEAR, a, Sync) == [] && NextFlags(CLEAR, a.marker, Sync) == skipping;
    assert Output(CLEAR, [row], Sync) == row.kept;
    assert Output(skipping, [b, row], Sync) == row.kept;
  }

  // ---------- the loop ----------

  lemma EveryMarker(line: string)
    ensures forall m :: MarkerOf(line) == Some(m) <==> Trim(line) == MarkerText(m)
  {
    forall m ensures MarkerOf(line) == Some(m) <==> Trim(line) == MarkerText(m) { MarkerOfIs(line, m); }
  }

  method ProcessDirectives(lines: seq<string>, variant: Variant) returns (output: seq<string>)
    ensures output == Process(lines, variant)
    ensures |output| <= |lines|
  {
    hide MarkerText, MarkerOf, LineMeaning, UncommentLine, FlagsAfter, Output, Includes;
    output := [];
    ghost var rows := ReadAll(lines, variant);
    NothingYet(rows[..0], variant);
    var skipBlock, syncOnlyBlock, generatorsOnlyBlock := false, false, false;
    for i := 0 to |lines|
      invariant Flags(skipBlock, syncOnlyBlock, generatorsOnlyBlock) == FlagsAfter(CLEAR, rows[..i], variant)
      invariant output == Output(CLEAR, rows[..i], variant)
    {
      var line := lines[i];
      var trimmed := Trim(line);
      EveryMarker(line);
      OneMore(rows, i, variant);
      if trimmed == MarkerText(GeneratorsSkipStart) {
        skipBlock := variant.Generators?;
        continue;
      }
      if trimmed == MarkerText(GeneratorsSkipEnd) {
        skipBlock := false;
        continue;
      }
      if trimmed == MarkerText(SyncSkipStart) {
        skipBlock := true;
        continue;
      }
      if trimmed == MarkerText(SyncSkipEnd) {
        skipBlock := false;
        continue;
      }
      if skipBlock {
        continue;
      }
      if trimmed == MarkerText(GeneratorsOnlyStart) {
        generatorsOnlyBlock := true;
        continue;
      }
      if trimmed == MarkerText(GeneratorsOnlyEnd) {
        generatorsOnlyBlock := false;
        continue;
      }
      if generatorsOnlyBlock {
        if variant.Generators? { output := output + [UncommentLine(line)]; }
        continue;
      }
      if trimmed == MarkerText(SyncOnlyStart) {
        syncOnlyBlock := true;
        continue;
      }
      if trimmed == MarkerText(SyncOnlyEnd) {
        syncOnlyBlock := false;
        continue;
      }
      if syncOnlyBlock {
        output := output + [UncommentLine(line)];
        continue;
      }
      var emitted := ProcessLine(line, variant);
      output := output + emitted;
    }
    assert rows[..|lines|] == rows;
    OutputIsShort(CLEAR, rows, variant);
  }

  predicate Dropped(line: string, variant: Variant) {
    (variant.Generators? && Includes(line, "// @generators-skip")) || Includes(line, "// @sync-skip")
  }

  /** The leftmost place where the marker's text runs to the end of the line. */
  predicate FirstAt(line: string, marker: string, i: nat) {
    ReplacementAt(line, marker, i) && forall j: nat :: j < i ==> !ReplacementAt(line, marker, j)
  }

  ghost predicate Free(line: string, marker: string) {
    forall i: nat :: !ReplacementAt(line, marker, i)
  }

  /** The line gives way to the text behind its synchronous marker, and stays as it is without one. */
  ghost predicate FollowsSync(line: string, emitted: seq<string>) {
    && (Free(line, SYNC_MARKER) ==> emitted == [line])
    && (forall i: nat :: FirstAt(line, SYNC_MARKER, i) ==> emitted == [Indent(line) + line[i + |SYNC_MARKER|..]])
  }

  /** A skip marker drops the line. Otherwise the generators' sources take the text behind a generators marker, and
      without one, or without the marker and what follows it, the line follows its synchronous marker. */
  method ProcessLine(line: string, variant: Variant) returns (emitted: seq<string>)
    ensures emitted == [] <==> Dropped(line, variant)
    ensures !Dropped(line, variant) ==> forall i: nat :: FirstAt(line, GENERATORS_MARKER, i) ==>
      if variant.Generators? then emitted == [Indent(line) + line[i + |GENERATORS_MARKER|..]]
      else FollowsSync(TrimEnd(line[..i]), emitted)
    ensures !Dropped(line, variant) && Free(line, GENERATORS_MARKER) ==> FollowsSync(line, emitted)
    ensures emitted == LineMeaning(line, variant)
  {
    hide Indent, TrimEnd, Includes, Terminator, At;
    if variant.Generators? && Includes(line, "// @generators-skip") {
      return [];
    }
    if Includes(line, "// @sync-skip") {
      return [];
    }
    var generatorsReplaceMatch := FindReplacement(line, GENERATORS_MARKER, 0);
    if variant.Generators? && generatorsReplaceMatch.Some? {
      return [Replaced(line, GENERATORS_MARKER, generatorsReplaceMatch.value)];
    }
    var lineWithoutGeneratorsDirective :=
      if generatorsReplaceMatch.Some? then TrimEnd(line[..generatorsReplaceMatch.value]) else line;
    var syncReplaceMatch := FindReplacement(lineWithoutGeneratorsDirective, SYNC_MARKER, 0);
    if syncReplaceMatch.Some? {
      return [Replaced(lineWithoutGeneratorsDirective, SYNC_MARKER, syncReplaceMatch.value)];
    }
    emitted := [lineWithoutGeneratorsDirective];
  }

  lemma NothingYet(rows: seq<Row>, variant: Variant)
    requires rows == []
    ensures FlagsAfter(CLEAR, rows, variant) == CLEAR && Output(CLEAR, rows, variant) == []
  {
  }

  lemma OneMore(rows: seq<Row>, i: nat, variant: Variant)
    requires i < |rows|
    ensures var f := FlagsAfter(CLEAR, rows[..i], variant);
      && FlagsAfter(CLEAR, rows[..i + 1], variant) == NextFlags(f, rows[i].marker, variant)
      && Output(CLEAR, rows[..i + 1], variant) == Output(CLEAR, rows[..i], variant) + Emitted(f, rows[i], variant)
  {
    hide NextFlags, Emitted;
    assert rows[..i + 1] == rows[..i] + [rows[i]] && [rows[i]][1..] == [];
    OutputConcat(CLEAR, rows[..i], [rows[i]], variant);
  }
}
