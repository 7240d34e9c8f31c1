/** Strings as the TypeScript sources handle them: white space, and lines. */
module Text {

  // ---------- white space ----------

  /** What trim removes and \s matches. */
  predicate Blank(c: char) {
    c in "\t\n\r \U{000b}\U{000c}\U{00a0}\U{1680}\U{2028}\U{2029}\U{202f}\U{205f}\U{3000}\U{feff}" ||
    '\U{2000}' <= c <= '\U{200a}'
  }

  function Indent(l: string): (i: string)
    ensures i <= l
  {
    if l != "" && Blank(l[0]) then [l[0]] + Indent(l[1..]) else ""
  }

  function TrimStart(l: string): string {
    l[|Indent(l)|..]
  }

  function TrimEnd(l: string): string {
    if l != "" && Blank(l[|l| - 1]) then TrimEnd(l[..|l| - 1]) else l
  }

  function Trim(l: string): string {
    TrimEnd(TrimStart(l))
  }

  lemma {:induction false} IndentIsBlank(l: string)
    ensures forall c :: c in Indent(l) ==> Blank(c)
    ensures TrimStart(l) != "" ==> !Blank(TrimStart(l)[0])
  {
    if l != "" && Blank(l[0]) {
      IndentIsBlank(l[1..]);
      assert TrimStart(l) == TrimStart(l[1..]);
    }
  }

  lemma {:induction false} IndentOf(indent: string, rest: string)
    requires forall c :: c in indent ==> Blank(c)
    requires rest != "" ==> !Blank(rest[0])
    ensures Indent(indent + rest) == indent && TrimStart(indent + rest) == rest
  {
    if indent == "" {
      assert indent + rest == rest;
    } else {
      assert (indent + rest)[1..] == indent[1..] + rest;
      IndentOf(indent[1..], rest);
    }
  }

  // ---------- finding ----------

  predicate At(line: string, what: string, i: nat) {
    i <= |line| && what <= line[i..]
  }

  predicate Includes(line: string, what: string) {
    exists i: nat :: i <= |line| && At(line, what, i)
  }

  // ---------- splitting and joining lines ----------

  function Split(text: string): (lines: seq<string>)
    ensures lines != []
  {
    if text == "" then [""]
    else
      var rest := Split(text[1..]);
      if text[0] == '\n' then [""] + rest else [[text[0]] + rest[0]] + rest[1..]
  }

  function Join(lines: seq<string>): string {
    if lines == [] then ""
    else if |lines| == 1 then lines[0]
    else lines[0] + "\n" + Join(lines[1..])
  }

  predicate OneLine(l: string) {
    '\n' !in l
  }

  lemma {:induction false} SplitGivesLines(text: string)
    ensures forall l :: l in Split(text) ==> OneLine(l)
  {
    if text != "" {
      SplitGivesLines(text[1..]);
      var rest := Split(text[1..]);
      assert OneLine(rest[0]) && forall l :: l in rest[1..] ==> l in rest;
      if text[0] != '\n' {
        assert OneLine([text[0]] + rest[0]);
      }
    }
  }

  lemma {:induction false} SplitPrefix(line: string, rest: string)
    requires OneLine(line)
    ensures Split(line + "\n" + rest) == [line] + Split(rest)
  {
    if line == "" {
      assert (line + "\n" + rest)[1..] == rest;
    } else {
      assert (line + "\n" + rest)[1..] == line[1..] + "\n" + rest;
      SplitPrefix(line[1..], rest);
      assert [line[0]] + line[1..] == line;
    }
  }

  lemma {:induction false} SplitLine(line: string)
    requires OneLine(line)
    ensures Split(line) == [line]
  {
    if line != "" {
      SplitLine(line[1..]);
      assert [line[0]] + line[1..] == line;
    }
  }

  /** The captured lines survive being joined for the report and split again for sanitising. */
  lemma {:induction false} SplitJoin(lines: seq<string>)
    requires lines != [] && forall l :: l in lines ==> OneLine(l)
    ensures Split(Join(lines)) == lines
  {
    if |lines| == 1 {
      SplitLine(lines[0]);
    } else {
      SplitPrefix(lines[0], Join(lines[1..]));
      SplitJoin(lines[1..]);
    }
  }
}
