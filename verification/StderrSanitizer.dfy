/** What may be reported of a server's error output (packages/vscode-typescript/src/client.ts:691-750). */
module StderrSanitizer {
  import opened Options
  import opened Text

  predicate IsPanic(l: string) {
    "panic:" <= TrimStart(l)
  }

  predicate Digit(c: char) {
    '0' <= c <= '9'
  }

  predicate HexDigit(c: char) {
    Digit(c) || 'a' <= c <= 'f' || 'A' <= c <= 'F'
  }

  // ---------- cutting a frame ----------

  /** The mark stands at i, and behind it to the end, at least once, are characters of the kind. */
  predicate TailAt(s: string, mark: string, kind: char -> bool, i: nat) {
    At(s, mark, i) && i + |mark| < |s| && forall k :: i + |mark| <= k < |s| ==> kind(s[k])
  }

  /** How many characters of the kind the text ends with. */
  function Run(s: string, kind: char -> bool): (n: nat)
    ensures n <= |s| && forall k :: |s| - n <= k < |s| ==> kind(s[k])
    ensures n < |s| ==> !kind(s[|s| - n - 1])
  {
    if s != "" && kind(s[|s| - 1]) then 1 + Run(s[..|s| - 1], kind) else 0
  }

  /** Removes a mark with such a tail. */
  function StripTail(s: string, mark: string, kind: char -> bool): string {
    var n := Run(s, kind);
    if 0 < n && |mark| <= |s| - n && s[|s| - n - |mark|..|s| - n] == mark then s[..|s| - n - |mark|] else s
  }

  lemma FrontOfRest(s: string, i: nat, n: nat)
    requires i + n <= |s|
    ensures s[i..i + n] == s[i..][..n]
    ensures s[i..i + n] <= s[i..]
  {
  }

  /** The text is cut at the one place where a mark with a tail stands, if there is one. */
  lemma StripTailCuts(s: string, mark: string, kind: char -> bool, i: nat)
    requires mark != "" && !kind(mark[|mark| - 1])
    ensures TailAt(s, mark, kind, i) ==> StripTail(s, mark, kind) == s[..i]
    ensures StripTail(s, mark, kind) != s ==> TailAt(s, mark, kind, |StripTail(s, mark, kind)|)
  {
    var n := Run(s, kind);
    if TailAt(s, mark, kind, i) {
      assert s[i..][|mark| - 1] == mark[|mark| - 1];
      assert |s| - n == i + |mark|;
      FrontOfRest(s, i, |mark|);
    }
    if 0 < n && |mark| <= |s| - n && s[|s| - n - |mark|..|s| - n] == mark {
      var at := |s| - n - |mark|;
      assert StripTail(s, mark, kind) == s[..at];
      FrontOfRest(s, at, |mark|);
    }
  }

  /** A parenthesis at i is closed by the end of the text, and no other is closed in between. */
  predicate ParensAt(s: string, i: nat) {
    i + 1 < |s| && s[i] == '(' && s[|s| - 1] == ')' && ')' !in s[i + 1..|s| - 1]
  }

  /** The leftmost such parenthesis. */
  function FindParens(s: string, from: nat): (r: Option<nat>)
    ensures r.Some? ==> from <= r.value && ParensAt(s, r.value)
    ensures r.Some? ==> forall i: nat :: from <= i < r.value ==> !ParensAt(s, i)
    ensures r.None? ==> forall i: nat :: from <= i ==> !ParensAt(s, i)
    decreases |s| - from
  {
    if |s| <= from then None else if ParensAt(s, from) then Some(from) else FindParens(s, from + 1)
  }

  function EmptyParens(s: string): string {
    var r := FindParens(s, 0);
    if r.Some? then s[..r.value] + "()" else s
  }

  function Bars(s: string): string {
    if s == "" then "" else (if s[0] == '/' then "|>" else [s[0]]) + Bars(s[1..])
  }

  // ---------- keywords that look like secrets ----------

  const KEYWORDS := ["key", "token", "signature", "sig", "pwd"]

  predicate Separator(c: char) {
    c in "([.|"
  }

  predicate WordChar(c: char) {
    'a' <= c <= 'z' || 'A' <= c <= 'Z' || Digit(c) || c == '_'
  }

  predicate SameLetter(c: char, lower: char) {
    c == lower || ('A' <= c <= 'Z' && c as int + 32 == lower as int)
  }

  /** The keyword stands in front of the text, in any case, with a separator behind it. */
  predicate Leads(s: string, w: string) {
    |w| < |s| && (forall k :: 0 <= k < |w| ==> SameLetter(s[k], w[k])) && Separator(s[|w|])
  }

  /** The expression matches at the start of the text behind this character. */
  predicate Matches(before: Option<char>, s: string, w: string) {
    (before.Some? ==> !WordChar(before.value)) && Leads(s, w)
  }

  function FirstKeyword(before: Option<char>, s: string, from: nat): (r: Option<string>)
    requires from <= |KEYWORDS|
    ensures r.Some? ==> r.value in KEYWORDS && Matches(before, s, r.value)
    ensures r.None? ==> forall i :: from <= i < |KEYWORDS| ==> !Matches(before, s, KEYWORDS[i])
    decreases |KEYWORDS| - from
  {
    if from == |KEYWORDS| then None
    else if Matches(before, s, KEYWORDS[from]) then Some(KEYWORDS[from])
    else FirstKeyword(before, s, from + 1)
  }

  /** X_X is put between each keyword and its separator, from left to right. */
  function Defuse(before: Option<char>, s: string): string
    decreases |s|
  {
    if s == "" then ""
    else match FirstKeyword(before, s, 0)
      case None => [s[0]] + Defuse(Some(s[0]), s[1..])
      case Some(w) => s[..|w|] + "X_X" + [s[|w|]] + Defuse(Some(s[|w|]), s[|w| + 1..])
  }

  /** Somewhere in the text the expression matches. */
  ghost predicate Suspicious(before: Option<char>, s: string) {
    exists i, w :: 0 <= i < |s| && w in KEYWORDS && Matches(if i == 0 then before else Some(s[i - 1]), s[i..], w)
  }

  lemma KeywordLetters(w: string)
    requires w in KEYWORDS
    ensures w != "" && forall k :: 0 <= k < |w| ==> 'a' <= w[k] <= 'z' && w[k] != 'x'
  {
    var i :| 0 <= i < |KEYWORDS| && KEYWORDS[i] == w;
    assert KEYWORDS[0] == "key" && KEYWORDS[1] == "token" && KEYWORDS[2] == "signature" && KEYWORDS[3] == "sig" &&
      KEYWORDS[4] == "pwd";
  }

  /** A character of a match, its separator apart, is a letter other than X. */
  lemma LeadingLetters(s: string, w: string, k: nat)
    requires w in KEYWORDS && Leads(s, w) && k < |w|
    ensures WordChar(s[k]) && !Separator(s[k]) && s[k] != 'X' && s[k] != '_'
  {
    KeywordLetters(w);
    assert SameLetter(s[k], w[k]);
  }

  lemma InPrefix(s: string, k: nat, n: nat)
    requires n <= |s|
    ensures k < n ==> s[k] in s[..n]
  {
    if k < n { assert s[..n][k] == s[k]; }
  }

  /** As far as there is no X in the result it is the text itself. */
  lemma {:induction false} CopiedPrefix(before: Option<char>, s: string, n: nat)
    requires n <= |Defuse(before, s)| && 'X' !in Defuse(before, s)[..n]
    ensures n <= |s| && Defuse(before, s)[..n] == s[..n]
    decreases |s|
  {
    hide KEYWORDS, Matches;
    if s != "" && n > 0 {
      var out := Defuse(before, s);
      match FirstKeyword(before, s, 0)
      case None =>
        var rest := Defuse(Some(s[0]), s[1..]);
        assert out == [s[0]] + rest && out[..n] == [s[0]] + rest[..n - 1];
        assert 'X' !in rest[..n - 1];
        CopiedPrefix(Some(s[0]), s[1..], n - 1);
      case Some(w) =>
        MatchIsInside(before, s, w);
        InPrefix(out, |w|, n);
        assert out[..n] == s[..n];
    }
  }

  lemma MatchWasThere(before: Option<char>, s: string, w: string)
    requires w in KEYWORDS && Matches(before, Defuse(before, s), w)
    ensures Matches(before, s, w)
  {
    hide Defuse, KEYWORDS;
    var out, n := Defuse(before, s), |w| + 1;
    forall k | 0 <= k < n ensures out[k] != 'X' {
      if k < |w| { LeadingLetters(out, w, k); }
    }
    CopiedPrefix(before, s, n);
    SamePrefix(out, s, w);
  }

  lemma SamePrefix(s: string, t: string, w: string)
    requires |w| < |s| && |w| < |t| && s[..|w| + 1] == t[..|w| + 1] && Leads(s, w)
    ensures Leads(t, w)
  {
    assert forall k :: 0 <= k <= |w| ==> s[k] == s[..|w| + 1][k] == t[..|w| + 1][k] == t[k];
  }

  /** No match is left where nothing was put in. */
  lemma NoneAtOrdinary(before: Option<char>, s: string, w: string)
    requires FirstKeyword(before, s, 0) == None && w in KEYWORDS
    ensures !Matches(before, Defuse(before, s), w)
  {
    hide Matches, Defuse;
    var i :| 0 <= i < |KEYWORDS| && KEYWORDS[i] == w;
    assert !Matches(before, s, KEYWORDS[i]);
    if Matches(before, Defuse(before, s), w) { MatchWasThere(before, s, w); }
  }

  lemma SuspiciousRest(before: Option<char>, s: string, n: nat)
    requires 0 < n <= |s|
    requires forall i, w :: 0 <= i < n && w in KEYWORDS ==>
      !Matches(if i == 0 then before else Some(s[i - 1]), s[i..], w)
    requires Suspicious(before, s)
    ensures Suspicious(Some(s[n - 1]), s[n..])
  {
    var i, w :| 0 <= i < |s| && w in KEYWORDS && Matches(if i == 0 then before else Some(s[i - 1]), s[i..], w);
    assert i >= n;
    assert s[n..][i - n..] == s[i..] && (i > n ==> s[n..][i - n - 1] == s[i - 1]);
    assert Matches(if i - n == 0 then Some(s[n - 1]) else Some(s[n..][i - n - 1]), s[n..][i - n..], w);
  }

  /** Within a keyword, what was put behind it and its separator there is no match. */
  lemma NoneInPatch(before: Option<char>, s: string, keyword: string, rest: string, i: nat, w: string)
    requires keyword in KEYWORDS && Leads(s, keyword) && w in KEYWORDS && i < |keyword| + 4
    ensures var out := s[..|keyword|] + "X_X" + [s[|keyword|]] + rest;
      !Matches(if i == 0 then before else Some(out[i - 1]), out[i..], w)
  {
    var n := |keyword|;
    var out := s[..n] + "X_X" + [s[n]] + rest;
    KeywordLetters(w);
    assert i >= n ==> out[i] == 'X' || out[i] == '_' || out[i] == s[n];
    if Leads(out[i..], w) {
      assert forall k :: 0 <= k < |w| ==> out[i..][k] == out[i + k];
      LeadingLetters(out[i..], w, 0);
      if i < n {
        var k := n - i;
        if k < |w| { LeadingLetters(out[i..], w, k); }
        else if k > |w| { LeadingLetters(s, keyword, i + |w|); }
      }
    }
  }

  /** Nothing in the result looks like a secret to the expression any more. */
  lemma {:induction false} NoKeywordIsLeft(before: Option<char>, s: string)
    ensures !Suspicious(before, Defuse(before, s))
    decreases |s|
  {
    hide KEYWORDS, Matches, Leads;
    var out := Defuse(before, s);
    if s != "" && Suspicious(before, out) {
      match FirstKeyword(before, s, 0)
      case None =>
        forall w | w in KEYWORDS ensures !Matches(before, out, w) { NoneAtOrdinary(before, s, w); }
        assert out[0..] == out;
        SuspiciousRest(before, out, 1);
        assert out[1..] == Defuse(Some(s[0]), s[1..]);
        NoKeywordIsLeft(Some(s[0]), s[1..]);
      case Some(w) =>
        MatchIsInside(before, s, w);
        var rest := Defuse(Some(s[|w|]), s[|w| + 1..]);
        forall i, v | 0 <= i < |w| + 4 && v in KEYWORDS
          ensures !Matches(if i == 0 then before else Some(out[i - 1]), out[i..], v) {
          NoneInPatch(before, s, w, rest, i, v);
        }
        SuspiciousRest(before, out, |w| + 4);
        assert out[|w| + 3] == s[|w|] && out[|w| + 4..] == rest;
        NoKeywordIsLeft(Some(s[|w|]), s[|w| + 1..]);
    }
  }

  lemma MatchIsInside(before: Option<char>, s: string, w: string)
    requires Matches(before, s, w)
    ensures |w| < |s| && Leads(s, w)
  {
  }

  // ---------- a line ----------

  const OUR_MODULE := "TypeScript/tsc/"

  function Find(s: string, what: string, from: nat): (r: Option<nat>)
    ensures r.Some? ==> from <= r.value && At(s, what, r.value)
    ensures r.Some? ==> forall i: nat :: from <= i < r.value ==> !At(s, what, i)
    ensures r.None? ==> forall i: nat :: from <= i ==> !At(s, what, i)
    decreases |s| - from
  {
    if |s| < from then None else if At(s, what, from) then Some(from) else Find(s, what, from + 1)
  }

  function Shorten(frame: string): string {
    var cut := StripTail(StripTail(frame, " +0x", HexDigit), " in goroutine ", Digit);
    Defuse(None, Bars(EmptyParens(cut)))
  }

  predicate IsHeader(l: string) {
    "goroutine " <= l && 10 < |l| && Digit(l[10])
  }

  function SanitizeLine(l: string): string {
    if IsHeader(l) then l
    else if IsPanic(l) then "panic: (REDACTED)"
    else if Includes(l, "Server process exited") then l
    else
      var at := Find(l, OUR_MODULE, 0);
      if at.Some? then Indent(l) + Shorten(l[at.value..])
      else if Trim(l) == "" then ""
      else Indent(l) + "(REDACTED)"
  }

  lemma {:induction false} BarsHasNoSlash(s: string)
    ensures '/' !in Bars(s)
    ensures OneLine(s) ==> OneLine(Bars(s))
  {
    if s != "" { BarsHasNoSlash(s[1..]); }
  }

  lemma {:induction false} DefuseAdds(before: Option<char>, s: string, c: char)
    requires c in Defuse(before, s)
    ensures c in s || c == 'X' || c == '_'
    decreases |s|
  {
    hide KEYWORDS, Matches;
    if s != "" {
      match FirstKeyword(before, s, 0)
      case None =>
        if c in Defuse(Some(s[0]), s[1..]) { DefuseAdds(Some(s[0]), s[1..], c); }
      case Some(w) =>
        MatchIsInside(before, s, w);
        if c in Defuse(Some(s[|w|]), s[|w| + 1..]) { DefuseAdds(Some(s[|w|]), s[|w| + 1..], c); }
    }
  }

  /** A shortened frame has no path separator and nothing that looks like a secret to the expression. */
  lemma ShortenedIsHarmless(frame: string)
    ensures '/' !in Shorten(frame) && !Suspicious(None, Shorten(frame))
    ensures OneLine(frame) ==> OneLine(Shorten(frame))
  {
    hide Defuse, Bars, FindParens, Suspicious;
    var cut := StripTail(StripTail(frame, " +0x", HexDigit), " in goroutine ", Digit);
    var bars := Bars(EmptyParens(cut));
    BarsHasNoSlash(EmptyParens(cut));
    NoKeywordIsLeft(None, bars);
    if '/' in Shorten(frame) { DefuseAdds(None, bars, '/'); }
    if OneLine(frame) && '\n' in Shorten(frame) { DefuseAdds(None, bars, '\n'); }
  }

  lemma OneLineStays(l: string)
    requires OneLine(l)
    ensures OneLine(SanitizeLine(l))
  {
    hide Shorten, Trim, Includes, IsPanic;
    var at := Find(l, OUR_MODULE, 0);
    assert OneLine(Indent(l)) && OneLine("panic: (REDACTED)") && OneLine("(REDACTED)");
    if at.Some? {
      assert OneLine(l[at.value..]);
      ShortenedIsHarmless(l[at.value..]);
    }
  }

  lemma HeaderIsNoPanic(l: string)
    requires IsHeader(l)
    ensures !IsPanic(l)
  {
    assert l[0] == 'g' && !Blank(l[0]);
    assert TrimStart(l) == l;
  }

  /** Of a panic only the marker is left, whatever the message. */
  lemma PanicIsRedacted(l: string)
    requires IsPanic(l)
    ensures SanitizeLine(l) == "panic: (REDACTED)"
  {
    hide IsHeader, IsPanic;
    if IsHeader(l) { HeaderIsNoPanic(l); }
  }

  lemma IndentStops(l: string, k: nat)
    requires k < |l| && (forall i :: 0 <= i < k ==> Blank(l[i])) && !Blank(l[k])
    ensures Indent(l) == l[..k] && TrimStart(l) == l[k..]
  {
    hide Blank, Indent;
    assert l == l[..k] + l[k..];
    IndentOf(l[..k], l[k..]);
  }

  lemma {:induction false} TrimEndKeeps(l: string)
    requires l != "" && !Blank(l[0])
    ensures TrimEnd(l) != ""
  {
    if Blank(l[|l| - 1]) { TrimEndKeeps(l[..|l| - 1]); }
  }

  /** Neither a header, nor a panic, nor the exit message, nor a frame of our module. */
  predicate Foreign(l: string) {
    !IsHeader(l) && !IsPanic(l) && !Includes(l, "Server process exited") && !Includes(l, OUR_MODULE)
  }

  lemma NotFound(l: string, what: string)
    ensures Includes(l, what) <==> Find(l, what, 0).Some?
  {
  }

  /** Of any other line only the white space in front and the marker are left. */
  lemma ForeignIsRedacted(l: string, k: nat)
    requires Foreign(l) && k < |l| && (forall i :: 0 <= i < k ==> Blank(l[i])) && !Blank(l[k])
    ensures SanitizeLine(l) == l[..k] + "(REDACTED)"
  {
    hide IsHeader, IsPanic, Includes, Blank, TrimEnd, Indent, Find;
    NotFound(l, OUR_MODULE);
    IndentStops(l, k);
    TrimEndKeeps(TrimStart(l));
  }

  lemma BarsUnfold(c: char, s: string)
    ensures Bars([c] + s) == (if c == '/' then "|>" else [c]) + Bars(s)
  {
    assert ([c] + s)[1..] == s;
  }

  lemma {:induction false} BarsConcat(s: string, t: string)
    ensures Bars(s + t) == Bars(s) + Bars(t)
  {
    if s == "" {
      assert s + t == t && Bars(s) == "";
    } else {
      hide Bars;
      var first, rest := if s[0] == '/' then "|>" else [s[0]], s[1..];
      assert s == [s[0]] + rest && s + t == [s[0]] + (rest + t);
      BarsUnfold(s[0], rest);
      BarsUnfold(s[0], rest + t);
      BarsConcat(rest, t);
      assert first + (Bars(rest) + Bars(t)) == (first + Bars(rest)) + Bars(t);
    }
  }

  lemma {:induction false} NoBars(s: string)
    requires '/' !in s
    ensures Bars(s) == s
  {
    if s != "" { NoBars(s[1..]); }
  }

  /** Each separator becomes a bar and an angle bracket, and what is between them stays. */
  lemma BarsFirst(s: string, rest: string)
    requires '/' !in s
    ensures Bars(s) == s && Bars(s + "/" + rest) == s + "|>" + Bars(rest)
  {
    assert Bars("/") == "|>" + Bars("");
    hide Bars;
    NoBars(s);
    NoBars("");
    BarsConcat(s + "/", rest);
    BarsConcat(s, "/");
  }

  lemma {:induction false} DefuseKeeps(before: Option<char>, s: string)
    requires !Suspicious(before, s)
    ensures Defuse(before, s) == s
    decreases |s|
  {
    hide KEYWORDS, Matches;
    if s != "" {
      var k := FirstKeyword(before, s, 0);
      assert s[0..] == s;
      assert k.None?;
      if Suspicious(Some(s[0]), s[1..]) { SuspiciousLater(before, s); }
      DefuseKeeps(Some(s[0]), s[1..]);
    }
  }

  lemma SuspiciousLater(before: Option<char>, s: string)
    requires s != "" && Suspicious(Some(s[0]), s[1..])
    ensures Suspicious(before, s)
  {
    hide KEYWORDS, Matches;
    var r := s[1..];
    var i, w :| 0 <= i < |r| && w in KEYWORDS && Matches(if i == 0 then Some(s[0]) else Some(r[i - 1]), r[i..], w);
    assert r[i..] == s[i + 1..] && (i > 0 ==> r[i - 1] == s[i]);
    assert Matches(if i + 1 == 0 then before else Some(s[i + 1 - 1]), s[i + 1..], w);
  }

  /** A frame of our module with no offset, goroutine or arguments at its end, and nothing like a secret, is kept from
      the module on: only each separator of its path is written otherwise. */
  lemma FrameIsKept(l: string, at: nat)
    requires !IsHeader(l) && !IsPanic(l) && !Includes(l, "Server process exited")
    requires Find(l, OUR_MODULE, 0) == Some(at)
    requires forall i: nat :: !TailAt(l[at..], " +0x", HexDigit, i) && !TailAt(l[at..], " in goroutine ", Digit, i)
    requires forall i: nat :: !ParensAt(l[at..], i)
    requires !Suspicious(None, Bars(l[at..]))
    ensures SanitizeLine(l) == Indent(l) + Bars(l[at..])
  {
    hide Bars, Suspicious, Defuse, TailAt, ParensAt, IsHeader, IsPanic, Includes, StripTail;
    var frame := l[at..];
    StripTailCuts(frame, " +0x", HexDigit, 0);
    StripTailCuts(frame, " in goroutine ", Digit, 0);
    DefuseKeeps(None, Bars(frame));
  }

  function Last(before: Option<char>, s: string): Option<char> {
    if s == "" then before else Some(s[|s| - 1])
  }

  /** In front of rest, no match begins within s. */
  ghost predicate Clean(before: Option<char>, s: string, rest: string)
    decreases s
  {
    s == "" || (FirstKeyword(before, s + rest, 0).None? && Clean(Some(s[0]), s[1..], rest))
  }

  lemma DefuseOrdinary(before: Option<char>, c: char, s: string)
    requires FirstKeyword(before, [c] + s, 0).None?
    ensures Defuse(before, [c] + s) == [c] + Defuse(Some(c), s)
  {
    hide FirstKeyword;
    assert ([c] + s)[1..] == s;
  }

  lemma {:induction false} DefuseSkips(before: Option<char>, s: string, rest: string)
    requires Clean(before, s, rest)
    ensures Defuse(before, s + rest) == s + Defuse(Last(before, s), rest)
    decreases s
  {
    hide FirstKeyword, Defuse;
    if s == "" {
      assert s + rest == rest;
    } else {
      var c, tail := s[0], s[1..];
      assert s == [c] + tail && s + rest == [c] + (tail + rest);
      DefuseOrdinary(before, c, tail + rest);
      DefuseSkips(Some(c), tail, rest);
      assert Last(Some(c), tail) == Last(before, s);
    }
  }

  /** The leftmost match gets X_X between its keyword and its separator, and what follows is treated behind it. */
  lemma FirstSecretIsDefused(before: Option<char>, s: string, secret: string, separator: char, rest: string)
    requires var t := secret + [separator] + rest;
      Clean(before, s, t) && FirstKeyword(Last(before, s), t, 0).Some? &&
      |FirstKeyword(Last(before, s), t, 0).value| == |secret|
    ensures Defuse(before, s + (secret + [separator] + rest)) ==
            s + (secret + "X_X" + [separator] + Defuse(Some(separator), rest))
  {
    hide KEYWORDS, FirstKeyword, Clean, Last;
    var t := secret + [separator] + rest;
    DefuseSkips(before, s, t);
    assert t[..|secret|] == secret && t[|secret|] == separator && t[|secret| + 1..] == rest;
  }

  lemma ParensFound(head: string, args: string)
    requires '(' !in head && ')' !in args
    ensures FindParens(head + "(" + args + ")", 0) == Some(|head|)
  {
    var s := head + "(" + args + ")";
    assert s[|head| + 1..|s| - 1] == args;
    assert ParensAt(s, |head|);
    forall i: nat | i < |head| ensures !ParensAt(s, i) { assert s[i] == head[i]; }
  }

  lemma NoTailBehindParens(s: string, mark: string, kind: char -> bool)
    requires s != "" && !kind(s[|s| - 1])
    ensures StripTail(s, mark, kind) == s
  {
  }

  lemma ShortenDropsArguments(head: string, args: string)
    requires '(' !in head && ')' !in args && !Suspicious(None, Bars(head) + "()")
    ensures Shorten(head + "(" + args + ")") == Bars(head) + "()"
  {
    hide Bars, Suspicious, Defuse, StripTail, FindParens, ParensAt;
    var frame := head + "(" + args + ")";
    assert frame[|frame| - 1] == ')' && frame[..|head|] == head;
    NoTailBehindParens(frame, " +0x", HexDigit);
    NoTailBehindParens(frame, " in goroutine ", Digit);
    ParensFound(head, args);
    NoBars("()");
    BarsConcat(head, "()");
    DefuseKeeps(None, Bars(head) + "()");
  }

  /** Of a function's frame the arguments are dropped, whatever they are. */
  lemma ArgumentsAreDropped(l: string, at: nat, head: string, args: string)
    requires !IsHeader(l) && !IsPanic(l) && !Includes(l, "Server process exited")
    requires Find(l, OUR_MODULE, 0) == Some(at) && l[at..] == head + "(" + args + ")"
    requires '(' !in head && ')' !in args && !Suspicious(None, Bars(head) + "()")
    ensures SanitizeLine(l) == Indent(l) + (Bars(head) + "()")
  {
    hide Bars, Suspicious, Shorten, IsHeader, IsPanic, Includes, Find;
    ShortenDropsArguments(head, args);
  }

  // ---------- the report ----------

  const MAX_STDERR_LENGTH := 8192

  function SanitizeAll(lines: seq<string>): seq<string> {
    seq(|lines|, i requires 0 <= i < |lines| => SanitizeLine(lines[i]))
  }

  function SanitizeStderr(stderr: string): string {
    if stderr == "" then "" else Join(SanitizeAll(Split(stderr)))
  }

  function Cut(s: string, n: nat): string {
    if |s| <= n then s else s[..n]
  }

  /** Line by line: sanitising the joined lines gives one line for each. */
  lemma SanitizedByLine(lines: seq<string>)
    requires forall l :: l in lines ==> OneLine(l)
    ensures SanitizeStderr(Join(lines)) == Join(SanitizeAll(lines))
    ensures lines != [] ==> Split(Join(SanitizeAll(lines))) == SanitizeAll(lines)
  {
    hide SanitizeLine, Split;
    if lines != [] {
      SplitJoin(lines);
      forall l | l in SanitizeAll(lines) ensures OneLine(l) {
        var i :| 0 <= i < |lines| && SanitizeAll(lines)[i] == l;
        assert lines[i] in lines;
        OneLineStays(lines[i]);
      }
      SplitJoin(SanitizeAll(lines));
      if Join(lines) == "" { OnlyEmpty(lines); }
    }
  }

  /** Lines that join to nothing are one empty line. */
  lemma OnlyEmpty(lines: seq<string>)
    requires lines != [] && Join(lines) == ""
    ensures lines == [""] && SanitizeLine("") == "" && Join(SanitizeAll(lines)) == ""
  {
    assert |lines| == 1;
    assert Find("", OUR_MODULE, 0) == None;
    assert SanitizeLine("") == "";
  }
}
