/** Three-way comparison results and the laws a comparator has to obey. */
module Ordering {

  /** The first nonzero result decides. */
  function Then(first: int, second: int): int {
    if first != 0 then first else second
  }

  function Sign(x: int): int {
    if x < 0 then -1 else if x > 0 then 1 else 0
  }

  /** x, y and z can be the results of comparing a with b, b with c and a with c. */
  predicate Coherent(x: int, y: int, z: int) {
    && (x <= 0 && y <= 0 ==> z <= 0)
    && (x >= 0 && y >= 0 ==> z >= 0)
    && (x < 0 && y <= 0 ==> z < 0)
    && (x <= 0 && y < 0 ==> z < 0)
    && (x > 0 && y >= 0 ==> z > 0)
    && (x >= 0 && y > 0 ==> z > 0)
  }

  /** strings.Compare: lexicographic by code unit, shorter first, one of -1, 0 and 1. */
  function CompareStrings(s: string, t: string): (c: int)
    ensures -1 <= c <= 1
  {
    if s == [] then (if t == [] then 0 else -1)
    else if t == [] then 1
    else if s[0] < t[0] then -1
    else if s[0] > t[0] then 1
    else CompareStrings(s[1..], t[1..])
  }

  lemma {:induction false} CompareStringsZero(s: string, t: string)
    ensures CompareStrings(s, t) == 0 <==> s == t
  {
    if s != [] && t != [] && s[0] == t[0] {
      CompareStringsZero(s[1..], t[1..]);
      assert s == [s[0]] + s[1..] && t == [t[0]] + t[1..];
    }
  }

  lemma {:induction false} CompareStringsAntisymmetric(s: string, t: string)
    ensures CompareStrings(s, t) == -CompareStrings(t, s)
  {
    if s != [] && t != [] && s[0] == t[0] {
      CompareStringsAntisymmetric(s[1..], t[1..]);
    }
  }

  lemma {:induction false} CompareStringsCoherent(s: string, t: string, u: string)
    ensures Coherent(CompareStrings(s, t), CompareStrings(t, u), CompareStrings(s, u))
  {
    if s != [] && t != [] && u != [] && s[0] == t[0] == u[0] {
      CompareStringsCoherent(s[1..], t[1..], u[1..]);
    }
  }

  /** slices.Compare over strings: lexicographic by element, shorter first. */
  function CompareArgs(s: seq<string>, t: seq<string>): int {
    if s == [] then (if t == [] then 0 else -1)
    else if t == [] then 1
    else Then(CompareStrings(s[0], t[0]), CompareArgs(s[1..], t[1..]))
  }

  lemma {:induction false} CompareArgsZero(s: seq<string>, t: seq<string>)
    ensures CompareArgs(s, t) == 0 <==> s == t
  {
    if s != [] && t != [] {
      CompareStringsZero(s[0], t[0]);
      CompareArgsZero(s[1..], t[1..]);
      assert s == [s[0]] + s[1..] && t == [t[0]] + t[1..];
    }
  }

  lemma {:induction false} CompareArgsAntisymmetric(s: seq<string>, t: seq<string>)
    ensures CompareArgs(s, t) == -CompareArgs(t, s)
  {
    if s != [] && t != [] {
      CompareStringsAntisymmetric(s[0], t[0]);
      CompareArgsAntisymmetric(s[1..], t[1..]);
    }
  }

  lemma {:induction false} CompareArgsCoherent(s: seq<string>, t: seq<string>, u: seq<string>)
    ensures Coherent(CompareArgs(s, t), CompareArgs(t, u), CompareArgs(s, u))
  {
    if s != [] && t != [] && u != [] {
      CompareStringsCoherent(s[0], t[0], u[0]);
      CompareArgsCoherent(s[1..], t[1..], u[1..]);
    }
  }

  // ---------- lexicographic order by the first difference ----------

  /** s and t are equal in front of k, where s ends or has the smaller character. */
  ghost predicate TextLessFrom(s: string, t: string, k: nat) {
    && k <= |s| && k < |t| && s[..k] == t[..k]
    && (k < |s| ==> s[k] < t[k])
  }

  ghost predicate TextLess(s: string, t: string) {
    exists k :: TextLessFrom(s, t, k)
  }

  ghost predicate WordsLessFrom(v: seq<string>, w: seq<string>, k: nat) {
    && k <= |v| && k < |w| && v[..k] == w[..k]
    && (k < |v| ==> TextLess(v[k], w[k]))
  }

  ghost predicate WordsLess(v: seq<string>, w: seq<string>) {
    exists k :: WordsLessFrom(v, w, k)
  }

  lemma {:induction false} StringsDifferFrom(s: string, t: string) returns (k: nat)
    requires CompareStrings(s, t) < 0
    ensures TextLessFrom(s, t, k)
  {
    k := 0;
    if s != [] && s[0] == t[0] {
      k := StringsDifferFrom(s[1..], t[1..]);
      k := k + 1;
      assert s[..k] == [s[0]] + s[1..][..k - 1] && t[..k] == [t[0]] + t[1..][..k - 1];
    }
  }

  lemma {:induction false} FirstDifferenceDecides(s: string, t: string, k: nat)
    requires TextLessFrom(s, t, k)
    ensures CompareStrings(s, t) < 0
  {
    if k > 0 {
      assert s[0] == s[..k][0] && t[0] == t[..k][0];
      assert s[1..][..k - 1] == s[..k][1..] && t[1..][..k - 1] == t[..k][1..];
      FirstDifferenceDecides(s[1..], t[1..], k - 1);
    }
  }

  /** strings.Compare is the lexicographic order: equal strings give 0, and the first difference decides. */
  lemma CompareStringsIsTextLess(s: string, t: string)
    ensures CompareStrings(s, t) < 0 <==> TextLess(s, t)
    ensures CompareStrings(s, t) > 0 <==> TextLess(t, s)
  {
    hide TextLessFrom;
    CompareStringsAntisymmetric(s, t);
    if CompareStrings(s, t) < 0 { var k := StringsDifferFrom(s, t); }
    if CompareStrings(s, t) > 0 { var k := StringsDifferFrom(t, s); }
    if j :| TextLessFrom(s, t, j) { FirstDifferenceDecides(s, t, j); }
    if j :| TextLessFrom(t, s, j) { FirstDifferenceDecides(t, s, j); }
  }

  lemma {:induction false} ArgsDifferFrom(v: seq<string>, w: seq<string>) returns (k: nat)
    requires CompareArgs(v, w) < 0
    ensures WordsLessFrom(v, w, k)
  {
    hide TextLess;
    k := 0;
    if v != [] {
      CompareStringsIsTextLess(v[0], w[0]);
      CompareStringsZero(v[0], w[0]);
      if v[0] == w[0] {
        k := ArgsDifferFrom(v[1..], w[1..]);
        k := k + 1;
        assert v[..k] == [v[0]] + v[1..][..k - 1] && w[..k] == [w[0]] + w[1..][..k - 1];
      }
    }
  }

  lemma {:induction false} FirstDifferentWordDecides(v: seq<string>, w: seq<string>, k: nat)
    requires WordsLessFrom(v, w, k)
    ensures CompareArgs(v, w) < 0
  {
    hide TextLess;
    if v != [] {
      CompareStringsIsTextLess(v[0], w[0]);
      CompareStringsZero(v[0], w[0]);
      if k > 0 {
        assert v[0] == v[..k][0] && w[0] == w[..k][0];
        assert v[1..][..k - 1] == v[..k][1..] && w[1..][..k - 1] == w[..k][1..];
        FirstDifferentWordDecides(v[1..], w[1..], k - 1);
      }
    }
  }

  /** slices.Compare is the lexicographic order over lists of strings. */
  lemma CompareArgsIsWordsLess(v: seq<string>, w: seq<string>)
    ensures CompareArgs(v, w) < 0 <==> WordsLess(v, w)
    ensures CompareArgs(v, w) > 0 <==> WordsLess(w, v)
  {
    hide WordsLessFrom;
    CompareArgsAntisymmetric(v, w);
    if CompareArgs(v, w) < 0 { var k := ArgsDifferFrom(v, w); }
    if CompareArgs(v, w) > 0 { var k := ArgsDifferFrom(w, v); }
    if j :| WordsLessFrom(v, w, j) { FirstDifferentWordDecides(v, w, j); }
    if j :| WordsLessFrom(w, v, j) { FirstDifferentWordDecides(w, v, j); }
  }
}
