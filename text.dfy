/** The Python string built-ins the scraper relies on: `str.isspace`,
    `str.strip`, `str.lower`, the substring test `sub in s` and `str.split()`
    with no separator. Strings are sequences of Unicode scalar values, as
    Python's `str` is a sequence of code points. */
module Text {

  /** The characters Python's `str.isspace` accepts, which are also the ones
      `str.strip()` removes and `str.split()` separates on. */
  const SpaceChars: set<char> := {
    '\t', '\n', '\U{0b}', '\U{0c}', '\r', '\U{1c}', '\U{1d}', '\U{1e}', '\U{1f}', ' ',
    '\U{85}', '\U{a0}', '\U{1680}', '\U{2000}', '\U{2001}', '\U{2002}', '\U{2003}',
    '\U{2004}', '\U{2005}', '\U{2006}', '\U{2007}', '\U{2008}', '\U{2009}', '\U{200a}',
    '\U{2028}', '\U{2029}', '\U{202f}', '\U{205f}', '\U{3000}'
  }

  predicate IsSpace(c: char) {
    c in SpaceChars
  }

  predicate AllSpace(s: string) {
    forall i :: 0 <= i < |s| ==> IsSpace(s[i])
  }

  predicate NoSpace(s: string) {
    forall i :: 0 <= i < |s| ==> !IsSpace(s[i])
  }

  /** Python truthiness of a string: it is non-empty. */
  predicate HasNonSpace(s: string) {
    exists i :: 0 <= i < |s| && !IsSpace(s[i])
  }

  /** `s.lstrip()` */
  function TrimLeft(s: string): (r: string)
    ensures |r| <= |s|
  {
    if s != [] && IsSpace(s[0]) then TrimLeft(s[1..]) else s
  }

  /** `s.rstrip()` */
  function TrimRight(s: string): (r: string)
    ensures |r| <= |s|
  {
    if s != [] && IsSpace(s[|s| - 1]) then TrimRight(s[..|s| - 1]) else s
  }

  /** `s.strip()` */
  function Strip(s: string): string {
    TrimRight(TrimLeft(s))
  }

  /** `s.lstrip()` removes exactly the leading whitespace: what it drops is
      all whitespace and what it keeps does not start with whitespace. */
  lemma {:induction false} TrimLeftRemovesLeadingSpace(s: string)
    ensures var r := TrimLeft(s);
      r == s[|s| - |r|..] && AllSpace(s[..|s| - |r|]) && (r == [] || !IsSpace(r[0]))
    decreases |s|
  {
    if s != [] && IsSpace(s[0]) {
      TrimLeftRemovesLeadingSpace(s[1..]);
      var r := TrimLeft(s);
      assert s[..|s| - |r|] == [s[0]] + s[1..][..|s| - 1 - |r|];
    }
  }

  /** `s.rstrip()` removes exactly the trailing whitespace. */
  lemma {:induction false} TrimRightRemovesTrailingSpace(s: string)
    ensures var r := TrimRight(s);
      r == s[..|r|] && AllSpace(s[|r|..]) && (r == [] || !IsSpace(r[|r| - 1]))
    decreases |s|
  {
    if s != [] && IsSpace(s[|s| - 1]) {
      var init := s[..|s| - 1];
      TrimRightRemovesTrailingSpace(init);
      var r := TrimRight(s);
      assert s[|r|..] == init[|r|..] + [s[|s| - 1]];
    }
  }

  /** `s.strip()` starts and ends with a non-whitespace character, and is
      empty exactly when `s` is all whitespace. */
  lemma StripTrims(s: string)
    ensures var r := Strip(s);
      && (r == [] || (!IsSpace(r[0]) && !IsSpace(r[|r| - 1])))
      && (r == [] <==> AllSpace(s))
  {
    var t := TrimLeft(s);
    TrimLeftRemovesLeadingSpace(s);
    TrimRightRemovesTrailingSpace(t);
    var r := TrimRight(t);
    if r != [] {
      assert r[0] == t[0];
    } else {
      assert s == s[..|s| - |t|] + t;
      assert t == t[|r|..];
    }
  }

  /** `c.lower()` for the ASCII letters; every other character is kept. */
  function LowerChar(c: char): char {
    if 'A' <= c <= 'Z' then (c as int + 32) as char else c
  }

  /** `s.lower()`, character by character. */
  function Lower(s: string): (r: string)
    ensures |r| == |s|
  {
    if s == [] then [] else [LowerChar(s[0])] + Lower(s[1..])
  }

  /** Lowering a concatenation lowers each part. */
  lemma {:induction false} LowerAppend(a: string, b: string)
    ensures Lower(a + b) == Lower(a) + Lower(b)
    decreases |a|
  {
    if a != [] {
      assert (a + b)[1..] == a[1..] + b;
      LowerAppend(a[1..], b);
    } else {
      assert a + b == b;
    }
  }

  predicate StartsWith(s: string, prefix: string) {
    |prefix| <= |s| && s[..|prefix|] == prefix
  }

  /** Python's `sub in s`. */
  predicate Contains(s: string, sub: string)
    decreases |s|
  {
    StartsWith(s, sub) || (s != [] && Contains(s[1..], sub))
  }

  /** A string contains whatever occurs in it, wherever it occurs. */
  lemma {:induction false} ContainsInside(a: string, sub: string, b: string)
    ensures Contains(a + sub + b, sub)
    decreases |a|
  {
    if a == [] {
      assert (a + sub + b)[..|sub|] == sub;
    } else {
      assert (a + sub + b)[1..] == a[1..] + sub + b;
      ContainsInside(a[1..], sub, b);
    }
  }

  /** A string shorter than `sub` does not contain it. */
  lemma {:induction false} ShortDoesNotContain(s: string, sub: string)
    requires |s| < |sub|
    ensures !Contains(s, sub)
    decreases |s|
  {
    if s != [] {
      ShortDoesNotContain(s[1..], sub);
    }
  }

  /** The number of leading characters of `s` that are not whitespace. */
  function WordLength(s: string): (n: nat)
    ensures n <= |s| && NoSpace(s[..n])
    ensures n == |s| || IsSpace(s[n])
  {
    if s == [] || IsSpace(s[0]) then 0 else 1 + WordLength(s[1..])
  }

  /** Every element is a non-empty run of non-whitespace characters. */
  predicate AreWords(ws: seq<string>) {
    ws == [] || (ws[0] != [] && NoSpace(ws[0]) && AreWords(ws[1..]))
  }

  /** `s.split()`: the maximal runs of non-whitespace characters, in order. */
  function Words(s: string): (ws: seq<string>)
    ensures AreWords(ws)
    decreases |s|
  {
    var t := TrimLeft(s);
    TrimLeftRemovesLeadingSpace(s);
    if t == [] then []
    else
      var n := WordLength(t);
      var rest := Words(t[n..]);
      assert ([t[..n]] + rest)[1..] == rest;
      [t[..n]] + rest
  }

  /** A string that contains a non-blank string is itself non-blank. */
  lemma {:induction false} ContainsNonSpace(s: string, sub: string)
    requires Contains(s, sub) && HasNonSpace(sub)
    ensures HasNonSpace(s)
    decreases |s|
  {
    if StartsWith(s, sub) {
      var i :| 0 <= i < |sub| && !IsSpace(sub[i]);
      assert s[i] == sub[i];
    } else {
      ContainsNonSpace(s[1..], sub);
      var i :| 0 <= i < |s[1..]| && !IsSpace(s[1..][i]);
      assert s[i + 1] == s[1..][i];
    }
  }

  /** `s.split()` of a string with a non-whitespace character has a word. */
  lemma WordsOfNonBlank(s: string)
    requires HasNonSpace(s)
    ensures Words(s) != []
  {
    TrimLeftRemovesLeadingSpace(s);
    assert s[..|s|] == s;
  }

  /** Leading whitespace is stripped across a concatenation. */
  lemma {:induction false} TrimLeftAppend(s: string, b: string)
    ensures TrimLeft(s + b) == if AllSpace(s) then TrimLeft(b) else TrimLeft(s) + b
    decreases |s|
  {
    if s == [] {
      assert s + b == b;
    } else {
      assert (s + b)[0] == s[0];
      assert (s + b)[1..] == s[1..] + b;
      if IsSpace(s[0]) {
        TrimLeftAppend(s[1..], b);
        assert AllSpace(s) <==> AllSpace(s[1..]) by {
          if AllSpace(s[1..]) {
            forall i | 0 <= i < |s| ensures IsSpace(s[i]) {
              if i > 0 { assert s[i] == s[1..][i - 1]; }
            }
          }
        }
      }
    }
  }

  /** A word that ends inside `s` ends there in `s + b` too. */
  lemma {:induction false} WordLengthAppend(s: string, b: string, k: nat)
    requires k < |s| && IsSpace(s[k])
    ensures WordLength(s + b) == WordLength(s)
    decreases |s|
  {
    assert (s + b)[0] == s[0];
    if !IsSpace(s[0]) {
      assert (s + b)[1..] == s[1..] + b;
      assert s[1..][k - 1] == s[k];
      WordLengthAppend(s[1..], b, k - 1);
    }
  }

  /** After whitespace only, a word is the only word. */
  lemma WordsOfSpaceThenWord(s: string, w: string)
    requires w != [] && NoSpace(w) && AllSpace(s)
    ensures Words(s + w) == [w]
  {
    TrimLeftAppend(s, w);
    assert !IsSpace(w[0]);
    var t := TrimLeft(s + w);
    assert t == w;
    assert WordLength(t) == |w|;
    assert t[..|w|] == w && t[|w|..] == [];
    assert Words(s + w) == [t[..|w|]] + Words(t[|w|..]);
  }

  /** Stripping leading whitespace from a string that is not all whitespace
      keeps its last character. */
  lemma TrimLeftKeepsLast(s: string)
    requires !AllSpace(s)
    ensures var u := TrimLeft(s); u != [] && u[|u| - 1] == s[|s| - 1]
  {
    TrimLeftRemovesLeadingSpace(s);
    assert s[..|s|] == s;
  }

  /** A word ends before a string's final whitespace. */
  lemma WordLengthBeforeSpace(u: string)
    requires u != [] && IsSpace(u[|u| - 1])
    ensures WordLength(u) < |u|
  {
    assert u[..|u|] == u;
  }

  /** When `s` ends in whitespace and is not all whitespace, the first word
      of `s + w` lies inside `s`, and what follows it is a shorter such
      string, followed by `w`. */
  lemma FirstWordInside(s: string, w: string) returns (v: string)
    requires s != [] && IsSpace(s[|s| - 1]) && !AllSpace(s)
    ensures |v| < |s| && v != [] && IsSpace(v[|v| - 1])
    ensures Words(s + w) == [TrimLeft(s + w)[..WordLength(TrimLeft(s + w))]] + Words(v + w)
  {
    TrimLeftAppend(s, w);
    TrimLeftKeepsLast(s);
    var u := TrimLeft(s);
    var t := u + w;
    assert TrimLeft(s + w) == t;
    WordLengthAppend(u, w, |u| - 1);
    WordLengthBeforeSpace(u);
    var n := WordLength(u);
    v := u[n..];
    assert t[n..] == v + w;
    assert v[|v| - 1] == u[|u| - 1];
  }

  /** After whitespace (or at the start), a word is the last word. */
  lemma {:induction false} WordsEndWith(s: string, w: string)
    requires w != [] && NoSpace(w)
    requires s == [] || IsSpace(s[|s| - 1])
    ensures var ws := Words(s + w); ws != [] && ws[|ws| - 1] == w
    decreases |s|
  {
    if AllSpace(s) {
      WordsOfSpaceThenWord(s, w);
    } else {
      var v := FirstWordInside(s, w);
      WordsEndWith(v, w);
      var first := [TrimLeft(s + w)[..WordLength(TrimLeft(s + w))]];
      var rest := Words(v + w);
      assert (first + rest)[|rest|] == rest[|rest| - 1];
    }
  }

  /** The last of a list of words is a word. */
  lemma {:induction false} LastWord(ws: seq<string>)
    requires AreWords(ws) && ws != []
    ensures ws[|ws| - 1] != [] && NoSpace(ws[|ws| - 1])
  {
    if |ws| > 1 {
      LastWord(ws[1..]);
      assert ws[1..][|ws| - 2] == ws[|ws| - 1];
    }
  }

  /** `w.strip()` leaves a word unchanged. */
  lemma StripWord(w: string)
    requires w != [] && NoSpace(w)
    ensures Strip(w) == w
  {
    assert !IsSpace(w[0]) && !IsSpace(w[|w| - 1]);
  }
}
