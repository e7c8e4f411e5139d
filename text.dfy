/** The string operations of Python's `str` that the mount bookkeeping relies on,
    written over `seq<char>`. Character classes are the ASCII ones: `\w`, `\d`,
    `str.lower()` and `str.isspace()` are modelled on ASCII characters only. */
module Text {

  // ---------------------------------------------------------------------------
  // Character classes

  predicate IsDigit(c: char) {
    '0' <= c <= '9'
  }

  predicate IsAsciiLetter(c: char) {
    'a' <= c <= 'z' || 'A' <= c <= 'Z'
  }

  /** The regular-expression class `\w`: letters, digits and the underscore. */
  predicate IsWordChar(c: char) {
    IsAsciiLetter(c) || IsDigit(c) || c == '_'
  }

  /** `str.isspace()` on ASCII: space, tab, line feed, vertical tab, form feed,
      carriage return and the four information separators 0x1c..0x1f. */
  predicate IsSpace(c: char) {
    c == ' ' || 9 <= c as int <= 13 || 28 <= c as int <= 31
  }

  function LowerChar(c: char): (r: char)
    ensures IsAsciiLetter(c) ==> 'a' <= r <= 'z'
    ensures !('A' <= c <= 'Z') ==> r == c
  {
    if 'A' <= c <= 'Z' then (c as int + 32) as char else c
  }

  /** `str.lower()` on ASCII: the result has no capital letter. */
  function LowerStr(s: string): (r: string)
    ensures |r| == |s|
    ensures forall i :: 0 <= i < |r| ==> !('A' <= r[i] <= 'Z')
  {
    seq(|s|, i requires 0 <= i < |s| => LowerChar(s[i]))
  }

  /** Lower-casing twice is lower-casing once. */
  lemma LowerIdempotent(s: string)
    ensures LowerStr(LowerStr(s)) == LowerStr(s)
  {
  }

  lemma LowerConcat(a: string, b: string)
    ensures LowerStr(a + b) == LowerStr(a) + LowerStr(b)
  {
  }

  /** Lower-casing leaves a string unchanged exactly when it has no capital letter. */
  lemma LowerNoUpper(e: string)
    ensures LowerStr(e) == e <==> forall i :: 0 <= i < |e| ==> !('A' <= e[i] <= 'Z')
  {
    if forall i :: 0 <= i < |e| ==> !('A' <= e[i] <= 'Z') {
      assert LowerStr(e) == e;
    }
  }

  lemma SeqConsEq(c: char, a: string, b: string)
    ensures [c] + a == [c] + b <==> a == b
  {
    if [c] + a == [c] + b {
      assert a == ([c] + a)[1..];
    }
  }

  // ---------------------------------------------------------------------------
  // Suffixes and substrings

  /** `s.endswith(suf)`. */
  predicate EndsWith(s: string, suf: string) {
    |suf| <= |s| && s[|s| - |suf|..] == suf
  }

  /** `s.lower().endswith(suf)` for a lower-case `suf`; also the case-insensitive
      literal tail of a regular expression compiled with `re.I`. */
  predicate EndsWithCI(s: string, suf: string) {
    |suf| <= |s| && LowerStr(s[|s| - |suf|..]) == suf
  }

  /** The `in` operator on strings. */
  predicate Contains(s: string, sub: string) {
    exists i | 0 <= i <= |s| :: OccursAt(s, sub, i)
  }

  predicate OccursAt(s: string, sub: string, i: int) {
    0 <= i && i + |sub| <= |s| && s[i..i + |sub|] == sub
  }

  lemma EndsWithCIAt(s: string, suf: string, i: nat)
    requires EndsWithCI(s, suf) && i < |suf|
    ensures LowerChar(s[|s| - |suf| + i]) == suf[i]
  {
    assert LowerStr(s[|s| - |suf|..])[i] == suf[i];
  }

  lemma NotEndsWithCIAt(s: string, suf: string, i: nat)
    requires i < |suf| && (|suf| <= |s| ==> LowerChar(s[|s| - |suf| + i]) != suf[i])
    ensures !EndsWithCI(s, suf)
  {
    if EndsWithCI(s, suf) {
      EndsWithCIAt(s, suf, i);
    }
  }

  lemma EndsWithCIShorter(s: string, suf: string, k: nat)
    requires EndsWithCI(s, suf) && k <= |suf|
    ensures EndsWithCI(s, suf[k..])
  {
    var x := s[|s| - |suf|..];
    assert s[|s| - |suf[k..]|..] == x[k..];
    assert LowerStr(x[k..]) == LowerStr(x)[k..];
  }

  /** Whether `stem + ext` ends with a suffix no longer than `ext` depends on `ext` alone. */
  lemma EndsWithCIConcat(stem: string, ext: string, suf: string)
    requires |suf| <= |ext|
    ensures EndsWithCI(stem + ext, suf) <==> LowerStr(ext[|ext| - |suf|..]) == suf
  {
    var t := stem + ext;
    assert t[|t| - |suf|..] == ext[|ext| - |suf|..];
  }

  lemma EndsWithCISelf(pre: string, e: string)
    requires LowerStr(e) == e
    ensures EndsWithCI(pre + e, e)
  {
    EndsWithCIConcat(pre, e, e);
    assert e[|e| - |e|..] == e;
  }

  lemma EndsWithConcat(stem: string, ext: string, suf: string)
    requires |suf| <= |ext|
    ensures EndsWith(stem + ext, suf) <==> ext[|ext| - |suf|..] == suf
  {
    var t := stem + ext;
    assert t[|t| - |suf|..] == ext[|ext| - |suf|..];
  }

  // ---------------------------------------------------------------------------
  // Path components

  /** `os.path.basename`: everything after the last `/`. */
  function FileName(p: string): (name: string)
    ensures EndsWith(p, name)
    ensures '/' !in name
    ensures |name| < |p| ==> p[|p| - |name| - 1] == '/'
  {
    if p == [] || p[|p| - 1] == '/' then []
    else
      var init := FileName(p[..|p| - 1]);
      assert p[..|p| - 1][|p| - 1 - |init|..] == init;
      init + [p[|p| - 1]]
  }

  /** `s.split('.')[0]`: everything before the first `.`. */
  function FirstDotPart(s: string): (r: string)
    ensures |r| <= |s| && s[..|r|] == r
    ensures '.' !in r
    ensures |r| < |s| ==> s[|r|] == '.'
  {
    if s == [] || s[0] == '.' then [] else [s[0]] + FirstDotPart(s[1..])
  }

  // ---------------------------------------------------------------------------
  // Splitting and joining

  /** The length of the leading run of non-space characters. */
  function WordLen(s: string): (n: nat)
    ensures n <= |s|
    ensures forall i :: 0 <= i < n ==> !IsSpace(s[i])
    ensures n < |s| ==> IsSpace(s[n])
  {
    if s == [] || IsSpace(s[0]) then 0 else 1 + WordLen(s[1..])
  }

  /** `s.split()` with no separator: the maximal runs of non-space characters. */
  function Words(s: string): (ws: seq<string>)
    ensures forall k :: 0 <= k < |ws| ==> ws[k] != []
    ensures forall k, i :: 0 <= k < |ws| && 0 <= i < |ws[k]| ==> !IsSpace(ws[k][i])
    decreases |s|
  {
    if s == [] then []
    else if IsSpace(s[0]) then Words(s[1..])
    else
      var n := WordLen(s);
      [s[..n]] + Words(s[n..])
  }

  /** Cutting a string where white space meets the cut never cuts a word. */
  predicate CutAtSpace(a: string, b: string) {
    a == [] || b == [] || IsSpace(a[|a| - 1]) || IsSpace(b[0])
  }

  lemma {:induction false} WordLenConcat(a: string, b: string)
    requires a != [] && CutAtSpace(a, b)
    ensures WordLen(a + b) == WordLen(a)
    decreases |a|
  {
    assert (a + b)[0] == a[0];
    if !IsSpace(a[0]) {
      assert (a + b)[1..] == a[1..] + b;
      if a[1..] == [] {
        assert a[1..] + b == b;
      } else {
        WordLenConcat(a[1..], b);
      }
    }
  }

  /** The words of two pieces cut apart at white space are the words of each piece:
      `split()` cuts only at white space, so every word is a maximal non-space run. */
  lemma {:induction false} WordsConcat(a: string, b: string)
    requires CutAtSpace(a, b)
    ensures Words(a + b) == Words(a) + Words(b)
    decreases |a|
  {
    if a == [] {
      assert a + b == b;
    } else if IsSpace(a[0]) {
      assert (a + b)[0] == a[0];
      assert (a + b)[1..] == a[1..] + b;
      WordsConcat(a[1..], b);
    } else {
      var n := WordLen(a);
      assert (a + b)[0] == a[0];
      WordLenConcat(a, b);
      assert (a + b)[..n] == a[..n];
      assert (a + b)[n..] == a[n..] + b;
      WordsConcat(a[n..], b);
    }
  }

  /** A non-empty run of non-space characters is one word. */
  lemma {:induction false} WordsOfWord(w: string)
    requires w != [] && forall i :: 0 <= i < |w| ==> !IsSpace(w[i])
    ensures Words(w) == [w]
  {
    var n := WordLen(w);
    assert n == |w|;
    assert w[..n] == w && w[n..] == [];
    assert Words(w) == [w[..n]] + Words(w[n..]);
  }

  /** White space alone has no words. */
  lemma {:induction false} WordsOfSpace(sp: string)
    requires forall i :: 0 <= i < |sp| ==> IsSpace(sp[i])
    ensures Words(sp) == []
    decreases |sp|
  {
    if sp != [] {
      WordsOfSpace(sp[1..]);
    }
  }

  function Concat(ws: seq<string>): string {
    if ws == [] then [] else ws[0] + Concat(ws[1..])
  }

  /** The characters of `s` that are not white space, in order. */
  function NonSpace(s: string): string {
    if s == [] then []
    else (if IsSpace(s[0]) then [] else [s[0]]) + NonSpace(s[1..])
  }

  lemma NonSpaceAppend(a: string, b: string)
    ensures NonSpace(a + b) == NonSpace(a) + NonSpace(b)
  {
    if a != [] {
      assert (a + b)[0] == a[0];
      assert (a + b)[1..] == a[1..] + b;
      NonSpaceAppend(a[1..], b);
      var head := if IsSpace(a[0]) then [] else [a[0]];
      assert NonSpace(a + b) == head + (NonSpace(a[1..]) + NonSpace(b));
    } else {
      assert a + b == b;
    }
  }

  /** Splitting on white space loses exactly the white space: the words, put back
      together, are the non-space characters of the input. */
  lemma {:induction false} WordsKeepNonSpace(s: string)
    ensures Concat(Words(s)) == NonSpace(s)
    decreases |s|
  {
    if s == [] {
    } else if IsSpace(s[0]) {
      WordsKeepNonSpace(s[1..]);
    } else {
      var n := WordLen(s);
      WordsKeepNonSpace(s[n..]);
      assert s == s[..n] + s[n..];
      NonSpaceAppend(s[..n], s[n..]);
      NonSpaceOfWord(s[..n]);
      var ws := Words(s);
      assert ws == [s[..n]] + Words(s[n..]);
      assert ws[1..] == Words(s[n..]);
    }
  }

  lemma {:induction false} NonSpaceOfWord(w: string)
    requires forall i :: 0 <= i < |w| ==> !IsSpace(w[i])
    ensures NonSpace(w) == w
  {
    if w != [] {
      NonSpaceOfWord(w[1..]);
    }
  }

  /** `s.split(sep)` for a one-character separator: never empty, and two adjacent
      separators give an empty piece between them. */
  function SplitOn(s: string, sep: char): (pieces: seq<string>)
    ensures |pieces| >= 1
    ensures forall k :: 0 <= k < |pieces| ==> sep !in pieces[k]
  {
    if s == [] then [[]]
    else
      var rest := SplitOn(s[1..], sep);
      if s[0] == sep then [[]] + rest
      else [[s[0]] + rest[0]] + rest[1..]
  }

  /** `sep.join(pieces)`. */
  function Join(pieces: seq<string>, sep: char): string
    requires |pieces| >= 1
  {
    if |pieces| == 1 then pieces[0] else pieces[0] + [sep] + Join(pieces[1..], sep)
  }

  /** Splitting on a separator and joining with it again gives back the input. */
  lemma {:induction false} JoinSplitOn(s: string, sep: char)
    ensures Join(SplitOn(s, sep), sep) == s
  {
    if s != [] {
      var rest := SplitOn(s[1..], sep);
      JoinSplitOn(s[1..], sep);
      if s[0] == sep {
        assert SplitOn(s, sep)[1..] == rest;
      } else {
        var pieces := SplitOn(s, sep);
        if |rest| == 1 {
          assert pieces == [[s[0]] + rest[0]];
        } else {
          assert pieces[1..] == rest[1..];
          assert Join(rest, sep) == rest[0] + [sep] + Join(rest[1..], sep);
        }
      }
    }
  }

  // ---------------------------------------------------------------------------
  // Replacing characters and printing numbers

  /** `s.replace(a, b)` for one-character strings `a` and `b`. */
  function Replace(s: string, a: char, b: char): (r: string)
    ensures |r| == |s|
    ensures a != b ==> a !in r
    ensures a !in s ==> r == s
    ensures forall i :: 0 <= i < |s| && s[i] != a ==> r[i] == s[i]
  {
    seq(|s|, i requires 0 <= i < |s| => if s[i] == a then b else s[i])
  }

  function DigitChar(d: nat): (c: char)
    requires d < 10
    ensures IsDigit(c)
  {
    ('0' as int + d) as char
  }

  /** The decimal digits of `n`, most significant first, without leading zeros. */
  function NatToString(n: nat): (s: string)
    ensures s != []
    ensures forall i :: 0 <= i < |s| ==> IsDigit(s[i])
    ensures n >= 10 ==> s[0] != '0'
  {
    if n < 10 then [DigitChar(n)] else NatToString(n / 10) + [DigitChar(n % 10)]
  }

  /** `str(i)` for a Python `int`. */
  function IntToString(i: int): (s: string)
    ensures s != []
    ensures forall k :: 0 <= k < |s| ==> IsDigit(s[k]) || s[k] == '-'
  {
    if i < 0 then "-" + NatToString(-i) else NatToString(i)
  }

  /** The value of a string of decimal digits (`int(s)` on such a string). */
  function DigitsValue(s: string): int {
    if s == [] then 0 else DigitsValue(s[..|s| - 1]) * 10 + (s[|s| - 1] as int - '0' as int)
  }

  /** `int(s)` on an optionally signed string of decimal digits. */
  function ParseInt(s: string): int {
    if s != [] && s[0] == '-' then -DigitsValue(s[1..]) else DigitsValue(s)
  }

  lemma {:induction false} NatToStringValue(n: nat)
    ensures DigitsValue(NatToString(n)) == n
  {
    var s := NatToString(n);
    if n < 10 {
      assert s[..|s| - 1] == [];
    } else {
      assert s[..|s| - 1] == NatToString(n / 10);
      NatToStringValue(n / 10);
    }
  }

  /** `int(str(i)) == i`: the printed form of an integer reads back as that integer. */
  lemma IntToStringRoundTrip(i: int)
    ensures ParseInt(IntToString(i)) == i
  {
    if i < 0 {
      assert IntToString(i)[1..] == NatToString(-i);
      NatToStringValue(-i);
    } else {
      NatToStringValue(i);
    }
  }

  /** Distinct integers print differently. */
  lemma IntToStringInjective(i: int, j: int)
    ensures IntToString(i) == IntToString(j) ==> i == j
  {
    IntToStringRoundTrip(i);
    IntToStringRoundTrip(j);
  }
}
