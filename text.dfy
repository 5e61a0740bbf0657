/**
 * Character and string operations the source borrows from Python's `str`
 * type: ASCII case mapping, whitespace stripping, substring search,
 * decimal digits, `join`, and the code-point order `<` on strings.
 */
module Text {

  // ---------------------------------------------------------------------
  // Characters

  /** `str.isspace()` restricted to ASCII: space, \t \n \v \f \r and \x1c-\x1f. */
  predicate IsSpace(c: char) {
    c == ' ' || (9 <= c as int <= 13) || (28 <= c as int <= 31)
  }

  predicate IsDigit(c: char) {
    '0' <= c <= '9'
  }

  predicate IsUpperLetter(c: char) {
    'A' <= c <= 'Z'
  }

  predicate IsLowerLetter(c: char) {
    'a' <= c <= 'z'
  }

  function LowerChar(c: char): (r: char)
    ensures !IsUpperLetter(r)
    ensures IsSpace(r) <==> IsSpace(c)
    ensures IsDigit(r) <==> IsDigit(c)
  {
    if IsUpperLetter(c) then (c as int + 32) as char else c
  }

  function UpperChar(c: char): (r: char)
    ensures !IsLowerLetter(r)
    ensures IsDigit(r) <==> IsDigit(c)
  {
    if IsLowerLetter(c) then (c as int - 32) as char else c
  }

  // ---------------------------------------------------------------------
  // Case mapping

  /** `str.lower()` on ASCII letters. */
  function Lower(s: string): (r: string)
    ensures |r| == |s|
    ensures forall i :: 0 <= i < |s| ==> r[i] == LowerChar(s[i])
  {
    seq(|s|, i requires 0 <= i < |s| => LowerChar(s[i]))
  }

  /** `str.upper()` on ASCII letters. */
  function Upper(s: string): (r: string)
    ensures |r| == |s|
    ensures forall i :: 0 <= i < |s| ==> r[i] == UpperChar(s[i])
  {
    seq(|s|, i requires 0 <= i < |s| => UpperChar(s[i]))
  }

  lemma UpperConcat(a: string, b: string)
    ensures Upper(a + b) == Upper(a) + Upper(b)
  {
  }

  /** Upper-casing leaves a string without lower-case letters unchanged. */
  lemma UpperFixes(s: string)
    requires forall i :: 0 <= i < |s| ==> !IsLowerLetter(s[i])
    ensures Upper(s) == s
  {
  }

  /** Lower-casing leaves a string without upper-case letters unchanged. */
  lemma LowerFixes(s: string)
    requires forall i :: 0 <= i < |s| ==> !IsUpperLetter(s[i])
    ensures Lower(s) == s
  {
  }

  predicate IsLowered(s: string) {
    forall i :: 0 <= i < |s| ==> !IsUpperLetter(s[i])
  }

  // ---------------------------------------------------------------------
  // Stripping

  /** The number of whitespace characters `s` starts with. */
  function LeadingSpaces(s: string): (k: nat)
    ensures k <= |s|
    decreases |s|
  {
    if s != [] && IsSpace(s[0]) then 1 + LeadingSpaces(s[1..]) else 0
  }

  /** The number of whitespace characters `s` ends with. */
  function TrailingSpaces(s: string): (k: nat)
    ensures k <= |s|
    decreases |s|
  {
    if s != [] && IsSpace(s[|s| - 1]) then 1 + TrailingSpaces(s[..|s| - 1]) else 0
  }

  /** `str.lstrip()`: drops leading whitespace. */
  function StripLeft(s: string): string {
    s[LeadingSpaces(s)..]
  }

  /** `str.rstrip()`: drops trailing whitespace. */
  function StripRight(s: string): string {
    s[..|s| - TrailingSpaces(s)]
  }

  /** `str.strip()`: the text between the leading and the trailing whitespace. */
  function Strip(s: string): string {
    StripRight(StripLeft(s))
  }

  /** What `lstrip` removes is whitespace, and what it keeps does not start with any. */
  lemma {:induction false} StripLeftSpec(s: string)
    ensures forall i :: 0 <= i < LeadingSpaces(s) ==> IsSpace(s[i])
    ensures StripLeft(s) == [] || !IsSpace(StripLeft(s)[0])
    decreases |s|
  {
    if s != [] && IsSpace(s[0]) {
      StripLeftSpec(s[1..]);
      assert StripLeft(s) == StripLeft(s[1..]);
    }
  }

  /** What `rstrip` removes is whitespace, and what it keeps does not end with any. */
  lemma {:induction false} StripRightSpec(s: string)
    ensures forall i :: |s| - TrailingSpaces(s) <= i < |s| ==> IsSpace(s[i])
    ensures StripRight(s) == [] || !IsSpace(StripRight(s)[|StripRight(s)| - 1])
    decreases |s|
  {
    if s != [] && IsSpace(s[|s| - 1]) {
      StripRightSpec(s[..|s| - 1]);
      assert StripRight(s) == StripRight(s[..|s| - 1]);
    }
  }

  /** The stripped text neither starts nor ends with whitespace. */
  lemma StripSpec(s: string)
    ensures IsStripped(Strip(s))
  {
    var l := StripLeft(s);
    StripLeftSpec(s);
    StripRightSpec(l);
    var m := StripRight(l);
    if m != [] {
      assert m[0] == l[0];
    }
  }

  predicate IsStripped(s: string) {
    s == [] || (!IsSpace(s[0]) && !IsSpace(s[|s| - 1]))
  }

  /** A string without surrounding whitespace is its own strip. */
  lemma StripOfStripped(s: string)
    requires IsStripped(s)
    ensures Strip(s) == s
  {
    assert LeadingSpaces(s) == 0;
    assert StripLeft(s) == s;
    assert TrailingSpaces(s) == 0;
  }

  predicate AllSpaces(s: string) {
    forall i :: 0 <= i < |s| ==> IsSpace(s[i])
  }

  /** A whitespace run followed by a non-space is exactly what `lstrip` drops. */
  lemma {:induction false} LeadingSpacesOfRun(w: string, x: string)
    requires AllSpaces(w)
    requires x == [] || !IsSpace(x[0])
    ensures LeadingSpaces(w + x) == |w|
    ensures StripLeft(w + x) == x
    decreases |w|
  {
    if w == [] {
      assert w + x == x;
    } else {
      assert (w + x)[1..] == w[1..] + x;
      LeadingSpacesOfRun(w[1..], x);
    }
    assert (w + x)[|w|..] == x;
  }

  /**
   * `s.strip().lower()`: the normal form both sides of every comparison in
   * the filter are brought to.
   */
  function Normalize(s: string): string {
    Lower(Strip(s))
  }

  /** A normal form is lower-case and has no surrounding whitespace. */
  lemma NormalizeIsNormal(s: string)
    ensures IsLowered(Normalize(s)) && IsStripped(Normalize(s))
  {
    StripSpec(s);
    var t := Strip(s);
    var n := Lower(t);
    if n != [] {
      assert n[0] == LowerChar(t[0]) && n[|n| - 1] == LowerChar(t[|t| - 1]);
    }
  }

  /** Normalising twice is normalising once. */
  lemma {:induction false} NormalizeIdempotent(s: string)
    ensures Normalize(Normalize(s)) == Normalize(s)
  {
    var t := Normalize(s);
    NormalizeIsNormal(s);
    StripOfStripped(t);
    LowerFixes(t);
  }

  // ---------------------------------------------------------------------
  // Substrings

  predicate StartsWith(s: string, p: string) {
    |p| <= |s| && s[..|p|] == p
  }

  /** Python's `p in s` for strings. */
  predicate Contains(s: string, p: string)
    decreases |s|
  {
    StartsWith(s, p) || (s != [] && Contains(s[1..], p))
  }

  /** Every string contains itself wherever it is placed. */
  lemma {:induction false} ContainsInfix(a: string, p: string, b: string)
    ensures Contains(a + p + b, p)
    decreases |a|
  {
    if a == [] {
      assert (a + p + b)[..|p|] == p;
    } else {
      assert (a + p + b)[1..] == a[1..] + p + b;
      ContainsInfix(a[1..], p, b);
    }
  }

  /** A string containing `p` contains every piece of `p`. */
  lemma {:induction false} ContainsPiece(s: string, p: string, q: string)
    requires Contains(s, p + q)
    ensures Contains(s, p)
    decreases |s|
  {
    if StartsWith(s, p + q) {
      assert s[..|p|] == (p + q)[..|p|] == p;
    } else {
      ContainsPiece(s[1..], p, q);
    }
  }

  /** A string containing `p + q + r` contains `q`. */
  lemma {:induction false} ContainsMiddle(s: string, p: string, q: string, r: string)
    requires Contains(s, p + q + r)
    ensures Contains(s, q)
    decreases |s|
  {
    if StartsWith(s, p + q + r) {
      assert s[|p|..][..|q|] == (p + q + r)[|p|..|p| + |q|] == q;
      ContainsInfix(s[..|p|], q, s[|p| + |q|..]);
      assert s[..|p|] + q + s[|p| + |q|..] == s;
    } else {
      ContainsMiddle(s[1..], p, q, r);
      assert s == [s[0]] + s[1..];
      ContainsAfterOne(s[0], s[1..], q);
    }
  }

  /** Prepending a character keeps every substring. */
  lemma ContainsAfterOne(c: char, s: string, q: string)
    requires Contains(s, q)
    ensures Contains([c] + s, q)
  {
    assert ([c] + s)[1..] == s;
  }

  /** A string in which the character `c` does not occur does not contain `[c]`. */
  lemma {:induction false} NotContainsChar(s: string, c: char)
    requires forall i :: 0 <= i < |s| ==> s[i] != c
    ensures !Contains(s, [c])
    decreases |s|
  {
    if s != [] {
      assert s[..1][0] == s[0];
      NotContainsChar(s[1..], c);
    }
  }

  /** A string in which `c` does not occur contains nothing that mentions `c`. */
  lemma Lacks(s: string, p: string, c: char, r: string)
    requires forall i :: 0 <= i < |s| ==> s[i] != c
    ensures !Contains(s, p + [c] + r)
  {
    NotContainsChar(s, c);
    if Contains(s, p + [c] + r) {
      ContainsMiddle(s, p, [c], r);
    }
  }

  /** A string in which the k-th character of `p` never occurs does not contain `p`. */
  lemma LacksAt(s: string, p: string, k: nat)
    requires k < |p|
    requires forall i :: 0 <= i < |s| ==> s[i] != p[k]
    ensures !Contains(s, p)
  {
    assert p == p[..k] + [p[k]] + p[k + 1..];
    Lacks(s, p[..k], p[k], p[k + 1..]);
  }

  /** Upper-casing tells apart any two characters that are not upper-case letters. */
  lemma UpperCharInjective(c: char, d: char)
    requires !IsUpperLetter(c) && !IsUpperLetter(d)
    requires UpperChar(c) == UpperChar(d)
    ensures c == d
  {
  }

  lemma StartsWithCaseless(s: string, p: string)
    requires IsLowered(s) && IsLowered(p)
    ensures StartsWith(Upper(s), Upper(p)) <==> StartsWith(s, p)
  {
    if |p| <= |s| {
      if Upper(s)[..|p|] == Upper(p) {
        forall i | 0 <= i < |p|
          ensures s[i] == p[i]
        {
          assert Upper(s)[..|p|][i] == UpperChar(s[i]);
          UpperCharInjective(s[i], p[i]);
        }
        assert s[..|p|] == p;
      }
    }
  }

  /**
   * On lower-case text a case-insensitive search (both sides upper-cased,
   * as pandas does it) finds exactly what a plain search finds.
   */
  lemma {:induction false} ContainsCaseless(s: string, p: string)
    requires IsLowered(s) && IsLowered(p)
    ensures Contains(Upper(s), Upper(p)) <==> Contains(s, p)
    decreases |s|
  {
    StartsWithCaseless(s, p);
    if s != [] {
      assert Upper(s)[1..] == Upper(s[1..]);
      ContainsCaseless(s[1..], p);
    }
  }

  /** Every string contains the empty string. */
  lemma ContainsEmpty(s: string)
    ensures Contains(s, [])
  {
  }

  /** A non-empty search text that neither starts nor ends with whitespace. */
  predicate IsPhrase(p: string) {
    p != [] && IsStripped(p)
  }

  /** Leading whitespace adds no occurrence of a phrase. */
  lemma {:induction false} ContainsPaddedLeft(w: string, m: string, p: string)
    requires AllSpaces(w) && IsPhrase(p)
    ensures Contains(w + m, p) <==> Contains(m, p)
    decreases |w|
  {
    if w == [] {
      assert w + m == m;
    } else {
      var s := w + m;
      assert |p| <= |s| ==> s[..|p|][0] == w[0];
      assert !StartsWith(s, p);
      assert s[1..] == w[1..] + m;
      ContainsPaddedLeft(w[1..], m, p);
    }
  }

  /** A last character that cannot end `p` is no part of any occurrence of `p`. */
  lemma {:induction false} ContainsDropLast(s: string, p: string)
    requires s != [] && p != [] && s[|s| - 1] != p[|p| - 1]
    ensures Contains(s[..|s| - 1], p) <==> Contains(s, p)
    decreases |s|
  {
    var t := s[..|s| - 1];
    assert StartsWith(t, p) <==> StartsWith(s, p) by {
      if |p| <= |t| {
        assert t[..|p|] == s[..|p|];
      } else if |p| == |s| {
        assert s[..|p|] == s;
      }
    }
    if |s| > 1 {
      assert t[1..] == s[1..][..|s[1..]| - 1];
      ContainsDropLast(s[1..], p);
    }
  }

  /** Trailing whitespace adds no occurrence of a phrase. */
  lemma {:induction false} ContainsPaddedRight(m: string, w: string, p: string)
    requires AllSpaces(w) && IsPhrase(p)
    ensures Contains(m + w, p) <==> Contains(m, p)
    decreases |w|
  {
    if w == [] {
      assert m + w == m;
    } else {
      var s := m + w;
      assert s[..|s| - 1] == m + w[..|w| - 1];
      ContainsDropLast(s, p);
      ContainsPaddedRight(m, w[..|w| - 1], p);
    }
  }

  /** Whitespace on either side of a text adds no occurrence of a phrase. */
  lemma ContainsPadded(a: string, m: string, b: string, p: string)
    requires AllSpaces(a) && AllSpaces(b) && IsPhrase(p)
    ensures Contains(a + m + b, p) <==> Contains(m, p)
  {
    assert a + m + b == a + (m + b);
    ContainsPaddedLeft(a, m + b, p);
    ContainsPaddedRight(m, b, p);
  }

  /** `p in s.strip()` is `p in s` for a phrase `p`. */
  lemma ContainsStripped(s: string, p: string)
    requires IsPhrase(p)
    ensures Contains(Strip(s), p) <==> Contains(s, p)
  {
    StripLeftSpec(s);
    var a := s[..LeadingSpaces(s)];
    var l := StripLeft(s);
    assert s == a + l;
    StripRightSpec(l);
    var b := l[|l| - TrailingSpaces(l)..];
    assert l == Strip(s) + b;
    assert AllSpaces(a) by {
      forall i | 0 <= i < |a| ensures IsSpace(a[i]) {
        assert a[i] == s[i];
      }
    }
    assert AllSpaces(b) by {
      forall i | 0 <= i < |b| ensures IsSpace(b[i]) {
        assert b[i] == l[|l| - TrailingSpaces(l) + i];
      }
    }
    ContainsPadded(a, Strip(s), b, p);
    assert a + Strip(s) + b == s;
  }

  // ---------------------------------------------------------------------
  // Decimal numerals

  predicate AllDigits(s: string) {
    forall i :: 0 <= i < |s| ==> IsDigit(s[i])
  }

  function DigitValue(c: char): (r: nat)
    requires IsDigit(c)
    ensures r < 10
  {
    c as int - '0' as int
  }

  function DigitChar(n: nat): (c: char)
    requires n < 10
    ensures IsDigit(c) && DigitValue(c) == n
  {
    ('0' as int + n) as char
  }

  /** `int(d)` for a run of decimal digits (leading zeros allowed). */
  function DigitsValue(d: string): nat
    requires AllDigits(d)
    decreases |d|
  {
    if d == [] then 0 else DigitsValue(d[..|d| - 1]) * 10 + DigitValue(d[|d| - 1])
  }

  /** `str(n)` for a natural number. */
  function NatToString(n: nat): (r: string)
    ensures r != [] && AllDigits(r)
    decreases n
  {
    if n < 10 then [DigitChar(n)] else NatToString(n / 10) + [DigitChar(n % 10)]
  }

  /** Reading back the decimal rendering of `n` gives `n`. */
  lemma {:induction false} NatToStringRoundTrip(n: nat)
    ensures DigitsValue(NatToString(n)) == n
    decreases n
  {
    if n >= 10 {
      NatToStringRoundTrip(n / 10);
      var s := NatToString(n);
      assert s[..|s| - 1] == NatToString(n / 10);
    }
  }

  /** The longest prefix of `s` made of digits: what greedy `\d+` consumes. */
  function DigitPrefix(s: string): (d: string)
    ensures |d| <= |s| && d == s[..|d|] && AllDigits(d)
    ensures |d| == |s| || !IsDigit(s[|d|])
    decreases |s|
  {
    if s != [] && IsDigit(s[0]) then [s[0]] + DigitPrefix(s[1..]) else []
  }

  /** A digit run followed by a non-digit is exactly what `\d+` consumes. */
  lemma {:induction false} DigitPrefixOfRun(d: string, rest: string)
    requires AllDigits(d)
    requires rest == [] || !IsDigit(rest[0])
    ensures DigitPrefix(d + rest) == d
    decreases |d|
  {
    if d != [] {
      assert (d + rest)[1..] == d[1..] + rest;
      DigitPrefixOfRun(d[1..], rest);
    }
  }

  // ---------------------------------------------------------------------
  // Joining

  /** `sep.join(xs)`. */
  function Join(xs: seq<string>, sep: string): string
    decreases |xs|
  {
    if |xs| == 0 then ""
    else if |xs| == 1 then xs[0]
    else xs[0] + sep + Join(xs[1..], sep)
  }

  function TotalLength(xs: seq<string>): nat
    decreases |xs|
  {
    if xs == [] then 0 else |xs[0]| + TotalLength(xs[1..])
  }

  /**
   * The joined text is the pieces plus exactly one separator between each
   * neighbouring pair: |xs| - 1 separators in all.
   */
  lemma {:induction false} JoinLength(xs: seq<string>, sep: string)
    requires xs != []
    ensures |Join(xs, sep)| == TotalLength(xs) + (|xs| - 1) * |sep|
    decreases |xs|
  {
    if |xs| > 1 {
      JoinLength(xs[1..], sep);
    }
  }

  /** Where the i-th piece starts in `sep.join(xs)`: after the pieces and separators before it. */
  function PieceOffset(xs: seq<string>, sep: string, i: nat): nat
    requires i <= |xs|
  {
    TotalLength(xs[..i]) + i * |sep|
  }

  /**
   * The contents of the join: the i-th piece sits at its offset, and a
   * separator follows every piece but the last.
   */
  lemma {:induction false} JoinAt(xs: seq<string>, sep: string, i: nat)
    requires i < |xs|
    ensures var o := PieceOffset(xs, sep, i); var e := o + |xs[i]|;
            e <= |Join(xs, sep)| && Join(xs, sep)[o..e] == xs[i]
            && (i + 1 < |xs| ==> e + |sep| <= |Join(xs, sep)| && Join(xs, sep)[e..e + |sep|] == sep)
    decreases i
  {
    if |xs| > 1 {
      var head := xs[0] + sep;
      var rest := Join(xs[1..], sep);
      assert Join(xs, sep) == head + rest;
      if i > 0 {
        JoinAt(xs[1..], sep, i - 1);
        PieceOffsetStep(xs, sep, i);
        var o := PieceOffset(xs[1..], sep, i - 1);
        var e := o + |xs[i]|;
        SliceAfter(head, rest, o, e);
        if i + 1 < |xs| {
          SliceAfter(head, rest, e, e + |sep|);
        }
      }
    }
  }

  /** The offset of a later piece counts the first piece and its separator. */
  lemma PieceOffsetStep(xs: seq<string>, sep: string, i: nat)
    requires 0 < i <= |xs|
    ensures PieceOffset(xs, sep, i) == |xs[0]| + |sep| + PieceOffset(xs[1..], sep, i - 1)
  {
    assert xs[..i] == [xs[0]] + xs[1..][..i - 1];
    assert TotalLength(xs[..i]) == |xs[0]| + TotalLength(xs[1..][..i - 1]);
    assert i * |sep| == |sep| + (i - 1) * |sep|;
  }

  /** A slice of the second part of a concatenation, shifted past the first. */
  lemma SliceAfter(a: string, b: string, o: nat, e: nat)
    requires o <= e <= |b|
    ensures (a + b)[|a| + o..|a| + e] == b[o..e]
  {
  }

  /** Joining one more piece appends a separator and that piece. */
  lemma {:induction false} JoinSnoc(xs: seq<string>, x: string, sep: string)
    requires xs != []
    ensures Join(xs + [x], sep) == Join(xs, sep) + sep + x
    decreases |xs|
  {
    if |xs| == 1 {
      assert (xs + [x])[1..] == [x];
    } else {
      assert (xs + [x])[1..] == xs[1..] + [x];
      JoinSnoc(xs[1..], x, sep);
    }
  }

  // ---------------------------------------------------------------------
  // Python's `<` on strings: code-point lexicographic order

  predicate Below(a: string, b: string)
    decreases |a|
  {
    if a == [] then b != []
    else b != [] && (a[0] < b[0] || (a[0] == b[0] && Below(a[1..], b[1..])))
  }

  lemma {:induction false} BelowIrreflexive(a: string)
    ensures !Below(a, a)
    decreases |a|
  {
    if a != [] {
      BelowIrreflexive(a[1..]);
    }
  }

  lemma {:induction false} BelowTransitive(a: string, b: string, c: string)
    requires Below(a, b) && Below(b, c)
    ensures Below(a, c)
    decreases |a|
  {
    if a != [] && a[0] == b[0] && b[0] == c[0] {
      BelowTransitive(a[1..], b[1..], c[1..]);
    }
  }

  lemma {:induction false} BelowTotal(a: string, b: string)
    requires a != b
    ensures Below(a, b) || Below(b, a)
    decreases |a|
  {
    if a != [] && b != [] && a[0] == b[0] {
      assert a == [a[0]] + a[1..] && b == [b[0]] + b[1..];
      BelowTotal(a[1..], b[1..]);
    }
  }
}
