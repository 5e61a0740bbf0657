/**
 * The grade normalisers of chatbot/utils/filtering_helpers.py: small total
 * functions turning a grade string, a GPA or a free-text description into
 * a comparable number or degree classification, never raising.
 */
module FilteringHelpers {
  import opened Wrappers
  import opened Values
  import opened Text

  // =====================================================================
  // `re.findall` over an alternation of literal strings

  predicate NonEmptyAlternatives(alts: seq<string>) {
    forall a :: a in alts ==> a != []
  }

  /** The first alternative `s` starts with: how `re` tries `A|B|C` at one position. */
  function FirstMatch(s: string, alts: seq<string>): (r: Option<string>)
    ensures r.Some? ==> r.value in alts && StartsWith(s, r.value)
    ensures r.None? ==> forall a :: a in alts ==> !StartsWith(s, a)
    decreases |alts|
  {
    if alts == [] then None
    else if StartsWith(s, alts[0]) then Some(alts[0])
    else FirstMatch(s, alts[1..])
  }

  /**
   * `re.findall("(A|B|...)", s)`: scanning left to right, the first
   * alternative that matches at the current position is taken and the scan
   * resumes after it; where none matches, one character is skipped.
   */
  function FindAll(s: string, alts: seq<string>): (r: seq<string>)
    requires NonEmptyAlternatives(alts)
    ensures forall t :: t in r ==> t in alts
    decreases |s|
  {
    if s == [] then []
    else match FirstMatch(s, alts)
      case Some(t) => [t] + FindAll(s[|t|..], alts)
      case None => FindAll(s[1..], alts)
  }

  /** The alternative tried k-th is taken when none before it starts `s`. */
  lemma {:induction false} FirstMatchAt(s: string, alts: seq<string>, k: nat)
    requires k < |alts| && StartsWith(s, alts[k])
    requires forall j :: 0 <= j < k ==> !StartsWith(s, alts[j])
    ensures FirstMatch(s, alts) == Some(alts[k])
    decreases k
  {
    if k > 0 {
      FirstMatchAt(s, alts[1..], k - 1);
    }
  }

  /** A token matched at the front is taken and the scan resumes after it. */
  lemma FindAllTakes(s: string, alts: seq<string>, t: string)
    requires NonEmptyAlternatives(alts) && s != []
    requires FirstMatch(s, alts) == Some(t)
    ensures FindAll(s, alts) == [t] + FindAll(s[|t|..], alts)
  {
  }

  /** `c` occurs in no alternative, so no match can contain it. */
  predicate Separates(c: char, alts: seq<string>) {
    forall a :: a in alts ==> c !in a
  }

  /** A prefix that reaches past the end of `a` contains the character after `a`. */
  lemma LongPrefixMentions(a: string, c: char, b: string, t: string)
    ensures StartsWith(a + [c] + b, t) && |t| > |a| ==> c in t
  {
    if StartsWith(a + [c] + b, t) && |t| > |a| {
      assert t[|a|] == (a + [c] + b)[|a|];
    }
  }

  lemma StartsWithAcrossSeparator(a: string, c: char, b: string, t: string)
    requires c !in t
    ensures StartsWith(a + [c] + b, t) <==> StartsWith(a, t)
  {
    var s := a + [c] + b;
    LongPrefixMentions(a, c, b, t);
    if StartsWith(s, t) {
      assert a[..|t|] == s[..|t|];
    }
    if StartsWith(a, t) {
      assert s[..|t|] == a[..|t|];
    }
  }

  lemma {:induction false} FirstMatchAcrossSeparator(a: string, c: char, b: string, alts: seq<string>)
    requires Separates(c, alts)
    ensures FirstMatch(a + [c] + b, alts) == FirstMatch(a, alts)
    decreases |alts|
  {
    if alts != [] {
      assert alts[0] in alts;
      StartsWithAcrossSeparator(a, c, b, alts[0]);
      FirstMatchAcrossSeparator(a, c, b, alts[1..]);
    }
  }

  /** No token starts at a separating character, so the scan skips it. */
  lemma {:induction false} FindAllSkipsSeparator(c: char, b: string, alts: seq<string>)
    requires NonEmptyAlternatives(alts) && Separates(c, alts)
    ensures FindAll([c] + b, alts) == FindAll(b, alts)
  {
    FirstMatchAcrossSeparator([], c, b, alts);
    assert [] + [c] + b == [c] + b;
    assert ([c] + b)[1..] == b;
  }

  /**
   * A separating character splits the scan: no token straddles it, and it
   * contributes no token of its own.
   */
  lemma {:induction false} FindAllSplit(a: string, c: char, b: string, alts: seq<string>)
    requires NonEmptyAlternatives(alts) && Separates(c, alts)
    ensures FindAll(a + [c] + b, alts) == FindAll(a, alts) + FindAll(b, alts)
    decreases |a|
  {
    var s := a + [c] + b;
    if a == [] {
      FindAllSkipsSeparator(c, b, alts);
      assert s == [c] + b;
    } else {
      FirstMatchAcrossSeparator(a, c, b, alts);
      match FirstMatch(a, alts)
      case Some(t) =>
        assert s[|t|..] == a[|t|..] + [c] + b;
        FindAllSplit(a[|t|..], c, b, alts);
      case None =>
        assert s[1..] == a[1..] + [c] + b;
        FindAllSplit(a[1..], c, b, alts);
    }
  }

  /** Separators in front of a string add no token. */
  lemma {:induction false} FindAllPrefix(lead: string, rest: string, alts: seq<string>)
    requires NonEmptyAlternatives(alts)
    requires forall i :: 0 <= i < |lead| ==> Separates(lead[i], alts)
    ensures FindAll(lead + rest, alts) == FindAll(rest, alts)
    decreases |lead|
  {
    if lead != [] {
      assert lead + rest == [lead[0]] + (lead[1..] + rest);
      FindAllSkipsSeparator(lead[0], lead[1..] + rest, alts);
      FindAllPrefix(lead[1..], rest, alts);
    } else {
      assert lead + rest == rest;
    }
  }

  /** Separators around a string add no token. */
  lemma FindAllPadded(lead: string, m: string, trail: string, alts: seq<string>)
    requires NonEmptyAlternatives(alts)
    requires forall i :: 0 <= i < |lead| ==> Separates(lead[i], alts)
    requires forall i :: 0 <= i < |trail| ==> Separates(trail[i], alts)
    ensures FindAll(lead + m + trail, alts) == FindAll(m, alts)
  {
    assert lead + m + trail == lead + (m + trail);
    FindAllPrefix(lead, m + trail, alts);
    if trail != [] {
      assert m + trail == m + [trail[0]] + trail[1..];
      FindAllSplit(m, trail[0], trail[1..], alts);
      FindAllPrefix(trail[1..], [], alts);
      assert trail[1..] + [] == trail[1..];
    } else {
      assert m + trail == m;
    }
  }

  /** Upper-cased whitespace is still whitespace, so stripping it changes no token. */
  lemma StripAddsNoToken(s: string, alts: seq<string>)
    requires NonEmptyAlternatives(alts)
    requires forall c :: IsSpace(c) ==> Separates(c, alts)
    ensures FindAll(Upper(Strip(s)), alts) == FindAll(Upper(s), alts)
  {
    var l := StripLeft(s);
    var m := StripRight(l);
    StripLeftSpec(s);
    StripRightSpec(l);
    var lead := s[..LeadingSpaces(s)];
    var trail := l[|m|..];
    assert s == lead + m + trail;
    UpperConcat(lead + m, trail);
    UpperConcat(lead, m);
    assert forall i :: 0 <= i < |lead| ==> IsSpace(lead[i]) by {
      forall i | 0 <= i < |lead| ensures IsSpace(lead[i]) {
        assert lead[i] == s[i];
      }
    }
    assert forall i :: 0 <= i < |trail| ==> IsSpace(trail[i]) by {
      forall i | 0 <= i < |trail| ensures IsSpace(trail[i]) {
        assert trail[i] == l[|m| + i];
      }
    }
    UpperOfSpaces(lead, alts);
    UpperOfSpaces(trail, alts);
    FindAllPadded(Upper(lead), Upper(m), Upper(trail), alts);
  }

  lemma UpperOfSpaces(w: string, alts: seq<string>)
    requires forall i :: 0 <= i < |w| ==> IsSpace(w[i])
    requires forall c :: IsSpace(c) ==> Separates(c, alts)
    ensures forall i :: 0 <= i < |Upper(w)| ==> Separates(Upper(w)[i], alts)
  {
    forall i | 0 <= i < |w| ensures Separates(Upper(w)[i], alts) {
      assert Upper(w)[i] == w[i];
    }
  }

  // =====================================================================
  // Summing token weights

  /** `sum(weights.get(t, 0) for t in tokens)`. */
  function SumWeights(tokens: seq<string>, weights: map<string, nat>): nat
    decreases |tokens|
  {
    if tokens == [] then 0
    else (if tokens[0] in weights then weights[tokens[0]] else 0) + SumWeights(tokens[1..], weights)
  }

  /** A sum of n weights each within [lo, hi] lies within [lo * n, hi * n]. */
  lemma {:induction false} SumWeightsBounds(tokens: seq<string>, weights: map<string, nat>, lo: nat, hi: nat)
    requires forall t :: t in tokens ==> t in weights && lo <= weights[t] <= hi
    ensures lo * |tokens| <= SumWeights(tokens, weights) <= hi * |tokens|
    decreases |tokens|
  {
    if tokens != [] {
      var n := |tokens[1..]|;
      assert tokens[0] in tokens;
      assert forall t :: t in tokens[1..] ==> t in tokens;
      SumWeightsBounds(tokens[1..], weights, lo, hi);
      MulSucc(lo, n);
      MulSucc(hi, n);
    }
  }

  lemma MulSucc(k: nat, n: nat)
    ensures k * (n + 1) == k * n + k
  {
  }

  lemma {:induction false} SumWeightsAppend(a: seq<string>, b: seq<string>, weights: map<string, nat>)
    ensures SumWeights(a + b, weights) == SumWeights(a, weights) + SumWeights(b, weights)
    decreases |a|
  {
    if a != [] {
      assert (a + b)[0] == a[0];
      assert (a + b)[1..] == a[1..] + b;
      SumWeightsAppend(a[1..], b, weights);
    } else {
      assert a + b == b;
    }
  }

  // =====================================================================
  // BTEC

  /** The alternation `D\*|D|M|P`, `D*` tried before `D`. */
  const BtecPattern: seq<string> := ["D*", "D", "M", "P"]

  const BtecWeights: map<string, nat> := map["D*" := 4, "D" := 3, "M" := 2, "P" := 1]

  /** The tokens `convert_btec_grade` sums for a string (the strip adds none). */
  function BtecTokens(s: string): (r: seq<string>)
    ensures forall t :: t in r ==> t in BtecWeights && 1 <= BtecWeights[t] <= 4
  {
    FindAll(Upper(s), BtecPattern)
  }

  /**
   * `convert_btec_grade`: None for a non-string or empty input and for a
   * string without any grade token; otherwise the summed weight of the
   * tokens, which lies between 1 and 4 per token.
   */
  function ConvertBtecGrade(grade: Cell): (r: Option<nat>)
    ensures !grade.Str? || grade.s == [] ==> r == None
    ensures grade.Str? && grade.s != [] ==>
              var tokens := BtecTokens(grade.s);
              && (r == None <==> tokens == [])
              && (r.Some? ==> r.value == SumWeights(tokens, BtecWeights))
              && (r.Some? ==> |tokens| <= r.value <= 4 * |tokens|)
  {
    if !grade.Str? || grade.s == [] then None
    else
      var tokens := FindAll(Upper(Strip(grade.s)), BtecPattern);
      StripAddsNoBtecToken(grade.s);
      if tokens == [] then None
      else
        SumWeightsBounds(tokens, BtecWeights, 1, 4);
        Some(SumWeights(tokens, BtecWeights))
  }

  /** The `strip()` in `convert_btec_grade` changes no token. */
  lemma StripAddsNoBtecToken(s: string)
    ensures FindAll(Upper(Strip(s)), BtecPattern) == BtecTokens(s)
  {
    forall c | IsSpace(c) ensures Separates(c, BtecPattern) {
      assert c != 'D' && c != '*' && c != 'M' && c != 'P';
    }
    StripAddsNoToken(s, BtecPattern);
  }

  /** Characters that upper-case to none of `D`, `*`, `M`, `P` are not part of any BTEC token. */
  predicate BtecSeparator(c: char) {
    UpperChar(c) !in "D*MP"
  }

  /**
   * Characters that are not grades add nothing: a BTEC separator splits the
   * token sequence in two, and the weight of the whole is the sum of the
   * weights of the parts.
   */
  lemma BtecSeparatorAddsNothing(a: string, c: char, b: string)
    requires BtecSeparator(c)
    ensures BtecTokens(a + [c] + b) == BtecTokens(a) + BtecTokens(b)
    ensures SumWeights(BtecTokens(a + [c] + b), BtecWeights)
            == SumWeights(BtecTokens(a), BtecWeights) + SumWeights(BtecTokens(b), BtecWeights)
  {
    assert Upper(a + [c] + b) == Upper(a) + [UpperChar(c)] + Upper(b);
    FindAllSplit(Upper(a), UpperChar(c), Upper(b), BtecPattern);
    SumWeightsAppend(BtecTokens(a), BtecTokens(b), BtecWeights);
  }

  /** One step of the BTEC scan: a grade token at the front is taken whole. */
  lemma BtecTakes(t: string, rest: string)
    requires t in BtecPattern
    requires t == "D" ==> rest == [] || rest[0] != '*'
    ensures FindAll(t + rest, BtecPattern) == [t] + FindAll(rest, BtecPattern)
  {
    var s := t + rest;
    assert s[..|t|] == t;
    if t == "D" {
      assert !StartsWith(s, "D*") by {
        if rest != [] {
          assert s[..2][1] == rest[0];
        }
      }
    }
    assert FirstMatch(s, BtecPattern) == Some(t);
    assert s[|t|..] == rest;
  }

  /** The scan of a lone grade token is that token. */
  lemma BtecSingle(t: string)
    requires t in BtecPattern
    ensures FindAll(t, BtecPattern) == [t]
  {
    BtecTakes(t, []);
    assert t + [] == t;
  }

  /** `"D*D*D*"` scores 4 + 4 + 4: each `D*` is read whole, before `D` is tried. */
  lemma BtecExampleStars()
    ensures ConvertBtecGrade(Str("D*D*D*")) == Some(12)
  {
    BtecTokensOfStars();
    assert SumWeights(["D*", "D*", "D*"], BtecWeights) == 12;
  }

  lemma BtecTokensOfStars()
    ensures BtecTokens("D*D*D*") == ["D*", "D*", "D*"]
  {
    assert "D*" + ("D*" + "D*") == "D*D*D*";
    UpperFixes("D*");
    UpperConcat("D*", "D*");
    UpperConcat("D*", "D*" + "D*");
    BtecTakes("D*", "D*" + "D*");
    BtecTakes("D*", "D*");
    BtecSingle("D*");
  }

  /** `"DDD"` scores 3 + 3 + 3. */
  lemma BtecExampleDistinctions()
    ensures ConvertBtecGrade(Str("DDD")) == Some(9)
  {
    BtecTokensOfDistinctions();
    assert SumWeights(["D", "D", "D"], BtecWeights) == 9;
  }

  lemma BtecTokensOfDistinctions()
    ensures BtecTokens("DDD") == ["D", "D", "D"]
  {
    assert "D" + ("D" + "D") == "DDD";
    UpperFixes("D");
    UpperConcat("D", "D");
    UpperConcat("D", "D" + "D");
    BtecTakes("D", "D" + "D");
    BtecTakes("D", "D");
    BtecSingle("D");
  }

  /** `"D*M P"` scores 4 + 2 + 1: the space is skipped. */
  lemma BtecExampleMixed()
    ensures ConvertBtecGrade(Str("D*M P")) == Some(7)
  {
    BtecTokensOfMixed();
    assert SumWeights(["D*", "M", "P"], BtecWeights) == 7;
  }

  lemma BtecTokensOfMixed()
    ensures BtecTokens("D*M P") == ["D*", "M", "P"]
  {
    assert Upper("D*M P") == "D*M P" by { UpperFixes("D*M P"); }
    BtecScanOfMixed();
  }

  lemma BtecScanOfMixed()
    ensures FindAll("D*M P", BtecPattern) == ["D*", "M", "P"]
  {
    BtecScanOfMSpaceP();
    BtecTakes("D*", "M P");
    assert "D*" + "M P" == "D*M P";
  }

  lemma BtecScanOfMSpaceP()
    ensures FindAll("M P", BtecPattern) == ["M", "P"]
  {
    BtecScanOfSpaceP();
    BtecTakes("M", " P");
    assert "M" + " P" == "M P";
  }

  lemma BtecScanOfSpaceP()
    ensures FindAll(" P", BtecPattern) == ["P"]
  {
    BtecSingle("P");
    FindAllSkipsSeparator(' ', "P", BtecPattern);
    assert [' '] + "P" == " P";
  }

  // =====================================================================
  // A-Level

  /** The alternation `A\*|A|B|C|D|E`, `A*` tried before `A`. */
  const ALevelPattern: seq<string> := ["A*", "A", "B", "C", "D", "E"]

  const ALevelWeights: map<string, nat> := map["A*" := 56, "A" := 48, "B" := 40, "C" := 32, "D" := 24, "E" := 16]

  function ALevelTokens(s: string): (r: seq<string>)
    ensures forall t :: t in r ==> t in ALevelWeights && 16 <= ALevelWeights[t] <= 56
  {
    FindAll(Upper(s), ALevelPattern)
  }

  /**
   * `convert_a_level_to_numeric`: None for a non-string or empty input and
   * for a string without any grade token; otherwise the summed tariff, which
   * lies between 16 and 56 per token.
   */
  function ConvertALevelToNumeric(grade: Cell): (r: Option<nat>)
    ensures !grade.Str? || grade.s == [] ==> r == None
    ensures grade.Str? && grade.s != [] ==>
              var tokens := ALevelTokens(grade.s);
              && (r == None <==> tokens == [])
              && (r.Some? ==> r.value == SumWeights(tokens, ALevelWeights))
              && (r.Some? ==> 16 * |tokens| <= r.value <= 56 * |tokens|)
  {
    if !grade.Str? || grade.s == [] then None
    else
      var matches := FindAll(Upper(grade.s), ALevelPattern);
      if matches == [] then None
      else
        SumWeightsBounds(matches, ALevelWeights, 16, 56);
        Some(SumWeights(matches, ALevelWeights))
  }

  predicate ALevelSeparator(c: char) {
    UpperChar(c) !in "A*BCDE"
  }

  /** Characters that are not grades add nothing to the A-Level tariff. */
  lemma ALevelSeparatorAddsNothing(a: string, c: char, b: string)
    requires ALevelSeparator(c)
    ensures ALevelTokens(a + [c] + b) == ALevelTokens(a) + ALevelTokens(b)
    ensures SumWeights(ALevelTokens(a + [c] + b), ALevelWeights)
            == SumWeights(ALevelTokens(a), ALevelWeights) + SumWeights(ALevelTokens(b), ALevelWeights)
  {
    assert Upper(a + [c] + b) == Upper(a) + [UpperChar(c)] + Upper(b);
    FindAllSplit(Upper(a), UpperChar(c), Upper(b), ALevelPattern);
    SumWeightsAppend(ALevelTokens(a), ALevelTokens(b), ALevelWeights);
  }

  /** One step of the A-Level scan: a grade token at the front is taken whole. */
  lemma ALevelTakes(t: string, rest: string)
    requires t in ALevelPattern
    requires t == "A" ==> rest == [] || rest[0] != '*'
    ensures FindAll(t + rest, ALevelPattern) == [t] + FindAll(rest, ALevelPattern)
  {
    var s := t + rest;
    assert s[..|t|] == t;
    ALevelFirstMatch(t, rest);
    FindAllTakes(s, ALevelPattern, t);
    assert s[|t|..] == rest;
  }

  /** The A-Level alternation takes a grade token at the front whole. */
  lemma ALevelFirstMatch(t: string, rest: string)
    requires t in ALevelPattern
    requires t == "A" ==> rest == [] || rest[0] != '*'
    ensures FirstMatch(t + rest, ALevelPattern) == Some(t)
  {
    var s := t + rest;
    var p := ALevelPattern;
    assert s[..|t|] == t && s[0] == t[0];
    assert !StartsWith(s, "A*") || t == "A*" by {
      if t == "A" && rest != [] {
        assert s[..2][1] == rest[0];
      }
    }
    if t == "A*" {
      FirstMatchAt(s, p, 0);
    } else if t == "A" {
      FirstMatchAt(s, p, 1);
    } else if t == "B" {
      FirstMatchAt(s, p, 2);
    } else if t == "C" {
      FirstMatchAt(s, p, 3);
    } else if t == "D" {
      FirstMatchAt(s, p, 4);
    } else {
      FirstMatchAt(s, p, 5);
    }
  }

  lemma ALevelSingle(t: string)
    requires t in ALevelPattern
    ensures FindAll(t, ALevelPattern) == [t]
  {
    ALevelTakes(t, []);
    assert t + [] == t;
  }

  /** `"A*A*A*"` is 56 + 56 + 56. */
  lemma ALevelExampleStars()
    ensures ConvertALevelToNumeric(Str("A*A*A*")) == Some(168)
  {
    ALevelTokensOfStars();
    assert SumWeights(["A*", "A*", "A*"], ALevelWeights) == 168;
  }

  lemma ALevelTokensOfStars()
    ensures ALevelTokens("A*A*A*") == ["A*", "A*", "A*"]
  {
    assert "A*" + ("A*" + "A*") == "A*A*A*";
    UpperFixes("A*");
    UpperConcat("A*", "A*");
    UpperConcat("A*", "A*" + "A*");
    ALevelTakes("A*", "A*" + "A*");
    ALevelTakes("A*", "A*");
    ALevelSingle("A*");
  }

  /** `"AAB"` is 48 + 48 + 40, and lower-case grades read the same. */
  lemma ALevelExampleAAB()
    ensures ConvertALevelToNumeric(Str("AAB")) == Some(136)
    ensures ConvertALevelToNumeric(Str("aab")) == Some(136)
  {
    ALevelTokensOfAAB();
    assert SumWeights(["A", "A", "B"], ALevelWeights) == 136;
  }

  lemma ALevelTokensOfAAB()
    ensures ALevelTokens("AAB") == ["A", "A", "B"]
    ensures ALevelTokens("aab") == ["A", "A", "B"]
  {
    assert Upper("AAB") == "AAB" by { UpperFixes("AAB"); }
    UpperAab();
    ALevelScanOfAAB();
  }

  lemma UpperAab()
    ensures Upper("aab") == "AAB"
  {
    assert Upper("aab")[0] == UpperChar('a') == 'A';
    assert Upper("aab")[1] == UpperChar('a') == 'A';
    assert Upper("aab")[2] == UpperChar('b') == 'B';
  }

  lemma ALevelScanOfAAB()
    ensures FindAll("AAB", ALevelPattern) == ["A", "A", "B"]
  {
    assert "A" + ("A" + "B") == "AAB";
    ALevelTakes("A", "A" + "B");
    ALevelTakes("A", "B");
    ALevelSingle("B");
  }

  // =====================================================================
  // GCSE

  /** The word `grade` in any mix of cases. */
  predicate IsGradeWord(w: string) {
    |w| == 5 && Lower(w) == "grade"
  }

  /** Case-insensitive `grade` at the front of `s`. */
  predicate StartsWithGradeWord(s: string) {
    |s| >= 5 && IsGradeWord(s[..5])
  }

  /**
   * `re.findall(r'grade\s*(\d+)', s, re.IGNORECASE)`: at each position,
   * the word `grade`, any whitespace, then the longest run of digits, whose
   * value is kept; where that fails, one character is skipped.
   */
  function GcseScan(s: string): (r: seq<nat>)
    ensures 6 * |r| <= |s|
    decreases |s|
  {
    if s == [] then []
    else if StartsWithGradeWord(s) && DigitPrefix(StripLeft(s[5..])) != [] then
      var rest := StripLeft(s[5..]);
      var d := DigitPrefix(rest);
      [DigitsValue(d)] + GcseScan(rest[|d|..])
    else GcseScan(s[1..])
  }

  /** `extract_gcse_grades`: [] for a non-string or empty input. */
  function ExtractGcseGrades(text: Cell): (r: seq<nat>)
    ensures !text.Str? || text.s == [] ==> r == []
  {
    if !text.Str? || text.s == [] then [] else GcseScan(text.s)
  }

  /** The phrases `grade N` for a list of grades. */
  function GradePhrases(grades: seq<nat>): (r: seq<string>)
    ensures |r| == |grades|
    decreases |grades|
  {
    if grades == [] then [] else ["grade " + NatToString(grades[0])] + GradePhrases(grades[1..])
  }

  /** The text `grade a, grade b, ...` naming `grades` in order. */
  function GcseText(grades: seq<nat>): string {
    Join(GradePhrases(grades), ", ")
  }

  /**
   * The word `grade` in any case, any run of whitespace (none included),
   * then the digits of N and a non-digit: the scan yields N and goes on
   * with the rest.
   */
  lemma GcseScanPhrase(w: string, sp: string, n: nat, rest: string)
    requires IsGradeWord(w)
    requires AllSpaces(sp)
    requires rest == [] || !IsDigit(rest[0])
    ensures GcseScan(w + sp + NatToString(n) + rest) == [n] + GcseScan(rest)
  {
    var d := NatToString(n);
    var x := d + rest;
    assert w + sp + d + rest == w + (sp + x);
    GradeWordAtFront(w, sp + x);
    assert x[0] == d[0];
    LeadingSpacesOfRun(sp, x);
    DigitPrefixOfRun(d, rest);
    assert x[|d|..] == rest;
    NatToStringRoundTrip(n);
    GcseScanMatch(w + (sp + x), x, d);
  }

  /** A five-letter word that lower-cases to "grade" starts a match attempt. */
  lemma GradeWordAtFront(w: string, t: string)
    requires IsGradeWord(w)
    ensures StartsWithGradeWord(w + t) && (w + t)[5..] == t
  {
    assert (w + t)[..5] == w;
  }

  lemma GradeIsGradeWord()
    ensures IsGradeWord("grade")
  {
    var l := Lower("grade");
    assert l[0] == 'g' && l[1] == 'r' && l[2] == 'a' && l[3] == 'd' && l[4] == 'e';
  }

  /** A match at the front: its number, then the scan after the digits. */
  lemma GcseScanMatch(s: string, x: string, d: string)
    requires StartsWithGradeWord(s)
    requires StripLeft(s[5..]) == x && DigitPrefix(x) == d && d != []
    ensures GcseScan(s) == [DigitsValue(d)] + GcseScan(x[|d|..])
  {
  }

  /** The phrase `grade N` as `GcseText` writes it, followed by a non-digit. */
  lemma GradePhraseStep(n: nat, rest: string)
    requires rest == [] || !IsDigit(rest[0])
    ensures GcseScan("grade " + NatToString(n) + rest) == [n] + GcseScan(rest)
  {
    GradeIsGradeWord();
    assert AllSpaces(" ");
    assert "grade " == "grade" + " ";
    GcseScanPhrase("grade", " ", n, rest);
  }

  /** A comma and a space never start a match. */
  lemma GcseScanSeparator(rest: string)
    ensures GcseScan(", " + rest) == GcseScan(rest)
  {
    var s := ", " + rest;
    assert !StartsWithGradeWord(s) by {
      if |s| >= 5 {
        assert Lower(s[..5])[0] == LowerChar(',') == ',';
      }
    }
    assert s[1..] == " " + rest;
    var t := " " + rest;
    assert !StartsWithGradeWord(t) by {
      if |t| >= 5 {
        assert Lower(t[..5])[0] == LowerChar(' ') == ' ';
      }
    }
    assert t[1..] == rest;
  }

  /**
   * Writing grades out as `grade a, grade b, ...` and extracting them gives
   * back the same grades, in the same order, duplicates kept.
   */
  lemma {:induction false} GcseScanRoundTrip(grades: seq<nat>)
    ensures GcseScan(GcseText(grades)) == grades
    decreases |grades|
  {
    if |grades| == 1 {
      GcseTextSingle(grades);
      GradePhraseStep(grades[0], []);
    } else if |grades| > 1 {
      var tail := GcseText(grades[1..]);
      GcseTextCons(grades);
      GradePhraseStep(grades[0], ", " + tail);
      GcseScanSeparator(tail);
      GcseScanRoundTrip(grades[1..]);
    }
  }

  lemma GcseTextSingle(grades: seq<nat>)
    requires |grades| == 1
    ensures GcseText(grades) == "grade " + NatToString(grades[0]) + []
  {
  }

  lemma GcseTextCons(grades: seq<nat>)
    requires |grades| > 1
    ensures GcseText(grades) == "grade " + NatToString(grades[0]) + (", " + GcseText(grades[1..]))
  {
    assert GradePhrases(grades)[1..] == GradePhrases(grades[1..]);
  }

  lemma GcseExtractRoundTrip(grades: seq<nat>)
    ensures ExtractGcseGrades(Str(GcseText(grades))) == grades
  {
    GcseScanRoundTrip(grades);
    if grades != [] {
      assert GcseText(grades)[..6] == "grade ";
    }
  }

  /** The docstring example: three grades, in textual order. */
  lemma GcseExample()
    ensures ExtractGcseGrades(Str("grade 5, grade 6, grade 7")) == [5, 6, 7]
  {
    GcseExampleText();
    GcseExtractRoundTrip([5, 6, 7]);
  }

  lemma GcseExampleText()
    ensures GcseText([5, 6, 7]) == "grade 5, grade 6, grade 7"
  {
    GcseExamplePhrases();
    GcseExampleJoin();
  }

  lemma GcseExamplePhrases()
    ensures GradePhrases([5, 6, 7]) == ["grade 5", "grade 6", "grade 7"]
  {
    assert NatToString(5) == "5" && NatToString(6) == "6" && NatToString(7) == "7";
    assert [5, 6, 7][1..] == [6, 7] && [6, 7][1..] == [7] && [7][1..] == [];
    assert "grade " + "5" == "grade 5" && "grade " + "6" == "grade 6" && "grade " + "7" == "grade 7";
    assert GradePhrases([7]) == ["grade 7"];
    assert GradePhrases([6, 7]) == ["grade 6", "grade 7"];
  }

  lemma GcseExampleJoin()
    ensures Join(["grade 5", "grade 6", "grade 7"], ", ") == "grade 5, grade 6, grade 7"
  {
    var p := ["grade 5", "grade 6", "grade 7"];
    assert p[1..] == ["grade 6", "grade 7"] && p[1..][1..] == ["grade 7"];
    assert Join(p, ", ") == "grade 5" + ", " + Join(p[1..], ", ");
    assert Join(p[1..], ", ") == "grade 6" + ", " + "grade 7";
  }

  // =====================================================================
  // Degree classifications

  datatype Classification = FirstClass | UpperSecond | LowerSecond | ThirdClass

  /** The label the source uses for each classification. */
  function Label(c: Classification): string {
    match c
    case FirstClass => "first class"
    case UpperSecond => "upper second class"
    case LowerSecond => "lower second class"
    case ThirdClass => "third class"
  }

  /** Position in the order first < upper second < lower second < third < none. */
  function Rank(c: Option<Classification>): nat {
    match c
    case Some(FirstClass) => 0
    case Some(UpperSecond) => 1
    case Some(LowerSecond) => 2
    case Some(ThirdClass) => 3
    case None => 4
  }

  /**
   * `convert_bachelors_degree_from_gpa`: the threshold ladder 3.7, 3.3, 3.0,
   * 2.5; `None` stands for an input `float()` rejects.
   */
  function ConvertBachelorsDegreeFromGpa(gpa: Option<real>): (r: Option<Classification>)
    ensures gpa.None? ==> r.None?
    ensures gpa.Some? && gpa.value < 2.5 ==> r.None?
  {
    match gpa
    case None => None
    case Some(g) =>
      if g >= 3.7 then Some(FirstClass)
      else if g >= 3.3 then Some(UpperSecond)
      else if g >= 3.0 then Some(LowerSecond)
      else if g >= 2.5 then Some(ThirdClass)
      else None
  }

  /** Each class is awarded exactly on its band of GPAs. */
  lemma GpaBands(g: real)
    ensures ConvertBachelorsDegreeFromGpa(Some(g)) == Some(FirstClass) <==> 3.7 <= g
    ensures ConvertBachelorsDegreeFromGpa(Some(g)) == Some(UpperSecond) <==> 3.3 <= g < 3.7
    ensures ConvertBachelorsDegreeFromGpa(Some(g)) == Some(LowerSecond) <==> 3.0 <= g < 3.3
    ensures ConvertBachelorsDegreeFromGpa(Some(g)) == Some(ThirdClass) <==> 2.5 <= g < 3.0
    ensures ConvertBachelorsDegreeFromGpa(Some(g)) == None <==> g < 2.5
  {
  }

  /** A higher GPA never gives a lower classification. */
  lemma GpaMonotone(g1: real, g2: real)
    requires g1 <= g2
    ensures Rank(ConvertBachelorsDegreeFromGpa(Some(g2))) <= Rank(ConvertBachelorsDegreeFromGpa(Some(g1)))
  {
  }

  lemma GpaExamples()
    ensures ConvertBachelorsDegreeFromGpa(Some(3.8)) == Some(FirstClass)
    ensures ConvertBachelorsDegreeFromGpa(Some(2.9)) == Some(ThirdClass)
    ensures ConvertBachelorsDegreeFromGpa(Some(3.0)) == Some(LowerSecond)
    ensures ConvertBachelorsDegreeFromGpa(Some(2.4)) == None
  {
  }

  // =====================================================================
  // extract_numeric

  /** `re.search(r'\d+', s)`: the value of the first maximal run of digits. */
  function FirstNumber(s: string): (r: Option<nat>)
    ensures r.None? <==> forall i :: 0 <= i < |s| ==> !IsDigit(s[i])
    decreases |s|
  {
    if s == [] then None
    else if IsDigit(s[0]) then Some(DigitsValue(DigitPrefix(s)))
    else FirstNumber(s[1..])
  }

  /** `extract_numeric`: None for a missing value, else the first number in its text. */
  function ExtractNumeric(value: Cell): (r: Option<nat>)
    ensures value.Missing? ==> r.None?
    ensures !value.Missing? ==> (r.None? <==> forall i :: 0 <= i < |Render(value)| ==> !IsDigit(Render(value)[i]))
  {
    if value.Missing? then None else FirstNumber(Render(value))
  }

  /**
   * Text without digits, then a number, then text not starting with a digit:
   * the number is what is extracted.
   */
  lemma {:induction false} FirstNumberFinds(pre: string, n: nat, post: string)
    requires forall i :: 0 <= i < |pre| ==> !IsDigit(pre[i])
    requires post == [] || !IsDigit(post[0])
    ensures FirstNumber(pre + NatToString(n) + post) == Some(n)
    decreases |pre|
  {
    var d := NatToString(n);
    if pre == [] {
      assert pre + d + post == d + post;
      DigitPrefixOfRun(d, post);
      NatToStringRoundTrip(n);
    } else {
      assert (pre + d + post)[1..] == pre[1..] + d + post;
      FirstNumberFinds(pre[1..], n, post);
    }
  }

  lemma ExtractNumericFinds(pre: string, n: nat, post: string)
    requires forall i :: 0 <= i < |pre| ==> !IsDigit(pre[i])
    requires post == [] || !IsDigit(post[0])
    ensures ExtractNumeric(Str(pre + NatToString(n) + post)) == Some(n)
  {
    FirstNumberFinds(pre, n, post);
  }

  // =====================================================================
  // extract_bachelors_classification

  /**
   * `extract_bachelors_classification`: None for a missing value; otherwise
   * the lower-cased, stripped text is tested for "first", then for an upper
   * second, then for a lower second, then for a third.
   */
  function ExtractBachelorsClassification(value: Cell): (r: Option<Classification>)
    ensures value.Missing? ==> r.None?
  {
    if value.Missing? then None else Classify(Strip(Lower(Render(value))))
  }

  /** The ladder of tests on the lower-cased, stripped text. */
  function Classify(v: string): Option<Classification> {
    if MentionsFirst(v) then Some(FirstClass)
    else if MentionsUpperSecond(v) then Some(UpperSecond)
    else if MentionsLowerSecond(v) then Some(LowerSecond)
    else if MentionsThird(v) then Some(ThirdClass)
    else None
  }

  /** The four tests of the ladder, in the order they are tried. */
  predicate MentionsFirst(v: string) {
    Contains(v, "first")
  }

  predicate MentionsUpperSecond(v: string) {
    Contains(v, "upper second") || Contains(v, "2:1") || Contains(v, "second upper")
  }

  predicate MentionsLowerSecond(v: string) {
    Contains(v, "lower second") || Contains(v, "2:2") || Contains(v, "second lower")
  }

  predicate MentionsThird(v: string) {
    Contains(v, "third") || Contains(v, "third class")
  }

  /** The second test for a third class adds nothing: "third class" contains "third". */
  lemma ThirdClassTestRedundant(v: string)
    ensures Contains(v, "third class") ==> Contains(v, "third")
  {
    if Contains(v, "third class") {
      assert "third class" == "third" + " class";
      ContainsPiece(v, "third", " class");
    }
  }

  /** Every label is already lower-case and stripped. */
  lemma LabelNormal(c: Classification)
    ensures Strip(Lower(Label(c))) == Label(c)
  {
    var l := Label(c);
    assert l[0] != ' ' && l[|l| - 1] == 's';
    LowerFixes(l);
    StripOfStripped(l);
  }

  /** `v` contains `p` when it is `p` followed by " class". */
  lemma ContainsStem(v: string, p: string)
    requires v == p + " class"
    ensures Contains(v, p)
  {
    ContainsInfix([], p, " class");
    assert [] + p + " class" == v;
  }

  /** A label without 'f' fails the test for a first. */
  lemma NotFirst(v: string)
    requires forall i :: 0 <= i < |v| ==> v[i] != 'f'
    ensures !MentionsFirst(v)
  {
    LacksAt(v, "first", 0);
  }

  /** A label without 'u' or '2' fails the test for an upper second. */
  lemma NotUpperSecond(v: string)
    requires forall i :: 0 <= i < |v| ==> v[i] != 'u' && v[i] != '2'
    ensures !MentionsUpperSecond(v)
  {
    LacksUpperSecond(v);
    LacksSecondUpper(v);
    Lacks21(v);
  }

  lemma LacksUpperSecond(v: string)
    requires forall i :: 0 <= i < |v| ==> v[i] != 'u'
    ensures !Contains(v, "upper second")
  {
    LacksAt(v, "upper second", 0);
  }

  lemma LacksSecondUpper(v: string)
    requires forall i :: 0 <= i < |v| ==> v[i] != 'u'
    ensures !Contains(v, "second upper")
  {
    LacksAt(v, "second upper", 7);
  }

  lemma Lacks21(v: string)
    requires forall i :: 0 <= i < |v| ==> v[i] != '2'
    ensures !Contains(v, "2:1")
  {
    LacksAt(v, "2:1", 0);
  }

  /** A label without 'w' or '2' fails the test for a lower second. */
  lemma NotLowerSecond(v: string)
    requires forall i :: 0 <= i < |v| ==> v[i] != 'w' && v[i] != '2'
    ensures !MentionsLowerSecond(v)
  {
    LacksLowerSecond(v);
    LacksSecondLower(v);
    Lacks22(v);
  }

  lemma LacksLowerSecond(v: string)
    requires forall i :: 0 <= i < |v| ==> v[i] != 'w'
    ensures !Contains(v, "lower second")
  {
    LacksAt(v, "lower second", 2);
  }

  lemma LacksSecondLower(v: string)
    requires forall i :: 0 <= i < |v| ==> v[i] != 'w'
    ensures !Contains(v, "second lower")
  {
    LacksAt(v, "second lower", 9);
  }

  lemma Lacks22(v: string)
    requires forall i :: 0 <= i < |v| ==> v[i] != '2'
    ensures !Contains(v, "2:2")
  {
    LacksAt(v, "2:2", 0);
  }

  /** The normal form of a label is the label itself. */
  lemma RendersAsLabel(v: string, c: Classification)
    requires v == Label(c)
    ensures Strip(Lower(Render(Str(v)))) == v
  {
    LabelNormal(c);
  }

  /** The steps of the ladder on a normal text, one per rung. */
  lemma LadderRung(v: string, c: Classification)
    requires Strip(Lower(Render(Str(v)))) == v
    requires MentionsFirst(v) <==> c == FirstClass
    requires c != FirstClass ==> (MentionsUpperSecond(v) <==> c == UpperSecond)
    requires c != FirstClass && c != UpperSecond ==> (MentionsLowerSecond(v) <==> c == LowerSecond)
    requires c == ThirdClass ==> MentionsThird(v)
    ensures ExtractBachelorsClassification(Str(v)) == Some(c)
  {
  }

  lemma ReadsFirstClassOf(v: string)
    requires v == Label(FirstClass)
    ensures ExtractBachelorsClassification(Str(v)) == Some(FirstClass)
  {
    RendersAsLabel(v, FirstClass);
    ContainsStem(v, "first");
    LadderRung(v, FirstClass);
  }

  lemma ReadsUpperSecondOf(v: string)
    requires v == Label(UpperSecond)
    ensures ExtractBachelorsClassification(Str(v)) == Some(UpperSecond)
  {
    RendersAsLabel(v, UpperSecond);
    UpperSecondTests(v);
    LadderRung(v, UpperSecond);
  }

  /** The upper-second label fails the first test and passes the second. */
  lemma UpperSecondTests(v: string)
    requires v == Label(UpperSecond)
    ensures !MentionsFirst(v) && MentionsUpperSecond(v)
  {
    NotFirst(v);
    ContainsStem(v, "upper second");
  }

  lemma ReadsLowerSecondOf(v: string)
    requires v == Label(LowerSecond)
    ensures ExtractBachelorsClassification(Str(v)) == Some(LowerSecond)
  {
    RendersAsLabel(v, LowerSecond);
    LowerSecondTests(v);
    LadderRung(v, LowerSecond);
  }

  /** The lower-second label fails the first two tests and passes the third. */
  lemma LowerSecondTests(v: string)
    requires v == Label(LowerSecond)
    ensures !MentionsFirst(v) && !MentionsUpperSecond(v) && MentionsLowerSecond(v)
  {
    LowerSecondNotFirst(v);
    LowerSecondNotUpper(v);
    ContainsStem(v, "lower second");
  }

  lemma LowerSecondNotFirst(v: string)
    requires v == Label(LowerSecond)
    ensures !MentionsFirst(v)
  {
    NotFirst(v);
  }

  lemma LowerSecondNotUpper(v: string)
    requires v == Label(LowerSecond)
    ensures !MentionsUpperSecond(v)
  {
    NotUpperSecond(v);
  }

  lemma ReadsThirdClassOf(v: string)
    requires v == Label(ThirdClass)
    ensures ExtractBachelorsClassification(Str(v)) == Some(ThirdClass)
  {
    RendersAsLabel(v, ThirdClass);
    ThirdClassTests(v);
    LadderRung(v, ThirdClass);
  }

  /** The third-class label fails the first three tests and passes the fourth. */
  lemma ThirdClassTests(v: string)
    requires v == Label(ThirdClass)
    ensures !MentionsFirst(v) && !MentionsUpperSecond(v) && !MentionsLowerSecond(v)
    ensures MentionsThird(v)
  {
    NotFirst(v);
    NotUpperSecond(v);
    NotLowerSecond(v);
    ContainsStem(v, "third");
  }

  /** Each label the source produces is read back as the same classification. */
  lemma ClassificationRoundTrip(c: Classification)
    ensures ExtractBachelorsClassification(Str(Label(c))) == Some(c)
  {
    match c
    case FirstClass => ReadsFirstClassOf(Label(c));
    case UpperSecond => ReadsUpperSecondOf(Label(c));
    case LowerSecond => ReadsLowerSecondOf(Label(c));
    case ThirdClass => ReadsThirdClassOf(Label(c));
  }

  /**
   * A classification computed from a GPA, written out as the source writes
   * it, is read back unchanged by the text-based extraction.
   */
  lemma GpaLabelReadBack(g: real)
    requires ConvertBachelorsDegreeFromGpa(Some(g)).Some?
    ensures ExtractBachelorsClassification(Str(Label(ConvertBachelorsDegreeFromGpa(Some(g)).value)))
            == ConvertBachelorsDegreeFromGpa(Some(g))
  {
    ClassificationRoundTrip(ConvertBachelorsDegreeFromGpa(Some(g)).value);
  }

  /** The phrases the ladder looks for neither start nor end with whitespace. */
  lemma LadderPhrases()
    ensures IsPhrase("first") && IsPhrase("third") && IsPhrase("third class")
    ensures IsPhrase("upper second") && IsPhrase("2:1") && IsPhrase("second upper")
    ensures IsPhrase("lower second") && IsPhrase("2:2") && IsPhrase("second lower")
  {
  }

  /** Surrounding whitespace changes none of the four tests. */
  lemma MentionsStripped(l: string)
    ensures MentionsFirst(Strip(l)) <==> MentionsFirst(l)
    ensures MentionsUpperSecond(Strip(l)) <==> MentionsUpperSecond(l)
    ensures MentionsLowerSecond(Strip(l)) <==> MentionsLowerSecond(l)
    ensures MentionsThird(Strip(l)) <==> MentionsThird(l)
  {
    LadderPhrases();
    ContainsStripped(l, "first");
    ContainsStripped(l, "upper second");
    ContainsStripped(l, "2:1");
    ContainsStripped(l, "second upper");
    ContainsStripped(l, "lower second");
    ContainsStripped(l, "2:2");
    ContainsStripped(l, "second lower");
    ContainsStripped(l, "third");
    ContainsStripped(l, "third class");
  }

  /**
   * The ladder on the raw value: with `l` its lower-cased text, the
   * classification is the first rung whose phrases `l` contains, in the
   * order first, upper second, lower second, third, and None exactly when
   * `l` contains none of them.
   */
  lemma ClassificationLadder(value: Cell)
    requires !value.Missing?
    ensures var l := Lower(Render(value)); var r := ExtractBachelorsClassification(value);
            (r == Some(FirstClass) <==> MentionsFirst(l))
            && (r == Some(UpperSecond) <==> !MentionsFirst(l) && MentionsUpperSecond(l))
            && (r == Some(LowerSecond) <==>
                  !MentionsFirst(l) && !MentionsUpperSecond(l) && MentionsLowerSecond(l))
            && (r == Some(ThirdClass) <==>
                  !MentionsFirst(l) && !MentionsUpperSecond(l) && !MentionsLowerSecond(l) && MentionsThird(l))
            && (r.None? <==>
                  !MentionsFirst(l) && !MentionsUpperSecond(l) && !MentionsLowerSecond(l) && !MentionsThird(l))
  {
    MentionsStripped(Lower(Render(value)));
  }

  /** Upper case makes no difference to the classification. */
  lemma ClassificationCaseless(s: string)
    ensures ExtractBachelorsClassification(Str(s)) == ExtractBachelorsClassification(Str(Lower(s)))
  {
    LowerFixes(Lower(s));
    assert Strip(Lower(Render(Str(Lower(s))))) == Strip(Lower(Render(Str(s))));
  }

  /** Whitespace around the text makes no difference to the classification. */
  lemma ClassificationIgnoresPadding(a: string, s: string, b: string)
    requires AllSpaces(a) && AllSpaces(b)
    ensures ExtractBachelorsClassification(Str(a + s + b)) == ExtractBachelorsClassification(Str(s))
  {
    var l := Lower(s);
    assert Lower(a + s + b) == Lower(a) + l + Lower(b);
    MentionsPadded(Lower(a), l, Lower(b));
    ClassificationLadder(Str(a + s + b));
    ClassificationLadder(Str(s));
  }

  /** Whitespace on either side changes none of the four tests. */
  lemma MentionsPadded(a: string, m: string, b: string)
    requires AllSpaces(a) && AllSpaces(b)
    ensures MentionsFirst(a + m + b) <==> MentionsFirst(m)
    ensures MentionsUpperSecond(a + m + b) <==> MentionsUpperSecond(m)
    ensures MentionsLowerSecond(a + m + b) <==> MentionsLowerSecond(m)
    ensures MentionsThird(a + m + b) <==> MentionsThird(m)
  {
    LadderPhrases();
    ContainsPadded(a, m, b, "first");
    ContainsPadded(a, m, b, "upper second");
    ContainsPadded(a, m, b, "2:1");
    ContainsPadded(a, m, b, "second upper");
    ContainsPadded(a, m, b, "lower second");
    ContainsPadded(a, m, b, "2:2");
    ContainsPadded(a, m, b, "second lower");
    ContainsPadded(a, m, b, "third");
    ContainsPadded(a, m, b, "third class");
  }

  /** Text with no digit in it names no GCSE grade. */
  lemma {:induction false} GcseScanNeedsDigit(s: string)
    requires forall i :: 0 <= i < |s| ==> !IsDigit(s[i])
    ensures GcseScan(s) == []
    decreases |s|
  {
    if s != [] {
      if StartsWithGradeWord(s) {
        var rest := StripLeft(s[5..]);
        assert rest == s[|s| - |rest|..];
        if rest != [] {
          assert rest[0] == s[|s| - |rest|];
        }
      }
      GcseScanNeedsDigit(s[1..]);
    }
  }

  /** The docstring's other example: no grade mentioned, nothing extracted. */
  lemma GcseExampleNone()
    ensures ExtractGcseGrades(Str("no grades here")) == []
  {
    var s := "no grades here";
    assert forall i :: 0 <= i < |s| ==> !IsDigit(s[i]);
    GcseScanNeedsDigit(s);
  }
}
