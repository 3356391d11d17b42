/**
 * Worked transcripts for the spoken-entry extractor, and the input that
 * separates the parser as written (the matched span compiled into a regular
 * expression) from the corrected one (the span removed literally).
 */
module VoiceExamples {
  import opened Options
  import opened Text
  import opened VoiceParser

  // ----- Facts that make concrete transcripts cheap to evaluate -----------

  /** Every unit word starts with a `g`, so a unit match needs one. */
  lemma UnitMatchHasG(s: string, j: nat, n: nat, k: nat)
    requires IsUnitMatch(s, j, n, k)
    ensures 'g' in s || 'G' in s
  {
    var w: nat :| UnitTail(s, n, w, k);
    assert Lower(s[w..k])[0] == LowerChar(s[w]);
    assert s[w] in s;
  }

  /** Without a `g` the unit pattern matches nowhere. */
  lemma NoUnitWithoutG(s: string)
    requires 'g' !in s && 'G' !in s
    ensures FindUnitMatch(s, 0).None?
  {
    forall j: nat, n: nat, k: nat | IsUnitMatch(s, j, n, k) ensures false {
      UnitMatchHasG(s, j, n, k);
    }
    NoUnitFound(s);
  }

  /** No word in `s` starts with a character that a filler phrase starts with. */
  predicate NoFillerStart(s: string) {
    forall p :: 0 <= p < |s| && Boundary(s, p) ==> LowerChar(s[p]) !in {'i', 'w', 'o'}
  }

  lemma {:induction false} UncoveredAll(s: string, i: nat)
    requires i <= |s| && NoFillerStart(s)
    ensures Uncovered(s, i) == s[i..]
    decreases |s| - i
  {
    if i < |s| {
      if Covered(s, i) {
        var p: nat, q: nat :| p <= i < q && FillerOccurrence(s, p, q);
        FillerFirstChar(s, p, q);
      }
      UncoveredAll(s, i + 1);
      assert s[i..] == [s[i]] + s[i + 1..];
    }
  }

  /** Without a word that could start a filler phrase, stripping the fillers changes nothing. */
  lemma StripNothing(s: string)
    requires NoFillerStart(s)
    ensures StripFillers(s) == s
  {
    StripFillersKeepsUncovered(s);
    UncoveredAll(s, 0);
  }

  /** A trimmed text that is already single-spaced and has a letter or digit at each end is its own residue. */
  lemma CleanResidue(c: string)
    requires NoDoubleSpace(c) && (c == [] || (IsAlnum(c[0]) && IsAlnum(c[|c| - 1])))
    ensures Trim(TrimNonAlnum(CollapseSpaces(c))) == c
  {
    CollapseKeepsSingle(c, 0);
    assert c[0..] == c;
    if c != [] {
      assert TrimNonAlnum(c) == c[0..|c|];
      AlnumNotSpace(c[0]);
      AlnumNotSpace(c[|c| - 1]);
      TrimUnchanged(c);
    }
  }

  /** A residue settled by hand: once the cut leaves no filler and trims to a clean text, that text is the residue. */
  lemma ResidueOf(text: string, span: string, asRegex: bool, cut: string, c: string)
    requires RemoveFirst(text, span, asRegex) == cut
    requires NoFillerStart(cut) && Trim(cut) == c
    requires NoDoubleSpace(c) && (c == [] || (IsAlnum(c[0]) && IsAlnum(c[|c| - 1])))
    ensures Residue(text, span, asRegex) == c
    ensures ExtractLabel(text, span, asRegex) == Capitalize(c)
  {
    TidyOf(cut, c);
  }

  /** A cut that leaves no filler and trims to a clean text tidies to that text. */
  lemma TidyOf(cut: string, c: string)
    requires NoFillerStart(cut) && Trim(cut) == c
    requires NoDoubleSpace(c) && (c == [] || (IsAlnum(c[0]) && IsAlnum(c[|c| - 1])))
    ensures Tidy(cut) == c
  {
    StripNothing(cut);
    CleanResidue(c);
  }

  lemma Thirty()
    ensures NumeralValue("30") == 30.0
  {
  }

  /** The fallback entry, once the scans and the numeral have been settled by hand. */
  lemma BareEntry(t: string, asRegex: bool, j: nat, k: nat, num: string, v: real)
    requires t != "" && j <= k <= |Normalize(t)|
    requires FindUnitMatch(Normalize(t), 0).None? && FindBareMatch(Normalize(t), 0) == Some((j, k))
    requires Normalize(t)[j..k] == num && IsNumeral(num) && NumeralValue(num) == v
    ensures ParseWith(Some(t), asRegex) == Some(ParsedEntry(v, ExtractLabel(t, num, asRegex)))
  {
    ParseBareStep(t, asRegex, j, k);
  }

  /** The corrected fallback entry of a transcript with nothing to trim at the front, once the scans have been settled by hand. */
  lemma MatchedBareEntry(t: string, j: nat, k: nat, num: string, v: real, cut: string)
    requires t != "" && TrimStart(t) == t && j <= k <= |Normalize(t)|
    requires FindUnitMatch(Normalize(t), 0).None? && FindBareMatch(Normalize(t), 0) == Some((j, k))
    requires Normalize(t)[j..k] == num && IsNumeral(num) && NumeralValue(num) == v
    requires k <= |t| && t[..j] + t[k..] == cut
    ensures ParseMatched(Some(t)) == Some(ParsedEntry(v, Capitalize(Tidy(cut))))
  {
    assert Chosen(Normalize(t)) == Some((j, k, k));
    ParseMatchedLabel(t, j, k, k);
  }

  /** The unit entry, once the scan and the numeral have been settled by hand. */
  lemma UnitEntry(t: string, asRegex: bool, j: nat, n: nat, k: nat, num: string, span: string, v: real)
    requires t != "" && j <= n <= k <= |Normalize(t)|
    requires FindUnitMatch(Normalize(t), 0) == Some((j, n, k))
    requires Normalize(t)[j..n] == num && Normalize(t)[j..k] == span
    requires IsNumeral(num) && NumeralValue(num) == v
    ensures ParseWith(Some(t), asRegex) == Some(ParsedEntry(v, ExtractLabel(t, span, asRegex)))
  {
  }

  // ----- "chicken 30": the fallback pattern --------------------------------

  lemma ChickenNoUnit()
    ensures Normalize("chicken 30") == "chicken 30"
    ensures FindUnitMatch("chicken 30", 0).None?
  {
    assert Normalize("chicken 30") == "chicken 30";
    NoUnitWithoutG("chicken 30");
  }

  lemma ChickenBare()
    ensures FindBareMatch("chicken 30", 0) == Some((8, 10))
  {
    var s := "chicken 30";
    assert BareMatchAt(s, 8) == Some(10);
    assert FindBareMatch(s, 8) == Some((8, 10));
    assert FindBareMatch(s, 7) == Some((8, 10));
    assert FindBareMatch(s, 6) == Some((8, 10));
    assert FindBareMatch(s, 5) == Some((8, 10));
    assert FindBareMatch(s, 4) == Some((8, 10));
    assert FindBareMatch(s, 3) == Some((8, 10));
    assert FindBareMatch(s, 2) == Some((8, 10));
    assert FindBareMatch(s, 1) == Some((8, 10));
  }

  lemma ChickenCut(asRegex: bool)
    ensures RemoveFirst("chicken 30", "30", asRegex) == "chicken "
  {
    var t := "chicken 30";
    assert FirstPatternAt(t, "30", asRegex, 8) == Some(8);
    assert FirstPatternAt(t, "30", asRegex, 7) == Some(8);
    assert FirstPatternAt(t, "30", asRegex, 6) == Some(8);
    assert FirstPatternAt(t, "30", asRegex, 5) == Some(8);
    assert FirstPatternAt(t, "30", asRegex, 4) == Some(8);
    assert FirstPatternAt(t, "30", asRegex, 3) == Some(8);
    assert FirstPatternAt(t, "30", asRegex, 2) == Some(8);
    assert FirstPatternAt(t, "30", asRegex, 1) == Some(8);
  }

  lemma ChickenClean()
    ensures NoFillerStart("chicken ")
    ensures Trim("chicken ") == "chicken"
    ensures NoDoubleSpace("chicken")
  {
    ChickenCleanFillers();
    ChickenCleanTrim();
    ChickenCleanSpaces();
  }

  lemma ChickenCleanFillers()
    ensures NoFillerStart("chicken ")
  {
  }

  lemma ChickenCleanTrim()
    ensures Trim("chicken ") == "chicken"
  {
  }

  lemma ChickenCleanSpaces()
    ensures NoDoubleSpace("chicken")
  {
  }

  lemma ChickenLabel(asRegex: bool)
    ensures ExtractLabel("chicken 30", "30", asRegex) == "Chicken"
  {
    ChickenCut(asRegex);
    ChickenClean();
    ResidueOf("chicken 30", "30", asRegex, "chicken ", "chicken");
    ChickenCapital();
  }

  lemma ChickenCapital()
    ensures Capitalize("chicken") == "Chicken"
  {
  }

  lemma ChickenSpan()
    ensures Normalize("chicken 30")[8..10] == "30"
  {
    assert Normalize("chicken 30") == "chicken 30";
  }

  /** "chicken 30" has no unit, so the bare number is the amount and the rest, capitalised, the label. */
  lemma ChickenExample(asRegex: bool)
    ensures ParseWith(Some("chicken 30"), asRegex) == Some(ParsedEntry(30.0, "Chicken"))
  {
    ChickenNoUnit();
    ChickenBare();
    ChickenSpan();
    Thirty();
    BareEntry("chicken 30", asRegex, 8, 10, "30", 30.0);
    ChickenLabel(asRegex);
  }

  // ----- "30g": nothing left for the label ---------------------------------

  lemma GramsOnlyNormal()
    ensures Normalize("30g") == "30g"
  {
  }

  lemma GramsOnlyScan()
    ensures FindUnitMatch("30g", 0) == Some((0, 2, 3))
  {
    var s := "30g";
    assert NumeralEnd(s, 0) == 2;
    assert UnitEnd(s, 2) == Some(3);
  }

  lemma GramsOnlySpan()
    ensures Normalize("30g")[0..2] == "30" && Normalize("30g")[0..3] == "30g"
  {
    GramsOnlyNormal();
  }

  lemma GramsOnlyLabel(asRegex: bool)
    ensures ExtractLabel("30g", "30g", asRegex) == FallbackLabel
  {
    assert RemoveFirst("30g", "30g", asRegex) == "";
    ResidueOf("30g", "30g", asRegex, "", "");
  }

  /** "30g" is all amount: the label falls back to "Voice Entry". */
  lemma GramsOnlyExample(asRegex: bool)
    ensures ParseWith(Some("30g"), asRegex) == Some(ParsedEntry(30.0, FallbackLabel))
  {
    GramsOnlyNormal();
    GramsOnlyScan();
    GramsOnlySpan();
    Thirty();
    UnitEntry("30g", asRegex, 0, 2, 3, "30", "30g", 30.0);
    GramsOnlyLabel(asRegex);
  }

  // ----- "1x5 1.5": the span read as a regular expression -------------------

  lemma DottedScan()
    ensures Normalize("1x5 1.5") == "1x5 1.5"
    ensures FindUnitMatch("1x5 1.5", 0).None?
  {
    assert Normalize("1x5 1.5") == "1x5 1.5";
    NoUnitWithoutG("1x5 1.5");
  }

  /** "1x5" is no numeral between word boundaries, so the fallback takes "1.5". */
  lemma DottedBare()
    ensures FindBareMatch("1x5 1.5", 0) == Some((4, 7))
  {
    var s := "1x5 1.5";
    assert BareMatchAt(s, 4) == Some(7);
    assert FindBareMatch(s, 4) == Some((4, 7));
    assert FindBareMatch(s, 3) == Some((4, 7));
    assert FindBareMatch(s, 2) == Some((4, 7));
    assert FindBareMatch(s, 1) == Some((4, 7));
  }

  lemma OneAndAHalf()
    ensures IsNumeral("1.5") && NumeralValue("1.5") == 1.5
  {
    assert DecimalAt("1.5", 1);
    assert DigitRunEnd("1.5", 0) == 1;
    assert DigitsValue("1.5", 0, 1) == 1 && DigitsValue("1.5", 2, 3) == 5;
    assert Pow10(1) == 10;
  }

  /** Compiled into a regular expression, "1.5" first matches "1x5", at the start. */
  lemma DottedRegexCut()
    ensures RemoveFirst("1x5 1.5", "1.5", true) == " 1.5"
  {
  }

  /** Read literally, "1.5" is cut where it was matched. */
  lemma DottedLiteralCut()
    ensures RemoveFirst("1x5 1.5", "1.5", false) == "1x5 "
  {
    var t := "1x5 1.5";
    assert FirstPatternAt(t, "1.5", false, 4) == Some(4);
    assert FirstPatternAt(t, "1.5", false, 3) == Some(4);
    assert FirstPatternAt(t, "1.5", false, 2) == Some(4);
    assert FirstPatternAt(t, "1.5", false, 1) == Some(4);
  }

  lemma DottedRegexClean()
    ensures NoFillerStart(" 1.5")
    ensures Trim(" 1.5") == "1.5"
    ensures NoDoubleSpace("1.5")
  {
  }

  lemma DottedLiteralClean()
    ensures NoFillerStart("1x5 ")
    ensures Trim("1x5 ") == "1x5"
    ensures NoDoubleSpace("1x5")
  {
  }

  lemma DottedCapitals()
    ensures Capitalize("1.5") == "1.5"
    ensures Capitalize("1x5") == "1x5"
  {
  }

  lemma DottedParse(asRegex: bool)
    ensures ParseWith(Some("1x5 1.5"), asRegex)
         == Some(ParsedEntry(1.5, ExtractLabel("1x5 1.5", "1.5", asRegex)))
  {
    DottedScan();
    DottedBare();
    DottedSpan();
    OneAndAHalf();
    BareEntry("1x5 1.5", asRegex, 4, 7, "1.5", 1.5);
  }

  lemma DottedSpan()
    ensures Normalize("1x5 1.5")[4..7] == "1.5"
  {
    assert Normalize("1x5 1.5") == "1x5 1.5";
  }

  /**
   * As written, the amount of "1x5 1.5" is 1.5, but the removal cuts the
   * "1x5" at the start instead, so the label is the amount itself: "1.5".
   */
  lemma DottedAsWritten()
    ensures ParseAsWritten(Some("1x5 1.5")) == Some(ParsedEntry(1.5, "1.5"))
  {
    DottedParse(true);
    DottedRegexCut();
    DottedRegexClean();
    ResidueOf("1x5 1.5", "1.5", true, " 1.5", "1.5");
    DottedCapitals();
  }

  /** With the span removed literally, the amount leaves the label: "1x5". */
  lemma DottedCorrected()
    ensures Parse(Some("1x5 1.5")) == Some(ParsedEntry(1.5, "1x5"))
  {
    DottedParse(false);
    DottedLiteralCut();
    DottedLiteralClean();
    ResidueOf("1x5 1.5", "1.5", false, "1x5 ", "1x5");
    DottedCapitals();
  }

  lemma DottedPlaceCut()
    ensures TrimStart("1x5 1.5") == "1x5 1.5"
    ensures "1x5 1.5"[..4] + "1x5 1.5"[7..] == "1x5 "
  {
  }

  /** With the amount removed where it was matched, "1x5 1.5" keeps "1x5" as its label. */
  lemma DottedMatched()
    ensures ParseMatched(Some("1x5 1.5")) == Some(ParsedEntry(1.5, "1x5"))
  {
    var t := "1x5 1.5";
    DottedScan();
    DottedBare();
    DottedSpan();
    OneAndAHalf();
    DottedLiteralClean();
    TidyOf("1x5 ", "1x5");
    DottedCapitals();
    DottedPlaceCut();
    MatchedBareEntry(t, 4, 7, "1.5", 1.5, "1x5 ");
  }

  // ----- "x30 30": the amount also occurs earlier, inside a word ------------

  lemma ShiftedScan()
    ensures Normalize("x30 30") == "x30 30"
    ensures FindUnitMatch("x30 30", 0).None?
  {
    assert Normalize("x30 30") == "x30 30";
    NoUnitWithoutG("x30 30");
  }

  /** The "30" inside "x30" has no word boundary before it, so the fallback takes the second "30". */
  lemma ShiftedBare()
    ensures FindBareMatch("x30 30", 0) == Some((4, 6))
  {
    var s := "x30 30";
    assert BareMatchAt(s, 4) == Some(6);
    assert FindBareMatch(s, 4) == Some((4, 6));
    assert FindBareMatch(s, 3) == Some((4, 6));
    assert FindBareMatch(s, 2) == Some((4, 6));
    assert FindBareMatch(s, 1) == Some((4, 6));
  }

  lemma ShiftedSpan()
    ensures Normalize("x30 30")[4..6] == "30"
  {
    assert Normalize("x30 30") == "x30 30";
  }

  /** Either way the span is read, its first occurrence is the one inside "x30". */
  lemma ShiftedCut(asRegex: bool)
    ensures RemoveFirst("x30 30", "30", asRegex) == "x 30"
  {
    assert FirstPatternAt("x30 30", "30", asRegex, 1) == Some(1);
  }

  lemma ShiftedClean()
    ensures NoFillerStart("x 30") && Trim("x 30") == "x 30" && NoDoubleSpace("x 30")
    ensures NoFillerStart("x30 ") && Trim("x30 ") == "x30" && NoDoubleSpace("x30")
    ensures Capitalize("x 30") == "X 30" && Capitalize("x30") == "X30"
  {
  }

  /**
   * As written, and also with the span read literally, the amount of
   * "x30 30" is the second "30" but the first is cut, out of "x30", so the
   * label is "X 30".
   */
  lemma ShiftedAsWritten()
    ensures ParseAsWritten(Some("x30 30")) == Some(ParsedEntry(30.0, "X 30"))
    ensures Parse(Some("x30 30")) == Some(ParsedEntry(30.0, "X 30"))
  {
    var t := "x30 30";
    ShiftedScan();
    ShiftedBare();
    ShiftedSpan();
    Thirty();
    ShiftedClean();
    BareEntry(t, true, 4, 6, "30", 30.0);
    BareEntry(t, false, 4, 6, "30", 30.0);
    ShiftedCut(true);
    ShiftedCut(false);
    ResidueOf(t, "30", true, "x 30", "x 30");
    ResidueOf(t, "30", false, "x 30", "x 30");
  }

  lemma ShiftedPlaceCut()
    ensures TrimStart("x30 30") == "x30 30"
    ensures "x30 30"[..4] + "x30 30"[6..] == "x30 "
  {
  }

  /** With the amount removed where it was matched, the label of "x30 30" is "X30". */
  lemma ShiftedMatched()
    ensures ParseMatched(Some("x30 30")) == Some(ParsedEntry(30.0, "X30"))
  {
    var t := "x30 30";
    ShiftedScan();
    ShiftedBare();
    ShiftedSpan();
    Thirty();
    ShiftedClean();
    TidyOf("x30 ", "x30");
    ShiftedPlaceCut();
    MatchedBareEntry(t, 4, 6, "30", 30.0, "x30 ");
  }
}
