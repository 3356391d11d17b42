/**
 * The spoken-entry extractor of src/utils/voiceParser.js: a transcript becomes
 * an amount of protein and a food label, or nothing.
 *
 * The two regular expressions of the source are written as scanners over the
 * lower-cased, trimmed transcript. Each scanner comes with a declarative
 * description of what the regular expression accepts (IsUnitMatch,
 * IsBareMatch) and a proof that it returns the leftmost such match, and the
 * one the regular expression's backtracking order prefers at that position.
 */
module VoiceParser {
  import opened Options
  import opened Text

  datatype ParsedEntry = ParsedEntry(amount: real, labelText: string)

  /** The label used when nothing descriptive remains. */
  const FallbackLabel: string := "Voice Entry"

  /** The alternatives of `(?:g|grams?|gram)`, in the order backtracking tries them. */
  const UnitWords: seq<string> := ["g", "grams", "gram"]

  /** The alternatives of `(i ate|i had|i drank|with|of protein)`, in order. */
  const Fillers: seq<string> := ["i ate", "i had", "i drank", "with", "of protein"]

  // ----- Word boundaries --------------------------------------------------

  /** Position `i` holds a `\w` character (positions outside the string do not). */
  predicate WordAt(s: string, i: int) { 0 <= i < |s| && IsWordChar(s[i]) }

  /** `\b` at position `i`: a word character on exactly one side. */
  predicate Boundary(s: string, i: int) { WordAt(s, i - 1) != WordAt(s, i) }

  // ----- Numerals ----------------------------------------------------------

  /** Where the run of digits starting at `i` ends. */
  function DigitRunEnd(s: string, i: nat): (e: nat)
    requires i <= |s|
    ensures i <= e <= |s|
    ensures forall m :: i <= m < e ==> IsDigit(s[m])
    ensures e == |s| || !IsDigit(s[e])
    decreases |s| - i
  {
    if i < |s| && IsDigit(s[i]) then DigitRunEnd(s, i + 1) else i
  }

  /** Where the run of white space starting at `i` ends. */
  function SpaceRunEnd(s: string, i: nat): (e: nat)
    requires i <= |s|
    ensures i <= e <= |s|
    ensures forall m :: i <= m < e ==> IsSpace(s[m])
    ensures e == |s| || !IsSpace(s[e])
    decreases |s| - i
  {
    if i < |s| && IsSpace(s[i]) then SpaceRunEnd(s, i + 1) else i
  }

  /** A maximal run is determined by its start: any run that stops at a non-digit is the one DigitRunEnd finds. */
  lemma DigitRunEndIs(s: string, i: nat, e: nat)
    requires i <= e <= |s|
    requires forall m :: i <= m < e ==> IsDigit(s[m])
    requires e == |s| || !IsDigit(s[e])
    ensures DigitRunEnd(s, i) == e
  {
  }

  lemma SpaceRunEndIs(s: string, i: nat, e: nat)
    requires i <= e <= |s|
    requires forall m :: i <= m < e ==> IsSpace(s[m])
    requires e == |s| || !IsSpace(s[e])
    ensures SpaceRunEnd(s, i) == e
  {
  }

  /** `t` has the shape digits `.` digits, with the point at `p`. */
  predicate DecimalAt(t: string, p: int) {
    0 < p < |t| - 1 && t[p] == '.' && AllDigits(t[..p]) && AllDigits(t[p + 1..])
  }

  lemma DecimalShape(s: string, j: nat, e: nat, n: nat)
    requires j < e && e + 1 < n <= |s| && s[e] == '.'
    requires forall m :: j <= m < e ==> IsDigit(s[m])
    requires forall m :: e + 1 <= m < n ==> IsDigit(s[m])
    ensures DecimalAt(s[j..n], e - j)
  {
    var t := s[j..n];
    assert t[..e - j] == s[j..e];
    assert t[e - j + 1..] == s[e + 1..n];
  }

  /** `t` is what `\d+(?:\.\d+)?` matches. */
  ghost predicate IsNumeral(t: string) {
    (|t| > 0 && AllDigits(t)) || exists p :: DecimalAt(t, p)
  }

  /**
   * Where the numeral starting at digit `j` ends: the digits, then a point
   * and more digits if a digit follows the point.
   */
  function NumeralEnd(s: string, j: nat): (n: nat)
    requires j < |s| && IsDigit(s[j])
    ensures j < n <= |s| && IsNumeral(s[j..n])
  {
    var e := DigitRunEnd(s, j);
    if e + 1 < |s| && s[e] == '.' && IsDigit(s[e + 1]) then
      var n := DigitRunEnd(s, e + 1);
      DecimalShape(s, j, e, n);
      n
    else
      assert AllDigits(s[j..e]);
      e
  }

  /** The numeral that ends where the next character is neither a digit nor a point is the one NumeralEnd finds. */
  lemma NumeralEndIs(s: string, j: nat, n: nat)
    requires j < n < |s| && IsNumeral(s[j..n])
    requires !IsDigit(s[n]) && s[n] != '.'
    ensures IsDigit(s[j]) && NumeralEnd(s, j) == n
  {
    var t := s[j..n];
    assert t[0] == s[j];
    if |t| > 0 && AllDigits(t) {
      DigitRunEndIs(s, j, n);
    } else {
      var p :| DecimalAt(t, p);
      assert t[..p][0] == t[0];
      DigitRunEndIs(s, j, j + p);
      assert t[p + 1..][0] == s[j + p + 1];
      forall m | j + p + 1 <= m < n ensures IsDigit(s[m]) {
        assert s[m] == t[p + 1..][m - (j + p + 1)];
      }
      DigitRunEndIs(s, j + p + 1, n);
    }
  }

  /** The value of the digits `t[i..j]`, read as a decimal number. */
  function DigitsValue(t: string, i: nat, j: nat): nat
    requires i <= j <= |t|
    requires forall m :: i <= m < j ==> IsDigit(t[m])
    decreases j - i
  {
    if j == i then 0 else DigitsValue(t, i, j - 1) * 10 + DigitValue(t[j - 1])
  }

  /** A numeral is its leading digits, then possibly a point and at least one more digit. */
  lemma NumeralSplit(t: string)
    requires IsNumeral(t)
    ensures var e := DigitRunEnd(t, 0);
      && 0 < e
      && (e < |t| ==> e + 1 < |t| && t[e] == '.' && forall m :: e + 1 <= m < |t| ==> IsDigit(t[m]))
  {
    var e := DigitRunEnd(t, 0);
    if !(|t| > 0 && AllDigits(t)) {
      var p :| DecimalAt(t, p);
      assert t[..p][0] == t[0];
      DigitRunEndIs(t, 0, p);
      forall m | e + 1 <= m < |t| ensures IsDigit(t[m]) {
        assert t[m] == t[p + 1..][m - p - 1];
      }
    }
  }

  /** The exact decimal value that `parseFloat` approximates: the whole part plus the fraction digits over a power of ten. */
  function NumeralValue(t: string): (v: real)
    requires IsNumeral(t)
    ensures v >= 0.0
  {
    NumeralSplit(t);
    var e := DigitRunEnd(t, 0);
    if e < |t| then
      DigitsValue(t, 0, e) as real + DigitsValue(t, e + 1, |t|) as real / Pow10(|t| - e - 1) as real
    else
      DigitsValue(t, 0, e) as real
  }

  // ----- Matching a word from a list of alternatives ---------------------

  /** `w` occurs at position `i`, ignoring ASCII case (`w` is lower case). */
  predicate HasAt(s: string, i: nat, w: string) {
    i + |w| <= |s| && AgreesFrom(s, i, w, 0)
  }

  /** From its `m`th character on, `w` agrees with `s` read from `i`, after lower-casing `s`. */
  predicate AgreesFrom(s: string, i: nat, w: string, m: nat)
    requires i + |w| <= |s|
    decreases |w| - m
  {
    m >= |w| || (LowerChar(s[i + m]) == w[m] && AgreesFrom(s, i, w, m + 1))
  }

  lemma {:induction false} AgreesFromIsLower(s: string, i: nat, w: string, m: nat)
    requires i + |w| <= |s| && m <= |w|
    ensures AgreesFrom(s, i, w, m) <==> Lower(s[i..i + |w|])[m..] == w[m..]
    decreases |w| - m
  {
    if m < |w| {
      AgreesFromIsLower(s, i, w, m + 1);
      assert Lower(s[i..i + |w|])[m..] == [LowerChar(s[i + m])] + Lower(s[i..i + |w|])[m + 1..];
      assert w[m..] == [w[m]] + w[m + 1..];
    }
  }

  /** `w` occurs at `i` exactly when the lower-cased piece of `s` there is `w`. */
  lemma HasAtIsLower(s: string, i: nat, w: string)
    ensures HasAt(s, i, w) <==> i + |w| <= |s| && Lower(s[i..i + |w|]) == w
  {
    if i + |w| <= |s| {
      AgreesFromIsLower(s, i, w, 0);
    }
  }

  /**
   * `(?:a1|a2|...)\b` at position `i`, trying the alternatives from index
   * `from` on: the index of the first one that occurs at `i` and is followed
   * by a word boundary.
   */
  function FirstAlternative(s: string, i: nat, alts: seq<string>, from: nat): (r: Option<nat>)
    requires from <= |alts|
    ensures r.Some? ==> from <= r.value < |alts| && HasAt(s, i, alts[r.value]) && Boundary(s, i + |alts[r.value]|)
    ensures forall x :: from <= x < (if r.Some? then r.value else |alts|) ==> !(HasAt(s, i, alts[x]) && Boundary(s, i + |alts[x]|))
    decreases |alts| - from
  {
    if from == |alts| then None
    else if HasAt(s, i, alts[from]) && Boundary(s, i + |alts[from]|) then Some(from)
    else FirstAlternative(s, i, alts, from + 1)
  }

  // ----- The unit pattern /(\d+(?:\.\d+)?)\s*(?:g|grams?|gram)\b/i ------

  /** A unit word: `g`, `gram` or `grams`, in any case. */
  predicate IsUnitWord(t: string) { Lower(t) in UnitWords }

  /** After the numeral ending at `n`: white space up to `w`, then a unit word up to `k`, then a boundary. */
  ghost predicate UnitTail(s: string, n: nat, w: nat, k: nat) {
    n <= w < k <= |s| && AllSpace(s[n..w]) && IsUnitWord(s[w..k]) && Boundary(s, k)
  }

  /** The unit pattern matches `s[j..k]`, with the numeral (its capture group) `s[j..n]`. */
  ghost predicate IsUnitMatch(s: string, j: nat, n: nat, k: nat) {
    j < n <= k <= |s| && IsNumeral(s[j..n]) && exists w :: UnitTail(s, n, w, k)
  }

  /** The unit that follows position `w`, as the end of the match. */
  function UnitEnd(s: string, w: nat): (r: Option<nat>)
    ensures r.Some? ==> w < r.value <= |s| && IsUnitWord(s[w..r.value]) && Boundary(s, r.value)
  {
    match FirstAlternative(s, w, UnitWords, 0)
    case Some(x) =>
      HasAtIsLower(s, w, UnitWords[x]);
      Some(w + |UnitWords[x]|)
    case None => None
  }

  /** The unit pattern anchored at digit `j`. */
  function UnitMatchAt(s: string, j: nat): (r: Option<(nat, nat)>)
    requires j < |s| && IsDigit(s[j])
    ensures r.Some? ==> IsUnitMatch(s, j, r.value.0, r.value.1)
  {
    var n := NumeralEnd(s, j);
    var w := SpaceRunEnd(s, n);
    match UnitEnd(s, w)
    case Some(k) =>
      assert AllSpace(s[n..w]);
      assert UnitTail(s, n, w, k);
      Some((n, k))
    case None => None
  }

  lemma LowerAt(t: string, m: nat)
    requires m < |t|
    ensures Lower(t)[m] == LowerChar(t[m])
  {
  }

  /** Any unit match anchored at `j` is the one UnitMatchAt finds: the match at a position is unique. */
  lemma UnitMatchAtComplete(s: string, j: nat, n: nat, k: nat)
    requires IsUnitMatch(s, j, n, k)
    ensures IsDigit(s[j]) && UnitMatchAt(s, j) == Some((n, k))
  {
    var w: nat :| UnitTail(s, n, w, k);
    var u := s[w..k];
    assert Lower(u) in UnitWords;
    LowerAt(u, 0);
    assert Lower(u)[0] == 'g';
    assert s[w] == u[0];
    assert s[w] == 'g' || s[w] == 'G';
    if w > n {
      assert s[n] == s[n..w][0];
    }
    assert IsSpace(s[n]) || s[n] == 'g' || s[n] == 'G';
    NumeralEndIs(s, j, n);
    forall m | n <= m < w ensures IsSpace(s[m]) {
      assert s[m] == s[n..w][m - n];
    }
    SpaceRunEndIs(s, n, w);
    UnitEndComplete(s, w, k);
  }

  /** A unit word is made of word characters, so no boundary falls inside it. */
  lemma UnitWordChars(s: string, w: nat, k: nat)
    requires w < k <= |s| && IsUnitWord(s[w..k])
    ensures k - w == 1 || k - w == 4 || k - w == 5
    ensures forall i :: w <= i < k ==> IsWordChar(s[i])
    ensures forall i :: w < i < k ==> !Boundary(s, i)
  {
    var u := s[w..k];
    LowerKeepsClasses(u);
    var l := Lower(u);
    assert forall m :: 0 <= m < |l| ==> IsWordChar(l[m]);
    forall i | w <= i < k
      ensures IsWordChar(s[i])
    {
      assert s[i] == u[i - w];
    }
  }

  /** The unit word at `w` followed by a boundary at `k` is the one UnitEnd finds. */
  lemma UnitEndComplete(s: string, w: nat, k: nat)
    requires w < k <= |s| && IsUnitWord(s[w..k]) && Boundary(s, k)
    ensures UnitEnd(s, w) == Some(k)
  {
    var l := Lower(s[w..k]);
    UnitWordChars(s, w, k);
    HasAtIsLower(s, w, l);
    if k - w == 1 {
      assert l == "g" && HasAt(s, w, "g");
    } else if k - w == 5 {
      assert !Boundary(s, w + 1);
      assert l == "grams" && HasAt(s, w, "grams");
    } else {
      assert !Boundary(s, w + 1);
      assert l == "gram" && HasAt(s, w, "gram");
      if HasAt(s, w, "grams") {
        GramsBlocksGram(s, w);
      }
    }
  }

  /** Where `grams` occurs, `gram` is not followed by a boundary. */
  lemma GramsBlocksGram(s: string, w: nat)
    requires HasAt(s, w, "grams")
    ensures !Boundary(s, w + 4)
  {
    HasAtIsLower(s, w, "grams");
    UnitWordChars(s, w, w + 5);
  }

  /** The leftmost unit match at or after `from`: what `match` returns for the unit pattern. */
  function FindUnitMatch(s: string, from: nat): (r: Option<(nat, nat, nat)>)
    requires from <= |s|
    ensures r.Some? ==> from <= r.value.0 && IsUnitMatch(s, r.value.0, r.value.1, r.value.2)
    decreases |s| - from
  {
    if from == |s| then None
    else if IsDigit(s[from]) && UnitMatchAt(s, from).Some? then
      var m := UnitMatchAt(s, from).value;
      Some((from, m.0, m.1))
    else
      FindUnitMatch(s, from + 1)
  }

  /** What FindUnitMatch returns is a unit match and no unit match starts earlier; `None` means none starts at all. */
  lemma {:induction false} FindUnitMatchSpec(s: string, from: nat)
    requires from <= |s|
    ensures var r := FindUnitMatch(s, from);
      && (r.Some? ==> forall j: nat, n: nat, k: nat :: from <= j < r.value.0 ==> !IsUnitMatch(s, j, n, k))
      && (r.None? ==> forall j: nat, n: nat, k: nat :: from <= j ==> !IsUnitMatch(s, j, n, k))
    decreases |s| - from
  {
    if from < |s| && !(IsDigit(s[from]) && UnitMatchAt(s, from).Some?) {
      NoUnitMatchAt(s, from);
      FindUnitMatchSpec(s, from + 1);
      var r := FindUnitMatch(s, from);
      assert r == FindUnitMatch(s, from + 1);
      forall j: nat, n: nat, k: nat | from <= j && (r.None? || j < r.value.0)
        ensures !IsUnitMatch(s, j, n, k)
      {
        if j > from {
          assert from + 1 <= j;
        }
      }
    }
  }

  /** Where UnitMatchAt finds nothing, no unit match starts. */
  lemma NoUnitMatchAt(s: string, j: nat)
    requires j < |s| && !(IsDigit(s[j]) && UnitMatchAt(s, j).Some?)
    ensures forall n: nat, k: nat :: !IsUnitMatch(s, j, n, k)
  {
    forall n: nat, k: nat | IsUnitMatch(s, j, n, k) ensures false {
      UnitMatchAtComplete(s, j, n, k);
    }
  }

  // ----- The fallback pattern /\b(\d+(?:\.\d+)?)\b/ ----------------------

  /** The fallback pattern matches `s[j..k]`: a numeral with a word boundary on each side. */
  ghost predicate IsBareMatch(s: string, j: nat, k: nat) {
    j < k <= |s| && Boundary(s, j) && IsNumeral(s[j..k]) && Boundary(s, k)
  }

  /**
   * The fallback pattern anchored at `j`. Backtracking tries the numeral with
   * its fraction first and without it second, so the longer match wins.
   */
  function BareMatchAt(s: string, j: nat): (r: Option<nat>)
    requires j < |s|
    ensures r.Some? ==> IsBareMatch(s, j, r.value)
  {
    if !IsDigit(s[j]) || !Boundary(s, j) then None
    else
      var e := DigitRunEnd(s, j);
      if e + 1 < |s| && s[e] == '.' && IsDigit(s[e + 1]) && Boundary(s, DigitRunEnd(s, e + 1)) then
        var f := DigitRunEnd(s, e + 1);
        DecimalShape(s, j, e, f);
        Some(f)
      else if Boundary(s, e) then
        assert AllDigits(s[j..e]);
        Some(e)
      else None
  }

  /** Every fallback match anchored at `j` is found by BareMatchAt or is shorter than the one it finds. */
  lemma BareMatchAtComplete(s: string, j: nat, k: nat)
    requires IsBareMatch(s, j, k)
    ensures BareMatchAt(s, j).Some? && k <= BareMatchAt(s, j).value
  {
    var t := s[j..k];
    assert t[0] == s[j];
    var e := DigitRunEnd(s, j);
    if |t| > 0 && AllDigits(t) {
      assert IsWordChar(s[k - 1]);
      assert k == |s| || !IsDigit(s[k]);
      DigitRunEndIs(s, j, k);
    } else {
      var p :| DecimalAt(t, p);
      assert t[..p][0] == t[0];
      DigitRunEndIs(s, j, j + p);
      assert t[p + 1..][0] == s[j + p + 1];
      forall m | j + p + 1 <= m < k ensures IsDigit(s[m]) {
        assert s[m] == t[p + 1..][m - (j + p + 1)];
      }
      assert IsWordChar(s[k - 1]);
      DigitRunEndIs(s, j + p + 1, k);
    }
  }

  /** The leftmost fallback match at or after `from`, and at that position the longest. */
  function FindBareMatch(s: string, from: nat): (r: Option<(nat, nat)>)
    requires from <= |s|
    ensures r.Some? ==> from <= r.value.0 && IsBareMatch(s, r.value.0, r.value.1)
    decreases |s| - from
  {
    if from == |s| then None
    else if BareMatchAt(s, from).Some? then Some((from, BareMatchAt(s, from).value))
    else FindBareMatch(s, from + 1)
  }

  /** FindBareMatch returns the leftmost fallback match, the longest at its position; `None` means there is none. */
  lemma {:induction false} FindBareMatchSpec(s: string, from: nat)
    requires from <= |s|
    ensures var r := FindBareMatch(s, from);
      && (r.Some? ==> forall k: nat :: IsBareMatch(s, r.value.0, k) ==> k <= r.value.1)
      && (r.Some? ==> forall j: nat, k: nat :: from <= j < r.value.0 ==> !IsBareMatch(s, j, k))
      && (r.None? ==> forall j: nat, k: nat :: from <= j ==> !IsBareMatch(s, j, k))
    decreases |s| - from
  {
    if from < |s| {
      BareMatchesAt(s, from);
      if BareMatchAt(s, from).None? {
        FindBareMatchSpec(s, from + 1);
      }
    }
  }

  /** No fallback match at `j` is longer than the one BareMatchAt finds, and none exists when it finds none. */
  lemma BareMatchesAt(s: string, j: nat)
    requires j < |s|
    ensures BareMatchAt(s, j).Some? ==> forall k: nat :: IsBareMatch(s, j, k) ==> k <= BareMatchAt(s, j).value
    ensures BareMatchAt(s, j).None? ==> forall k: nat :: !IsBareMatch(s, j, k)
  {
    forall k: nat | IsBareMatch(s, j, k) ensures BareMatchAt(s, j).Some? && k <= BareMatchAt(s, j).value {
      BareMatchAtComplete(s, j, k);
    }
  }

  // ----- Removing the matched span ---------------------------------------

  /**
   * Pattern character `pc` accepts `c` under the `i` flag. When the pattern is
   * read as a regular expression (`asRegex`), `.` accepts any character but a
   * line terminator; otherwise it stands for itself.
   */
  predicate CharAccepts(pc: char, c: char, asRegex: bool) {
    if asRegex && pc == '.' then !IsLineTerminator(c) else FoldEq(pc, c)
  }

  /** `pat` occurs in `text` at position `p`. */
  predicate PatternAt(text: string, p: nat, pat: string, asRegex: bool) {
    p + |pat| <= |text| && PatternFrom(text, p, pat, asRegex, 0)
  }

  /** From its `m`th character on, `pat` accepts `text` read from `p`. */
  predicate PatternFrom(text: string, p: nat, pat: string, asRegex: bool, m: nat)
    requires p + |pat| <= |text|
    decreases |pat| - m
  {
    m >= |pat| || (CharAccepts(pat[m], text[p + m], asRegex) && PatternFrom(text, p, pat, asRegex, m + 1))
  }

  lemma {:induction false} PatternFromChars(text: string, p: nat, pat: string, asRegex: bool, m: nat)
    requires p + |pat| <= |text|
    ensures PatternFrom(text, p, pat, asRegex, m)
        <==> forall x :: m <= x < |pat| ==> CharAccepts(pat[x], text[p + x], asRegex)
    decreases |pat| - m
  {
    if m < |pat| {
      PatternFromChars(text, p, pat, asRegex, m + 1);
    }
  }

  lemma PatternAtChars(text: string, p: nat, pat: string, asRegex: bool)
    requires p + |pat| <= |text|
    requires forall x :: 0 <= x < |pat| ==> CharAccepts(pat[x], text[p + x], asRegex)
    ensures PatternAt(text, p, pat, asRegex)
  {
    PatternFromChars(text, p, pat, asRegex, 0);
  }

  /** The leftmost occurrence of `pat` at or after `from`. */
  function FirstPatternAt(text: string, pat: string, asRegex: bool, from: nat): (r: Option<nat>)
    requires from <= |text|
    ensures r.Some? ==> from <= r.value && PatternAt(text, r.value, pat, asRegex)
    ensures forall p: nat :: from <= p && (r.None? || p < r.value) ==> !PatternAt(text, p, pat, asRegex)
    decreases |text| - from
  {
    if PatternAt(text, from, pat, asRegex) then Some(from)
    else if from == |text| then None
    else FirstPatternAt(text, pat, asRegex, from + 1)
  }

  /**
   * `text.replace(new RegExp(pat, 'i'), '')` when `asRegex`, and the removal
   * of the first literal, case-insensitive occurrence of `pat` otherwise.
   */
  function RemoveFirst(text: string, pat: string, asRegex: bool): string {
    match FirstPatternAt(text, pat, asRegex, 0)
    case Some(p) => text[..p] + text[p + |pat|..]
    case None => text
  }

  /** Read literally, an occurrence of `pat` is a piece of `text` equal to it up to ASCII case. */
  lemma LiteralPatternAt(text: string, p: nat, pat: string)
    requires p + |pat| <= |text|
    ensures PatternAt(text, p, pat, false) <==> Lower(text[p..p + |pat|]) == Lower(pat)
  {
    PatternFromChars(text, p, pat, false, 0);
    if Lower(text[p..p + |pat|]) == Lower(pat) {
      forall m | 0 <= m < |pat| ensures CharAccepts(pat[m], text[p + m], false) {
        assert Lower(pat)[m] == Lower(text[p..p + |pat|])[m];
      }
    }
  }

  /** The first occurrence is what is cut out, and the rest of `text` is kept in order. */
  lemma RemoveFirstCuts(text: string, pat: string, asRegex: bool, p: nat)
    requires PatternAt(text, p, pat, asRegex)
    requires forall q: nat :: q < p ==> !PatternAt(text, q, pat, asRegex)
    ensures RemoveFirst(text, pat, asRegex) == text[..p] + text[p + |pat|..]
  {
    var r := FirstPatternAt(text, pat, asRegex, 0);
    assert r.Some? && r.value == p;
  }

  // ----- Removing the filler phrases -------------------------------------

  /** `\b(i ate|i had|i drank|with|of protein)\b` at `p`, ignoring case: the length of the filler found there. */
  function FillerAt(s: string, p: nat): Option<nat> {
    if Boundary(s, p) then
      match FirstAlternative(s, p, Fillers, 0)
      case Some(x) => Some(|Fillers[x]|)
      case None => None
    else None
  }

  /** `s[p..q]` is a whole-word, case-insensitive occurrence of a filler phrase. */
  ghost predicate FillerOccurrence(s: string, p: nat, q: nat) {
    p < q <= |s| && Boundary(s, p) && Lower(s[p..q]) in Fillers && Boundary(s, q)
  }

  /** `.replace(/\b(...)\b/gi, '')` continued from position `p`: every filler the scan meets is dropped. */
  function StripFillersFrom(s: string, p: nat): string
    requires p <= |s|
    decreases |s| - p
  {
    if p == |s| then []
    else
      match FillerAt(s, p)
      case Some(len) => StripFillersFrom(s, p + len)
      case None => [s[p]] + StripFillersFrom(s, p + 1)
  }

  function StripFillers(s: string): string {
    StripFillersFrom(s, 0)
  }

  /** No filler phrase is a prefix of another. */
  lemma FillersPrefixFree(f: string, g: string)
    requires f in Fillers && g in Fillers && |f| <= |g| && g[..|f|] == f
    ensures f == g
  {
    assert g[0] == f[0] && g[2] == f[2] && g[3] == f[3];
  }

  /** At most one filler occurrence starts at a position. */
  lemma FillerOccurrenceUnique(s: string, p: nat, q1: nat, q2: nat)
    requires FillerOccurrence(s, p, q1) && FillerOccurrence(s, p, q2)
    ensures q1 == q2
  {
    if q1 < q2 {
      LowerSlice(s[p..q2], 0, q1 - p);
      assert s[p..q2][0..q1 - p] == s[p..q1];
      FillersPrefixFree(Lower(s[p..q1]), Lower(s[p..q2]));
    } else if q2 < q1 {
      LowerSlice(s[p..q1], 0, q2 - p);
      assert s[p..q1][0..q2 - p] == s[p..q2];
      FillersPrefixFree(Lower(s[p..q2]), Lower(s[p..q1]));
    }
  }

  /** Inside a filler phrase, a word starts only after its space, and never with `i`, `w` or `o`. */
  lemma FillerInnerWords(f: string, m: nat)
    requires f in Fillers && 0 < m < |f|
    requires IsWordChar(f[m]) && !IsWordChar(f[m - 1])
    ensures f[m] != 'i' && f[m] != 'w' && f[m] != 'o'
  {
  }

  /** Two whole-word filler occurrences never overlap. */
  lemma FillerOccurrencesApart(s: string, p1: nat, q1: nat, p2: nat, q2: nat)
    requires FillerOccurrence(s, p1, q1) && FillerOccurrence(s, p2, q2) && p1 < p2
    ensures q1 <= p2
  {
    if p2 < q1 {
      FillerFirstChar(s, p2, q2);
      LowerCharKeepsClasses(s[p2]);
      LowerCharKeepsClasses(s[p2 - 1]);
      LowerInside(s, p1, q1, p2);
      LowerInside(s, p1, q1, p2 - 1);
      FillerInnerWords(Lower(s[p1..q1]), p2 - p1);
    }
  }

  /** A filler occurrence starts with a word character that folds to `i`, `w` or `o`. */
  lemma FillerFirstChar(s: string, p: nat, q: nat)
    requires FillerOccurrence(s, p, q)
    ensures IsWordChar(s[p]) && (LowerChar(s[p]) == 'i' || LowerChar(s[p]) == 'w' || LowerChar(s[p]) == 'o')
  {
    LowerInside(s, p, q, p);
    LowerCharKeepsClasses(s[p]);
  }

  lemma LowerInside(s: string, p: nat, q: nat, i: nat)
    requires p <= i < q <= |s|
    ensures |Lower(s[p..q])| == q - p && Lower(s[p..q])[i - p] == LowerChar(s[i])
  {
    assert s[p..q][i - p] == s[i];
  }

  /** What FillerAt finds is a filler occurrence. */
  lemma FillerAtSound(s: string, p: nat)
    requires FillerAt(s, p).Some?
    ensures FillerOccurrence(s, p, p + FillerAt(s, p).value)
  {
    var x := FirstAlternative(s, p, Fillers, 0).value;
    HasAtIsLower(s, p, Fillers[x]);
  }

  /** FillerAt finds every filler occurrence that starts at `p`. */
  lemma FillerAtComplete(s: string, p: nat, q: nat)
    requires FillerOccurrence(s, p, q)
    ensures FillerAt(s, p) == Some(q - p)
  {
    var a := Lower(s[p..q]);
    HasAtIsLower(s, p, a);
    assert FillerAt(s, p).Some?;
    FillerAtSound(s, p);
    FillerOccurrenceUnique(s, p, q, p + FillerAt(s, p).value);
  }

  /** Position `i` lies inside a filler occurrence. */
  ghost predicate Covered(s: string, i: nat) {
    exists p: nat, q: nat :: p <= i < q && FillerOccurrence(s, p, q)
  }

  /** The characters of `s` from `i` on that lie inside no filler occurrence, in order. */
  ghost function Uncovered(s: string, i: nat): string
    requires i <= |s|
    decreases |s| - i
  {
    if i == |s| then [] else (if Covered(s, i) then [] else [s[i]]) + Uncovered(s, i + 1)
  }

  lemma {:induction false} UncoveredSkips(s: string, i: nat, j: nat)
    requires i <= j <= |s|
    requires forall m: nat :: i <= m < j ==> Covered(s, m)
    ensures Uncovered(s, i) == Uncovered(s, j)
    decreases j - i
  {
    if i < j {
      UncoveredSkips(s, i + 1, j);
    }
  }

  /** No filler occurrence starts before `p` and ends after it. */
  ghost predicate NotInsideFiller(s: string, p: nat) {
    forall p1: nat, q1: nat :: FillerOccurrence(s, p1, q1) && p1 < p ==> q1 <= p
  }

  lemma NotInsideAfterFiller(s: string, p: nat, q: nat)
    requires NotInsideFiller(s, p) && FillerOccurrence(s, p, q)
    ensures NotInsideFiller(s, q)
  {
    forall p1: nat, q1: nat | FillerOccurrence(s, p1, q1) && p1 < q ensures q1 <= q {
      if p < p1 {
        FillerOccurrencesApart(s, p, q, p1, q1);
      } else if p1 == p {
        FillerOccurrenceUnique(s, p, q, q1);
      }
    }
  }

  /** Where no filler starts, the character is kept and the scan moves on. */
  lemma NotInsideAfterPlain(s: string, p: nat)
    requires p < |s| && NotInsideFiller(s, p) && FillerAt(s, p).None?
    ensures !Covered(s, p) && NotInsideFiller(s, p + 1)
  {
    forall p1: nat, q1: nat | FillerOccurrence(s, p1, q1) && p1 <= p ensures q1 <= p {
      if p1 == p {
        FillerAtComplete(s, p, q1);
      }
    }
  }

  /** A filler found by the scan is skipped by Uncovered too, and the scan resumes outside every filler. */
  lemma SkipFiller(s: string, p: nat)
    requires p < |s| && NotInsideFiller(s, p) && FillerAt(s, p).Some?
    ensures p + FillerAt(s, p).value <= |s|
    ensures Uncovered(s, p) == Uncovered(s, p + FillerAt(s, p).value)
    ensures NotInsideFiller(s, p + FillerAt(s, p).value)
  {
    var q := p + FillerAt(s, p).value;
    FillerAtSound(s, p);
    forall m: nat | p <= m < q ensures Covered(s, m) {
      InsideCovered(s, p, q, m);
    }
    UncoveredSkips(s, p, q);
    NotInsideAfterFiller(s, p, q);
  }

  lemma InsideCovered(s: string, p: nat, q: nat, m: nat)
    requires FillerOccurrence(s, p, q) && p <= m < q
    ensures Covered(s, m)
  {
  }

  lemma {:induction false} StripFillersFromIsUncovered(s: string, p: nat)
    requires p <= |s| && NotInsideFiller(s, p)
    ensures StripFillersFrom(s, p) == Uncovered(s, p)
    decreases |s| - p
  {
    if p < |s| {
      match FillerAt(s, p)
      case Some(len) =>
        var q := p + len;
        SkipFiller(s, p);
        StripFillersFromIsUncovered(s, q);
      case None =>
        NotInsideAfterPlain(s, p);
        StripFillersFromIsUncovered(s, p + 1);
    }
  }

  /**
   * Stripping the fillers keeps exactly the characters that lie inside no
   * whole-word, case-insensitive occurrence of a filler phrase, in order.
   */
  lemma StripFillersKeepsUncovered(s: string)
    ensures StripFillers(s) == Uncovered(s, 0)
  {
    StripFillersFromIsUncovered(s, 0);
  }

  // ----- Collapsing white space and trimming the edges -------------------

  /** No two white-space characters stand next to each other. */
  predicate NoDoubleSpace(t: string) {
    forall m :: 0 <= m < |t| - 1 ==> !(IsSpace(t[m]) && IsSpace(t[m + 1]))
  }

  /** The characters of `t` that are not white space, in order. */
  function NonSpace(t: string): string {
    if t == [] then [] else (if IsSpace(t[0]) then [] else [t[0]]) + NonSpace(t[1..])
  }

  lemma {:induction false} NonSpaceAppend(a: string, b: string)
    ensures NonSpace(a + b) == NonSpace(a) + NonSpace(b)
    decreases |a|
  {
    if a != [] {
      assert (a + b)[1..] == a[1..] + b;
      NonSpaceAppend(a[1..], b);
    } else {
      assert a + b == b;
    }
  }

  lemma {:induction false} NonSpaceOfSpaces(a: string)
    requires AllSpace(a)
    ensures NonSpace(a) == []
    decreases |a|
  {
    if a != [] {
      NonSpaceOfSpaces(a[1..]);
    }
  }

  /**
   * `.replace(/\s{2,}/g, ' ')` continued from `i`: a run of two or more
   * white-space characters becomes one space, a lone one stays as it is.
   */
  function CollapseSpacesFrom(s: string, i: nat): (r: string)
    requires i <= |s|
    ensures NoDoubleSpace(r)
    ensures r == [] <==> i == |s|
    ensures r != [] ==> IsSpace(r[0]) == IsSpace(s[i])
    ensures NonSpace(r) == NonSpace(s[i..])
    decreases |s| - i
  {
    if i == |s| then []
    else
      var e := SpaceRunEnd(s, i);
      if e >= i + 2 then
        var rest := CollapseSpacesFrom(s, e);
        CollapseStep(s, i, e, ' ', rest);
        [' '] + rest
      else
        var rest := CollapseSpacesFrom(s, i + 1);
        CollapseStep(s, i, i + 1, s[i], rest);
        [s[i]] + rest
  }

  /** One step of the collapse: `c` stands for `s[i..e]`, which is one character or all white space. */
  lemma CollapseStep(s: string, i: nat, e: nat, c: char, rest: string)
    requires i < e <= |s|
    requires e == i + 1 ==> c == s[i]
    requires e > i + 1 ==> c == ' ' && AllSpace(s[i..e])
    requires IsSpace(c) ==> e == |s| || !IsSpace(s[e])
    requires NoDoubleSpace(rest) && (rest == [] <==> e == |s|)
    requires rest != [] ==> IsSpace(rest[0]) == IsSpace(s[e])
    requires NonSpace(rest) == NonSpace(s[e..])
    ensures NoDoubleSpace([c] + rest)
    ensures NonSpace([c] + rest) == NonSpace(s[i..])
  {
    assert s[i..] == s[i..e] + s[e..];
    NonSpaceAppend([c], rest);
    NonSpaceAppend(s[i..e], s[e..]);
    if e > i + 1 {
      NonSpaceOfSpaces(s[i..e]);
    } else {
      assert s[i..e] == [c];
    }
  }

  function CollapseSpaces(s: string): string {
    CollapseSpacesFrom(s, 0)
  }

  /** A string without a double space is left as it is: collapsing is idempotent. */
  lemma {:induction false} CollapseKeepsSingle(s: string, i: nat)
    requires i <= |s| && NoDoubleSpace(s)
    ensures CollapseSpacesFrom(s, i) == s[i..]
    decreases |s| - i
  {
    if i < |s| {
      CollapseKeepsSingle(s, i + 1);
      assert s[i..] == [s[i]] + s[i + 1..];
    }
  }

  lemma CollapseIdempotent(s: string)
    ensures CollapseSpaces(CollapseSpaces(s)) == CollapseSpaces(s)
  {
    CollapseKeepsSingle(CollapseSpaces(s), 0);
  }

  /** Where the characters outside `[a-zA-Z0-9]` that start at `i` end. */
  function NonAlnumRunEnd(s: string, i: nat): (e: nat)
    requires i <= |s|
    ensures i <= e <= |s|
    ensures forall m :: i <= m < e ==> !IsAlnum(s[m])
    ensures e == |s| || IsAlnum(s[e])
    decreases |s| - i
  {
    if i < |s| && !IsAlnum(s[i]) then NonAlnumRunEnd(s, i + 1) else i
  }

  /** Where the characters outside `[a-zA-Z0-9]` that end at `j` start. */
  function NonAlnumRunStart(s: string, j: nat): (b: nat)
    requires j <= |s|
    ensures b <= j
    ensures forall m :: b <= m < j ==> !IsAlnum(s[m])
    ensures b == 0 || IsAlnum(s[b - 1])
  {
    if j > 0 && !IsAlnum(s[j - 1]) then NonAlnumRunStart(s, j - 1) else j
  }

  /**
   * `.replace(/^[^a-zA-Z0-9]+|[^a-zA-Z0-9]+$/g, '')`: what is left is empty
   * or starts and ends with an ASCII letter or digit.
   */
  function TrimNonAlnum(s: string): (r: string)
    ensures r == [] || (IsAlnum(r[0]) && IsAlnum(r[|r| - 1]))
  {
    var a := NonAlnumRunEnd(s, 0);
    if a == |s| then [] else s[a..NonAlnumRunStart(s, |s|)]
  }

  /**
   * The trimmed string is the infix left once the longest prefix and the
   * longest suffix without letters and digits are dropped.
   */
  lemma TrimNonAlnumShape(s: string)
    ensures var a, r := NonAlnumRunEnd(s, 0), TrimNonAlnum(s);
      && a + |r| <= |s| && r == s[a..a + |r|]
      && (forall m :: 0 <= m < a ==> !IsAlnum(s[m]))
      && (forall m :: a + |r| <= m < |s| ==> !IsAlnum(s[m]))
  {
    var a := NonAlnumRunEnd(s, 0);
    if a < |s| {
      var b := NonAlnumRunStart(s, |s|);
      assert a < b;
      assert TrimNonAlnum(s) == s[a..b];
    }
  }

  // ----- The label -------------------------------------------------------

  /**
   * What is left of the transcript once the span and the fillers are removed,
   * white space is trimmed and collapsed, and the ends lose every character
   * that is not a letter or digit.
   */
  function Residue(text: string, span: string, asRegex: bool): string {
    Tidy(RemoveFirst(text, span, asRegex))
  }

  /** What `extractLabel` does to the transcript once the amount is cut out: fillers stripped, spaces collapsed, ends cleaned. */
  function Tidy(cut: string): string {
    Trim(TrimNonAlnum(CollapseSpaces(Trim(StripFillers(cut)))))
  }

  lemma NoDoubleSpaceInfix(t: string, a: nat, b: nat)
    requires a <= b <= |t| && NoDoubleSpace(t)
    ensures NoDoubleSpace(t[a..b])
  {
    assert forall m :: 0 <= m < b - a ==> t[a..b][m] == t[a + m];
  }

  /** Trimming the non-alphanumeric ends leaves nothing for `trim` to do and keeps single spacing. */
  lemma TrimNonAlnumClean(c: string)
    requires NoDoubleSpace(c)
    ensures var y := TrimNonAlnum(c); Trim(y) == y && NoDoubleSpace(y)
  {
    var y := TrimNonAlnum(c);
    TrimNonAlnumShape(c);
    var a := NonAlnumRunEnd(c, 0);
    NoDoubleSpaceInfix(c, a, a + |y|);
    if y != [] {
      AlnumNotSpace(y[0]);
      AlnumNotSpace(y[|y| - 1]);
    }
    TrimUnchanged(y);
  }

  /** The residue is empty or has a letter or digit at each end, and no two white-space characters in a row. */
  lemma ResidueShape(text: string, span: string, asRegex: bool)
    ensures var r := Residue(text, span, asRegex);
      r == [] || (IsAlnum(r[0]) && IsAlnum(r[|r| - 1]) && NoDoubleSpace(r))
  {
    TidyShape(RemoveFirst(text, span, asRegex));
  }

  /** Tidying leaves nothing, or text with a letter or digit at each end and no two white-space characters in a row. */
  lemma TidyShape(cut: string)
    ensures var r := Tidy(cut);
      r == [] || (IsAlnum(r[0]) && IsAlnum(r[|r| - 1]) && NoDoubleSpace(r))
  {
    var c := CollapseSpaces(Trim(StripFillers(cut)));
    TrimNonAlnumClean(c);
  }

  /** The last step of `extractLabel`: upper-case the first character, or fall back to "Voice Entry". */
  function Capitalize(res: string): (r: string)
    ensures |r| > 0
  {
    if |res| > 0 then [UpperChar(res[0])] + res[1..] else FallbackLabel
  }

  lemma CapitalizeShape(res: string)
    requires res == [] || (IsAlnum(res[0]) && IsAlnum(res[|res| - 1]) && NoDoubleSpace(res))
    ensures var r := Capitalize(res);
      && (res == [] ==> r == FallbackLabel)
      && (res != [] ==>
            && |r| == |res| && r[1..] == res[1..]
            && LowerChar(r[0]) == LowerChar(res[0]) && !('a' <= r[0] <= 'z')
            && IsAlnum(r[0]) && IsAlnum(r[|r| - 1]) && NoDoubleSpace(r))
  {
    if res != [] {
      var r := Capitalize(res);
      UpperCharKeepsAlnum(res[0]);
      assert r[0] == UpperChar(res[0]);
      assert forall m :: 1 <= m < |r| ==> r[m] == res[m];
      if |r| > 1 {
        assert r[|r| - 1] == res[|res| - 1];
      }
    }
  }

  /** `extractLabel`: the residue with its first character upper-cased, or "Voice Entry" when nothing is left. */
  function ExtractLabel(text: string, span: string, asRegex: bool): (r: string)
    ensures |r| > 0
  {
    Capitalize(Residue(text, span, asRegex))
  }

  /**
   * The label is never empty. It is "Voice Entry" when nothing is left;
   * otherwise it is the residue with only its first character upper-cased,
   * it starts and ends with a letter or digit, and it has no two white-space
   * characters in a row.
   */
  lemma LabelShape(text: string, span: string, asRegex: bool)
    ensures var res, r := Residue(text, span, asRegex), ExtractLabel(text, span, asRegex);
      && (res == [] ==> r == FallbackLabel)
      && (res != [] ==>
            && |r| == |res| && r[1..] == res[1..]
            && LowerChar(r[0]) == LowerChar(res[0]) && !('a' <= r[0] <= 'z')
            && IsAlnum(r[0]) && IsAlnum(r[|r| - 1]) && NoDoubleSpace(r))
  {
    var res := Residue(text, span, asRegex);
    ResidueShape(text, span, asRegex);
    CapitalizeShape(res);
    assert ExtractLabel(text, span, asRegex) == Capitalize(res);
  }

  // ----- The parser ------------------------------------------------------

  /** The transcript as the regular expressions see it: trimmed and lower-cased. */
  function Normalize(t: string): string {
    Lower(Trim(t))
  }

  /**
   * The match the parser acts on, as (start, end of the numeral, end of the
   * span) in the normalised text: the unit pattern's when it matches, the
   * fallback's otherwise, whose span is the numeral alone.
   */
  function Chosen(s: string): (r: Option<(nat, nat, nat)>)
    ensures r.Some? ==> r.value.0 <= r.value.1 <= r.value.2 <= |s| && IsNumeral(s[r.value.0..r.value.1])
  {
    match FindUnitMatch(s, 0)
    case Some(m) => Some(m)
    case None =>
      match FindBareMatch(s, 0)
      case Some(m) => Some((m.0, m.1, m.1))
      case None => None
  }

  /**
   * `parseSpokenProteinEntry`, with the span removed as a regular expression
   * (`asRegex`, as the code does) or as literal text. `None` stands for null,
   * undefined and values that are not strings.
   */
  function ParseWith(text: Option<string>, asRegex: bool): (r: Option<ParsedEntry>)
    ensures text.None? || text == Some("") ==> r.None?
    ensures r.Some? ==> r.value.amount >= 0.0 && |r.value.labelText| > 0
  {
    match text
    case None => None
    case Some(t) =>
      if t == "" then None
      else
        var s := Normalize(t);
        match Chosen(s)
        case Some(m) => Some(ParsedEntry(NumeralValue(s[m.0..m.1]), ExtractLabel(t, s[m.0..m.2], asRegex)))
        case None => None
  }

  /** The parser with the first occurrence of the matched span removed as literal text, ignoring case. */
  function Parse(text: Option<string>): Option<ParsedEntry> {
    ParseWith(text, false)
  }

  /** The parser as written: the matched span is compiled into a regular expression (over scalar values, not UTF-16 units). */
  function ParseAsWritten(text: Option<string>): Option<ParsedEntry> {
    ParseWith(text, true)
  }

  // ----- The removal at the matched place --------------------------------

  /**
   * The transcript with the span `j..k` of the normalised text cut out where
   * it was matched: `o` characters further in, `o` being the length of the
   * white space trimmed from the front.
   */
  function CutMatch(t: string, j: nat, k: nat): string {
    var o := |t| - |TrimStart(t)|;
    if j <= k && o + k <= |t| then t[..o + j] + t[o + k..] else t
  }

  /**
   * The parser with the matched span removed where it was matched, rather
   * than at its first occurrence. It chooses the same match as the source and
   * differs from it only in the label.
   */
  function ParseMatched(text: Option<string>): (r: Option<ParsedEntry>)
    ensures text.None? || text == Some("") ==> r.None?
    ensures r.Some? ==> r.value.amount >= 0.0 && |r.value.labelText| > 0
  {
    match text
    case None => None
    case Some(t) =>
      if t == "" then None
      else
        var s := Normalize(t);
        match Chosen(s)
        case Some(m) => Some(ParsedEntry(NumeralValue(s[m.0..m.1]), Capitalize(Tidy(CutMatch(t, m.0, m.2)))))
        case None => None
  }

  /** The cut removes exactly the characters the span was matched against, and keeps the rest in order. */
  lemma CutMatchIsSpan(t: string, j: nat, k: nat)
    requires j <= k <= |Normalize(t)|
    ensures var o := |t| - |TrimStart(t)|;
      && o + k <= |t|
      && CutMatch(t, j, k) == t[..o + j] + t[o + k..]
      && Lower(t[o + j..o + k]) == Normalize(t)[j..k]
  {
    var o := |t| - |TrimStart(t)|;
    SpanFits(t, j, k);
    forall x | 0 <= x < k - j ensures Lower(t[o + j..o + k])[x] == Normalize(t)[j..k][x] {
      NormalizeAt(t, j + x);
    }
  }

  /** The corrected parser returns an entry exactly when the source does, with the same amount. */
  lemma ParseMatchedAgrees(text: Option<string>, asRegex: bool)
    ensures ParseMatched(text).Some? <==> ParseWith(text, asRegex).Some?
    ensures ParseMatched(text).Some? ==> ParseMatched(text).value.amount == ParseWith(text, asRegex).value.amount
  {
  }

  /**
   * The corrected label is the tidied transcript with the piece the amount
   * was matched against cut out, and that piece is the matched span up to case.
   */
  lemma ParseMatchedLabel(t: string, j: nat, n: nat, k: nat)
    requires t != "" && Chosen(Normalize(t)) == Some((j, n, k))
    ensures var o := |t| - |TrimStart(t)|;
      && o + k <= |t|
      && Lower(t[o + j..o + k]) == Normalize(t)[j..k]
      && ParseMatched(Some(t)) == Some(ParsedEntry(NumeralValue(Normalize(t)[j..n]), Capitalize(Tidy(t[..o + j] + t[o + k..]))))
  {
    CutMatchIsSpan(t, j, k);
  }

  /**
   * When the unit pattern matches, the amount is the numeral of the leftmost
   * unit match, even when a bare number comes earlier, and the label is built
   * from that match.
   */
  lemma ParseUnit(t: string, asRegex: bool, j: nat, n: nat, k: nat)
    requires IsUnitMatch(Normalize(t), j, n, k)
    requires forall j1: nat, n1: nat, k1: nat :: j1 < j ==> !IsUnitMatch(Normalize(t), j1, n1, k1)
    ensures ParseWith(Some(t), asRegex)
         == Some(ParsedEntry(NumeralValue(Normalize(t)[j..n]), ExtractLabel(t, Normalize(t)[j..k], asRegex)))
  {
    var s := Normalize(t);
    assert t != "" by {
      LowerKeepsClasses(Trim(t));
    }
    FindUnitMatchSpec(s, 0);
    var m := FindUnitMatch(s, 0);
    assert m.Some?;
    assert m.value.0 == j;
    UnitMatchAtComplete(s, j, n, k);
    UnitMatchAtComplete(s, j, m.value.1, m.value.2);
  }

  /**
   * Without a unit match, the amount is the numeral of the leftmost number
   * with a word boundary on each side (with its fraction when it has one).
   */
  lemma ParseFallback(t: string, asRegex: bool, j: nat, k: nat)
    requires forall j1: nat, n1: nat, k1: nat :: !IsUnitMatch(Normalize(t), j1, n1, k1)
    requires IsBareMatch(Normalize(t), j, k)
    requires forall j1: nat, k1: nat :: j1 < j ==> !IsBareMatch(Normalize(t), j1, k1)
    requires forall k1: nat :: IsBareMatch(Normalize(t), j, k1) ==> k1 <= k
    ensures ParseWith(Some(t), asRegex)
         == Some(ParsedEntry(NumeralValue(Normalize(t)[j..k]), ExtractLabel(t, Normalize(t)[j..k], asRegex)))
  {
    var s := Normalize(t);
    assert t != "" by {
      LowerKeepsClasses(Trim(t));
    }
    NoUnitFound(s);
    BareFound(s, j, k);
    ParseBareStep(t, asRegex, j, k);
  }

  lemma NoUnitFound(s: string)
    requires forall j: nat, n: nat, k: nat :: !IsUnitMatch(s, j, n, k)
    ensures FindUnitMatch(s, 0).None?
  {
  }

  /** The leftmost fallback match, taken at its longest, is the one FindBareMatch returns. */
  lemma BareFound(s: string, j: nat, k: nat)
    requires IsBareMatch(s, j, k)
    requires forall j1: nat, k1: nat :: j1 < j ==> !IsBareMatch(s, j1, k1)
    requires forall k1: nat :: IsBareMatch(s, j, k1) ==> k1 <= k
    ensures FindBareMatch(s, 0) == Some((j, k))
  {
    FindBareMatchSpec(s, 0);
    var m := FindBareMatch(s, 0);
    assert m.Some?;
    assert m.value.0 == j;
  }

  lemma ParseBareStep(t: string, asRegex: bool, j: nat, k: nat)
    requires t != ""
    requires FindUnitMatch(Normalize(t), 0).None? && FindBareMatch(Normalize(t), 0) == Some((j, k))
    ensures ParseWith(Some(t), asRegex)
         == Some(ParsedEntry(NumeralValue(Normalize(t)[j..k]), ExtractLabel(t, Normalize(t)[j..k], asRegex)))
  {
  }

  /** The result is null exactly when the trimmed, lower-cased transcript holds no match of either pattern. */
  lemma ParseNoneIff(t: string, asRegex: bool)
    ensures ParseWith(Some(t), asRegex).None? <==>
      (&& (forall j: nat, n: nat, k: nat :: !IsUnitMatch(Normalize(t), j, n, k))
       && (forall j: nat, k: nat :: !IsBareMatch(Normalize(t), j, k)))
  {
    var s := Normalize(t);
    FindUnitMatchSpec(s, 0);
    FindBareMatchSpec(s, 0);
    if t == "" {
      assert Trim(t) == "";
      assert s == "";
    }
  }

  /** Each character of the normalised text is the lower-cased character of the transcript past the trimmed prefix. */
  lemma NormalizeAt(t: string, i: nat)
    requires i < |Normalize(t)|
    ensures |t| - |TrimStart(t)| + i < |t|
    ensures Normalize(t)[i] == LowerChar(t[|t| - |TrimStart(t)| + i])
  {
    TrimShape(t);
    var tr := Trim(t);
    assert |Normalize(t)| == |tr|;
    assert tr[i] == t[|t| - |TrimStart(t)| + i];
  }

  /** A pattern character accepts the character it was lower-cased from. */
  lemma LowerAccepts(c: char, asRegex: bool)
    ensures CharAccepts(LowerChar(c), c, asRegex)
  {
    LowerCharKeepsClasses(c);
  }

  /** The span, placed past the trimmed prefix, fits in the transcript. */
  lemma SpanFits(t: string, j: nat, k: nat)
    requires j <= k <= |Normalize(t)|
    ensures |t| - |TrimStart(t)| + k <= |t|
  {
    if k > j {
      NormalizeAt(t, k - 1);
    }
  }

  /** Character by character, the span accepts the transcript past the trimmed prefix. */
  lemma SpanAccepts(t: string, j: nat, k: nat, asRegex: bool)
    requires j <= k <= |Normalize(t)|
    ensures forall x :: 0 <= x < k - j ==>
      CharAccepts(Normalize(t)[j..k][x], t[|t| - |TrimStart(t)| + j + x], asRegex)
  {
    var o := |t| - |TrimStart(t)|;
    var span := Normalize(t)[j..k];
    forall x | 0 <= x < |span| ensures CharAccepts(span[x], t[o + j + x], asRegex) {
      NormalizeAt(t, j + x);
      LowerAccepts(t[o + j + x], asRegex);
    }
  }

  /** The span matched in the normalised text occurs in the original at the same place, shifted by the trimmed prefix. */
  lemma {:induction false} SpanOccursInText(t: string, j: nat, k: nat, asRegex: bool)
    requires j <= k <= |Normalize(t)|
    ensures PatternAt(t, |t| - |TrimStart(t)| + j, Normalize(t)[j..k], asRegex)
  {
    SpanFits(t, j, k);
    SpanAccepts(t, j, k, asRegex);
    PatternAtChars(t, |t| - |TrimStart(t)| + j, Normalize(t)[j..k], asRegex);
  }

  /**
   * Read literally, the removal always finds the span, no later than where it
   * was matched, and what it cuts out is equal to the span up to case.
   */
  lemma {:induction false} LiteralRemovalFindsSpan(t: string, j: nat, k: nat)
    requires j <= k <= |Normalize(t)|
    ensures var span := Normalize(t)[j..k];
      var p := FirstPatternAt(t, span, false, 0);
      && p.Some? && p.value <= |t| - |TrimStart(t)| + j
      && Lower(t[p.value..p.value + |span|]) == span
  {
    var span := Normalize(t)[j..k];
    SpanOccursInText(t, j, k, false);
    var p := FirstPatternAt(t, span, false, 0);
    assert p.Some? && p.value <= |t| - |TrimStart(t)| + j;
    NormalizedIsLower(t, j, k);
    LiteralOccurrenceIs(t, p.value, span);
  }

  lemma LiteralOccurrenceIs(text: string, p: nat, pat: string)
    requires PatternAt(text, p, pat, false) && Lower(pat) == pat
    ensures Lower(text[p..p + |pat|]) == pat
  {
    LiteralPatternAt(text, p, pat);
  }

  /** Either way it is read, the removal cuts exactly as many characters as the span has. */
  lemma {:induction false} RemovalCutsSpanLength(t: string, j: nat, k: nat, asRegex: bool)
    requires j <= k <= |Normalize(t)|
    ensures |RemoveFirst(t, Normalize(t)[j..k], asRegex)| == |t| - (k - j)
  {
    SpanOccursInText(t, j, k, asRegex);
    assert FirstPatternAt(t, Normalize(t)[j..k], asRegex, 0).Some?;
  }

  /** A piece of the normalised text is already lower case. */
  lemma NormalizedIsLower(t: string, j: nat, k: nat)
    requires j <= k <= |Normalize(t)|
    ensures Lower(Normalize(t)[j..k]) == Normalize(t)[j..k]
  {
    LowerSlice(Trim(t), j, k);
    LowerIdempotent(Trim(t)[j..k]);
  }
}
