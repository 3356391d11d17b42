/**
 * Characters and strings as the JavaScript code sees them: the character
 * classes of regular expressions without the `u` flag, the white-space set
 * of `String.prototype.trim`, and case mapping restricted to ASCII.
 * A `char` is a Unicode scalar value, so a character outside the Basic
 * Multilingual Plane is one `char` here where JavaScript sees two UTF-16
 * code units.
 */
module Text {

  /** `\d`: the ASCII digits. */
  predicate IsDigit(c: char) { '0' <= c <= '9' }

  predicate IsAsciiLetter(c: char) { 'a' <= c <= 'z' || 'A' <= c <= 'Z' }

  /** The class `[a-zA-Z0-9]`. */
  predicate IsAlnum(c: char) { IsAsciiLetter(c) || IsDigit(c) }

  /** `\w`, the class word boundaries `\b` are defined over. */
  predicate IsWordChar(c: char) { IsAlnum(c) || c == '_' }

  /** `\s`, which is also the set `trim()` removes: white space and line terminators. */
  predicate IsSpace(c: char) {
    || c == '\t' || c == '\n' || c == '\U{B}' || c == '\U{C}' || c == '\r' || c == ' '
    || c == '\U{A0}' || c == '\U{1680}' || ('\U{2000}' <= c <= '\U{200A}')
    || c == '\U{2028}' || c == '\U{2029}' || c == '\U{202F}' || c == '\U{205F}'
    || c == '\U{3000}' || c == '\U{FEFF}'
  }

  /** The characters `.` does not match in a regular expression without the `s` flag. */
  predicate IsLineTerminator(c: char) {
    c == '\n' || c == '\r' || c == '\U{2028}' || c == '\U{2029}'
  }

  /** Letters and digits are not white space. */
  lemma AlnumNotSpace(c: char)
    requires IsAlnum(c)
    ensures !IsSpace(c)
  {
  }

  /** The value of a decimal digit. */
  function DigitValue(c: char): nat
    requires IsDigit(c)
  {
    c as int - '0' as int
  }

  /** The character of a decimal digit. */
  function DigitChar(d: nat): (c: char)
    requires d < 10
    ensures IsDigit(c) && DigitValue(c) == d
  {
    ('0' as int + d) as char
  }

  /** Ten to the power `k`. */
  function Pow10(k: nat): (r: nat)
    ensures r >= 1
  {
    if k == 0 then 1 else 10 * Pow10(k - 1)
  }

  predicate AllSpace(s: string) { forall i :: 0 <= i < |s| ==> IsSpace(s[i]) }

  predicate AllDigits(s: string) { forall i :: 0 <= i < |s| ==> IsDigit(s[i]) }

  /** `toLowerCase` of one character, for ASCII letters. */
  function LowerChar(c: char): char {
    if 'A' <= c <= 'Z' then (c as int + 32) as char else c
  }

  /** `toUpperCase` of one character, for ASCII letters. */
  function UpperChar(c: char): char {
    if 'a' <= c <= 'z' then (c as int - 32) as char else c
  }

  /** Equality under the case folding of the `i` flag, for ASCII letters. */
  predicate FoldEq(a: char, b: char) { LowerChar(a) == LowerChar(b) }

  /** `String.prototype.toLowerCase`, for ASCII letters. */
  function Lower(s: string): string {
    seq(|s|, i requires 0 <= i < |s| => LowerChar(s[i]))
  }

  /** Removes the leading white space (see `TrimStartSpec`). */
  function TrimStart(s: string): (r: string)
    ensures |r| <= |s|
  {
    if |s| > 0 && IsSpace(s[0]) then TrimStart(s[1..]) else s
  }

  /** What is left is the longest suffix that does not start with white space. */
  lemma {:induction false} TrimStartSpec(s: string)
    ensures var r := TrimStart(s);
      && |r| <= |s| && r == s[|s| - |r|..]
      && AllSpace(s[..|s| - |r|])
      && (r == [] || !IsSpace(r[0]))
  {
    if |s| > 0 && IsSpace(s[0]) {
      TrimStartSpec(s[1..]);
      var r := TrimStart(s[1..]);
      assert s[..|s| - |r|] == [s[0]] + s[1..][..|s| - 1 - |r|];
    }
  }

  /** Removes the trailing white space (see `TrimEndSpec`). */
  function TrimEnd(s: string): (r: string)
    ensures |r| <= |s|
  {
    if |s| > 0 && IsSpace(s[|s| - 1]) then TrimEnd(s[..|s| - 1]) else s
  }

  /** What is left is the longest prefix that does not end with white space. */
  lemma {:induction false} TrimEndSpec(s: string)
    ensures var r := TrimEnd(s);
      && |r| <= |s| && r == s[..|r|]
      && AllSpace(s[|r|..])
      && (r == [] || !IsSpace(r[|r| - 1]))
  {
    if |s| > 0 && IsSpace(s[|s| - 1]) {
      TrimEndSpec(s[..|s| - 1]);
      var r := TrimEnd(s[..|s| - 1]);
      assert s[|r|..] == s[..|s| - 1][|r|..] + [s[|s| - 1]];
    }
  }

  /** `String.prototype.trim` (see `TrimSpec` and `TrimShape`). */
  function Trim(s: string): (r: string)
    ensures |r| <= |s|
  {
    TrimEnd(TrimStart(s))
  }

  /** What is left of a trim neither starts nor ends with white space. */
  lemma TrimSpec(s: string)
    ensures var r := Trim(s); r == [] || (!IsSpace(r[0]) && !IsSpace(r[|r| - 1]))
  {
    var t := TrimStart(s);
    TrimStartSpec(s);
    TrimEndSpec(t);
    var r := TrimEnd(t);
    assert r == [] || r[0] == t[0];
  }

  /** The trim of `s` is the infix of `s` between a white-space prefix and a white-space suffix. */
  lemma TrimShape(s: string)
    ensures var o := |s| - |TrimStart(s)|;
      && o + |Trim(s)| <= |s|
      && Trim(s) == s[o..o + |Trim(s)|]
      && AllSpace(s[..o]) && AllSpace(s[o + |Trim(s)|..])
  {
    var t := TrimStart(s);
    var o := |s| - |t|;
    var r := TrimEnd(t);
    TrimStartSpec(s);
    TrimEndSpec(t);
    SuffixSlices(s, o, |r|);
  }

  lemma SuffixSlices(s: string, o: nat, n: nat)
    requires o + n <= |s|
    ensures s[o..][..n] == s[o..o + n] && s[o..][n..] == s[o + n..]
  {
  }

  lemma TrimStartUnchanged(s: string)
    requires s == [] || !IsSpace(s[0])
    ensures TrimStart(s) == s
  {
  }

  lemma TrimEndUnchanged(s: string)
    requires s == [] || !IsSpace(s[|s| - 1])
    ensures TrimEnd(s) == s
  {
  }

  /** A string that neither starts nor ends with white space is its own trim. */
  lemma TrimUnchanged(s: string)
    requires s == [] || (!IsSpace(s[0]) && !IsSpace(s[|s| - 1]))
    ensures Trim(s) == s
  {
    TrimStartUnchanged(s);
    TrimEndUnchanged(s);
  }

  /** Trimming twice is trimming once. */
  lemma TrimIdempotent(s: string)
    ensures Trim(Trim(s)) == Trim(s)
  {
    TrimSpec(s);
    TrimUnchanged(Trim(s));
  }

  /** A string trims to nothing exactly when it is all white space. */
  lemma TrimEmptyIffAllSpace(s: string)
    ensures Trim(s) == [] <==> AllSpace(s)
  {
    TrimShape(s);
    TrimSpec(s);
    var t := TrimStart(s);
    var o := |s| - |t|;
    TrimStartSpec(s);
    if Trim(s) == [] {
      TrimEndSpec(t);
      assert t[0..] == t;
      assert t == [] && s[..o] == s;
    } else {
      var r := Trim(s);
      assert r[0] == s[o];
    }
  }

  lemma LowerCharKeepsClasses(c: char)
    ensures IsSpace(LowerChar(c)) == IsSpace(c)
    ensures IsDigit(LowerChar(c)) == IsDigit(c)
    ensures IsAlnum(LowerChar(c)) == IsAlnum(c)
    ensures IsWordChar(LowerChar(c)) == IsWordChar(c)
    ensures LowerChar(LowerChar(c)) == LowerChar(c)
  {
  }

  /** Lower-casing keeps the length and every character class the parser looks at. */
  lemma LowerKeepsClasses(s: string)
    ensures |Lower(s)| == |s|
    ensures forall i :: 0 <= i < |s| ==> Lower(s)[i] == LowerChar(s[i])
    ensures forall i :: 0 <= i < |s| ==> IsSpace(Lower(s)[i]) == IsSpace(s[i])
    ensures forall i :: 0 <= i < |s| ==> IsDigit(Lower(s)[i]) == IsDigit(s[i])
    ensures forall i :: 0 <= i < |s| ==> IsWordChar(Lower(s)[i]) == IsWordChar(s[i])
  {
    forall i | 0 <= i < |s| ensures IsSpace(Lower(s)[i]) == IsSpace(s[i]) && IsDigit(Lower(s)[i]) == IsDigit(s[i]) && IsWordChar(Lower(s)[i]) == IsWordChar(s[i]) {
      LowerCharKeepsClasses(s[i]);
    }
  }

  lemma LowerSlice(s: string, i: nat, j: nat)
    requires i <= j <= |s|
    ensures Lower(s)[i..j] == Lower(s[i..j])
  {
  }

  /** Lower-casing twice is lower-casing once. */
  lemma LowerIdempotent(s: string)
    ensures Lower(Lower(s)) == Lower(s)
  {
    forall i | 0 <= i < |s| ensures Lower(Lower(s))[i] == Lower(s)[i] {
      LowerCharKeepsClasses(s[i]);
    }
  }

  /** Trimming and lower-casing commute, because lower-casing maps white space to white space and nothing else to it. */
  lemma {:induction false} TrimStartLowerCommute(s: string)
    ensures TrimStart(Lower(s)) == Lower(TrimStart(s))
    decreases |s|
  {
    LowerKeepsClasses(s);
    if |s| > 0 && IsSpace(s[0]) {
      assert Lower(s)[1..] == Lower(s[1..]);
      TrimStartLowerCommute(s[1..]);
    }
  }

  lemma {:induction false} TrimEndLowerCommute(s: string)
    ensures TrimEnd(Lower(s)) == Lower(TrimEnd(s))
    decreases |s|
  {
    LowerKeepsClasses(s);
    if |s| > 0 && IsSpace(s[|s| - 1]) {
      assert Lower(s)[..|s| - 1] == Lower(s[..|s| - 1]);
      TrimEndLowerCommute(s[..|s| - 1]);
    }
  }

  lemma TrimLowerCommute(s: string)
    ensures Trim(Lower(s)) == Lower(Trim(s))
  {
    TrimStartLowerCommute(s);
    TrimEndLowerCommute(TrimStart(s));
  }

  /** Upper-casing a letter or digit gives a letter or digit that is not lower case and folds to the same letter. */
  lemma UpperCharKeepsAlnum(c: char)
    requires IsAlnum(c)
    ensures IsAlnum(UpperChar(c)) && !('a' <= UpperChar(c) <= 'z')
    ensures LowerChar(UpperChar(c)) == LowerChar(c)
  {
  }
}
