/**
 * The client-side username check of the web front end (`UsernameValidator`):
 * trim, then length, character and offensive-word checks, first failure wins.
 * Strings are JavaScript strings: sequences of UTF-16 code units, whose
 * `length` counts code units.
 */
module Validator {
  import opened Wrappers

  newtype CodeUnit = x: int | 0 <= x < 0x1_0000

  type JsString = seq<CodeUnit>

  /** The code units of a literal whose characters all lie in the Basic Multilingual Plane. */
  function Units(s: string): (r: JsString)
    requires forall i :: 0 <= i < |s| ==> s[i] as int < 0x1_0000
    ensures |r| == |s|
    ensures forall i :: 0 <= i < |s| ==> r[i] as int == s[i] as int
  {
    seq(|s|, i requires 0 <= i < |s| => s[i] as int as CodeUnit)
  }

  const MinLength: nat := 2
  const MaxLength: nat := 30

  const LengthError: string := "Username must be between 2 and 30 characters"
  const CharactersError: string := "Username can only contain letters, numbers, and spaces"
  const OffensiveError: string := "Please choose a different username"

  /** The word list, as written (all lower case already). */
  const OffensiveWords: seq<JsString> := [Units("badword1"), Units("badword2"), Units("offensive")]

  /**
   * What `trim()` removes and regex `\s` matches: the ECMAScript WhiteSpace
   * code points (tab, vertical tab, form feed, space, no-break space, byte
   * order mark and the other Unicode space separators) and the LineTerminator
   * code points (line feed, carriage return, line and paragraph separators).
   */
  predicate IsSpace(c: CodeUnit) {
    || c == 0x09 || c == 0x0A || c == 0x0B || c == 0x0C || c == 0x0D
    || c == 0x20 || c == 0xA0 || c == 0x1680
    || (0x2000 <= c <= 0x200A)
    || c == 0x2028 || c == 0x2029 || c == 0x202F || c == 0x205F || c == 0x3000 || c == 0xFEFF
  }

  predicate IsLetterOrDigit(c: CodeUnit) {
    (0x41 <= c <= 0x5A) || (0x61 <= c <= 0x7A) || (0x30 <= c <= 0x39)
  }

  /** The number of whitespace code units at the start of `s`. */
  function LeadingSpaces(s: JsString): (n: nat)
    ensures n <= |s|
    ensures forall k :: 0 <= k < n ==> IsSpace(s[k])
    ensures n < |s| ==> !IsSpace(s[n])
    decreases |s|
  {
    if s == [] || !IsSpace(s[0]) then 0 else 1 + LeadingSpaces(s[1..])
  }

  /** The number of whitespace code units at the end of `s`. */
  function TrailingSpaces(s: JsString): (n: nat)
    ensures n <= |s|
    ensures forall k :: |s| - n <= k < |s| ==> IsSpace(s[k])
    ensures n < |s| ==> !IsSpace(s[|s| - n - 1])
    decreases |s|
  {
    if s == [] || !IsSpace(s[|s| - 1]) then 0 else 1 + TrailingSpaces(s[..|s| - 1])
  }

  /**
   * `String.prototype.trim`: `s` without its leading and trailing whitespace.
   * What remains is the slice of `s` that starts after the leading whitespace,
   * is followed only by whitespace, and neither starts nor ends with whitespace.
   */
  function Trim(s: JsString): (r: JsString)
    ensures LeadingSpaces(s) + |r| <= |s| && r == s[LeadingSpaces(s)..LeadingSpaces(s) + |r|]
    ensures forall k :: LeadingSpaces(s) + |r| <= k < |s| ==> IsSpace(s[k])
    ensures r == [] || (!IsSpace(r[0]) && !IsSpace(r[|r| - 1]))
  {
    var rest := s[LeadingSpaces(s)..];
    rest[..|rest| - TrailingSpaces(rest)]
  }

  /** Every code unit of `s` is whitespace. */
  ghost predicate AllSpace(s: JsString) {
    forall k :: 0 <= k < |s| ==> IsSpace(s[k])
  }

  /** `n` is the number of leading whitespace units when exactly the units before `n` are whitespace. */
  lemma LeadingSpacesIs(s: JsString, n: nat)
    requires n <= |s| && (forall k :: 0 <= k < n ==> IsSpace(s[k])) && (n < |s| ==> !IsSpace(s[n]))
    ensures LeadingSpaces(s) == n
  {
  }

  /** `n` is the number of trailing whitespace units when exactly the last `n` units are whitespace. */
  lemma TrailingSpacesIs(s: JsString, n: nat)
    requires n <= |s| && (forall k :: |s| - n <= k < |s| ==> IsSpace(s[k])) && (n < |s| ==> !IsSpace(s[|s| - n - 1]))
    ensures TrailingSpaces(s) == n
  {
  }

  /**
   * Trimming a string that is whitespace, then `t`, then whitespace gives `t`
   * whenever `t` neither starts nor ends with whitespace.
   */
  lemma TrimOfPadded(p: JsString, t: JsString, q: JsString)
    requires AllSpace(p) && AllSpace(q)
    requires t == [] || (!IsSpace(t[0]) && !IsSpace(t[|t| - 1]))
    ensures Trim(p + t + q) == t
  {
    var s := p + t + q;
    if t == [] {
      assert forall k :: 0 <= k < |s| ==> IsSpace(s[k]) by {
        forall k | 0 <= k < |s| ensures IsSpace(s[k]) {
          if k < |p| { assert s[k] == p[k]; } else { assert s[k] == q[k - |p|]; }
        }
      }
      LeadingSpacesIs(s, |s|);
    } else {
      assert forall k :: 0 <= k < |p| ==> s[k] == p[k];
      assert s[|p|] == t[0];
      LeadingSpacesIs(s, |p|);
      var rest := s[|p|..];
      assert rest == t + q;
      assert forall k :: |t| <= k < |rest| ==> rest[k] == q[k - |t|];
      assert rest[|t| - 1] == t[|t| - 1];
      TrailingSpacesIs(rest, |q|);
      assert rest[..|t|] == t;
    }
  }

  /** Trimming twice is trimming once. */
  lemma TrimIdempotent(s: JsString)
    ensures Trim(Trim(s)) == Trim(s)
  {
    var t := Trim(s);
    TrimOfPadded([], t, []);
    assert [] + t + [] == t;
  }

  /** Whitespace added around a string is trimmed away. */
  lemma TrimIgnoresPadding(p: JsString, s: JsString, q: JsString)
    requires AllSpace(p) && AllSpace(q)
    ensures Trim(p + s + q) == Trim(s)
  {
    var t := Trim(s);
    var i := LeadingSpaces(s);
    var front, back := s[..i], s[i + |t|..];
    assert s == front + t + back;
    var p', q' := p + front, back + q;
    assert AllSpace(p') by {
      forall k | 0 <= k < |p'| ensures IsSpace(p'[k]) {
        if k >= |p| { assert p'[k] == s[k - |p|]; }
      }
    }
    assert AllSpace(q') by {
      forall k | 0 <= k < |q'| ensures IsSpace(q'[k]) {
        if k < |back| { assert q'[k] == s[i + |t| + k]; }
      }
    }
    calc {
      p + s + q;
      p + (front + t + back) + q;
      { SeqAssoc(p, front, t, back, q); }
      p' + t + q';
    }
    TrimOfPadded(p', t, q');
  }

  lemma SeqAssoc(a: JsString, b: JsString, c: JsString, d: JsString, e: JsString)
    ensures a + (b + c + d) + e == (a + b) + c + (d + e)
  {
  }

  /** `validateLength`: the trimmed length lies between the two bounds. */
  function ValidateLength(username: JsString): (r: bool)
    ensures r <==> MinLength <= |Trim(username)| <= MaxLength
  {
    var trimmed := Trim(username);
    |trimmed| >= MinLength && |trimmed| <= MaxLength
  }

  /** `/^[a-zA-Z0-9\s]+$/.test(s)`: one or more ASCII letters, digits or whitespace, and nothing else. */
  function MatchesPattern(s: JsString): (r: bool)
    ensures r ==> s != [] && forall k :: 0 <= k < |s| ==> s[k] < 0x80 || IsSpace(s[k])
  {
    |s| >= 1 && forall k :: 0 <= k < |s| ==> IsLetterOrDigit(s[k]) || IsSpace(s[k])
  }

  /** `validateCharacters`: the trimmed name matches the pattern. */
  function ValidateCharacters(username: JsString): (r: bool)
    ensures r ==> Trim(username) != [] && IsLetterOrDigit(Trim(username)[0])
                  && IsLetterOrDigit(Trim(username)[|Trim(username)| - 1])
    ensures r <==> Trim(username) != [] && forall k :: 0 <= k < |Trim(username)| ==>
                      IsLetterOrDigit(Trim(username)[k]) || IsSpace(Trim(username)[k])
  {
    MatchesPattern(Trim(username))
  }

  /** `toLowerCase` on the letters the pattern admits: `A`-`Z` become `a`-`z`, all else is kept. */
  function LowerUnit(c: CodeUnit): (r: CodeUnit)
    ensures 0x41 <= c <= 0x5A ==> r as int == c as int + 0x20
    ensures !(0x41 <= c <= 0x5A) ==> r == c
  {
    if 0x41 <= c <= 0x5A then c + 0x20 else c
  }

  function Lower(s: JsString): (r: JsString)
    ensures |r| == |s| && forall k :: 0 <= k < |s| ==> r[k] == LowerUnit(s[k])
  {
    seq(|s|, k requires 0 <= k < |s| => LowerUnit(s[k]))
  }

  /** `hay.includes(needle)`: `needle` occurs as a contiguous slice of `hay`. */
  predicate Includes(hay: JsString, needle: JsString) {
    exists i: nat | i <= |hay| :: OccursAt(hay, needle, i)
  }

  /** `needle` occurs in `hay` starting at index `i`. */
  predicate OccursAt(hay: JsString, needle: JsString, i: nat) {
    i + |needle| <= |hay| && hay[i..i + |needle|] == needle
  }

  /** `containsOffensiveLanguage`: the lower-cased name includes some lower-cased word of the list. */
  function ContainsOffensiveLanguage(username: JsString): (r: bool)
    ensures r ==> |username| >= 8
  {
    exists w :: w in OffensiveWords && Includes(Lower(username), Lower(w))
  }

  datatype ValidationResult = ValidationResult(isValid: bool, error: Option<string>)

  /**
   * `validate`: trims once, then checks length, characters and words in that
   * order; the first failing check gives its message. It accepts exactly the
   * names the two public checks accept and that include no listed word.
   */
  function Validate(username: JsString): (r: ValidationResult)
    ensures r.isValid <==> r.error.None?
    ensures r.isValid <==> ValidateLength(username) && ValidateCharacters(username)
                           && !ContainsOffensiveLanguage(Trim(username))
    ensures !ValidateLength(username) ==> r.error == Some(LengthError)
    ensures ValidateLength(username) && !ValidateCharacters(username) ==> r.error == Some(CharactersError)
    ensures ValidateLength(username) && ValidateCharacters(username) && ContainsOffensiveLanguage(Trim(username)) ==>
      r.error == Some(OffensiveError)
  {
    var trimmed := Trim(username);
    if |trimmed| < MinLength || |trimmed| > MaxLength then ValidationResult(false, Some(LengthError))
    else if !MatchesPattern(trimmed) then ValidationResult(false, Some(CharactersError))
    else if ContainsOffensiveLanguage(trimmed) then ValidationResult(false, Some(OffensiveError))
    else ValidationResult(true, None)
  }

  /** Surrounding whitespace never changes the verdict or the message. */
  lemma ValidateIgnoresPadding(p: JsString, username: JsString, q: JsString)
    requires AllSpace(p) && AllSpace(q)
    ensures Validate(p + username + q) == Validate(username)
  {
    TrimIgnoresPadding(p, username, q);
  }

  /**
   * An accepted name, once trimmed, is 2 to 30 ASCII letters, digits and
   * spaces that begins and ends with a letter or digit.
   */
  lemma AcceptedShape(username: JsString)
    requires Validate(username).isValid
    ensures 2 <= |Trim(username)| <= 30
    ensures IsLetterOrDigit(Trim(username)[0]) && IsLetterOrDigit(Trim(username)[|Trim(username)| - 1])
    ensures forall k :: 0 <= k < |Trim(username)| ==> IsLetterOrDigit(Trim(username)[k]) || IsSpace(Trim(username)[k])
  {
  }

  lemma LowerSlice(s: JsString, i: nat, j: nat)
    requires i <= j <= |s|
    ensures Lower(s)[i..j] == Lower(s[i..j])
  {
  }

  /** A listed word, in any case, neither starts nor ends with whitespace. */
  lemma WordEndsNotSpace(w: JsString)
    requires Lower(w) in OffensiveWords
    ensures w != [] && !IsSpace(w[0]) && !IsSpace(w[|w| - 1])
  {
    var word := Lower(w);
    assert word[0] == LowerUnit(w[0]) && word[|w| - 1] == LowerUnit(w[|w| - 1]);
  }

  /** Trimming keeps a slice that neither starts nor ends with whitespace. */
  lemma TrimKeepsInner(p: JsString, w: JsString, q: JsString) returns (at: nat)
    requires w != [] && !IsSpace(w[0]) && !IsSpace(w[|w| - 1])
    ensures OccursAt(Trim(p + w + q), w, at)
  {
    var s := p + w + q;
    var t := Trim(s);
    var i := LeadingSpaces(s);
    assert s[|p|] == w[0];
    assert s[|p| + |w| - 1] == w[|w| - 1];
    assert i <= |p|;
    assert |p| + |w| <= i + |t|;
    at := |p| - i;
    forall k | 0 <= k < |w| ensures t[at + k] == w[k] {
      assert t[at + k] == s[|p| + k];
    }
  }

  /** Lower-casing keeps an occurrence, lower-cased. */
  lemma LowerKeepsOccurrence(t: JsString, w: JsString, at: nat)
    requires OccursAt(t, w, at)
    ensures OccursAt(Lower(t), Lower(w), at)
  {
    LowerSlice(t, at, at + |w|);
  }

  /**
   * A name that includes a listed word, in any mix of upper and lower case,
   * is rejected, whatever surrounds it.
   */
  lemma OffensiveRejected(p: JsString, w: JsString, q: JsString)
    requires Lower(w) in OffensiveWords
    ensures !Validate(p + w + q).isValid
  {
    WordEndsNotSpace(w);
    var at := TrimKeepsInner(p, w, q);
    var t := Trim(p + w + q);
    LowerKeepsOccurrence(t, w, at);
    assert Lower(Lower(w)) == Lower(w);
    assert Includes(Lower(t), Lower(Lower(w)));
  }
}
