/**
 * The contact form's `validateForm` (assets/js/main.js): every control that
 * carries the `required` attribute must be non-blank once trimmed, and a
 * control of type `email` must in addition match
 * `/^[^\s@]+@[^\s@]+\.[^\s@]+$/`, tested on its untrimmed value.
 */
module FormValidation {
  import opened Wrappers

  /**
   * A required form control: its current `value` and its `type` property,
   * the normalised lower-case keyword (`type="EMAIL"` reads as `email`).
   */
  datatype Field = Field(value: string, inputType: string)

  /** Why a field is rejected; the page shows one message for each. */
  datatype Problem = MissingValue | InvalidFormat

  /**
   * The ECMAScript WhiteSpace and LineTerminator characters: exactly the
   * set that `String.prototype.trim` strips and that `\s` matches.
   */
  predicate IsJsWhitespace(c: char) {
    c in JsWhitespace
  }

  const JsWhitespace: set<char> := {
    '\t', '\n', '\U{000B}', '\U{000C}', '\r', ' ', '\U{00A0}', '\U{1680}',
    '\U{2000}', '\U{2001}', '\U{2002}', '\U{2003}', '\U{2004}', '\U{2005}',
    '\U{2006}', '\U{2007}', '\U{2008}', '\U{2009}', '\U{200A}',
    '\U{2028}', '\U{2029}', '\U{202F}', '\U{205F}', '\U{3000}', '\U{FEFF}'
  }

  predicate AllWhitespace(s: string) {
    forall i | 0 <= i < |s| :: IsJsWhitespace(s[i])
  }

  /** Drops leading whitespace. */
  function TrimStart(s: string): (r: string)
    ensures |r| <= |s| && r == s[|s| - |r|..]
    ensures AllWhitespace(s[..|s| - |r|])
    ensures r != [] ==> !IsJsWhitespace(r[0])
    ensures r == [] <==> AllWhitespace(s)
  {
    if s != [] && IsJsWhitespace(s[0]) then TrimStart(s[1..]) else s
  }

  /** Drops trailing whitespace. */
  function TrimEnd(s: string): (r: string)
    ensures |r| <= |s| && r == s[..|r|]
    ensures AllWhitespace(s[|r|..])
    ensures r != [] ==> !IsJsWhitespace(r[|r| - 1])
    ensures r == [] <==> AllWhitespace(s)
  {
    if s != [] && IsJsWhitespace(s[|s| - 1]) then TrimEnd(s[..|s| - 1]) else s
  }

  /** `r` is `s` without some whitespace prefix and some whitespace suffix. */
  predicate IsSliceBetweenWhitespace(r: string, s: string) {
    exists i, j | 0 <= i <= j <= |s| :: r == s[i..j] && AllWhitespace(s[..i]) && AllWhitespace(s[j..])
  }

  /** Trimming the front and then the back leaves a slice between whitespace. */
  lemma SliceOfSlice(s: string, t: string, r: string)
    requires |t| <= |s| && t == s[|s| - |t|..] && AllWhitespace(s[..|s| - |t|])
    requires |r| <= |t| && r == t[..|r|] && AllWhitespace(t[|r|..])
    ensures IsSliceBetweenWhitespace(r, s)
  {
    var i := |s| - |t|;
    var j := i + |r|;
    assert r == s[i..j];
    assert s[j..] == t[|r|..];
  }

  /** `String.prototype.trim`. */
  function Trim(s: string): (r: string)
    ensures IsSliceBetweenWhitespace(r, s)
    ensures r != [] ==> !IsJsWhitespace(r[0]) && !IsJsWhitespace(r[|r| - 1])
    ensures r == [] <==> AllWhitespace(s)
  {
    var t := TrimStart(s);
    var r := TrimEnd(t);
    SliceOfSlice(s, t, r);
    r
  }

  /** The character class `[^\s@]`. */
  predicate InPartClass(c: char) {
    !IsJsWhitespace(c) && c != '@'
  }

  /** `[^\s@]+`: a non-empty run of characters of that class. */
  predicate IsPart(t: string) {
    |t| > 0 && forall i | 0 <= i < |t| :: InPartClass(t[i])
  }

  /**
   * The language of the anchored pattern `^[^\s@]+@[^\s@]+\.[^\s@]+$`:
   * `s` splits at an `@` (index a) and a later `.` (index k) into three
   * non-empty parts of the class `[^\s@]`.
   */
  predicate MatchesEmailPattern(s: string) {
    exists a, k | 0 <= a < k < |s| ::
      && IsPart(s[..a]) && s[a] == '@'
      && IsPart(s[a + 1..k]) && s[k] == '.'
      && IsPart(s[k + 1..])
  }

  /**
   * The same language described by its shape: no whitespace anywhere,
   * exactly one `@`, preceded by at least one character, and a `.` after
   * the `@` with at least one character on either side of it.
   */
  predicate EmailShape(s: string) {
    && (forall i | 0 <= i < |s| :: !IsJsWhitespace(s[i]))
    && exists a | 0 < a < |s| ::
         && s[a] == '@'
         && (forall j | 0 <= j < |s| && j != a :: s[j] != '@')
         && exists k | a + 1 < k < |s| - 1 :: s[k] == '.'
  }

  lemma PatternHasShape(s: string, a: int, k: int)
    requires 0 <= a < k < |s|
    requires IsPart(s[..a]) && s[a] == '@' && IsPart(s[a + 1..k]) && s[k] == '.' && IsPart(s[k + 1..])
    ensures EmailShape(s)
  {
    forall i | 0 <= i < |s|
      ensures InPartClass(s[i]) || i == a
    {
      if i < a {
        assert s[i] == s[..a][i];
      } else if a < i < k {
        assert s[i] == s[a + 1..k][i - a - 1];
      } else if k < i {
        assert s[i] == s[k + 1..][i - k - 1];
      } else if i == k {
        assert !IsJsWhitespace('.');
      }
    }
    assert a + 1 < k < |s| - 1 && s[k] == '.';
  }

  lemma ShapeHasPattern(s: string, a: int, k: int)
    requires forall i | 0 <= i < |s| :: !IsJsWhitespace(s[i])
    requires 0 < a < |s| && s[a] == '@'
    requires forall j | 0 <= j < |s| && j != a :: s[j] != '@'
    requires a + 1 < k < |s| - 1 && s[k] == '.'
    ensures MatchesEmailPattern(s)
  {
    assert IsPart(s[..a]) by {
      forall i | 0 <= i < a ensures InPartClass(s[..a][i]) {
        assert s[..a][i] == s[i];
      }
    }
    var domain := s[a + 1..k];
    assert IsPart(domain) by {
      forall i | 0 <= i < |domain| ensures InPartClass(domain[i]) {
        assert domain[i] == s[a + 1 + i];
      }
    }
    var tld := s[k + 1..];
    assert IsPart(tld) by {
      forall i | 0 <= i < |tld| ensures InPartClass(tld[i]) {
        assert tld[i] == s[k + 1 + i];
      }
    }
  }

  /** The pattern accepts exactly the strings of the described shape. */
  lemma EmailPatternIff(s: string)
    ensures MatchesEmailPattern(s) <==> EmailShape(s)
  {
    if MatchesEmailPattern(s) {
      var a, k :| 0 <= a < k < |s| && IsPart(s[..a]) && s[a] == '@'
        && IsPart(s[a + 1..k]) && s[k] == '.' && IsPart(s[k + 1..]);
      PatternHasShape(s, a, k);
    }
    if EmailShape(s) {
      var a :| 0 < a < |s| && s[a] == '@' && (forall j | 0 <= j < |s| && j != a :: s[j] != '@')
        && exists k | a + 1 < k < |s| - 1 :: s[k] == '.';
      var k :| a + 1 < k < |s| - 1 && s[k] == '.';
      ShapeHasPattern(s, a, k);
    }
  }

  /** The rejection rule in terms of the value's shape. */
  predicate Rejected(f: Field) {
    || AllWhitespace(f.value)
    || (f.inputType == "email" && !AllWhitespace(f.value) && !EmailShape(f.value))
  }

  /** What `validateForm` reports for one required field, if anything. */
  function FieldProblem(f: Field): Option<Problem> {
    if Trim(f.value) == [] then Some(MissingValue)
    else if f.inputType == "email" && !MatchesEmailPattern(f.value) then Some(InvalidFormat)
    else None
  }

  /**
   * A field is reported missing iff its value is all whitespace, and badly
   * formatted iff it is an email field with a non-blank value that does not
   * have the email shape; otherwise it passes.
   */
  lemma FieldProblemIff(f: Field)
    ensures FieldProblem(f) == Some(MissingValue) <==> AllWhitespace(f.value)
    ensures FieldProblem(f) == Some(InvalidFormat)
        <==> f.inputType == "email" && !AllWhitespace(f.value) && !EmailShape(f.value)
    ensures FieldProblem(f) == None <==> !Rejected(f)
  {
    EmailPatternIff(f.value);
  }

  predicate AllPass(fields: seq<Field>, n: int)
    requires 0 <= n <= |fields|
  {
    forall j | 0 <= j < n :: FieldProblem(fields[j]) == None
  }

  lemma AllPassExtend(fields: seq<Field>, n: int)
    requires 0 <= n < |fields|
    ensures AllPass(fields, n + 1) <==> AllPass(fields, n) && FieldProblem(fields[n]) == None
  {
  }

  /** `validateForm`: the loop over the required fields accumulating `isValid`. */
  method ValidateForm(required: seq<Field>) returns (isValid: bool)
    ensures isValid <==> forall i | 0 <= i < |required| :: FieldProblem(required[i]) == None
    ensures !isValid <==> exists i | 0 <= i < |required| :: Rejected(required[i])
  {
    isValid := true;
    for i := 0 to |required|
      invariant isValid <==> AllPass(required, i)
    {
      var field := required[i];
      var trimmed := Trim(field.value);
      if trimmed == [] {
        isValid := false;
      }
      if field.inputType == "email" && trimmed != [] {
        var matches := MatchesEmailPattern(field.value);
        if !matches {
          isValid := false;
        }
      }
      assert FieldProblem(field) == None
        <==> trimmed != [] && !(field.inputType == "email" && !MatchesEmailPattern(field.value));
      AllPassExtend(required, i);
    }
    forall i | 0 <= i < |required| ensures FieldProblem(required[i]) == None <==> !Rejected(required[i]) {
      FieldProblemIff(required[i]);
    }
  }

  /** A typical address passes the pattern. */
  lemma AcceptsUserAtExampleCom()
    ensures MatchesEmailPattern("user@example.com")
  {
    var s := "user@example.com";
    ShapeHasPattern(s, 4, 12);
  }

  /** No top-level domain, or an empty label before the dot: both rejected. */
  lemma RejectsMissingDomainParts()
    ensures !MatchesEmailPattern("a@b")
    ensures !MatchesEmailPattern("a@.b")
  {
    EmailPatternIff("a@b");
    EmailPatternIff("a@.b");
  }

  /**
   * The pattern is tested on the untrimmed value, so an email field whose
   * value starts with a no-break space (U+00A0) is rejected although it is
   * not blank: `trim` and `\s` both count that character as whitespace.
   */
  lemma NoBreakSpaceRejected(s: string)
    requires MatchesEmailPattern(s)
    ensures FieldProblem(Field("\U{00A0}" + s, "email")) == Some(InvalidFormat)
  {
    var t := "\U{00A0}" + s;
    assert !AllWhitespace(t) by {
      EmailPatternIff(s);
      assert t[1] == s[0];
    }
    assert !EmailShape(t) by {
      assert IsJsWhitespace(t[0]);
    }
    FieldProblemIff(Field(t, "email"));
  }
}
