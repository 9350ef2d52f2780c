/** Which texts `str::parse::<f64>` accepts. The source only asks whether the
    parse succeeds (openscad-part-maker/src/scad_params.rs:121) and never keeps
    the floating-point value, so the model is the accepted language alone, as
    Rust's standard library documents it for `f64::from_str`:

      Float  ::= Sign? ( 'inf' | 'infinity' | 'nan' | Number )
      Number ::= ( Digit+ | Digit+ '.' Digit* | Digit* '.' Digit+ ) Exp?
      Exp    ::= 'e' Sign? Digit+
      Sign   ::= [+-]

    matched after ASCII lowercasing, with no surrounding whitespace allowed.
    Out-of-range magnitudes still parse (to infinity or zero), so the grammar
    is the whole story. */
module FloatSyntax {
  import opened Text

  /** Index just past the run of ASCII digits that starts at `i`. */
  function DigitsEnd(s: string, i: nat): (j: nat)
    requires i <= |s|
    ensures i <= j <= |s|
    ensures forall k :: i <= k < j ==> IsAsciiDigit(s[k])
    ensures j == |s| || !IsAsciiDigit(s[j])
    decreases |s| - i
  {
    if i < |s| && IsAsciiDigit(s[i]) then DigitsEnd(s, i + 1) else i
  }

  predicate IsSign(c: char) { c == '+' || c == '-' }

  /** `s` is exactly an `Exp`. */
  predicate IsExponent(s: string) {
    |s| >= 2 && LowerChar(s[0]) == 'e'
    && var first := if IsSign(s[1]) then 2 else 1;
       first < |s| && DigitsEnd(s, first) == |s|
  }

  /** `s` is exactly a `Number`: the integer digits and the fraction digits are
      maximal runs, and at least one digit is present. */
  predicate IsDecimal(s: string) {
    var intEnd := DigitsEnd(s, 0);
    var hasPoint := intEnd < |s| && s[intEnd] == '.';
    var fracEnd := if hasPoint then DigitsEnd(s, intEnd + 1) else intEnd;
    var digits := if hasPoint then intEnd + (fracEnd - intEnd - 1) else intEnd;
    digits > 0 && (fracEnd == |s| || IsExponent(s[fracEnd..]))
  }

  /** `s.parse::<f64>().is_ok()` */
  predicate IsFloatLiteral(s: string) {
    var body := if |s| > 0 && IsSign(s[0]) then s[1..] else s;
    var lower := AsciiLower(body);
    lower == "inf" || lower == "infinity" || lower == "nan" || IsDecimal(body)
  }

  /** The characters a `Number` is written with. */
  predicate IsNumberChar(c: char) {
    IsAsciiDigit(c) || c == '.' || LowerChar(c) == 'e' || IsSign(c)
  }

  lemma ExponentChars(e: string)
    requires IsExponent(e)
    ensures forall k :: 0 <= k < |e| ==> IsNumberChar(e[k])
  {
    var first := if IsSign(e[1]) then 2 else 1;
    assert forall k :: first <= k < |e| ==> IsAsciiDigit(e[k]);
  }

  lemma DecimalHasNoWhitespace(s: string)
    requires IsDecimal(s)
    ensures forall i :: 0 <= i < |s| ==> !IsWhitespace(s[i])
  {
    var intEnd := DigitsEnd(s, 0);
    var hasPoint := intEnd < |s| && s[intEnd] == '.';
    var fracEnd := if hasPoint then DigitsEnd(s, intEnd + 1) else intEnd;
    if fracEnd < |s| {
      ExponentChars(s[fracEnd..]);
    }
    forall i | 0 <= i < |s|
      ensures IsNumberChar(s[i])
    {
      if fracEnd <= i {
        assert s[i] == s[fracEnd..][i - fracEnd];
      }
    }
  }

  /** A text that parses as a number contains no whitespace at all; in
      particular a padded number such as " 1.5" is rejected. */
  lemma FloatLiteralHasNoWhitespace(s: string)
    requires IsFloatLiteral(s)
    ensures s != []
    ensures forall i :: 0 <= i < |s| ==> !IsWhitespace(s[i])
  {
    var signed := |s| > 0 && IsSign(s[0]);
    var body := if signed then s[1..] else s;
    var lower := AsciiLower(body);
    if lower == "inf" || lower == "infinity" || lower == "nan" {
      WordHasNoWhitespace(body);
    } else {
      DecimalHasNoWhitespace(body);
    }
    forall i | 0 <= i < |s|
      ensures !IsWhitespace(s[i])
    {
      if signed && i > 0 {
        assert s[i] == body[i - 1];
      }
    }
  }

  /** Text that lowercases to ASCII letters has no whitespace. */
  lemma WordHasNoWhitespace(body: string)
    requires forall i :: 0 <= i < |body| ==> IsAsciiLower(AsciiLower(body)[i])
    ensures forall i :: 0 <= i < |body| ==> !IsWhitespace(body[i])
  {
    forall i | 0 <= i < |body|
      ensures !IsWhitespace(body[i])
    {
      assert AsciiLower(body)[i] == LowerChar(body[i]);
    }
  }
}
