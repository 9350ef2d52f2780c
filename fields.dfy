/** The small pure conversions between HTML-form text and OpenSCAD syntax:
    boolean tokens, the form-field-name to SCAD-name mapping, the filename
    sanitiser, and the string-literal encoding of submitted text. */
module Fields {
  import opened Wrappers
  import opened Text

  // ---------------------------------------------------------------- booleans

  /** `parse_bool`: the ASCII-lowercased value must be one of eight tokens. */
  function ParseBool(value: string): (r: Result<bool>)
    ensures r.Ok? ==> 1 <= |value| <= 5 && !IsWhitespace(value[0]) && !IsWhitespace(value[|value| - 1])
  {
    var lower := AsciiLower(value);
    if lower == "1" || lower == "true" || lower == "on" || lower == "yes" then
      LowerUnpadded(value);
      Ok(true)
    else if lower == "0" || lower == "false" || lower == "off" || lower == "no" then
      LowerUnpadded(value);
      Ok(false)
    else Err
  }

  /** ASCII lowercasing keeps whitespace, so text whose lowercase form is
      not padded is not padded either. */
  lemma LowerUnpadded(value: string)
    requires var lower := AsciiLower(value);
             lower != [] && !IsWhitespace(lower[0]) && !IsWhitespace(lower[|lower| - 1])
    ensures !IsWhitespace(value[0]) && !IsWhitespace(value[|value| - 1])
  {
    assert AsciiLower(value)[0] == LowerChar(value[0]);
    assert AsciiLower(value)[|value| - 1] == LowerChar(value[|value| - 1]);
  }

  /** True exactly for `1`, `true`, `on`, `yes` and false exactly for `0`,
      `false`, `off`, `no`, in any ASCII case. The value is not trimmed, so
      padded text is rejected. */
  lemma ParseBoolAccepts(value: string)
    ensures ParseBool(value) == Ok(true) <==>
              EqualsIgnoringAsciiCase(value, "1") || EqualsIgnoringAsciiCase(value, "true")
              || EqualsIgnoringAsciiCase(value, "on") || EqualsIgnoringAsciiCase(value, "yes")
    ensures ParseBool(value) == Ok(false) <==>
              EqualsIgnoringAsciiCase(value, "0") || EqualsIgnoringAsciiCase(value, "false")
              || EqualsIgnoringAsciiCase(value, "off") || EqualsIgnoringAsciiCase(value, "no")
    ensures |value| > 0 && IsWhitespace(value[0]) ==> ParseBool(value).Err?
  {
    LowerMatchesBoolTokens(value);
  }

  /** Comparing the lowercased value with a lowercase token is comparing the
      value with the token ignoring ASCII case. */
  lemma LowerMatchesToken(value: string, token: string)
    requires forall i :: 0 <= i < |token| ==> !IsAsciiUpper(token[i])
    ensures AsciiLower(value) == token <==> EqualsIgnoringAsciiCase(value, token)
  {
    if EqualsIgnoringAsciiCase(value, token) {
      assert forall i :: 0 <= i < |token| ==> LowerChar(token[i]) == token[i];
      assert AsciiLower(value) == token;
    }
  }

  lemma LowerMatchesBoolTokens(value: string)
    ensures AsciiLower(value) == "1" <==> EqualsIgnoringAsciiCase(value, "1")
    ensures AsciiLower(value) == "true" <==> EqualsIgnoringAsciiCase(value, "true")
    ensures AsciiLower(value) == "on" <==> EqualsIgnoringAsciiCase(value, "on")
    ensures AsciiLower(value) == "yes" <==> EqualsIgnoringAsciiCase(value, "yes")
    ensures AsciiLower(value) == "0" <==> EqualsIgnoringAsciiCase(value, "0")
    ensures AsciiLower(value) == "false" <==> EqualsIgnoringAsciiCase(value, "false")
    ensures AsciiLower(value) == "off" <==> EqualsIgnoringAsciiCase(value, "off")
    ensures AsciiLower(value) == "no" <==> EqualsIgnoringAsciiCase(value, "no")
  {
    LowerMatchesToken(value, "1");
    LowerMatchesToken(value, "true");
    LowerMatchesToken(value, "on");
    LowerMatchesToken(value, "yes");
    LowerMatchesToken(value, "0");
    LowerMatchesToken(value, "false");
    LowerMatchesToken(value, "off");
    LowerMatchesToken(value, "no");
  }

  /** The two texts `set_from_field` stores for a Bool parameter; each parses
      back to the boolean it encodes. */
  function CanonicalBool(b: bool): (s: string)
    ensures ParseBool(s) == Ok(b)
  {
    if b then "true" else "false"
  }

  // -------------------------------------------------------------- field names

  /** `field_to_scad_name`: the form field `use_spinner` names the SCAD
      variable `USE_SPINNER`. The result has no ASCII lowercase letter and
      equals the field name up to ASCII case, which determines it uniquely. */
  function FieldToScadName(field: string): (r: string)
    ensures EqualsIgnoringAsciiCase(r, field)
    ensures forall i :: 0 <= i < |r| ==> !IsAsciiLower(r[i])
  {
    AsciiUpper(field)
  }

  /** The mapping is reversible on snake_case field names: lowercasing the
      SCAD name gives the field name back. */
  lemma FieldNameRoundTrip(field: string)
    requires forall i :: 0 <= i < |field| ==> !IsAsciiUpper(field[i])
    ensures AsciiLower(FieldToScadName(field)) == field
  {
    var r := FieldToScadName(field);
    assert forall i :: 0 <= i < |field| ==> LowerChar(r[i]) == LowerChar(field[i]) == field[i];
  }

  lemma FieldToScadNameIdempotent(field: string)
    ensures FieldToScadName(FieldToScadName(field)) == FieldToScadName(field)
  {
    var r := FieldToScadName(field);
    var rr := FieldToScadName(r);
    assert forall i :: 0 <= i < |r| ==> LowerChar(rr[i]) == LowerChar(r[i]) && !IsAsciiLower(rr[i]) && !IsAsciiLower(r[i]);
    assert forall i :: 0 <= i < |r| ==> rr[i] == r[i];
  }

  // ---------------------------------------------------------------- filenames

  predicate IsFilenameSafe(c: char) {
    IsAsciiAlphanumeric(c) || c == '-' || c == '_'
  }

  /** `sanitize_filename_component`: total, one output character per input
      character, every output character safe, safe characters kept, every
      other character (whatever its UTF-8 width) replaced by one `_`. */
  function SanitizeFilenameComponent(raw: string): (r: string)
    ensures |r| == |raw|
    ensures forall i :: 0 <= i < |r| ==> IsFilenameSafe(r[i])
    ensures forall i :: 0 <= i < |r| ==> r[i] == (if IsFilenameSafe(raw[i]) then raw[i] else '_')
    decreases |raw|
  {
    if raw == [] then []
    else [if IsFilenameSafe(raw[0]) then raw[0] else '_'] + SanitizeFilenameComponent(raw[1..])
  }

  lemma {:induction false} SanitizeIdempotent(raw: string)
    ensures SanitizeFilenameComponent(SanitizeFilenameComponent(raw)) == SanitizeFilenameComponent(raw)
  {
    var r := SanitizeFilenameComponent(raw);
    var rr := SanitizeFilenameComponent(r);
    assert forall i :: 0 <= i < |r| ==> rr[i] == r[i];
  }

  /** A text is left unchanged exactly when it is already safe. */
  lemma SanitizeFixpointIffSafe(raw: string)
    ensures SanitizeFilenameComponent(raw) == raw <==> forall i :: 0 <= i < |raw| ==> IsFilenameSafe(raw[i])
  {
    var r := SanitizeFilenameComponent(raw);
    if forall i :: 0 <= i < |raw| ==> IsFilenameSafe(raw[i]) {
      assert forall i :: 0 <= i < |raw| ==> r[i] == raw[i];
    }
  }

  // ------------------------------------------------------------ string values

  /** `s.replace(c, rep)` with a `char` pattern. */
  function ReplaceChar(s: string, c: char, rep: string): string
    decreases |s|
  {
    if s == [] then [] else (if s[0] == c then rep else [s[0]]) + ReplaceChar(s[1..], c, rep)
  }

  /** The escaping of `set_from_field`'s String branch: backslashes doubled
      first, then each double quote preceded by a backslash. */
  function EscapeStringBody(text: string): string {
    ReplaceChar(ReplaceChar(text, '\\', "\\\\"), '"', "\\\"")
  }

  /** How a reader of an OpenSCAD string literal recovers its value: starting
      just after the opening quote, a backslash makes the next character
      literal and an unescaped double quote closes the literal. Gives the text
      read and the index of the closing quote. (OpenSCAD gives `\n`, `\t` and a
      few more escapes their own meaning; the encoder never produces them.) */
  function ReadStringBody(s: string): Option<(string, nat)>
    decreases |s|
  {
    if s == [] then None
    else if s[0] == '"' then Some(([], 0))
    else if s[0] == '\\' && |s| >= 2 then
      match ReadStringBody(s[2..])
      case None => None
      case Some(read) => Some(([s[1]] + read.0, read.1 + 2))
    else
      match ReadStringBody(s[1..])
      case None => None
      case Some(read) => Some(([s[0]] + read.0, read.1 + 1))
  }

  /** The literal `set_from_field` stores for a String parameter. */
  function QuoteString(text: string): string {
    "\"" + EscapeStringBody(text) + "\""
  }

  /** The reader gets the submitted text back exactly and stops at the final
      quote, so no submitted text can end the literal early. */
  lemma QuoteStringReadsBack(text: string)
    ensures var q := QuoteString(text);
            |q| >= 2 && q[0] == '"' && q[|q| - 1] == '"' && ReadStringBody(q[1..]) == Some((text, |q| - 2))
  {
    var body := EscapeStringBody(text);
    EscapeIsPerCharacter(text);
    ReadEscaped(text, []);
    assert EscapeEach(text) + "\"" + [] == body + "\"";
    assert ("\"" + body + "\"")[1..] == body + "\"";
  }

  function EscapeChar(c: char): string {
    if c == '\\' then "\\\\" else if c == '"' then "\\\"" else [c]
  }

  /** The escaping as one pass, character by character. */
  function EscapeEach(text: string): string
    decreases |text|
  {
    if text == [] then [] else EscapeChar(text[0]) + EscapeEach(text[1..])
  }

  lemma {:induction false} ReplaceCharAppend(a: string, b: string, c: char, rep: string)
    ensures ReplaceChar(a + b, c, rep) == ReplaceChar(a, c, rep) + ReplaceChar(b, c, rep)
    decreases |a|
  {
    if a != [] {
      assert (a + b)[1..] == a[1..] + b;
      ReplaceCharAppend(a[1..], b, c, rep);
    } else {
      assert a + b == b;
    }
  }

  lemma {:induction false} EscapeIsPerCharacter(text: string)
    ensures EscapeStringBody(text) == EscapeEach(text)
    decreases |text|
  {
    if text != [] {
      var c := text[0];
      var once := ReplaceChar(text, '\\', "\\\\");
      var head := if c == '\\' then "\\\\" else [c];
      assert once == head + ReplaceChar(text[1..], '\\', "\\\\");
      ReplaceCharAppend(head, ReplaceChar(text[1..], '\\', "\\\\"), '"', "\\\"");
      assert ReplaceChar(head, '"', "\\\"") == EscapeChar(c);
      EscapeIsPerCharacter(text[1..]);
    }
  }

  lemma {:induction false} ReadEscaped(text: string, rest: string)
    ensures ReadStringBody(EscapeEach(text) + "\"" + rest) == Some((text, |EscapeEach(text)|))
    decreases |text|
  {
    if text == [] {
      assert EscapeEach(text) + "\"" + rest == "\"" + rest;
    } else {
      var c := text[0];
      var tail := EscapeEach(text[1..]) + "\"" + rest;
      var s := EscapeEach(text) + "\"" + rest;
      assert s == EscapeChar(c) + tail;
      ReadEscaped(text[1..], rest);
      if c == '\\' || c == '"' {
        assert s[2..] == tail;
      } else {
        assert s[1..] == tail;
      }
      assert [c] + text[1..] == text;
    }
  }
}
