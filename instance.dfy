/** `ScadParams`: one request's parameter values, started from the template's
    defaults, overridden field by field from untyped form text, and written
    out as `NAME=value` fragments in ascending name order. */
module Instance {
  import opened Wrappers
  import opened Text
  import opened FloatSyntax
  import opened Fields
  import opened Extractor
  import opened Template
  import opened Scan

  /** The text `set_from_field` stores for a value of the given type, or Err
      when the text does not validate. */
  function Coerce(ty: ParamType, text: string): Result<string> {
    match ty
    case Bool =>
      (match ParseBool(text)
       case Ok(b) => Ok(CanonicalBool(b))
       case Err => Err)
    case Number => if IsFloatLiteral(text) then Ok(text) else Err
    case String => Ok(QuoteString(text))
  }

  /** What `set_from_field(fieldName, text)` does to the values: blank text and
      unknown names change nothing; otherwise the text is validated by the
      spec's type and its stored form goes under the SCAD name. The spec's
      `isUserParam` is not consulted. */
  function ApplyField(specs: map<string, ParamSpec>, values: map<string, string>, fieldName: string, text: string)
    : (r: Result<map<string, string>>)
    ensures r.Err? ==> FieldToScadName(fieldName) in specs && !IsBlank(text)
    ensures r.Ok? ==> r.value.Keys <= values.Keys + {FieldToScadName(fieldName)}
    ensures r.Ok? ==> forall k :: k in values && k != FieldToScadName(fieldName) ==> k in r.value && r.value[k] == values[k]
  {
    var name := FieldToScadName(fieldName);
    TrimEmptyIffBlank(text);
    if Trim(text) == [] || name !in specs then Ok(values)
    else
      match Coerce(specs[name].ty, text)
      case Ok(v) => Ok(values[name := v])
      case Err => Err
  }

  /** The `name=value` fragment for one entry. */
  function Fragment(name: string, value: string): string {
    name + "=" + value
  }

  /** Blank text and names with no spec leave the values as they are. */
  lemma ApplyFieldNoOp(specs: map<string, ParamSpec>, values: map<string, string>, fieldName: string, text: string)
    requires IsBlank(text) || FieldToScadName(fieldName) !in specs
    ensures ApplyField(specs, values, fieldName, text) == Ok(values)
  {
    TrimEmptyIffBlank(text);
  }

  /** A successful update changes at most the entry of the field's SCAD name,
      and only ever adds a name that has a spec. */
  lemma ApplyFieldFrame(specs: map<string, ParamSpec>, values: map<string, string>, fieldName: string, text: string)
    requires ApplyField(specs, values, fieldName, text).Ok?
    ensures var after := ApplyField(specs, values, fieldName, text).value;
            && after.Keys <= values.Keys + {FieldToScadName(fieldName)}
            && (FieldToScadName(fieldName) in after && FieldToScadName(fieldName) !in values ==> FieldToScadName(fieldName) in specs)
            && forall k :: k in values && k != FieldToScadName(fieldName) ==> k in after && after[k] == values[k]
  {
  }

  /** Bool: accepted exactly when `parse_bool` accepts the untrimmed text; the
      stored text is `true` or `false` and parses to the same boolean. */
  lemma ApplyFieldBool(specs: map<string, ParamSpec>, values: map<string, string>, fieldName: string, text: string)
    requires FieldToScadName(fieldName) in specs && specs[FieldToScadName(fieldName)].ty == Bool
    requires !IsBlank(text)
    ensures ApplyField(specs, values, fieldName, text).Ok? <==> ParseBool(text).Ok?
    ensures ApplyField(specs, values, fieldName, text).Ok? ==>
              var stored := ApplyField(specs, values, fieldName, text).value[FieldToScadName(fieldName)];
              (stored == "true" || stored == "false") && ParseBool(stored) == ParseBool(text)
  {
    TrimEmptyIffBlank(text);
  }

  /** Number: accepted exactly when the untrimmed text is a float literal, and
      then stored verbatim. */
  lemma ApplyFieldNumber(specs: map<string, ParamSpec>, values: map<string, string>, fieldName: string, text: string)
    requires FieldToScadName(fieldName) in specs && specs[FieldToScadName(fieldName)].ty == Number
    requires !IsBlank(text)
    ensures ApplyField(specs, values, fieldName, text).Ok? <==> IsFloatLiteral(text)
    ensures ApplyField(specs, values, fieldName, text).Ok? ==>
              ApplyField(specs, values, fieldName, text).value[FieldToScadName(fieldName)] == text
  {
    TrimEmptyIffBlank(text);
  }

  /** String: always accepted; the stored text is one OpenSCAD string literal
      that reads back as exactly the submitted text. */
  lemma ApplyFieldString(specs: map<string, ParamSpec>, values: map<string, string>, fieldName: string, text: string)
    requires FieldToScadName(fieldName) in specs && specs[FieldToScadName(fieldName)].ty == String
    requires !IsBlank(text)
    ensures ApplyField(specs, values, fieldName, text).Ok?
    ensures var stored := ApplyField(specs, values, fieldName, text).value[FieldToScadName(fieldName)];
            && |stored| >= 2 && stored[0] == '"' && stored[|stored| - 1] == '"'
            && ReadStringBody(stored[1..]) == Some((text, |stored| - 2))
  {
    TrimEmptyIffBlank(text);
    QuoteStringReadsBack(text);
  }

  /** Padding is not trimmed before validation: a Bool or Number field whose
      text starts with whitespace is rejected, and so is a Number field with
      whitespace anywhere, unless the text is all whitespace. */
  lemma PaddedTextRejected(specs: map<string, ParamSpec>, values: map<string, string>, fieldName: string, text: string, i: nat)
    requires FieldToScadName(fieldName) in specs && !IsBlank(text)
    requires i < |text| && IsWhitespace(text[i])
    requires specs[FieldToScadName(fieldName)].ty == Number || (specs[FieldToScadName(fieldName)].ty == Bool && i == 0)
    ensures ApplyField(specs, values, fieldName, text) == Err
  {
    TrimEmptyIffBlank(text);
    ParseBoolAccepts(text);
    if IsFloatLiteral(text) {
      FloatLiteralHasNoWhitespace(text);
    }
  }

  /** Only the keys and the types of the specs matter: in particular an
      override of a spec that is not user-facing is accepted like any other. */
  lemma ApplyFieldIgnoresVisibility(
    specs: map<string, ParamSpec>, specs': map<string, ParamSpec>,
    values: map<string, string>, fieldName: string, text: string)
    requires specs.Keys == specs'.Keys
    requires forall k :: k in specs ==> specs[k].ty == specs'[k].ty
    ensures ApplyField(specs, values, fieldName, text) == ApplyField(specs', values, fieldName, text)
  {
  }

  /** A request's fields applied in order; the first rejected field makes the
      request fail. */
  function ApplyFields(specs: map<string, ParamSpec>, values: map<string, string>, fields: seq<(string, string)>)
    : Result<map<string, string>>
    decreases |fields|
  {
    if fields == [] then Ok(values)
    else
      match ApplyField(specs, values, fields[0].0, fields[0].1)
      case Err => Err
      case Ok(next) => ApplyFields(specs, next, fields[1..])
  }

  /** Whatever is submitted, every value keeps a spec: a field whose name has
      no spec never gets a value. */
  lemma {:induction false} ApplyFieldsKeepSpecKeys(specs: map<string, ParamSpec>, values: map<string, string>, fields: seq<(string, string)>)
    requires values.Keys <= specs.Keys
    ensures ApplyFields(specs, values, fields).Ok? ==> ApplyFields(specs, values, fields).value.Keys <= specs.Keys
    decreases |fields|
  {
    if fields != [] {
      var first := ApplyField(specs, values, fields[0].0, fields[0].1);
      if first.Ok? {
        ApplyFieldFrame(specs, values, fields[0].0, fields[0].1);
        ApplyFieldsKeepSpecKeys(specs, first.value, fields[1..]);
      }
    }
  }

  /** Two fields naming different parameters can be submitted in either
      order with the same outcome. */
  lemma ApplyFieldsCommute(specs: map<string, ParamSpec>, values: map<string, string>, a: (string, string), b: (string, string))
    requires FieldToScadName(a.0) != FieldToScadName(b.0)
    ensures ApplyFields(specs, values, [a, b]) == ApplyFields(specs, values, [b, a])
  {
    ApplyFieldsPair(specs, values, a, b);
    ApplyFieldsPair(specs, values, b, a);
    ApplyFieldThenField(specs, values, a, b);
  }

  /** The outcome of applying `first` and then `second`. */
  function ThenField(specs: map<string, ParamSpec>, values: map<string, string>, first: (string, string), second: (string, string))
    : Result<map<string, string>>
  {
    match ApplyField(specs, values, first.0, first.1)
    case Err => Err
    case Ok(next) => ApplyField(specs, next, second.0, second.1)
  }

  lemma ApplyFieldsPair(specs: map<string, ParamSpec>, values: map<string, string>, a: (string, string), b: (string, string))
    ensures ApplyFields(specs, values, [a, b]) == ThenField(specs, values, a, b)
  {
    ApplyFieldsCons(specs, values, a, [b]);
    assert [a] + [b] == [a, b];
    var first := ApplyField(specs, values, a.0, a.1);
    if first.Ok? {
      ApplyFieldsCons(specs, first.value, b, []);
      assert [b] + [] == [b];
    }
  }

  /** Applying `f` and then `rest`. */
  lemma ApplyFieldsCons(specs: map<string, ParamSpec>, values: map<string, string>, f: (string, string), rest: seq<(string, string)>)
    ensures ApplyFields(specs, values, [f] + rest) ==
              match ApplyField(specs, values, f.0, f.1)
              case Err => Err
              case Ok(next) => ApplyFields(specs, next, rest)
  {
    assert ([f] + rest)[0] == f && ([f] + rest)[1..] == rest;
  }

  lemma ApplyFieldThenField(specs: map<string, ParamSpec>, values: map<string, string>, a: (string, string), b: (string, string))
    requires FieldToScadName(a.0) != FieldToScadName(b.0)
    ensures ThenField(specs, values, a, b) == ThenField(specs, values, b, a)
  {
    var na, nb := FieldToScadName(a.0), FieldToScadName(b.0);
    var sa, sb := Stored(specs, a.0, a.1), Stored(specs, b.0, b.1);
    ApplyFieldStored(specs, values, a.0, a.1);
    ApplyFieldStored(specs, values, b.0, b.1);
    if sa.Ok? {
      ApplyFieldStored(specs, Store(values, na, sa.value), b.0, b.1);
    }
    if sb.Ok? {
      ApplyFieldStored(specs, Store(values, nb, sb.value), a.0, a.1);
    }
    if sa.Ok? && sb.Ok? {
      StoreCommute(values, na, sa.value, nb, sb.value);
    }
  }

  /** What a field stores, whatever the current values: None when it changes
      nothing, Err when it is rejected. */
  function Stored(specs: map<string, ParamSpec>, fieldName: string, text: string): Result<Option<string>> {
    var name := FieldToScadName(fieldName);
    if Trim(text) == [] || name !in specs then Ok(None)
    else
      match Coerce(specs[name].ty, text)
      case Ok(v) => Ok(Some(v))
      case Err => Err
  }

  function Store(values: map<string, string>, name: string, v: Option<string>): map<string, string> {
    if v.Some? then values[name := v.value] else values
  }

  lemma ApplyFieldStored(specs: map<string, ParamSpec>, values: map<string, string>, fieldName: string, text: string)
    ensures ApplyField(specs, values, fieldName, text) ==
              match Stored(specs, fieldName, text)
              case Err => Err
              case Ok(v) => Ok(Store(values, FieldToScadName(fieldName), v))
  {
  }

  lemma StoreCommute(values: map<string, string>, na: string, va: Option<string>, nb: string, vb: Option<string>)
    requires na != nb
    ensures Store(Store(values, na, va), nb, vb) == Store(Store(values, nb, vb), na, va)
  {
  }

  // --------------------------------------------------------------- fragments

  /** Splits a fragment at its first `=`; the inverse of `Fragment` for names
      without `=`. */
  function SplitFragment(fragment: string): (string, string) {
    match IndexOf(fragment, 0, '=')
    case None => (fragment, [])
    case Some(eq) => (fragment[..eq], fragment[eq + 1..])
  }

  lemma FragmentRoundTrip(name: string, value: string)
    requires '=' !in name
    ensures SplitFragment(Fragment(name, value)) == (name, value)
  {
    var f := Fragment(name, value);
    assert f[|name|] == '=';
    assert forall k :: 0 <= k < |name| ==> f[k] == name[k];
    assert f[..|name|] == name;
    assert f[|name| + 1..] == value;
  }

  // ----------------------------------------------------------- default values

  /** A Bool spec as extraction leaves it (trimmed default typed Bool):
      submitting the default back is accepted and stores it in canonical
      lowercase form. */
  lemma BoolDefaultRoundTrip(specs: map<string, ParamSpec>, values: map<string, string>, fieldName: string)
    requires FieldToScadName(fieldName) in specs
    requires var s := specs[FieldToScadName(fieldName)];
             s.ty == Bool && Trim(s.default) == s.default && InferType(s.default) == Bool
    ensures var name := FieldToScadName(fieldName);
            var d := specs[name].default;
            && (AsciiLower(d) == "true" || AsciiLower(d) == "false")
            && ApplyField(specs, values, fieldName, d) == Ok(values[name := AsciiLower(d)])
  {
    var d := specs[FieldToScadName(fieldName)].default;
    BoolDefaultParses(d);
    InferTypeBool(d);
    LowerMatchesBoolTokens(d);
  }

  /** A Number spec as extraction leaves it: submitting the default back is
      accepted, and stores it verbatim, exactly when the default is a float
      literal; an expression default is rejected. */
  lemma NumberDefaultRoundTrip(specs: map<string, ParamSpec>, values: map<string, string>, fieldName: string)
    requires FieldToScadName(fieldName) in specs
    requires var s := specs[FieldToScadName(fieldName)];
             s.ty == Number && Trim(s.default) == s.default && s.default != []
    ensures var name := FieldToScadName(fieldName);
            var d := specs[name].default;
            ApplyField(specs, values, fieldName, d) == if IsFloatLiteral(d) then Ok(values[name := d]) else Err
  {
  }

  /** `FIT = CLEARANCE/2;` gives a Number spec whose default cannot be
      submitted back. */
  lemma ExpressionDefaultRejected(specs: map<string, ParamSpec>, values: map<string, string>, fieldName: string)
    requires FieldToScadName(fieldName) in specs
    requires var s := specs[FieldToScadName(fieldName)];
             s.default == "CLEARANCE/2" && s.ty == InferType(s.default)
    ensures InferType("CLEARANCE/2") == Number
    ensures ApplyField(specs, values, fieldName, "CLEARANCE/2") == Err
  {
    ExpressionIsUntypedNumber();
    assert Coerce(Number, "CLEARANCE/2") == Err;
  }

  /** The expression `CLEARANCE/2` is typed Number, is not blank and is not a
      float literal. */
  lemma ExpressionIsUntypedNumber()
    ensures var e := "CLEARANCE/2"; InferType(e) == Number && Trim(e) != [] && !IsFloatLiteral(e)
  {
    var e := "CLEARANCE/2";
    assert InferType(e) == Number by {
      assert |e| == 11 && e[0] == 'C' && e[10] == '2';
      LongWordIsNumber(e);
    }
    assert Trim(e) != [] by {
      assert |e| == 11 && e[0] == 'C' && e[10] == '2';
      TrimUnpadded(e);
    }
    ExpressionNotFloat();
  }

  /** A text with no surrounding whitespace, not starting with a quote and
      longer than `false`, is typed Number. */
  lemma LongWordIsNumber(e: string)
    requires |e| > 5 && !IsWhitespace(e[0]) && !IsWhitespace(e[|e| - 1]) && e[0] != '"'
    ensures InferType(e) == Number
  {
    var start := TrimStart(e);
    assert start == e;
    assert !(start != [] && start[0] == '"');
    var word := Trim(AsciiLower(e));
    assert |word| > 5 by {
      assert TrimEnd(e) == e;
      TrimLowerCommute(e);
    }
    assert word != "true" && word != "false";
  }

  lemma ExpressionNotFloat()
    ensures !IsFloatLiteral("CLEARANCE/2")
  {
    var e := "CLEARANCE/2";
    assert |AsciiLower(e)| == 11;
    assert DigitsEnd(e, 0) == 0;
  }

  class ScadParams {
    const specs: map<string, ParamSpec>
    var values: map<string, string>

    /** Every value belongs to a discovered spec. */
    ghost predicate Valid()
      reads this
    {
      values.Keys <= specs.Keys
    }

    constructor (specs: map<string, ParamSpec>, values: map<string, string>)
      ensures this.specs == specs && this.values == values
    {
      this.specs := specs;
      this.values := values;
    }

    /** `set_from_field`: on success the values are those `ApplyField`
        computes; on failure they are left as they were. */
    method SetFromField(fieldName: string, text: string) returns (r: Result<()>)
      modifies this
      ensures ApplyField(specs, old(values), fieldName, text).Ok? ==>
                r == Ok(()) && values == ApplyField(specs, old(values), fieldName, text).value
      ensures ApplyField(specs, old(values), fieldName, text).Err? ==> r == Err && values == old(values)
      ensures old(Valid()) ==> Valid()
    {
      if Trim(text) == [] {
        return Ok(());
      }
      var scadName := FieldToScadName(fieldName);
      if scadName !in specs {
        return Ok(());
      }
      var spec := specs[scadName];
      var v: string;
      match spec.ty {
        case Bool =>
          var b := ParseBool(text);
          if b.Err? {
            return Err;
          }
          v := if b.value then "true" else "false";
        case Number =>
          if !IsFloatLiteral(text) {
            return Err;
          }
          v := text;
        case String =>
          var esc := ReplaceChar(ReplaceChar(text, '\\', "\\\\"), '"', "\\\"");
          v := "\"" + esc + "\"";
      }
      values := values[scadName := v];
      r := Ok(());
    }

    /** `iter_defines`: one fragment per value, in ascending name order. */
    function IterDefines(): (defs: seq<string>)
      reads this
      ensures defs == Defines(values)
      ensures |defs| == |values.Keys|
      ensures forall i :: 0 <= i < |defs| ==> exists k :: k in values && defs[i] == Fragment(k, values[k])
    {
      var names := SortedKeys(values.Keys);
      assert forall i :: 0 <= i < |names| ==> names[i] in values && Defines(values)[i] == Fragment(names[i], values[names[i]]);
      Defines(values)
    }

    /** `get_raw`: the stored text for a SCAD name, if any. */
    function GetRaw(name: string): (r: Option<string>)
      reads this
      ensures r.Some? <==> name in values
      ensures r.Some? ==> r.value == values[name]
    {
      if name in values then Some(values[name]) else None
    }
  }

  /** The `NAME=value` fragments of a value map, one per entry, in ascending
      name order. */
  function Defines(values: map<string, string>): (defs: seq<string>)
    ensures |defs| == |values.Keys|
  {
    var names := SortedKeys(values.Keys);
    seq(|names|, i requires 0 <= i < |names| => Fragment(names[i], values[names[i]]))
  }

  /** Splitting the `i`-th fragment gives the `i`-th name and its value. */
  lemma DefinesSplit(values: map<string, string>)
    requires forall k :: k in values ==> '=' !in k
    ensures var names := SortedKeys(values.Keys);
            var defs := Defines(values);
            |defs| == |names| &&
            forall i :: 0 <= i < |defs| ==> SplitFragment(defs[i]) == (names[i], values[names[i]])
  {
    var names := SortedKeys(values.Keys);
    var defs := Defines(values);
    forall i | 0 <= i < |defs|
      ensures SplitFragment(defs[i]) == (names[i], values[names[i]])
    {
      FragmentRoundTrip(names[i], values[names[i]]);
    }
  }

  /** The fragments encode the values exactly, in strictly ascending name
      order: splitting each at its first `=` gives an entry of the map, and
      every entry is given once. */
  lemma DefinesEncodesValues(values: map<string, string>)
    requires forall k :: k in values ==> '=' !in k
    ensures var defs := Defines(values);
            && |defs| == |values|
            && (forall i :: 0 <= i < |defs| ==>
                  SplitFragment(defs[i]).0 in values && values[SplitFragment(defs[i]).0] == SplitFragment(defs[i]).1)
            && (forall k :: k in values ==> exists i :: 0 <= i < |defs| && SplitFragment(defs[i]) == (k, values[k]))
            && (forall i, j :: 0 <= i < j < |defs| ==> Less(SplitFragment(defs[i]).0, SplitFragment(defs[j]).0))
  {
    DefinesSplit(values);
    SplitsEncodeValues(values, SortedKeys(values.Keys), Defines(values));
  }

  /** Fragments that split into the entries named by a sorted list of all the
      keys encode the map. */
  lemma SplitsEncodeValues(values: map<string, string>, names: seq<string>, defs: seq<string>)
    requires |names| == |values| && |defs| == |names| && StrictlyAscending(names)
    requires forall k :: k in values <==> k in names
    requires forall i :: 0 <= i < |defs| ==> SplitFragment(defs[i]) == (names[i], values[names[i]])
    ensures forall i :: 0 <= i < |defs| ==>
              SplitFragment(defs[i]).0 in values && values[SplitFragment(defs[i]).0] == SplitFragment(defs[i]).1
    ensures forall k :: k in values ==> exists i :: 0 <= i < |defs| && SplitFragment(defs[i]) == (k, values[k])
    ensures forall i, j :: 0 <= i < j < |defs| ==> Less(SplitFragment(defs[i]).0, SplitFragment(defs[j]).0)
  {
    forall k | k in values
      ensures exists i :: 0 <= i < |defs| && SplitFragment(defs[i]) == (k, values[k])
    {
      var i :| 0 <= i < |names| && names[i] == k;
      assert SplitFragment(defs[i]) == (k, values[k]);
    }
  }


  /** `instantiate`: a fresh instance whose values start as the defaults. */
  method Instantiate(t: ScadParamTemplate) returns (p: ScadParams)
    ensures fresh(p)
    ensures p.specs == t.specs && p.values == t.defaults
    ensures WellFormed(t) ==> p.Valid()
  {
    p := new ScadParams(t.specs, t.defaults);
  }
}
