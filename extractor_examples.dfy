/** The declaration texts the parameter engine's own tests run
    `extract_param_specs` on, written as declaration lines, with what the
    tests expect of them proved. */
module ExtractorExamples {
  import opened Wrappers
  import opened Text
  import opened Extractor
  import opened Matching

  /** `NAME = RHS;` with single spaces around `=` and nothing after `;`. */
  function Plain(indent: string, name: string, rhs: string): Declaration {
    Declaration(indent, name, " ", " ", rhs, None)
  }

  /** The text of the first extraction test, line by line:

        MODE = "base";
        COASTER_D = 101.6;
        USE_SPINNER = true;
        FIT = CLEARANCE/2;
        $fn = 200;

      after the blank text `lead` (the test's is one newline), and with a
      final newline. */
  function TypesLines(lead: string): seq<Declaration> {
    [Plain(lead, "MODE", "\"base\""),
    Plain("", "COASTER_D", "101.6"),
    Plain("", "USE_SPINNER", "true"),
    Plain("", "FIT", "CLEARANCE/2")]
  }

  const TypesEnd: string := "\n$fn = 200;\n"

  function TypesText(lead: string): string {
    Lines(TypesLines(lead), TypesEnd)
  }

  /** A plain declaration is valid when its parts are. */
  lemma PlainValid(indent: string, name: string, rhs: string)
    requires IsBlank(indent) && IsScadName(name)
    requires rhs != [] && !IsWhitespace(rhs[0]) && ';' !in rhs
    ensures ValidDeclaration(Plain(indent, name, rhs))
  {
  }

  lemma TypesLinesValid(lead: string)
    requires IsBlank(lead)
    ensures ValidLines(TypesLines(lead), TypesEnd)
  {
    TypesDeclarationsValid(lead);
    TypesEndQuiet(lead);
  }

  lemma TypesDeclarationsValid(lead: string)
    requires IsBlank(lead)
    ensures forall i :: 0 <= i < |TypesLines(lead)| ==> ValidDeclaration(TypesLines(lead)[i])
  {
    PlainValid(lead, "MODE", "\"base\"");
    PlainValid("", "COASTER_D", "101.6");
    PlainValid("", "USE_SPINNER", "true");
    PlainValid("", "FIT", "CLEARANCE/2");
  }

  lemma TypesEndQuiet(lead: string)
    ensures EndsLine(TypesLines(lead)[3], TypesEnd) && Quiet(TypesEnd)
  {
    var fn := "$fn = 200;";
    assert TypesEnd == "\n" + fn + "\n";
    forall k | 0 < k < |TypesEnd| - 1
      ensures TypesEnd[k] != '\n'
    {
      assert TypesEnd[k] == fn[k - 1];
      assert fn[k - 1] in fn;
    }
  }

  /** A leading quote makes `"base"` a String. */
  lemma QuotedIsString()
    ensures InferType(Trim("\"base\"")) == String
  {
    TrimUnpadded("\"base\"");
  }

  /** `101.6` is neither quoted nor a boolean word: a Number. */
  lemma DecimalIsNumber()
    ensures InferType(Trim("101.6")) == Number
  {
    TrimUnpadded("101.6");
    InferTypeString("101.6");
    InferTypeBool("101.6");
  }

  /** `true` is a Bool. */
  lemma TrueIsBool()
    ensures InferType(Trim("true")) == Bool
  {
    TrimUnpadded("true");
    InferTypeString("true");
    InferTypeBool("true");
    assert EqualsIgnoringAsciiCase("true", "true");
  }

  /** The four caps assignments are found, in order, and the `$fn` line is
      not; `"base"` is a String, `101.6` a Number and `true` a Bool. */
  lemma ExtractFindsCapsAssignmentsAndTypes(lead: string)
    requires IsBlank(lead)
    ensures var specs := ParamSpecsOf(TypesText(lead));
            && |specs| == 4
            && specs[0].name == "MODE" && specs[1].name == "COASTER_D"
            && specs[2].name == "USE_SPINNER" && specs[3].name == "FIT"
            && specs[0].ty == String && specs[1].ty == Number && specs[2].ty == Bool
  {
    TypesNames(lead);
    TypesTypes(lead);
  }

  /** The four specs carry the four names, in order. */
  lemma TypesNames(lead: string)
    requires IsBlank(lead)
    ensures var specs := ParamSpecsOf(TypesText(lead));
            && |specs| == 4
            && specs[0].name == "MODE" && specs[1].name == "COASTER_D"
            && specs[2].name == "USE_SPINNER" && specs[3].name == "FIT"
  {
    TypesLinesValid(lead);
    SpecsOfLines(TypesLines(lead), TypesEnd);
    var ds := TypesLines(lead);
    var specs := ParamSpecsOf(TypesText(lead));
    assert specs[1].name == ds[1].name;
    assert specs[2].name == ds[2].name;
    assert specs[3].name == ds[3].name;
  }

  /** The first three specs are typed String, Number and Bool. */
  lemma TypesTypes(lead: string)
    requires IsBlank(lead)
    ensures var specs := ParamSpecsOf(TypesText(lead));
            && |specs| == 4
            && specs[0].ty == String && specs[1].ty == Number && specs[2].ty == Bool
  {
    TypesInferred(lead);
    QuotedIsString();
    DecimalIsNumber();
    TrueIsBool();
  }

  /** Each of the first three specs is typed from its trimmed right-hand side. */
  lemma TypesInferred(lead: string)
    requires IsBlank(lead)
    ensures var specs := ParamSpecsOf(TypesText(lead));
            && |specs| == 4
            && specs[0].ty == InferType(Trim("\"base\""))
            && specs[1].ty == InferType(Trim("101.6"))
            && specs[2].ty == InferType(Trim("true"))
  {
    TypesLinesValid(lead);
    SpecsOfLines(TypesLines(lead), TypesEnd);
    var ds := TypesLines(lead);
    var specs := ParamSpecsOf(TypesText(lead));
    assert specs[1].default == Trim(ds[1].rhs);
    assert specs[2].default == Trim(ds[2].rhs);
  }

  /** `NAME = RHS;` followed by `//` and a comment. */
  function Remarked(indent: string, name: string, rhs: string, gap: string, comment: string): Declaration {
    Declaration(indent, name, " ", " ", rhs, Some(Remark(gap, " ", comment)))
  }

  /** The text of the marker test, line by line:

        MODE = "base";  // @param
        COASTER_D = 101.6; // @param
        FIT = CLEARANCE/2;

      after the blank text `lead` (the test's is one newline), and with a
      final newline. */
  function MarkedLines(lead: string): seq<Declaration> {
    [Remarked(lead, "MODE", "\"base\"", "  ", "@param"),
    Remarked("", "COASTER_D", "101.6", " ", "@param"),
    Plain("", "FIT", "CLEARANCE/2")]
  }

  function MarkedText(lead: string): string {
    Lines(MarkedLines(lead), "\n")
  }

  /** A remarked declaration is valid when its parts are. */
  lemma RemarkedValid(indent: string, name: string, rhs: string, gap: string, comment: string)
    requires IsBlank(indent) && IsScadName(name)
    requires rhs != [] && !IsWhitespace(rhs[0]) && ';' !in rhs
    requires IsBlank(gap) && comment != [] && !IsWhitespace(comment[0]) && '\n' !in comment
    ensures ValidDeclaration(Remarked(indent, name, rhs, gap, comment))
  {
  }

  lemma MarkedLinesValid(lead: string)
    requires IsBlank(lead)
    ensures ValidLines(MarkedLines(lead), "\n")
  {
    RemarkedValid(lead, "MODE", "\"base\"", "  ", "@param");
    RemarkedValid("", "COASTER_D", "101.6", " ", "@param");
    PlainValid("", "FIT", "CLEARANCE/2");
  }

  /** The comment `@param` is trimmed and carries the marker. */
  lemma MarkerFound()
    ensures Trim("@param") == "@param" && Contains("@param", Marker)
  {
    TrimUnpadded("@param");
    MarkerAtStart();
  }

  lemma MarkerAtStart()
    ensures FindFrom("@param", Marker, 0) == Some(0)
  {
    var s := "@param";
    assert s[0..|Marker|] == s;
  }

  /** No comment carries no marker. */
  lemma NoCommentNoMarker()
    ensures !Contains([], Marker)
  {
  }

  /** The three declarations are found, in order, two of them with the
      comment `@param`. */
  lemma MarkedSpecs(lead: string)
    requires IsBlank(lead)
    ensures var specs := ParamSpecsOf(MarkedText(lead));
            && |specs| == 3
            && specs[0].name == "MODE" && specs[1].name == "COASTER_D" && specs[2].name == "FIT"
            && specs[0].comment == "@param" && specs[1].comment == "@param" && specs[2].comment == []
  {
    MarkedLinesValid(lead);
    SpecsOfLines(MarkedLines(lead), "\n");
    MarkerFound();
    var ds := MarkedLines(lead);
    var specs := ParamSpecsOf(MarkedText(lead));
    assert specs[1].name == ds[1].name && specs[1].comment == CommentOf(CaptureOf(ds[1]));
    assert specs[2].name == ds[2].name && specs[2].comment == CommentOf(CaptureOf(ds[2]));
  }

  /** Once one line carries `// @param`, only the marked lines are user
      parameters: MODE and COASTER_D, not FIT. */
  lemma MarkerFilteringWorks(lead: string)
    requires IsBlank(lead)
    ensures var specs := ParamSpecsOf(MarkedText(lead));
            && |specs| == 3
            && specs[0].name == "MODE" && specs[1].name == "COASTER_D" && specs[2].name == "FIT"
            && specs[0].isUserParam && specs[1].isUserParam && !specs[2].isUserParam
  {
    MarkedSpecs(lead);
    ParamSpecsFollowMarkerRule(MarkedText(lead));
    MarkerFound();
    NoCommentNoMarker();
    var specs := ParamSpecsOf(MarkedText(lead));
    assert Contains(specs[0].comment, Marker);
  }

  /** The options of the options test, and its comment, which lists them
      after `options:`. */
  const OptionNames: seq<string> := ["base", "inlay", "magnet", "preview"]

  const OptionsComment: string := "@param " + OptionsKey + " " + Joined(OptionNames, '|')

  /** The text of the options test, after the blank text `lead` (the test's
      is one newline), and with a final newline:

        MODE="base"; // @param options: base|inlay|magnet|preview
  */
  function OptionsLines(lead: string): seq<Declaration> {
    [Declaration(lead, "MODE", "", "", "\"base\"", Some(Remark(" ", " ", OptionsComment)))]
  }

  function OptionsText(lead: string): string {
    Lines(OptionsLines(lead), "\n")
  }

  /** The comment is one trimmed line. */
  lemma OptionsCommentClean()
    ensures OptionsComment != [] && !IsWhitespace(OptionsComment[0]) && '\n' !in OptionsComment
    ensures Trim(OptionsComment) == OptionsComment
  {
    var joined := Joined(OptionNames, '|');
    var head := "@param " + OptionsKey + " ";
    assert OptionsComment == head + joined;
    forall i | 0 <= i < |OptionNames|
      ensures '\n' !in OptionNames[i]
    {
    }
    JoinedAvoids(OptionNames, '|', '\n');
    JoinedLast(OptionNames, '|');
    assert OptionsComment[0] == head[0];
    assert OptionsComment[|OptionsComment| - 1] == joined[|joined| - 1];
    TrimUnpadded(OptionsComment);
  }

  /** A character in no option, and not the separator, is not in the joined
      text. */
  lemma {:induction false} JoinedAvoids(opts: seq<string>, sep: char, c: char)
    requires opts != [] && c != sep && forall i :: 0 <= i < |opts| ==> c !in opts[i]
    ensures c !in Joined(opts, sep)
    decreases |opts|
  {
    if |opts| > 1 {
      assert forall i :: 0 <= i < |opts[1..]| ==> c !in opts[1..][i] by {
        forall i | 0 <= i < |opts[1..]| ensures c !in opts[1..][i] {
          assert opts[1..][i] == opts[i + 1];
        }
      }
      JoinedAvoids(opts[1..], sep, c);
    }
  }

  /** The joined text ends where the last option does. */
  lemma {:induction false} JoinedLast(opts: seq<string>, sep: char)
    requires opts != [] && opts[|opts| - 1] != []
    ensures var j := Joined(opts, sep); var last := opts[|opts| - 1];
            j != [] && j[|j| - 1] == last[|last| - 1]
    decreases |opts|
  {
    if |opts| > 1 {
      assert opts[1..][|opts[1..]| - 1] == opts[|opts| - 1];
      JoinedLast(opts[1..], sep);
    }
  }

  /** The comment gives the four options, in order. */
  lemma OptionsCommentParsed()
    ensures ParseOptionsFromComment(OptionsComment) == OptionNames
  {
    var pre := "@param ";
    assert |AsciiLower(pre)| < |OptionsKey|;
    OptionsListed(pre, " ", OptionNames, '|');
  }

  lemma OptionsLinesValid(lead: string)
    requires IsBlank(lead)
    ensures ValidLines(OptionsLines(lead), "\n")
  {
    OptionsCommentClean();
  }

  /** `MODE` is found, and its options are the four listed after
      `options:`, in order. */
  lemma OptionsParsedFromComment(lead: string)
    requires IsBlank(lead)
    ensures var specs := ParamSpecsOf(OptionsText(lead));
            && |specs| == 1 && specs[0].name == "MODE"
            && specs[0].options == ["base", "inlay", "magnet", "preview"]
  {
    OptionsLinesValid(lead);
    SpecsOfLines(OptionsLines(lead), "\n");
    OptionsCommentClean();
    OptionsCommentParsed();
  }
}
