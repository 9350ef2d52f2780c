/** `extract_param_specs` and what it is built from: the scanner for the
    assignment pattern, type inference, and the `options:` list of a comment.

    The assignment pattern (openscad-part-maker/src/scad_params.rs:194-195) is

        (?m)^\s*([A-Z][A-Z0-9_]*)\s*=\s*([^;]+);\s*(?://\s*(.*))?$

    It is modelled as a scanner that makes every choice the regex engine's
    leftmost-first backtracking makes. The choices are forced: a shorter
    leading `\s*` or name run leaves a character the next item cannot start
    with, and `[^;]+` cannot pass a `;`. The two places where backtracking
    matters are written out:
    - `\s*([^;]+)` gives back one whitespace character when only whitespace
      stands between `=` and `;`;
    - after the `;`, `\s*` (which also crosses newlines) takes all the
      whitespace. If a `//` follows, that is the comment, even when it is on a
      later line. If the text ends, the match ends there. Otherwise the match
      ends at the last newline in that whitespace, and with no newline there
      is no match at this line start. */
module Extractor {
  import opened Wrappers
  import opened Text
  import opened Fields
  import opened Scan

  datatype ParamType = Number | Bool | String

  /** `ParamSpec`: one discovered declaration. `default` is the right-hand
      side as written, never evaluated. */
  datatype ParamSpec = ParamSpec(
    name: string,
    default: string,
    ty: ParamType,
    isUserParam: bool,
    comment: string,
    options: seq<string>)

  // ---------------------------------------------------------------- scanner

  /** The three capture groups of one match; group 3 is optional. */
  datatype Capture = Capture(name: string, rhs: string, comment: Option<string>)

  datatype Match = Match(cap: Capture, end: nat)

  predicate IsNameChar(c: char) { IsAsciiUpper(c) || IsAsciiDigit(c) || c == '_' }

  /** `[A-Z][A-Z0-9_]*` */
  predicate IsScadName(s: string) {
    |s| > 0 && IsAsciiUpper(s[0]) && forall i :: 1 <= i < |s| ==> IsNameChar(s[i])
  }

  predicate WellFormedCapture(c: Capture) {
    && IsScadName(c.name)
    && c.rhs != [] && ';' !in c.rhs
    && (c.comment.Some? ==> '\n' !in c.comment.value)
  }

  function SkipNameChars(text: string, i: nat): (j: nat)
    requires i <= |text|
    ensures i <= j <= |text|
    ensures forall k :: i <= k < j ==> IsNameChar(text[k])
    ensures j == |text| || !IsNameChar(text[j])
    decreases |text| - i
  {
    if i < |text| && IsNameChar(text[i]) then SkipNameChars(text, i + 1) else i
  }

  /** Group 2: `\s*([^;]+);` after the `=` at `eq`, given the first `;` after
      it. Only whitespace between `=` and `;` makes `\s*` give one back. */
  function RhsGroup(text: string, eq: nat, semi: nat): (rhs: string)
    requires eq + 1 < semi < |text| && text[semi] == ';'
    requires forall k :: eq + 1 <= k < semi ==> text[k] != ';'
    ensures rhs != [] && ';' !in rhs
  {
    var ws := SkipWhitespace(text, eq + 1);
    var rhsStart := if ws < semi then ws else semi - 1;
    SliceAvoids(text, rhsStart, semi, ';');
    text[rhsStart..semi]
  }

  /** `\s*(?://\s*(.*))?$` after the `;` at `semi`: group 3 and where the
      match ends, or None when the pattern cannot end here. */
  function AfterSemicolon(text: string, semi: nat): (r: Option<(Option<string>, nat)>)
    requires semi < |text|
    ensures r.Some? ==> semi < r.value.1 <= |text|
    ensures r.Some? && r.value.0.Some? ==> '\n' !in r.value.0.value
  {
    var after := SkipWhitespace(text, semi + 1);
    if after + 1 < |text| && text[after] == '/' && text[after + 1] == '/' then
      var commentStart := SkipWhitespace(text, after + 2);
      var commentEnd := LineEnd(text, commentStart);
      SliceAvoids(text, commentStart, commentEnd, '\n');
      Some((Some(text[commentStart..commentEnd]), commentEnd))
    else if after == |text| then
      Some((None, after))
    else
      match LastNewline(text, semi + 1, after)
      case None => None
      case Some(nl) => Some((None, nl))
  }

  /** The match of the assignment pattern that starts at `p`, if any. */
  function MatchAt(text: string, p: nat): (r: Option<Match>)
    requires p <= |text|
    ensures r.Some? ==> p < r.value.end <= |text| && WellFormedCapture(r.value.cap)
  {
    var nameStart := SkipWhitespace(text, p);
    if nameStart == |text| || !IsAsciiUpper(text[nameStart]) then None
    else
      var nameEnd := SkipNameChars(text, nameStart + 1);
      NameSliceIsScadName(text, nameStart, nameEnd);
      AfterName(text, text[nameStart..nameEnd], nameEnd)
  }

  lemma NameSliceIsScadName(text: string, nameStart: nat, nameEnd: nat)
    requires nameStart < nameEnd <= |text| && IsAsciiUpper(text[nameStart])
    requires forall k :: nameStart + 1 <= k < nameEnd ==> IsNameChar(text[k])
    ensures IsScadName(text[nameStart..nameEnd])
  {
    var name := text[nameStart..nameEnd];
    assert forall k :: 1 <= k < |name| ==> name[k] == text[nameStart + k];
  }

  /** The rest of the pattern, `\s*=\s*([^;]+);\s*(?://\s*(.*))?$`, after the
      name that ends at `nameEnd`. */
  function AfterName(text: string, name: string, nameEnd: nat): (r: Option<Match>)
    requires nameEnd <= |text| && IsScadName(name)
    ensures r.Some? ==> nameEnd < r.value.end <= |text| && WellFormedCapture(r.value.cap)
  {
    var eq := SkipWhitespace(text, nameEnd);
    if eq == |text| || text[eq] != '=' then None
    else AfterEquals(text, name, eq)
  }

  /** `\s*([^;]+);\s*(?://\s*(.*))?$` after the `=` at `eq`. */
  function AfterEquals(text: string, name: string, eq: nat): (r: Option<Match>)
    requires eq < |text| && text[eq] == '=' && IsScadName(name)
    ensures r.Some? ==> eq < r.value.end <= |text| && WellFormedCapture(r.value.cap)
  {
    match IndexOf(text, eq + 1, ';')
    case None => None
    case Some(semi) =>
      if semi == eq + 1 then None
      else
        var rhs := RhsGroup(text, eq, semi);
        match AfterSemicolon(text, semi)
        case None => None
        case Some(tail) => Some(Match(Capture(name, rhs, tail.0), tail.1))
  }

  /** `assign_re.captures_iter(text)` from position `pos` on: the leftmost
      match starting at a line start, then the search resumes where it ended. */
  function Captures(text: string, pos: nat): (r: seq<Capture>)
    requires pos <= |text|
    ensures forall i :: 0 <= i < |r| ==> WellFormedCapture(r[i])
    decreases |text| - pos
  {
    if pos == |text| then []
    else if IsLineStart(text, pos) && MatchAt(text, pos).Some? then
      var m := MatchAt(text, pos).value;
      [m.cap] + Captures(text, m.end)
    else Captures(text, pos + 1)
  }

  // ---------------------------------------------------------- type inference

  /** The type of a right-hand side: a leading quote makes a String, the words
      `true` and `false` in any ASCII case make a Bool, anything else, even an
      expression such as `CLEARANCE/2`, is a Number. */
  function InferType(rhs: string): (ty: ParamType)
    ensures ty == Bool ==> ParseBool(Trim(rhs)).Ok?
  {
    var start := TrimStart(rhs);
    if start != [] && start[0] == '"' then String
    else
      var word := Trim(AsciiLower(rhs));
      if word == "true" || word == "false" then
        TrimLowerCommute(rhs);
        Bool
      else Number
  }

  /** A leading quote, after leading whitespace, and only that, makes a String. */
  lemma InferTypeString(rhs: string)
    ensures InferType(rhs) == String <==> TrimStart(rhs) != [] && TrimStart(rhs)[0] == '"'
  {
  }

  /** Otherwise the words `true` and `false`, trimmed and in any ASCII case,
      and only those, make a Bool. */
  lemma InferTypeBool(rhs: string)
    ensures InferType(rhs) == Bool <==>
              InferType(rhs) != String
              && (EqualsIgnoringAsciiCase(Trim(rhs), "true") || EqualsIgnoringAsciiCase(Trim(rhs), "false"))
  {
    var word := Trim(rhs);
    TrimLowerCommute(rhs);
    LowerMatchesBoolTokens(word);
  }

  lemma {:induction false} TrimStartLowerCommute(s: string)
    ensures TrimStart(AsciiLower(s)) == AsciiLower(TrimStart(s))
    decreases |s|
  {
    if s != [] {
      var lower := AsciiLower(s);
      assert lower[0] == LowerChar(s[0]);
      LowerKeepsWhitespace(s[0]);
      if IsWhitespace(s[0]) {
        assert lower[1..] == AsciiLower(s[1..]);
        TrimStartLowerCommute(s[1..]);
        assert TrimStart(lower) == TrimStart(lower[1..]);
      } else {
        assert TrimStart(lower) == lower;
      }
    }
  }

  lemma {:induction false} TrimEndLowerCommute(s: string)
    ensures TrimEnd(AsciiLower(s)) == AsciiLower(TrimEnd(s))
    decreases |s|
  {
    if s != [] {
      var lower := AsciiLower(s);
      assert lower[|s| - 1] == LowerChar(s[|s| - 1]);
      LowerKeepsWhitespace(s[|s| - 1]);
      if IsWhitespace(s[|s| - 1]) {
        assert lower[..|s| - 1] == AsciiLower(s[..|s| - 1]);
        TrimEndLowerCommute(s[..|s| - 1]);
        assert TrimEnd(lower) == TrimEnd(lower[..|s| - 1]);
      } else {
        assert TrimEnd(lower) == lower;
      }
    }
  }

  lemma LowerKeepsWhitespace(c: char)
    ensures IsWhitespace(LowerChar(c)) == IsWhitespace(c)
  {
  }

  /** ASCII lowercasing never turns whitespace into non-whitespace or back, so
      it commutes with trimming. */
  lemma TrimLowerCommute(s: string)
    ensures Trim(AsciiLower(s)) == AsciiLower(Trim(s))
  {
    TrimStartLowerCommute(s);
    TrimEndLowerCommute(TrimStart(s));
  }

  /** A trimmed right-hand side typed Bool is a value `parse_bool` accepts, and
      it parses to the boolean it spells. */
  lemma BoolDefaultParses(rhs: string)
    requires Trim(rhs) == rhs && InferType(rhs) == Bool
    ensures ParseBool(rhs) == Ok(EqualsIgnoringAsciiCase(rhs, "true"))
  {
    InferTypeBool(rhs);
    ParseBoolAccepts(rhs);
  }

  // ------------------------------------------------------------------ options

  predicate IsOptionSeparator(c: char) { c == '|' || c == ',' }

  /** `s.split(|c| c == '|' || c == ',')`: the pieces between separators,
      empty ones included. */
  function SplitOnSeparators(s: string): (r: seq<string>)
    ensures |r| >= 1
    ensures forall i, k :: 0 <= i < |r| && 0 <= k < |r[i]| ==> !IsOptionSeparator(r[i][k])
    decreases |s|
  {
    if s == [] then [[]]
    else
      var rest := SplitOnSeparators(s[1..]);
      if IsOptionSeparator(s[0]) then [[]] + rest
      else [[s[0]] + rest[0]] + rest[1..]
  }

  /** The separator characters of `s`, in order. */
  function Separators(s: string): string
    decreases |s|
  {
    if s == [] then [] else (if IsOptionSeparator(s[0]) then [s[0]] else []) + Separators(s[1..])
  }

  /** Puts the pieces back together with the given separators between them. */
  function Interleave(pieces: seq<string>, seps: string): string
    requires |pieces| == |seps| + 1
    decreases |seps|
  {
    if seps == [] then pieces[0] else pieces[0] + [seps[0]] + Interleave(pieces[1..], seps[1..])
  }

  /** Splitting loses nothing: there is one piece more than there are
      separators, and putting the separators back gives the text. */
  lemma {:induction false} SplitRoundTrip(s: string)
    ensures |SplitOnSeparators(s)| == |Separators(s)| + 1
    ensures Interleave(SplitOnSeparators(s), Separators(s)) == s
    decreases |s|
  {
    if s != [] {
      SplitRoundTrip(s[1..]);
      if IsOptionSeparator(s[0]) {
        SplitStepSeparator(s);
      } else {
        SplitStepOther(s);
      }
      assert s == [s[0]] + s[1..];
    }
  }

  /** A leading separator closes an empty first piece. */
  lemma SplitStepSeparator(s: string)
    requires s != [] && IsOptionSeparator(s[0])
    requires |SplitOnSeparators(s[1..])| == |Separators(s[1..])| + 1
    ensures |SplitOnSeparators(s)| == |Separators(s)| + 1
    ensures Interleave(SplitOnSeparators(s), Separators(s)) ==
              [s[0]] + Interleave(SplitOnSeparators(s[1..]), Separators(s[1..]))
  {
    var pieces := SplitOnSeparators(s[1..]);
    var seps := Separators(s[1..]);
    var all := [[]] + pieces;
    var allSeps := [s[0]] + seps;
    assert Separators(s) == allSeps;
    assert SplitOnSeparators(s) == all;
    assert all[0] == [] && all[1..] == pieces;
    assert allSeps[0] == s[0] && allSeps[1..] == seps;
    assert Interleave(all, allSeps) == all[0] + [allSeps[0]] + Interleave(all[1..], allSeps[1..]);
    assert all[0] + [allSeps[0]] == [s[0]];
  }

  /** Any other leading character joins the first piece. */
  lemma SplitStepOther(s: string)
    requires s != [] && !IsOptionSeparator(s[0])
    requires |SplitOnSeparators(s[1..])| == |Separators(s[1..])| + 1
    ensures |SplitOnSeparators(s)| == |Separators(s)| + 1
    ensures Interleave(SplitOnSeparators(s), Separators(s)) ==
              [s[0]] + Interleave(SplitOnSeparators(s[1..]), Separators(s[1..]))
  {
    var pieces := SplitOnSeparators(s[1..]);
    var seps := Separators(s[1..]);
    assert Separators(s) == seps;
    assert SplitOnSeparators(s) == [[s[0]] + pieces[0]] + pieces[1..];
    InterleavePrefix([s[0]], pieces, seps);
  }

  /** Prefixing the first piece prefixes the whole. */
  lemma InterleavePrefix(x: string, pieces: seq<string>, seps: string)
    requires |pieces| == |seps| + 1
    ensures Interleave([x + pieces[0]] + pieces[1..], seps) == x + Interleave(pieces, seps)
  {
    var joined := [x + pieces[0]] + pieces[1..];
    assert joined[0] == x + pieces[0];
    if seps != [] {
      assert joined[1..] == pieces[1..];
      var tail := Interleave(pieces[1..], seps[1..]);
      assert Interleave(joined, seps) == x + pieces[0] + [seps[0]] + tail;
    }
  }

  predicate SeparatorFree(s: string) {
    forall k :: 0 <= k < |s| ==> !IsOptionSeparator(s[k])
  }

  /** An option as the parser leaves it: non-empty, no separator, no
      surrounding whitespace. */
  predicate IsCleanOption(s: string) {
    s != [] && !IsWhitespace(s[0]) && !IsWhitespace(s[|s| - 1]) && SeparatorFree(s)
  }

  /** `Trim(s)` is the stretch of `s` after its leading whitespace. */
  lemma TrimIsInfix(s: string)
    ensures forall k :: 0 <= k < |Trim(s)| ==> Trim(s)[k] == s[|s| - |TrimStart(s)| + k]
    ensures Trim(s) != [] ==> !IsWhitespace(Trim(s)[0])
  {
  }

  /** `.map(|s| s.trim()).filter(|s| !s.is_empty())` */
  function TrimmedNonEmpty(pieces: seq<string>): seq<string>
    decreases |pieces|
  {
    if pieces == [] then []
    else
      var t := Trim(pieces[0]);
      if t == [] then TrimmedNonEmpty(pieces[1..]) else [t] + TrimmedNonEmpty(pieces[1..])
  }

  /** `opts[k]` is the non-empty entry `idx[k]` of `all`. */
  ghost predicate Picks(all: seq<string>, opts: seq<string>, idx: seq<nat>) {
    && |idx| == |opts|
    && forall k :: 0 <= k < |idx| ==> idx[k] < |all| && opts[k] == all[idx[k]] && opts[k] != []
  }

  ghost predicate Increasing(idx: seq<nat>) {
    forall k, l :: 0 <= k < l < |idx| ==> idx[k] < idx[l]
  }

  /** Every non-empty entry of `all` is picked. */
  ghost predicate PicksEveryNonEmpty(all: seq<string>, idx: seq<nat>) {
    forall j :: 0 <= j < |all| && all[j] != [] ==> j in idx
  }

  /** `opts` is the non-empty entries of `all`, in order: `opts[k]` is entry
      `idx[k]`, `idx` is increasing, and every non-empty entry is picked. */
  ghost predicate NonEmptySelection(all: seq<string>, opts: seq<string>, idx: seq<nat>) {
    Picks(all, opts, idx) && Increasing(idx) && PicksEveryNonEmpty(all, idx)
  }

  /** Each piece trimmed. */
  function TrimAll(pieces: seq<string>): (r: seq<string>)
    ensures |r| == |pieces|
    decreases |pieces|
  {
    if pieces == [] then [] else [Trim(pieces[0])] + TrimAll(pieces[1..])
  }

  /** Every index one further on. */
  function Shift(idx: seq<nat>): (r: seq<nat>)
    ensures |r| == |idx| && forall k :: 0 <= k < |idx| ==> r[k] == idx[k] + 1
  {
    seq(|idx|, k requires 0 <= k < |idx| => idx[k] + 1)
  }

  /** The non-empty entries after the first are the shifted picks. */
  lemma ShiftPicksTail(t: string, all: seq<string>, idx: seq<nat>)
    requires PicksEveryNonEmpty(all, idx)
    ensures forall j :: 1 <= j < |[t] + all| && ([t] + all)[j] != [] ==> j in Shift(idx)
  {
    var shifted := Shift(idx);
    forall j | 1 <= j < |[t] + all| && ([t] + all)[j] != []
      ensures j in shifted
    {
      assert ([t] + all)[j] == all[j - 1];
      var k :| 0 <= k < |idx| && idx[k] == j - 1;
      assert shifted[k] == j;
    }
  }

  /** An empty entry in front is skipped. */
  lemma SelectionSkip(t: string, all: seq<string>, opts: seq<string>, idx: seq<nat>)
    requires NonEmptySelection(all, opts, idx) && t == []
    ensures NonEmptySelection([t] + all, opts, Shift(idx))
  {
    ShiftPicksTail(t, all, idx);
  }

  /** A non-empty entry in front is picked first. */
  lemma SelectionPick(t: string, all: seq<string>, opts: seq<string>, idx: seq<nat>)
    requires NonEmptySelection(all, opts, idx) && t != []
    ensures NonEmptySelection([t] + all, [t] + opts, [0] + Shift(idx))
  {
    PickedEntries(t, all, opts, idx);
    PickedIncreasing(idx);
    PickedEvery(t, all, idx);
  }

  lemma PickedEntries(t: string, all: seq<string>, opts: seq<string>, idx: seq<nat>)
    requires Picks(all, opts, idx) && t != []
    ensures Picks([t] + all, [t] + opts, [0] + Shift(idx))
  {
    var idx0: seq<nat> := [0] + Shift(idx);
    forall k | 0 < k < |idx0|
      ensures idx0[k] < |[t] + all| && ([t] + opts)[k] == ([t] + all)[idx0[k]] && ([t] + opts)[k] != []
    {
      assert idx0[k] == idx[k - 1] + 1 && ([t] + opts)[k] == opts[k - 1];
    }
  }

  lemma PickedIncreasing(idx: seq<nat>)
    requires Increasing(idx)
    ensures Increasing([0] + Shift(idx))
  {
  }

  lemma PickedEvery(t: string, all: seq<string>, idx: seq<nat>)
    requires PicksEveryNonEmpty(all, idx)
    ensures PicksEveryNonEmpty([t] + all, [0] + Shift(idx))
  {
    ShiftPicksTail(t, all, idx);
    forall j | 0 < j < |[t] + all| && ([t] + all)[j] != []
      ensures j in [0] + Shift(idx)
    {
      assert j in Shift(idx);
    }
  }

  /** `opts` is the non-empty entries of `all`, in order. */
  ghost predicate NonEmptyOf(all: seq<string>, opts: seq<string>) {
    exists idx :: NonEmptySelection(all, opts, idx)
  }

  /** `opts` is the non-empty entries of the pieces trimmed, in order. */
  ghost predicate TrimmedNonEmptyOf(pieces: seq<string>, opts: seq<string>) {
    NonEmptyOf(TrimAll(pieces), opts)
  }

  /** An entry in front is picked when it is non-empty and skipped when not. */
  lemma NonEmptyOfCons(t: string, all: seq<string>, opts: seq<string>)
    requires NonEmptyOf(all, opts)
    ensures NonEmptyOf([t] + all, if t == [] then opts else [t] + opts)
  {
    var idx :| NonEmptySelection(all, opts, idx);
    if t == [] {
      SelectionSkip(t, all, opts, idx);
    } else {
      SelectionPick(t, all, opts, idx);
    }
  }

  /** One step of the filter and of the trimming. */
  lemma TrimmedNonEmptyStep(pieces: seq<string>)
    requires pieces != []
    ensures TrimAll(pieces) == [Trim(pieces[0])] + TrimAll(pieces[1..])
    ensures TrimmedNonEmpty(pieces) ==
              if Trim(pieces[0]) == [] then TrimmedNonEmpty(pieces[1..]) else [Trim(pieces[0])] + TrimmedNonEmpty(pieces[1..])
  {
  }

  /** The filter keeps exactly the pieces that trim to something, trimmed
      and in order. */
  lemma {:induction false} TrimmedNonEmptySelects(pieces: seq<string>)
    ensures TrimmedNonEmptyOf(pieces, TrimmedNonEmpty(pieces))
    decreases |pieces|
  {
    if pieces == [] {
      assert NonEmptySelection(TrimAll(pieces), [], []);
    } else {
      TrimmedNonEmptySelects(pieces[1..]);
      TrimmedNonEmptyStep(pieces);
      NonEmptyOfCons(Trim(pieces[0]), TrimAll(pieces[1..]), TrimmedNonEmpty(pieces[1..]));
    }
  }

  lemma {:induction false} TrimmedNonEmptyClean(pieces: seq<string>)
    requires forall i :: 0 <= i < |pieces| ==> SeparatorFree(pieces[i])
    ensures |TrimmedNonEmpty(pieces)| <= |pieces|
    ensures forall i :: 0 <= i < |TrimmedNonEmpty(pieces)| ==> IsCleanOption(TrimmedNonEmpty(pieces)[i])
    decreases |pieces|
  {
    if pieces != [] {
      TrimmedNonEmptyClean(pieces[1..]);
      if Trim(pieces[0]) != [] {
        TrimClean(pieces[0]);
      }
    }
  }

  lemma TrimClean(s: string)
    requires SeparatorFree(s) && Trim(s) != []
    ensures IsCleanOption(Trim(s))
  {
    TrimIsInfix(s);
  }

  const OptionsKey: string := "options:"

  /** `parse_options_from_comment`: the text after the first `options:` (in
      any ASCII case), split on `|` and `,`, each piece trimmed, empty pieces
      dropped. */
  function ParseOptionsFromComment(comment: string): (opts: seq<string>)
    ensures forall i :: 0 <= i < |opts| ==> IsCleanOption(opts[i])
  {
    match Find(AsciiLower(comment), OptionsKey)
    case None => []
    case Some(idx) =>
      var pieces := SplitOnSeparators(comment[idx + |OptionsKey|..]);
      TrimmedNonEmptyClean(pieces);
      TrimmedNonEmpty(pieces)
  }

  /** No `options:` gives no options. Otherwise the options are the pieces
      of the text after the first `options:` between `|` and `,`, trimmed,
      the empty ones dropped, in order; every option is non-empty, has no
      separator in it and no surrounding whitespace. */
  lemma OptionsAreClean(comment: string)
    ensures Find(AsciiLower(comment), OptionsKey).None? ==> ParseOptionsFromComment(comment) == []
    ensures Find(AsciiLower(comment), OptionsKey).Some? ==>
              var at := Find(AsciiLower(comment), OptionsKey).value;
              && at + |OptionsKey| <= |comment|
              && TrimmedNonEmptyOf(SplitOnSeparators(comment[at + |OptionsKey|..]), ParseOptionsFromComment(comment))
    ensures forall i :: 0 <= i < |ParseOptionsFromComment(comment)| ==> IsCleanOption(ParseOptionsFromComment(comment)[i])
  {
    var key := Find(AsciiLower(comment), OptionsKey);
    if key.Some? {
      TrimmedNonEmptyClean(SplitOnSeparators(comment[key.value + |OptionsKey|..]));
      TrimmedNonEmptySelects(SplitOnSeparators(comment[key.value + |OptionsKey|..]));
    }
  }

  /** Options written out with `sep` between them. */
  function Joined(opts: seq<string>, sep: char): string
    requires opts != []
    decreases |opts|
  {
    if |opts| == 1 then opts[0] else opts[0] + ([sep] + Joined(opts[1..], sep))
  }

  /** The converse of `OptionsAreClean`: a comment that reads `options:`
      after a text holding no `options:` in any case, then blank text, then
      clean options between separators, gives exactly those options, in
      order, whatever their case. */
  lemma {:induction false} OptionsListed(pre: string, gap: string, opts: seq<string>, sep: char)
    requires !Contains(AsciiLower(pre), OptionsKey)
    requires IsBlank(gap) && IsOptionSeparator(sep)
    requires opts != [] && forall i :: 0 <= i < |opts| ==> IsCleanOption(opts[i])
    ensures ParseOptionsFromComment(pre + OptionsKey + gap + Joined(opts, sep)) == opts
  {
    var after := gap + Joined(opts, sep);
    var comment := pre + OptionsKey + gap + Joined(opts, sep);
    assert comment == pre + OptionsKey + after;
    KeyFound(pre, after);
    assert comment[|pre| + |OptionsKey|..] == after;
    SplitJoined(opts, sep);
    SplitPrefix(gap, Joined(opts, sep));
    TrimBlankPrefix(gap, opts[0]);
    TrimmedClean(opts[1..]);
    var pieces := [gap + opts[0]] + opts[1..];
    assert pieces[1..] == opts[1..];
    assert TrimmedNonEmpty(pieces) == [opts[0]] + opts[1..];
    assert [opts[0]] + opts[1..] == opts;
  }

  /** The first `options:` in the lowered comment is the one after `pre`:
      one inside `pre` would be found in `pre` alone, and one that starts in
      `pre` and runs into the key would need a `:` inside the key's letters. */
  lemma KeyFound(pre: string, rest: string)
    requires !Contains(AsciiLower(pre), OptionsKey)
    ensures Find(AsciiLower(pre + OptionsKey + rest), OptionsKey) == Some(|pre|)
  {
    var lower := AsciiLower(pre + OptionsKey + rest);
    KeyAfterPre(pre, rest);
    forall k | 0 <= k < |pre|
      ensures !OccursAt(lower, OptionsKey, k)
    {
      if k + |OptionsKey| <= |pre| {
        NoKeyInPre(pre, rest, k);
      } else {
        NoKeyAcross(pre, rest, k);
      }
    }
    FindFirstOccurrence(lower, OptionsKey, 0, |pre|);
  }

  /** The key, already in lower case, stays where it was written. */
  lemma KeyAfterPre(pre: string, rest: string)
    ensures OccursAt(AsciiLower(pre + OptionsKey + rest), OptionsKey, |pre|)
  {
    var c := pre + OptionsKey + rest;
    var lower := AsciiLower(c);
    forall j | 0 <= j < |OptionsKey|
      ensures lower[|pre| + j] == OptionsKey[j]
    {
      assert c[|pre| + j] == OptionsKey[j];
    }
    assert lower[|pre|..|pre| + |OptionsKey|] == OptionsKey;
  }

  /** An occurrence that lies inside `pre` would be one in `pre` alone. */
  lemma NoKeyInPre(pre: string, rest: string, k: nat)
    requires !Contains(AsciiLower(pre), OptionsKey)
    requires k + |OptionsKey| <= |pre|
    ensures !OccursAt(AsciiLower(pre + OptionsKey + rest), OptionsKey, k)
  {
    var lower := AsciiLower(pre + OptionsKey + rest);
    assert FindFrom(AsciiLower(pre), OptionsKey, 0).None?;
    assert !OccursAt(AsciiLower(pre), OptionsKey, k);
    assert lower[k..k + |OptionsKey|] == AsciiLower(pre)[k..k + |OptionsKey|];
  }

  /** An occurrence that starts in `pre` and runs into the key would end on
      one of the key's letters, not on its `:`. */
  lemma NoKeyAcross(pre: string, rest: string, k: nat)
    requires k < |pre| < k + |OptionsKey|
    ensures !OccursAt(AsciiLower(pre + OptionsKey + rest), OptionsKey, k)
  {
    var c := pre + OptionsKey + rest;
    var lower := AsciiLower(c);
    var last := k + |OptionsKey| - 1;
    assert c[last] == OptionsKey[last - |pre|];
    assert lower[last] != ':';
    if k + |OptionsKey| <= |lower| {
      assert lower[k..k + |OptionsKey|][|OptionsKey| - 1] == lower[last];
    }
  }

  /** A search that passes no occurrence before `j` finds the one at `j`. */
  lemma {:induction false} FindFirstOccurrence(s: string, pat: string, i: nat, j: nat)
    requires i <= j && OccursAt(s, pat, j)
    requires forall k :: i <= k < j ==> !OccursAt(s, pat, k)
    ensures FindFrom(s, pat, i) == Some(j)
    decreases j - i
  {
    if i < j {
      FindFirstOccurrence(s, pat, i + 1, j);
    }
  }

  /** Separator-free text in front joins the first piece. */
  lemma {:induction false} SplitPrefix(a: string, s: string)
    requires SeparatorFree(a)
    ensures var r := SplitOnSeparators(s);
            SplitOnSeparators(a + s) == [a + r[0]] + r[1..]
    decreases |a|
  {
    if a != [] {
      assert (a + s)[0] == a[0] && (a + s)[1..] == a[1..] + s;
      SplitPrefix(a[1..], s);
      var r := SplitOnSeparators(s);
      assert [a[0]] + (a[1..] + r[0]) == a + r[0];
    } else {
      var r := SplitOnSeparators(s);
      assert a + s == s && a + r[0] == r[0];
      assert [r[0]] + r[1..] == r;
    }
  }

  /** Splitting joined options gives them back. */
  lemma {:induction false} SplitJoined(opts: seq<string>, sep: char)
    requires IsOptionSeparator(sep)
    requires opts != [] && forall i :: 0 <= i < |opts| ==> SeparatorFree(opts[i])
    ensures SplitOnSeparators(Joined(opts, sep)) == opts
    decreases |opts|
  {
    if |opts| == 1 {
      SplitPrefix(opts[0], []);
      assert opts[0] + [] == opts[0];
    } else {
      var rest := Joined(opts[1..], sep);
      assert forall i :: 0 <= i < |opts[1..]| ==> SeparatorFree(opts[1..][i]) by {
        forall i | 0 <= i < |opts[1..]| ensures SeparatorFree(opts[1..][i]) {
          assert opts[1..][i] == opts[i + 1];
        }
      }
      SplitJoined(opts[1..], sep);
      assert ([sep] + rest)[0] == sep && ([sep] + rest)[1..] == rest;
      assert SplitOnSeparators([sep] + rest) == [[]] + opts[1..];
      SplitPrefix(opts[0], [sep] + rest);
      assert ([[]] + opts[1..])[1..] == opts[1..];
      assert opts[0] + [] == opts[0];
      assert [opts[0]] + opts[1..] == opts;
    }
  }

  /** Blank text in front of an unpadded text is trimmed away. */
  lemma {:induction false} TrimBlankPrefix(gap: string, x: string)
    requires IsBlank(gap) && x != [] && !IsWhitespace(x[0]) && !IsWhitespace(x[|x| - 1])
    ensures Trim(gap + x) == x
    decreases |gap|
  {
    if gap == [] {
      assert gap + x == x;
      TrimUnpadded(x);
    } else {
      assert (gap + x)[0] == gap[0] && (gap + x)[1..] == gap[1..] + x;
      TrimBlankPrefix(gap[1..], x);
    }
  }

  /** Clean options pass the trim and the filter unchanged. */
  lemma {:induction false} TrimmedClean(opts: seq<string>)
    requires forall i :: 0 <= i < |opts| ==> IsCleanOption(opts[i])
    ensures TrimmedNonEmpty(opts) == opts
    decreases |opts|
  {
    if opts != [] {
      assert TrimmedNonEmpty(opts[1..]) == opts[1..] by {
        CleanTail(opts);
        TrimmedClean(opts[1..]);
      }
      assert Trim(opts[0]) == opts[0] != [] by {
        TrimUnpadded(opts[0]);
      }
      TrimmedNonEmptyStep(opts);
      assert [opts[0]] + opts[1..] == opts;
    }
  }

  lemma CleanTail(opts: seq<string>)
    requires opts != [] && forall i :: 0 <= i < |opts| ==> IsCleanOption(opts[i])
    ensures forall i :: 0 <= i < |opts[1..]| ==> IsCleanOption(opts[1..][i])
  {
    forall i | 0 <= i < |opts[1..]|
      ensures IsCleanOption(opts[1..][i])
    {
      assert opts[1..][i] == opts[i + 1];
    }
  }

  // --------------------------------------------------------------- extraction

  /** The tuple the first pass pushes for one match. */
  datatype RawDecl = RawDecl(name: string, rhs: string, isMarked: bool, comment: string)

  const Marker: string := "@param"

  /** Group 3 trimmed, or the empty text when the group did not take part. */
  function CommentOf(c: Capture): string {
    if c.comment.Some? then Trim(c.comment.value) else []
  }

  /** The first pass for one match: the right-hand side and the comment
      trimmed, and whether the comment contains `@param`. */
  function RawOf(c: Capture): RawDecl {
    var comment := CommentOf(c);
    RawDecl(c.name, Trim(c.rhs), Contains(comment, Marker), comment)
  }

  /** The second pass for one declaration (the `filter_map` closure, which
      never filters). */
  function ToSpec(raw: RawDecl, anyMarked: bool): ParamSpec {
    ParamSpec(
      raw.name, raw.rhs, InferType(raw.rhs),
      if anyMarked then raw.isMarked else true,
      raw.comment, ParseOptionsFromComment(raw.comment))
  }

  /** The second pass over all declarations. */
  function SecondPass(raws: seq<RawDecl>, anyMarked: bool): (specs: seq<ParamSpec>)
    ensures |specs| == |raws|
    ensures forall k :: 0 <= k < |raws| ==> specs[k] == ToSpec(raws[k], anyMarked)
  {
    seq(|raws|, k requires 0 <= k < |raws| => ToSpec(raws[k], anyMarked))
  }

  /** `xs.iter().map(f)`, collected; built from the back so that one more
      element at the end is one more step. */
  function MapSeq<A, B>(f: A -> B, xs: seq<A>): (ys: seq<B>)
    ensures |ys| == |xs|
    decreases |xs|
  {
    if xs == [] then [] else MapSeq(f, xs[..|xs| - 1]) + [f(xs[|xs| - 1])]
  }

  lemma {:induction false} MapSeqAt<A, B>(f: A -> B, xs: seq<A>)
    ensures |MapSeq(f, xs)| == |xs|
    ensures forall k :: 0 <= k < |xs| ==> MapSeq(f, xs)[k] == f(xs[k])
    decreases |xs|
  {
    if xs != [] {
      MapSeqAt(f, xs[..|xs| - 1]);
    }
  }

  /** Some declaration carries the marker, as the first pass's flag
      accumulates it. */
  predicate AnyMarked(raws: seq<RawDecl>)
    decreases |raws|
  {
    raws != [] && (AnyMarked(raws[..|raws| - 1]) || raws[|raws| - 1].isMarked)
  }

  lemma {:induction false} AnyMarkedIff(raws: seq<RawDecl>)
    ensures AnyMarked(raws) <==> exists k :: 0 <= k < |raws| && raws[k].isMarked
    decreases |raws|
  {
    if raws != [] {
      var init := raws[..|raws| - 1];
      AnyMarkedIff(init);
      if AnyMarked(init) {
        var k :| 0 <= k < |init| && init[k].isMarked;
        assert raws[k] == init[k];
      }
      if exists k :: 0 <= k < |raws| && raws[k].isMarked {
        var k :| 0 <= k < |raws| && raws[k].isMarked;
        if k < |init| {
          assert init[k] == raws[k];
        }
      }
    }
  }

  /** The two-mode visibility rule, stated on the specs alone. */
  predicate MarkerRule(specs: seq<ParamSpec>) {
    if exists i :: 0 <= i < |specs| && Contains(specs[i].comment, Marker) then
      forall i :: 0 <= i < |specs| ==> specs[i].isUserParam == Contains(specs[i].comment, Marker)
    else
      forall i :: 0 <= i < |specs| ==> specs[i].isUserParam
  }

  /** What `extract_param_specs` returns: the first pass maps every match to
      its declaration, then the second pass decides each one's visibility
      from whether any declaration carries `@param`. */
  function ParamSpecsOf(text: string): (specs: seq<ParamSpec>)
    ensures |specs| == |Captures(text, 0)|
    ensures forall k :: 0 <= k < |specs| ==>
              && specs[k].ty == InferType(specs[k].default)
              && forall i :: 0 <= i < |specs[k].options| ==> IsCleanOption(specs[k].options[i])
  {
    var raws := MapSeq(RawOf, Captures(text, 0));
    SecondPass(raws, AnyMarked(raws))
  }

  /** `extract_param_specs`, as the source runs it: one loop collecting the
      declarations and the any-marked flag, then the second pass. */
  method ExtractParamSpecs(text: string) returns (specs: seq<ParamSpec>)
    ensures specs == ParamSpecsOf(text)
  {
    var caps := Captures(text, 0);
    var raws: seq<RawDecl> := [];
    var anyMarked := false;
    var i := 0;
    while i < |caps|
      invariant 0 <= i <= |caps|
      invariant raws == MapSeq(RawOf, caps[..i])
      invariant anyMarked == AnyMarked(raws)
    {
      var raw := RawOf(caps[i]);
      MapSeqSnoc(RawOf, caps, i);
      AnyMarkedSnoc(raws, raw);
      if raw.isMarked {
        anyMarked := true;
      }
      raws := raws + [raw];
      i := i + 1;
    }
    assert caps[..i] == caps;
    specs := SecondPass(raws, anyMarked);
  }

  /** One more element mapped is one more element at the end. */
  lemma MapSeqSnoc<A, B>(f: A -> B, xs: seq<A>, i: nat)
    requires i < |xs|
    ensures MapSeq(f, xs[..i + 1]) == MapSeq(f, xs[..i]) + [f(xs[i])]
  {
    assert xs[..i + 1][..i] == xs[..i];
  }

  lemma AnyMarkedSnoc(raws: seq<RawDecl>, raw: RawDecl)
    ensures AnyMarked(raws + [raw]) == (AnyMarked(raws) || raw.isMarked)
  {
    assert (raws + [raw])[..|raws|] == raws;
  }

  /** One spec per match, in source order, carrying that match's name, its
      trimmed right-hand side as default, the type inferred from it, and its
      trimmed comment with that comment's options. */
  lemma ParamSpecsMatchCaptures(text: string)
    ensures |ParamSpecsOf(text)| == |Captures(text, 0)|
    ensures forall i :: 0 <= i < |Captures(text, 0)| ==>
              var c := Captures(text, 0)[i];
              var s := ParamSpecsOf(text)[i];
              && s.name == c.name && s.default == Trim(c.rhs) && s.ty == InferType(s.default)
              && s.comment == CommentOf(c) && s.options == ParseOptionsFromComment(s.comment)
  {
    MapSeqAt(RawOf, Captures(text, 0));
  }

  /** Every discovered name is an identifier the pattern allows; every
      default has no `;` and no surrounding whitespace, and its type is the one
      inferred from it; every comment is trimmed. */
  lemma ParamSpecsWellFormed(text: string)
    ensures forall i :: 0 <= i < |ParamSpecsOf(text)| ==>
              var s := ParamSpecsOf(text)[i];
              && IsScadName(s.name) && ';' !in s.default
              && Trim(s.default) == s.default && s.ty == InferType(s.default)
              && Trim(s.comment) == s.comment
  {
    var caps := Captures(text, 0);
    ParamSpecsMatchCaptures(text);
    forall i | 0 <= i < |caps| {
      CaptureTrimmed(caps[i]);
    }
  }

  /** A match's trimmed right-hand side has no `;` and its trimmed comment
      and right-hand side stay as they are when trimmed again. */
  lemma CaptureTrimmed(c: Capture)
    requires WellFormedCapture(c)
    ensures ';' !in Trim(c.rhs) && Trim(Trim(c.rhs)) == Trim(c.rhs)
    ensures Trim(CommentOf(c)) == CommentOf(c)
  {
    var t := Trim(c.rhs);
    assert forall k :: 0 <= k < |t| ==> t[k] in c.rhs;
    TrimIdempotent(c.rhs);
    if c.comment.Some? {
      TrimIdempotent(c.comment.value);
    }
  }

  /** The two-mode visibility rule of `extract_param_specs`. */
  lemma ParamSpecsFollowMarkerRule(text: string)
    ensures MarkerRule(ParamSpecsOf(text))
  {
    var raws := MapSeq(RawOf, Captures(text, 0));
    MapSeqAt(RawOf, Captures(text, 0));
    SecondPassMarkerRule(raws);
  }

  lemma SecondPassMarkerRule(raws: seq<RawDecl>)
    requires forall k :: 0 <= k < |raws| ==> raws[k].isMarked == Contains(raws[k].comment, Marker)
    ensures MarkerRule(SecondPass(raws, AnyMarked(raws)))
  {
    AnyMarkedIff(raws);
  }
}
