/** What the two patterns of the parameter engine find.

    `Extractor` and `Loader` define the scanners position by position and
    prove that whatever they match is well formed. This module proves the
    converse. A declaration line `NAME = RHS; // comment` and an include
    directive `include <x>;` or `use <x>;`, written with any whitespace the
    patterns allow, are matched with exactly the groups they were written
    with. A text made of such lines gives one capture per line, in order. */
module Matching {
  import opened Wrappers
  import opened Text
  import opened Scan
  import opened Extractor
  import opened Loader

  // ---------------------------------------------------------------- spelling

  /** Position `k` of a piece written from position `i` on. Naming it gives
      the quantifier of `Spells` a trigger that only the proofs below write,
      so that a piece in context is not unfolded character by character. */
  function At(i: nat, k: nat): nat {
    i + k
  }

  /** `text` holds `s` from position `i` on. */
  predicate Spells(text: string, i: nat, s: string) {
    i + |s| <= |text| && forall k {:trigger At(i, k)} :: 0 <= k < |s| ==> text[At(i, k)] == s[k]
  }

  lemma SpellsSuffix(text: string, i: nat, s: string)
    requires i <= |text| && text[i..] == s
    ensures Spells(text, i, s) && i + |s| == |text|
  {
    forall k | 0 <= k < |s|
      ensures text[At(i, k)] == s[k]
    {
      assert s[k] == text[i..][k];
    }
  }

  lemma SpellsSplit(text: string, i: nat, a: string, b: string)
    requires Spells(text, i, a + b)
    ensures Spells(text, i, a) && Spells(text, i + |a|, b)
  {
    forall k | 0 <= k < |a|
      ensures text[At(i, k)] == a[k]
    {
      assert text[At(i, k)] == (a + b)[k];
    }
    forall k | 0 <= k < |b|
      ensures text[At(i + |a|, k)] == b[k]
    {
      assert text[At(i, |a| + k)] == (a + b)[|a| + k];
    }
  }

  lemma SpellsFirst(text: string, i: nat, s: string)
    requires Spells(text, i, s) && s != []
    ensures i < |text| && text[i] == s[0]
  {
    assert text[At(i, 0)] == s[0];
  }

  lemma SpellsSlice(text: string, i: nat, s: string)
    requires Spells(text, i, s)
    ensures text[i..i + |s|] == s
  {
    forall k | 0 <= k < |s|
      ensures text[i..i + |s|][k] == s[k]
    {
      assert text[At(i, k)] == s[k];
    }
  }

  /** `\s*` at `i` takes exactly the blank text `a`. */
  lemma SkipsBlank(text: string, i: nat, a: string)
    requires Spells(text, i, a) && IsBlank(a)
    requires i + |a| == |text| || !IsWhitespace(text[i + |a|])
    ensures SkipWhitespace(text, i) == i + |a|
  {
    forall k | i <= k < i + |a|
      ensures IsWhitespace(text[k])
    {
      assert text[At(i, k - i)] == a[k - i];
    }
  }

  /** `.*` at `i` takes exactly the newline-free text `a`. */
  lemma SpansLine(text: string, i: nat, a: string)
    requires Spells(text, i, a) && '\n' !in a
    requires i + |a| == |text| || text[i + |a|] == '\n'
    ensures LineEnd(text, i) == i + |a|
  {
    forall k | i <= k < i + |a|
      ensures text[k] != '\n'
    {
      assert text[At(i, k - i)] == a[k - i];
      assert a[k - i] in a;
    }
  }

  /** `[A-Z][A-Z0-9_]*` at `i` takes exactly `name`. */
  lemma SpansName(text: string, i: nat, name: string)
    requires Spells(text, i, name) && IsScadName(name)
    requires i + |name| == |text| || !IsNameChar(text[i + |name|])
    ensures i < |text| && IsAsciiUpper(text[i]) && SkipNameChars(text, i + 1) == i + |name|
  {
    SpellsFirst(text, i, name);
    forall k | i + 1 <= k < i + |name|
      ensures IsNameChar(text[k])
    {
      assert text[At(i, k - i)] == name[k - i];
    }
  }

  /** The first `c` from `i` on is the one right after the `c`-free text `a`. */
  lemma FindsFirst(text: string, i: nat, a: string, c: char)
    requires Spells(text, i, a) && c !in a
    requires i + |a| < |text| && text[i + |a|] == c
    ensures IndexOf(text, i, c) == Some(i + |a|)
  {
    forall k | i <= k < i + |a|
      ensures text[k] != c
    {
      assert text[At(i, k - i)] == a[k - i];
      assert a[k - i] in a;
    }
  }

  // ------------------------------------------------------------ declarations

  /** A trailing `// comment`: the whitespace before `//`, the whitespace
      after it, and the comment itself. */
  datatype Remark = Remark(before: string, after: string, text: string)

  /** One declaration line: `indent NAME beforeEq = afterEq RHS ;`, then
      an optional remark. */
  datatype Declaration = Declaration(
    indent: string,
    name: string,
    beforeEq: string,
    afterEq: string,
    rhs: string,
    remark: Option<Remark>)

  /** The remark written out, followed by `rest`. */
  function RemarkThen(r: Option<Remark>, rest: string): string {
    match r
    case None => rest
    case Some(m) => m.before + ("//" + (m.after + (m.text + rest)))
  }

  /** Everything after the name written out, followed by `rest`. */
  function AssignmentThen(d: Declaration, rest: string): string {
    d.beforeEq + ("=" + (d.afterEq + (d.rhs + (";" + RemarkThen(d.remark, rest)))))
  }

  /** The declaration written out, followed by `rest`. */
  function DeclarationThen(d: Declaration, rest: string): string {
    d.indent + (d.name + AssignmentThen(d, rest))
  }

  /** A declaration the pattern reads back as written: the gaps are
      whitespace, the name is an identifier, the right-hand side starts with
      a non-whitespace character and has no `;`, and a comment starts with a
      non-whitespace character and stays on its line. */
  predicate ValidDeclaration(d: Declaration) {
    && IsBlank(d.indent) && IsBlank(d.beforeEq) && IsBlank(d.afterEq)
    && IsScadName(d.name)
    && d.rhs != [] && !IsWhitespace(d.rhs[0]) && ';' !in d.rhs
    && (d.remark.Some? ==>
          && IsBlank(d.remark.value.before) && IsBlank(d.remark.value.after)
          && d.remark.value.text != [] && !IsWhitespace(d.remark.value.text[0])
          && '\n' !in d.remark.value.text)
  }

  /** The capture groups the declaration was written with. */
  function CaptureOf(d: Declaration): Capture {
    Capture(d.name, d.rhs, if d.remark.Some? then Some(d.remark.value.text) else None)
  }

  /** What may follow a declaration for its match to end with it: the end
      of the line after a comment; after a bare `;`, blank text to the end,
      or a newline and a line starting with neither whitespace nor `/`. */
  predicate EndsLine(d: Declaration, rest: string) {
    if d.remark.Some? then rest == [] || rest[0] == '\n'
    else IsBlank(rest) || (|rest| >= 2 && rest[0] == '\n' && !IsWhitespace(rest[1]) && rest[1] != '/')
  }

  /** Where the match of such a declaration ends: at the end of its line, or
      at the end of the text when only whitespace follows a bare `;`. */
  function DeclarationEnd(text: string, d: Declaration, rest: string): nat
    requires |rest| <= |text|
  {
    if d.remark.None? && IsBlank(rest) then |text| else |text| - |rest|
  }

  /** A declaration line at `p` is matched there, with the name, right-hand
      side and comment it was written with. */
  lemma MatchesDeclaration(text: string, p: nat, d: Declaration, rest: string)
    requires p <= |text| && text[p..] == DeclarationThen(d, rest)
    requires ValidDeclaration(d) && EndsLine(d, rest)
    ensures MatchAt(text, p) == Some(Match(CaptureOf(d), DeclarationEnd(text, d, rest)))
  {
    SpellsSuffix(text, p, DeclarationThen(d, rest));
    SpelledDeclarationMatches(text, p, d, rest);
  }

  lemma SpelledDeclarationMatches(text: string, p: nat, d: Declaration, rest: string)
    requires Spells(text, p, DeclarationThen(d, rest)) && p + |DeclarationThen(d, rest)| == |text|
    requires ValidDeclaration(d) && EndsLine(d, rest)
    ensures MatchAt(text, p) == Some(Match(CaptureOf(d), DeclarationEnd(text, d, rest)))
  {
    var nameStart := p + |d.indent|;
    var nameEnd := nameStart + |d.name|;
    var tail := AssignmentThen(d, rest);
    SpellsSplit(text, p, d.indent, d.name + tail);
    SpellsSplit(text, nameStart, d.name, tail);
    SpellsFirst(text, nameStart, d.name);
    AssignmentStart(d, rest);
    SpellsFirst(text, nameEnd, tail);
    SkipsBlank(text, p, d.indent);
    SpansName(text, nameStart, d.name);
    SpellsSlice(text, nameStart, d.name);
    MatchAtReads(text, p, nameStart, nameEnd, d.name);
    AfterNameMatches(text, nameEnd, d, rest);
  }

  /** What follows the name starts with whitespace or `=`. */
  lemma AssignmentStart(d: Declaration, rest: string)
    requires IsBlank(d.beforeEq)
    ensures var tail := AssignmentThen(d, rest);
            tail != [] && (IsWhitespace(tail[0]) || tail[0] == '=')
  {
    var tail := AssignmentThen(d, rest);
    if d.beforeEq == [] {
      assert tail[0] == '=';
    } else {
      assert tail[0] == d.beforeEq[0];
    }
  }

  /** How `MatchAt` reads a name, in terms of where the scanners stop. */
  lemma MatchAtReads(text: string, p: nat, nameStart: nat, nameEnd: nat, name: string)
    requires p <= |text| && SkipWhitespace(text, p) == nameStart
    requires nameStart < nameEnd <= |text| && IsAsciiUpper(text[nameStart])
    requires SkipNameChars(text, nameStart + 1) == nameEnd && text[nameStart..nameEnd] == name
    requires IsScadName(name)
    ensures MatchAt(text, p) == AfterName(text, name, nameEnd)
  {
  }

  /** After the name: `\s*=` and the rest. */
  lemma AfterNameMatches(text: string, nameEnd: nat, d: Declaration, rest: string)
    requires Spells(text, nameEnd, AssignmentThen(d, rest)) && nameEnd + |AssignmentThen(d, rest)| == |text|
    requires ValidDeclaration(d) && EndsLine(d, rest)
    ensures AfterName(text, d.name, nameEnd) == Some(Match(CaptureOf(d), DeclarationEnd(text, d, rest)))
  {
    var eq := nameEnd + |d.beforeEq|;
    var after := d.afterEq + (d.rhs + (";" + RemarkThen(d.remark, rest)));
    SpellsSplit(text, nameEnd, d.beforeEq, "=" + after);
    SpellsFirst(text, eq, "=" + after);
    SkipsBlank(text, nameEnd, d.beforeEq);
    SpellsSplit(text, eq, "=", after);
    AfterEqualsMatches(text, eq, d, rest);
  }

  /** After the `=`: `\s*([^;]+);` and the end of the line. */
  lemma AfterEqualsMatches(text: string, eq: nat, d: Declaration, rest: string)
    requires eq < |text| && text[eq] == '='
    requires Spells(text, eq + 1, d.afterEq + (d.rhs + (";" + RemarkThen(d.remark, rest))))
    requires eq + 1 + |d.afterEq| + |d.rhs| + 1 + |RemarkThen(d.remark, rest)| == |text|
    requires ValidDeclaration(d) && EndsLine(d, rest)
    ensures AfterEquals(text, d.name, eq) == Some(Match(CaptureOf(d), DeclarationEnd(text, d, rest)))
  {
    var rhsStart := eq + 1 + |d.afterEq|;
    var semi := rhsStart + |d.rhs|;
    var tail := RemarkThen(d.remark, rest);
    RhsSpelled(text, eq + 1, d.afterEq, d.rhs, tail);
    AfterSemicolonMatches(text, semi, d, rest);
    AfterEqualsReads(text, d.name, eq, rhsStart, semi, d.rhs, (CaptureOf(d).comment, DeclarationEnd(text, d, rest)));
  }

  /** Where the scanners stop on `\s*([^;]+);`. */
  lemma RhsSpelled(text: string, i: nat, gap: string, rhs: string, tail: string)
    requires Spells(text, i, gap + (rhs + (";" + tail)))
    requires IsBlank(gap) && rhs != [] && !IsWhitespace(rhs[0]) && ';' !in rhs
    ensures var semi := i + |gap| + |rhs|;
            && semi < |text| && text[semi] == ';'
            && SkipWhitespace(text, i) == i + |gap|
            && IndexOf(text, i, ';') == Some(semi)
            && text[i + |gap|..semi] == rhs
            && Spells(text, semi + 1, tail)
  {
    var rhsStart := i + |gap|;
    var semi := rhsStart + |rhs|;
    SpellsSplit(text, i, gap, rhs + (";" + tail));
    SpellsSplit(text, rhsStart, rhs, ";" + tail);
    SpellsSplit(text, semi, ";", tail);
    SpellsFirst(text, rhsStart, rhs);
    SpellsFirst(text, semi, ";" + tail);
    SkipsBlank(text, i, gap);
    SpellsSlice(text, rhsStart, rhs);
    assert ';' !in gap + rhs by {
      forall k | 0 <= k < |gap + rhs|
        ensures (gap + rhs)[k] != ';'
      {
        if k < |gap| {
          assert IsWhitespace(gap[k]);
        } else {
          assert rhs[k - |gap|] in rhs;
        }
      }
    }
    assert gap + (rhs + (";" + tail)) == (gap + rhs) + (";" + tail);
    SpellsSplit(text, i, gap + rhs, ";" + tail);
    FindsFirst(text, i, gap + rhs, ';');
  }

  /** How `AfterEquals` reads the rest of the pattern, in terms of where the
      scanners stop. */
  lemma AfterEqualsReads(text: string, name: string, eq: nat, rhsStart: nat, semi: nat, rhs: string,
                         tail: (Option<string>, nat))
    requires eq < |text| && text[eq] == '=' && IsScadName(name)
    requires IndexOf(text, eq + 1, ';') == Some(semi) && eq + 1 <= rhsStart < semi
    requires SkipWhitespace(text, eq + 1) == rhsStart && text[rhsStart..semi] == rhs
    requires AfterSemicolon(text, semi) == Some(tail)
    ensures AfterEquals(text, name, eq) == Some(Match(Capture(name, rhs, tail.0), tail.1))
  {
  }

  /** After the `;`: the comment, or the end of the line. */
  lemma AfterSemicolonMatches(text: string, semi: nat, d: Declaration, rest: string)
    requires semi < |text| && Spells(text, semi + 1, RemarkThen(d.remark, rest))
    requires semi + 1 + |RemarkThen(d.remark, rest)| == |text|
    requires ValidDeclaration(d) && EndsLine(d, rest)
    ensures AfterSemicolon(text, semi) == Some((CaptureOf(d).comment, DeclarationEnd(text, d, rest)))
  {
    if d.remark.Some? {
      RemarkMatches(text, semi, d.remark.value, rest, |text| - |rest|);
    } else if IsBlank(rest) {
      SkipsBlank(text, semi + 1, rest);
      AfterSemicolonAtEnd(text, semi);
    } else {
      assert rest == [rest[0]] + rest[1..];
      SpellsSplit(text, semi + 1, [rest[0]], rest[1..]);
      SpellsFirst(text, semi + 1, [rest[0]]);
      SpellsFirst(text, semi + 2, rest[1..]);
      SkipsBlank(text, semi + 1, [rest[0]]);
      AfterSemicolonAtNewline(text, semi);
    }
  }

  /** Only whitespace after the `;`: the match ends with the text. */
  lemma AfterSemicolonAtEnd(text: string, semi: nat)
    requires semi < |text| && SkipWhitespace(text, semi + 1) == |text|
    ensures AfterSemicolon(text, semi) == Some((None, |text|))
  {
  }

  /** A newline and then a line that is not a comment: the match ends at the
      newline. */
  lemma AfterSemicolonAtNewline(text: string, semi: nat)
    requires semi + 2 < |text| && SkipWhitespace(text, semi + 1) == semi + 2
    requires text[semi + 1] == '\n' && text[semi + 2] != '/'
    ensures AfterSemicolon(text, semi) == Some((None, semi + 1))
  {
  }

  /** A `//` comment after the `;`: the match reads it as group 3 and ends
      with its line. */
  lemma RemarkMatches(text: string, semi: nat, m: Remark, rest: string, end: nat)
    requires semi < |text| && Spells(text, semi + 1, m.before + ("//" + (m.after + (m.text + rest))))
    requires end + |rest| == |text| && semi + 1 + |m.before| + 2 + |m.after| + |m.text| == end
    requires IsBlank(m.before) && IsBlank(m.after)
    requires m.text != [] && !IsWhitespace(m.text[0]) && '\n' !in m.text
    requires rest == [] || rest[0] == '\n'
    ensures AfterSemicolon(text, semi) == Some((Some(m.text), end))
  {
    var slash := semi + 1 + |m.before|;
    var commentStart := slash + 2 + |m.after|;
    RemarkSlashes(text, semi + 1, m.before, m.after + (m.text + rest));
    RemarkComment(text, slash + 2, m.after, m.text, rest, commentStart, end);
    AfterSemicolonComment(text, semi, slash, commentStart, m.text, end);
  }

  /** Where the scanners stop on the whitespace and the `//` of a comment. */
  lemma RemarkSlashes(text: string, i: nat, before: string, tail: string)
    requires Spells(text, i, before + ("//" + tail)) && IsBlank(before)
    ensures var slash := i + |before|;
            && slash + 1 < |text| && text[slash] == '/' && text[slash + 1] == '/'
            && SkipWhitespace(text, i) == slash
            && Spells(text, slash + 2, tail)
  {
    var slash := i + |before|;
    SpellsSplit(text, i, before, "//" + tail);
    SpellsSplit(text, slash, "//", tail);
    SpellsFirst(text, slash, "//");
    assert text[At(slash, 1)] == "//"[1];
    SkipsBlank(text, i, before);
  }

  /** Where the scanners stop on `\s*(.*)$`. */
  lemma RemarkComment(text: string, i: nat, after: string, comment: string, rest: string,
                       commentStart: nat, end: nat)
    requires Spells(text, i, after + (comment + rest))
    requires commentStart == i + |after| && commentStart + |comment| == end && end + |rest| == |text|
    requires IsBlank(after) && comment != [] && !IsWhitespace(comment[0]) && '\n' !in comment
    requires rest == [] || rest[0] == '\n'
    ensures SkipWhitespace(text, i) == commentStart
    ensures LineEnd(text, commentStart) == end && Spells(text, commentStart, comment)
  {
    SpellsSplit(text, i, after, comment + rest);
    SpellsSplit(text, commentStart, comment, rest);
    SpellsFirst(text, commentStart, comment);
    if rest != [] {
      SpellsFirst(text, commentStart + |comment|, rest);
    }
    SkipsBlank(text, i, after);
    SpansLine(text, commentStart, comment);
  }

  /** How `AfterSemicolon` reads a `//` comment, in terms of where the
      scanners stop. */
  lemma AfterSemicolonComment(text: string, semi: nat, slash: nat, commentStart: nat, comment: string, end: nat)
    requires semi < |text| && SkipWhitespace(text, semi + 1) == slash
    requires slash + 1 < |text| && text[slash] == '/' && text[slash + 1] == '/'
    requires SkipWhitespace(text, slash + 2) == commentStart
    requires LineEnd(text, commentStart) == end && Spells(text, commentStart, comment)
    requires end == commentStart + |comment|
    ensures AfterSemicolon(text, semi) == Some((Some(comment), end))
  {
    SpellsSlice(text, commentStart, comment);
  }

  /** The declaration ends right before `rest`, on a character that is not a
      newline. */
  lemma DeclarationTail(text: string, p: nat, d: Declaration, rest: string, e: nat)
    requires Spells(text, p, DeclarationThen(d, rest)) && p + |DeclarationThen(d, rest)| == |text|
    requires ValidDeclaration(d) && e + |rest| == |text|
    ensures p < e && text[e - 1] != '\n' && Spells(text, e, rest)
  {
    var semi := p + |d.indent| + |d.name| + |d.beforeEq| + 1 + |d.afterEq| + |d.rhs|;
    AssignmentSpelled(text, p, d, rest, semi);
    if d.remark.Some? {
      RemarkTail(text, semi + 1, d.remark.value, rest, e);
    }
  }

  /** The declaration up to its `;`, which sits at `semi`. */
  lemma AssignmentSpelled(text: string, p: nat, d: Declaration, rest: string, semi: nat)
    requires Spells(text, p, DeclarationThen(d, rest))
    requires semi == p + |d.indent| + |d.name| + |d.beforeEq| + 1 + |d.afterEq| + |d.rhs|
    ensures semi < |text| && text[semi] == ';' && Spells(text, semi + 1, RemarkThen(d.remark, rest))
  {
    var nameStart := p + |d.indent|;
    var nameEnd := nameStart + |d.name|;
    var eq := nameEnd + |d.beforeEq|;
    var rhsStart := eq + 1 + |d.afterEq|;
    var tail := RemarkThen(d.remark, rest);
    SpellsSplit(text, p, d.indent, d.name + AssignmentThen(d, rest));
    SpellsSplit(text, nameStart, d.name, AssignmentThen(d, rest));
    SpellsSplit(text, nameEnd, d.beforeEq, "=" + (d.afterEq + (d.rhs + (";" + tail))));
    SpellsSplit(text, eq, "=", d.afterEq + (d.rhs + (";" + tail)));
    SpellsSplit(text, eq + 1, d.afterEq, d.rhs + (";" + tail));
    SpellsSplit(text, rhsStart, d.rhs, ";" + tail);
    SpellsSplit(text, semi, ";", tail);
    SpellsFirst(text, semi, ";");
  }

  lemma RemarkTail(text: string, i: nat, m: Remark, rest: string, e: nat)
    requires Spells(text, i, m.before + ("//" + (m.after + (m.text + rest))))
    requires m.text != [] && '\n' !in m.text
    requires e == i + |m.before| + 2 + |m.after| + |m.text|
    ensures e <= |text| && text[e - 1] != '\n' && Spells(text, e, rest)
  {
    var slash := i + |m.before|;
    var commentStart := slash + 2 + |m.after|;
    var last := |m.text| - 1;
    SpellsSplit(text, i, m.before, "//" + (m.after + (m.text + rest)));
    SpellsSplit(text, slash, "//", m.after + (m.text + rest));
    SpellsSplit(text, slash + 2, m.after, m.text + rest);
    SpellsSplit(text, commentStart, m.text, rest);
    assert text[At(commentStart, last)] == m.text[last];
    assert m.text[last] in m.text;
  }

  /** `text` holds `s` from `i` to its end. */
  lemma SpellsToEnd(text: string, i: nat, s: string)
    requires Spells(text, i, s) && i + |s| == |text|
    ensures text[i..] == s
  {
    SpellsSlice(text, i, s);
    assert text[i..] == text[i..i + |s|];
  }

  // ------------------------------------------------------- text of such lines

  /** The pattern matches nowhere at `k`: only whitespace follows, or a
      character that is neither whitespace nor an upper-case letter. */
  lemma MatchAtQuiet(text: string, k: nat)
    requires k <= |text|
    requires IsBlank(text[k..]) || (k < |text| && !IsWhitespace(text[k]) && !IsAsciiUpper(text[k]))
    ensures MatchAt(text, k) == None
  {
    if IsBlank(text[k..]) {
      SpellsSuffix(text, k, text[k..]);
      SkipsBlank(text, k, text[k..]);
    }
  }

  /** Where the pattern matches at no line start, there are no captures. */
  lemma {:induction false} CapturesQuiet(text: string, q: nat)
    requires q <= |text|
    requires forall k :: q <= k < |text| && IsLineStart(text, k) ==> MatchAt(text, k).None?
    ensures Captures(text, q) == []
    decreases |text| - q
  {
    if q < |text| {
      CapturesQuiet(text, q + 1);
    }
  }

  /** From `j` on, `s` is blank, or it continues with a character that is
      neither whitespace nor an upper-case letter. */
  predicate QuietFrom(s: string, j: nat)
    requires j <= |s|
  {
    IsBlank(s[j..]) || (!IsWhitespace(s[j]) && !IsAsciiUpper(s[j]))
  }

  /** Every line of `s` after its first is quiet. */
  predicate Quiet(s: string) {
    forall k :: 0 <= k < |s| && s[k] == '\n' ==> QuietFrom(s, k + 1)
  }

  /** Quiet text after the end of a line's match gives no captures. */
  lemma TailQuiet(text: string, e: nat, end: string)
    requires 0 < e <= |text| && text[e - 1] != '\n' && text[e..] == end && Quiet(end)
    ensures Captures(text, e) == []
  {
    forall k | e <= k < |text| && IsLineStart(text, k)
      ensures MatchAt(text, k).None?
    {
      assert end[k - 1 - e] == text[k - 1];
      assert text[k..] == end[k - e..];
      if k < |text| {
        assert text[k] == end[k - e];
      }
      MatchAtQuiet(text, k);
    }
    CapturesQuiet(text, e);
  }

  /** Declaration lines joined by newlines, followed by `end`. */
  function Lines(ds: seq<Declaration>, end: string): string
    decreases |ds|
  {
    if ds == [] then end
    else DeclarationThen(ds[0], if |ds| == 1 then end else "\n" + Lines(ds[1..], end))
  }

  /** The capture groups the lines were written with, in order. */
  function CapturesOf(ds: seq<Declaration>): (caps: seq<Capture>)
    ensures |caps| == |ds|
    decreases |ds|
  {
    if ds == [] then [] else [CaptureOf(ds[0])] + CapturesOf(ds[1..])
  }

  /** Lines the pattern reads back one by one: every declaration valid, all
      but the first starting in column one, the last one ending its line,
      and nothing in `end` that could match. */
  predicate ValidLines(ds: seq<Declaration>, end: string) {
    && ds != []
    && (forall i :: 0 <= i < |ds| ==> ValidDeclaration(ds[i]))
    && (forall i :: 0 < i < |ds| ==> ds[i].indent == [])
    && EndsLine(ds[|ds| - 1], end) && Quiet(end)
  }

  /** A text of declaration lines, read from the start of one of them, gives
      exactly one capture per line, in order. */
  lemma {:induction false} CapturesOfLines(text: string, p: nat, ds: seq<Declaration>, end: string)
    requires p <= |text| && IsLineStart(text, p) && text[p..] == Lines(ds, end)
    requires ValidLines(ds, end)
    ensures Captures(text, p) == CapturesOf(ds)
    decreases |ds|
  {
    if |ds| == 1 {
      LastLine(text, p, ds, end);
    } else {
      var next := |text| - |Lines(ds[1..], end)|;
      FirstLine(text, p, ds, end, next);
      ValidLinesTail(ds, end);
      CapturesOfLines(text, next, ds[1..], end);
    }
  }

  /** The last line gives its capture and nothing after it does. */
  lemma LastLine(text: string, p: nat, ds: seq<Declaration>, end: string)
    requires p <= |text| && IsLineStart(text, p) && text[p..] == Lines(ds, end)
    requires ValidLines(ds, end) && |ds| == 1
    ensures Captures(text, p) == CapturesOf(ds)
  {
    var d := ds[0];
    var e := |text| - |end|;
    ValidLinesHead(ds, end);
    LineStep(text, p, d, end, e);
    if DeclarationEnd(text, d, end) != |text| {
      TailQuiet(text, e, end);
    }
  }

  /** A line followed by more lines gives its capture, and the search goes
      on at the start of the next line. */
  lemma FirstLine(text: string, p: nat, ds: seq<Declaration>, end: string, next: nat)
    requires p <= |text| && IsLineStart(text, p) && text[p..] == Lines(ds, end)
    requires ValidLines(ds, end) && |ds| > 1 && next + |Lines(ds[1..], end)| == |text|
    ensures next <= |text| && IsLineStart(text, next) && text[next..] == Lines(ds[1..], end)
    ensures Captures(text, p) == [CaptureOf(ds[0])] + Captures(text, next)
  {
    var d := ds[0];
    var rest := "\n" + Lines(ds[1..], end);
    var e := |text| - |rest|;
    ValidLinesHead(ds, end);
    LineStep(text, p, d, rest, e);
    assert DeclarationEnd(text, d, rest) == e;
    NextLine(text, e, Lines(ds[1..], end));
  }

  /** The first line is valid and ends where the pattern stops. */
  lemma ValidLinesHead(ds: seq<Declaration>, end: string)
    requires ValidLines(ds, end)
    ensures var rest := if |ds| == 1 then end else "\n" + Lines(ds[1..], end);
            && ValidDeclaration(ds[0]) && EndsLine(ds[0], rest)
            && Lines(ds, end) == DeclarationThen(ds[0], rest)
            && (|ds| > 1 ==> !IsBlank(rest))
  {
    if |ds| > 1 {
      assert ValidDeclaration(ds[1]);
      FollowingLine(ds[1..], end);
    }
  }

  /** The lines after the first are again such lines. */
  lemma ValidLinesTail(ds: seq<Declaration>, end: string)
    requires ValidLines(ds, end) && |ds| > 1
    ensures ValidLines(ds[1..], end)
  {
    var tail := ds[1..];
    forall i | 0 <= i < |tail|
      ensures ValidDeclaration(tail[i])
    {
      assert tail[i] == ds[i + 1];
    }
    forall i | 0 < i < |tail|
      ensures tail[i].indent == []
    {
      assert tail[i] == ds[i + 1];
    }
    assert tail[|tail| - 1] == ds[|ds| - 1];
  }

  /** One declaration line at a line start: its capture comes first, and the
      line ends at `e`, right before `rest`, on a character other than a
      newline. */
  lemma LineStep(text: string, p: nat, d: Declaration, rest: string, e: nat)
    requires p <= |text| && IsLineStart(text, p) && text[p..] == DeclarationThen(d, rest)
    requires ValidDeclaration(d) && EndsLine(d, rest) && e + |rest| == |text|
    ensures Captures(text, p) == [CaptureOf(d)] + Captures(text, DeclarationEnd(text, d, rest))
    ensures 0 < e && text[e - 1] != '\n' && text[e..] == rest
  {
    MatchesDeclaration(text, p, d, rest);
    CapturesAtMatch(text, p, MatchAt(text, p).value);
    SpellsSuffix(text, p, DeclarationThen(d, rest));
    DeclarationTail(text, p, d, rest, e);
    SpellsToEnd(text, e, rest);
  }

  /** A newline that ends a match: the search passes it and goes on at the
      start of the next line. */
  lemma NextLine(text: string, e: nat, next: string)
    requires 0 < e <= |text| && text[e - 1] != '\n' && text[e..] == "\n" + next
    ensures e + 1 <= |text| && IsLineStart(text, e + 1) && text[e + 1..] == next
    ensures Captures(text, e) == Captures(text, e + 1)
  {
    assert text[e] == ("\n" + next)[0];
    assert text[e + 1..] == text[e..][1..];
  }

  /** The line after a newline starts with the next declaration's name. */
  lemma FollowingLine(ds: seq<Declaration>, end: string)
    requires ds != [] && ds[0].indent == [] && IsScadName(ds[0].name)
    ensures var rest := "\n" + Lines(ds, end);
            |rest| >= 2 && rest[0] == '\n' && IsAsciiUpper(rest[1]) && !IsBlank(rest)
  {
    var rest := "\n" + Lines(ds, end);
    assert Lines(ds, end)[0] == ds[0].name[0];
    assert rest[1] == ds[0].name[0];
  }

  /** A match at a line start contributes its capture and the search resumes
      where it ended. */
  lemma CapturesAtMatch(text: string, p: nat, m: Match)
    requires p < |text| && IsLineStart(text, p) && MatchAt(text, p) == Some(m)
    ensures Captures(text, p) == [m.cap] + Captures(text, m.end)
  {
  }

  /** `extract_param_specs` on a text of declaration lines: one spec per
      line, in order, with the line's name, its right-hand side as default,
      its trimmed comment, and the type and options that follow from those. */
  lemma SpecsOfLines(ds: seq<Declaration>, end: string)
    requires ValidLines(ds, end)
    ensures var specs := ParamSpecsOf(Lines(ds, end));
            && |specs| == |ds|
            && forall i :: 0 <= i < |ds| ==>
                 && specs[i].name == ds[i].name && specs[i].default == Trim(ds[i].rhs)
                 && specs[i].comment == CommentOf(CaptureOf(ds[i]))
                 && specs[i].ty == InferType(specs[i].default)
                 && specs[i].options == ParseOptionsFromComment(specs[i].comment)
  {
    var text := Lines(ds, end);
    CapturesOfLines(text, 0, ds, end);
    ParamSpecsMatchCaptures(text);
    CapturesOfAt(ds);
  }

  lemma {:induction false} CapturesOfAt(ds: seq<Declaration>)
    ensures forall i :: 0 <= i < |ds| ==> CapturesOf(ds)[i] == CaptureOf(ds[i])
    decreases |ds|
  {
    if ds != [] {
      CapturesOfAt(ds[1..]);
    }
  }

  // -------------------------------------------------------------- directives

  /** The two keywords the include pattern accepts. */
  datatype Keyword = Include | Use

  function Spelling(w: Keyword): string {
    match w
    case Include => "include"
    case Use => "use"
  }

  /** One include directive: `indent keyword beforeName <name> beforeSemi ;`. */
  datatype Directive = Directive(
    indent: string,
    keyword: Keyword,
    beforeName: string,
    name: string,
    beforeSemi: string)

  /** From `<` on: the bracketed name and the `;`, followed by `rest`. */
  function BracketThen(d: Directive, rest: string): string {
    "<" + (d.name + (">" + (d.beforeSemi + (";" + rest))))
  }

  /** The directive written out, followed by `rest`. */
  function DirectiveThen(d: Directive, rest: string): string {
    d.indent + (Spelling(d.keyword) + (d.beforeName + BracketThen(d, rest)))
  }

  /** A directive the pattern reads back as written: the gaps are whitespace,
      and the name is non-empty and has no `>`. */
  predicate ValidDirective(d: Directive) {
    && IsBlank(d.indent) && IsBlank(d.beforeName) && IsBlank(d.beforeSemi)
    && d.name != [] && '>' !in d.name
  }

  /** The include pattern reads a directive with the name it was written
      with, and the search resumes right after its `;`. */
  lemma IncludesDirective(text: string, p: nat, d: Directive, rest: string)
    requires p <= |text| && text[p..] == DirectiveThen(d, rest)
    requires ValidDirective(d)
    ensures IncludeAt(text, p) == Some((d.name, |text| - |rest|))
  {
    SpellsSuffix(text, p, DirectiveThen(d, rest));
    DirectiveEndsAt(text, p, d, rest);
  }

  lemma DirectiveEndsAt(text: string, p: nat, d: Directive, rest: string)
    requires Spells(text, p, DirectiveThen(d, rest)) && p + |DirectiveThen(d, rest)| == |text|
    requires ValidDirective(d)
    ensures IncludeAt(text, p) == Some((d.name, |text| - |rest|))
  {
    var k := p + |d.indent|;
    var keywordEnd := k + |Spelling(d.keyword)|;
    var lt := keywordEnd + |d.beforeName|;
    var gt := lt + 1 + |d.name|;
    var semi := gt + 1 + |d.beforeSemi|;
    DirectiveSpelled(text, p, d, rest, k, keywordEnd, lt, gt, semi);
    BracketRead(text, keywordEnd, d, rest, lt, gt, semi);
    AfterKeywordReads(text, keywordEnd, lt, gt, semi, d.name, |text| - |rest|);
    KeywordRead(text, p, k, d.keyword, keywordEnd);
  }

  /** The indent and keyword of a directive are where it says, and the rest
      of it follows. */
  lemma DirectiveSpelled(text: string, p: nat, d: Directive, rest: string,
                         k: nat, keywordEnd: nat, lt: nat, gt: nat, semi: nat)
    requires Spells(text, p, DirectiveThen(d, rest)) && p + |DirectiveThen(d, rest)| == |text|
    requires ValidDirective(d)
    requires k == p + |d.indent| && keywordEnd == k + |Spelling(d.keyword)|
    requires lt == keywordEnd + |d.beforeName| && gt == lt + 1 + |d.name| && semi == gt + 1 + |d.beforeSemi|
    ensures k < |text| && SkipWhitespace(text, p) == k && Spells(text, k, Spelling(d.keyword))
    ensures Spells(text, keywordEnd, d.beforeName + BracketThen(d, rest))
    ensures semi + 1 == |text| - |rest|
  {
    var w := Spelling(d.keyword);
    SpellsSplit(text, p, d.indent, w + (d.beforeName + BracketThen(d, rest)));
    SpellsSplit(text, k, w, d.beforeName + BracketThen(d, rest));
    SpellsFirst(text, k, w);
    SkipsBlank(text, p, d.indent);
  }

  /** After the indent, `include` or `use` is recognised as the keyword it
      is, and the pattern goes on after it. */
  lemma KeywordRead(text: string, p: nat, k: nat, w: Keyword, keywordEnd: nat)
    requires p <= k < |text| && SkipWhitespace(text, p) == k && Spells(text, k, Spelling(w))
    requires keywordEnd == k + |Spelling(w)|
    ensures IncludeAt(text, p) == AfterKeyword(text, keywordEnd)
  {
    match w
    case Include =>
      SpellsSlice(text, k, "include");
      IncludeReads(text, p, k, keywordEnd);
    case Use =>
      UseKeyword(text, k);
      UseReads(text, p, k, keywordEnd);
  }

  /** `use` is not taken for `include`. */
  lemma UseKeyword(text: string, k: nat)
    requires Spells(text, k, "use")
    ensures OccursAt(text, "use", k) && !OccursAt(text, "include", k)
  {
    SpellsSlice(text, k, "use");
    SpellsFirst(text, k, "use");
    if k + 7 <= |text| {
      assert text[k..k + 7][0] == text[k];
    }
  }

  lemma IncludeReads(text: string, p: nat, k: nat, keywordEnd: nat)
    requires p <= k <= |text| && SkipWhitespace(text, p) == k && OccursAt(text, "include", k)
    requires keywordEnd == k + 7
    ensures IncludeAt(text, p) == AfterKeyword(text, keywordEnd)
  {
  }

  lemma UseReads(text: string, p: nat, k: nat, keywordEnd: nat)
    requires p <= k <= |text| && SkipWhitespace(text, p) == k
    requires !OccursAt(text, "include", k) && OccursAt(text, "use", k) && keywordEnd == k + 3
    ensures IncludeAt(text, p) == AfterKeyword(text, keywordEnd)
  {
  }

  /** From the blank text before `<` to the `;`: each piece of the pattern
      stops where the directive says. */
  lemma BracketRead(text: string, i: nat, d: Directive, rest: string, lt: nat, gt: nat, semi: nat)
    requires Spells(text, i, d.beforeName + BracketThen(d, rest)) && ValidDirective(d)
    requires lt == i + |d.beforeName| && gt == lt + 1 + |d.name| && semi == gt + 1 + |d.beforeSemi|
    ensures lt < |text| && SkipWhitespace(text, i) == lt && text[lt] == '<'
    ensures IndexOf(text, lt + 1, '>') == Some(gt) && text[lt + 1..gt] == d.name
    ensures semi < |text| && SkipWhitespace(text, gt + 1) == semi && text[semi] == ';'
    ensures Spells(text, semi + 1, rest)
  {
    BracketOpen(text, i, d.beforeName, d.name + (">" + (d.beforeSemi + (";" + rest))), lt);
    BracketName(text, lt + 1, d.name, d.beforeSemi + (";" + rest), gt);
    BracketClose(text, gt + 1, d.beforeSemi, rest, semi);
  }

  /** `\s*<` takes the blank text and the `<`. */
  lemma BracketOpen(text: string, i: nat, gap: string, tail: string, lt: nat)
    requires Spells(text, i, gap + ("<" + tail)) && IsBlank(gap) && lt == i + |gap|
    ensures lt < |text| && SkipWhitespace(text, i) == lt && text[lt] == '<'
    ensures Spells(text, lt + 1, tail)
  {
    SpellsSplit(text, i, gap, "<" + tail);
    SpellsFirst(text, lt, "<" + tail);
    SkipsBlank(text, i, gap);
    SpellsSplit(text, lt, "<", tail);
  }

  /** `([^>]+)>` takes the name and the `>`. */
  lemma BracketName(text: string, i: nat, name: string, tail: string, gt: nat)
    requires Spells(text, i, name + (">" + tail)) && '>' !in name && gt == i + |name|
    ensures IndexOf(text, i, '>') == Some(gt) && text[i..gt] == name
    ensures Spells(text, gt + 1, tail)
  {
    SpellsSplit(text, i, name, ">" + tail);
    SpellsFirst(text, gt, ">" + tail);
    FindsFirst(text, i, name, '>');
    SpellsSlice(text, i, name);
    SpellsSplit(text, gt, ">", tail);
  }

  /** `\s*;` takes the blank text and the `;`. */
  lemma BracketClose(text: string, i: nat, gap: string, rest: string, semi: nat)
    requires Spells(text, i, gap + (";" + rest)) && IsBlank(gap) && semi == i + |gap|
    ensures semi < |text| && SkipWhitespace(text, i) == semi && text[semi] == ';'
    ensures Spells(text, semi + 1, rest)
  {
    SpellsSplit(text, i, gap, ";" + rest);
    SpellsFirst(text, semi, ";" + rest);
    SkipsBlank(text, i, gap);
    SpellsSplit(text, semi, ";", rest);
  }

  /** `AfterKeyword` read step by step at the positions where each piece
      of the pattern stops. */
  lemma AfterKeywordReads(text: string, i: nat, lt: nat, gt: nat, semi: nat, name: string, end: nat)
    requires i <= lt < |text| && SkipWhitespace(text, i) == lt && text[lt] == '<'
    requires IndexOf(text, lt + 1, '>') == Some(gt) && gt != lt + 1 && text[lt + 1..gt] == name
    requires semi < |text| && SkipWhitespace(text, gt + 1) == semi && text[semi] == ';'
    requires end == semi + 1
    ensures AfterKeyword(text, i) == Some((name, end))
  {
  }

  /** Directives joined by newlines, followed by `end`. */
  function Directives(ds: seq<Directive>, end: string): string
    decreases |ds|
  {
    if ds == [] then end
    else DirectiveThen(ds[0], if |ds| == 1 then end else "\n" + Directives(ds[1..], end))
  }

  /** The names the directives were written with, each trimmed. */
  function NamesOf(ds: seq<Directive>): (names: seq<string>)
    ensures |names| == |ds|
    ensures forall i :: 0 <= i < |ds| ==> names[i] == Trim(ds[i].name)
    decreases |ds|
  {
    if ds == [] then [] else [Trim(ds[0].name)] + NamesOf(ds[1..])
  }

  /** Directive lines the pattern reads back one by one. */
  predicate ValidDirectives(ds: seq<Directive>) {
    forall i :: 0 <= i < |ds| ==> ValidDirective(ds[i])
  }

  /** A text of directive lines ending in blank text, read from the start of
      one of them, names exactly the files the directives name, in order. */
  lemma {:induction false} IncludeNamesOfDirectives(text: string, p: nat, ds: seq<Directive>, end: string)
    requires p <= |text| && IsLineStart(text, p) && text[p..] == Directives(ds, end)
    requires ValidDirectives(ds) && IsBlank(end)
    ensures IncludeNames(text, p) == NamesOf(ds)
    decreases |ds|
  {
    if ds == [] {
      IncludeNamesBlank(text, p);
    } else if |ds| == 1 {
      LastDirective(text, p, ds, end);
    } else {
      var next := |text| - |Directives(ds[1..], end)|;
      FirstDirective(text, p, ds, end, next);
      IncludeNamesOfDirectives(text, next, ds[1..], end);
    }
  }

  /** The last directive names its file and the blank text after it none. */
  lemma LastDirective(text: string, p: nat, ds: seq<Directive>, end: string)
    requires p <= |text| && IsLineStart(text, p) && text[p..] == Directives(ds, end)
    requires ValidDirectives(ds) && IsBlank(end) && |ds| == 1
    ensures IncludeNames(text, p) == NamesOf(ds)
  {
    var e := |text| - |end|;
    assert ValidDirective(ds[0]);
    DirectiveStep(text, p, ds[0], end, e);
    IncludeNamesBlank(text, e);
  }

  /** A directive followed by more directives names its file, and the search
      goes on at the start of the next line. */
  lemma FirstDirective(text: string, p: nat, ds: seq<Directive>, end: string, next: nat)
    requires p <= |text| && IsLineStart(text, p) && text[p..] == Directives(ds, end)
    requires ValidDirectives(ds) && |ds| > 1 && next + |Directives(ds[1..], end)| == |text|
    ensures next <= |text| && IsLineStart(text, next) && text[next..] == Directives(ds[1..], end)
    ensures ValidDirectives(ds[1..])
    ensures IncludeNames(text, p) == [Trim(ds[0].name)] + IncludeNames(text, next)
  {
    var rest := "\n" + Directives(ds[1..], end);
    var e := next - 1;
    DirectivesHead(ds, end);
    DirectiveStep(text, p, ds[0], rest, e);
    DirectiveNextLine(text, e, Directives(ds[1..], end));
    ValidDirectivesTail(ds);
  }

  lemma DirectivesHead(ds: seq<Directive>, end: string)
    requires ValidDirectives(ds) && |ds| > 1
    ensures ValidDirective(ds[0])
    ensures Directives(ds, end) == DirectiveThen(ds[0], "\n" + Directives(ds[1..], end))
  {
  }

  lemma ValidDirectivesTail(ds: seq<Directive>)
    requires ValidDirectives(ds) && ds != []
    ensures ValidDirectives(ds[1..])
  {
    forall i | 0 <= i < |ds[1..]|
      ensures ValidDirective(ds[1..][i])
    {
      assert ds[1..][i] == ds[i + 1];
    }
  }

  /** One directive at a line start gives its trimmed name, and the search
      goes on at `e`, right after its `;`. */
  lemma DirectiveStep(text: string, p: nat, d: Directive, rest: string, e: nat)
    requires p <= |text| && IsLineStart(text, p) && text[p..] == DirectiveThen(d, rest)
    requires ValidDirective(d) && e + |rest| == |text|
    ensures 0 < e && text[e - 1] == ';' && text[e..] == rest
    ensures IncludeNames(text, p) == [Trim(d.name)] + IncludeNames(text, e)
  {
    IncludesDirective(text, p, d, rest);
    DirectiveRest(text, p, d, rest, e);
    IncludeNamesAtMatch(text, p, d.name, |text| - |rest|);
  }

  /** What follows a directive's `;` is `rest`. */
  lemma DirectiveRest(text: string, p: nat, d: Directive, rest: string, e: nat)
    requires p <= |text| && text[p..] == DirectiveThen(d, rest)
    requires ValidDirective(d) && e + |rest| == |text|
    ensures 0 < e && text[e - 1] == ';' && text[e..] == rest
  {
    SpellsSuffix(text, p, DirectiveThen(d, rest));
    SemicolonSpelled(text, p, d, rest, e);
    SpellsToEnd(text, e, rest);
  }

  lemma SemicolonSpelled(text: string, p: nat, d: Directive, rest: string, e: nat)
    requires Spells(text, p, DirectiveThen(d, rest)) && p + |DirectiveThen(d, rest)| == |text|
    requires ValidDirective(d) && e + |rest| == |text|
    ensures 0 < e && text[e - 1] == ';' && Spells(text, e, rest)
  {
    var k := p + |d.indent|;
    var keywordEnd := k + |Spelling(d.keyword)|;
    var lt := keywordEnd + |d.beforeName|;
    var gt := lt + 1 + |d.name|;
    var semi := gt + 1 + |d.beforeSemi|;
    DirectiveSpelled(text, p, d, rest, k, keywordEnd, lt, gt, semi);
    BracketRead(text, keywordEnd, d, rest, lt, gt, semi);
  }

  /** A match at a line start contributes its trimmed name and the search
      resumes where it ended. */
  lemma IncludeNamesAtMatch(text: string, p: nat, name: string, e: nat)
    requires p < |text| && IsLineStart(text, p) && IncludeAt(text, p) == Some((name, e))
    ensures IncludeNames(text, p) == [Trim(name)] + IncludeNames(text, e)
  {
  }

  /** The newline after a directive: the search passes it and goes on at the
      start of the next line. */
  lemma DirectiveNextLine(text: string, e: nat, next: string)
    requires 0 < e <= |text| && text[e - 1] == ';' && text[e..] == "\n" + next
    ensures e + 1 <= |text| && IsLineStart(text, e + 1) && text[e + 1..] == next
    ensures IncludeNames(text, e) == IncludeNames(text, e + 1)
  {
    assert text[e] == ("\n" + next)[0];
    assert text[e + 1..] == text[e..][1..];
  }

  /** Blank text names no file. */
  lemma {:induction false} IncludeNamesBlank(text: string, q: nat)
    requires q <= |text| && IsBlank(text[q..])
    ensures IncludeNames(text, q) == []
    decreases |text| - q
  {
    if q < |text| {
      SkipsBlank(text, q, text[q..]) by {
        SpellsSuffix(text, q, text[q..]);
      }
      assert IncludeAt(text, q).None?;
      var t, u := text[q..], text[q + 1..];
      forall k | 0 <= k < |u|
        ensures IsWhitespace(u[k])
      {
        assert u[k] == t[k + 1];
      }
      IncludeNamesBlank(text, q + 1);
    }
  }
}
