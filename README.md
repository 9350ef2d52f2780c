# OpenSCAD part maker: parameter discovery and overrides

This project models the engine in `openscad-part-maker/src/scad_params.rs`
that turns an OpenSCAD source tree into overridable parameters. It proves
properties of that model in Dafny.

- **Loader** (`Loader.GatherScadText`). Starting from the main `.scad`
  file, it follows `include <...>;` and `use <...>;` depth-first. Each file
  is visited at most once. It appends each file's text, followed by a
  newline, to one corpus.
- **Extractor** (`Extractor.ExtractParamSpecs`). It scans the corpus for
  `NAME = RHS; // comment` declarations and infers a type for each one
  (String, Bool or Number). It reads the `options:` list from the comment.
  It also decides visibility with the two-mode `@param` rule: if any
  declaration is marked, only marked ones are user-facing; otherwise all
  are.
- **Template** (`Template.FromScadTree`). The specs and defaults are keyed
  by name, and the last duplicate wins. `user_param_names` lists the
  user-facing names in key order.
- **Instance** (`Instance.ScadParams`). Each request gets a mutable copy of
  the defaults. `set_from_field` accepts untyped form text, validates it
  against the spec's type, re-encodes it and stores it under the uppercased
  field name. `iter_defines` writes the values out as `NAME=value`
  fragments in ascending name order.
- **Fields** (`Fields`). This module holds the small conversions:
  - `parse_bool`;
  - the field-name-to-SCAD-name mapping;
  - the filename sanitiser;
  - the string-literal escaping, with a reader for the literal it produces.

Rust's `String` is modelled as `seq<char>`. A Dafny `char` is a Unicode
scalar value, as a Rust `char` is. The source slices at byte offsets only
after ASCII lowercasing, which keeps every byte offset, so indexing by
characters computes the same thing. `BTreeMap` is a Dafny `map`, and its
iteration order is `Text.SortedKeys`. `HashSet` is a `set`.

The model is imperative where the source changes state:
- `set_from_field` is the method `ScadParams.SetFromField` on the class
  `ScadParams`. It is proved against the function `ApplyField`.
- The loop of `extract_param_specs` is `ExtractParamSpecs`, proved against
  `ParamSpecsOf`.
- The loop of `from_scad_tree` is `BuildTemplate`, proved against `SpecMap`.
- The recursive walk with its mutable visited set and output string is
  `GatherScadText`. It takes the set and the text in and returns the
  updated ones. Its loop over the include directives is the method
  `GatherIncludesLoop`, and the two call each other as the source's
  function calls itself from inside its loop.
  - Both are proved against the reference walk `Gather`/`GatherIncludes`.
    These functions fix the outcome, the visited set and the depth-first,
    directive order of the appended files.
  - The order matters: it decides which of two declarations of one name in
    different files wins.

The two regular expressions are written as deterministic scanners,
`Extractor.MatchAt` and `Loader.IncludeAt`. They make the same choices the
regex engine's leftmost-first backtracking makes. The module `Matching`
proves that they find what is there:
- An include directive, written out from its parts, is read back with its
  name.
- A declaration line, written out from its parts, is read back with the
  groups it was written with. This holds when what follows it ends its
  line in the sense of `Matching.EndsLine`:
  - after a comment, the end of the text or a newline;
  - after a bare `;`, blank text to the end, or a newline followed by a
    character that is neither whitespace nor `/`.
- A text made of such lines, each next line starting in column one, yields
  one capture per line, in order.

The condition after a bare `;` is needed because the pattern's `\s*` after
`;` crosses newlines:
- `A = 1;` followed by a line `// x` is matched as one declaration with
  the comment `x`, so a `// @param` on the line after a bare declaration
  marks that declaration;
- after a blank line, the match of `A = 1;` ends at the last newline of
  the whitespace run, not at the end of its own line.

`Extractor.AfterSemicolon` makes both choices. It skips the whole
whitespace run, newlines included, before it looks for `//`. Otherwise it
ends the match at the run's last newline.

`ExtractorExamples` applies this to the texts of the engine's own tests.

Where the written design of the system and the code differ, the model
follows the code:

- **Errors from included files are fatal.** The design says that only an
  unreadable or uncanonicalisable main document is fatal. In the code
  (`scad_params.rs:177`), an included file that exists but cannot be read
  makes the whole walk fail. `GatherScadText` models this.
- **Number defaults need not round-trip.** The design promises that every
  Bool and Number default round-trips through `set_from_field`. A Number
  default that is an expression, such as `CLEARANCE/2`, is rejected (see
  `Instance.ExpressionDefaultRejected`).
  - For the same reason, a freshly instantiated value map does not always
    hold "valid for its type" values.
  - Bool defaults are stored as written, `TRUE` included.
- **Visibility is not enforced on override.** The visibility flag is never
  consulted by `set_from_field` (`Instance.ApplyFieldIgnoresVisibility`),
  so a hidden spec can still be overridden.

## Model

| member | source | states |
|---|---|---|
| Fields.ParseBoolAccepts | openscad-part-maker/src/scad_params.rs:43-49 | `parse_bool` is true exactly for `1`, `true`, `on`, `yes` in any ASCII case and false exactly for `0`, `false`, `off`, `no`. Text that starts with whitespace is an error, since it is not trimmed. |
| Fields.ParseBool | openscad-part-maker/src/scad_params.rs:43-49 | Text that is accepted has one to five characters, and neither its first nor its last character is whitespace. |
| Fields.CanonicalBool | openscad-part-maker/src/scad_params.rs:117 | The stored text `true` or `false` parses back to the boolean it encodes. |
| Fields.SanitizeFilenameComponent | openscad-part-maker/src/scad_params.rs:52-62 | Total and length-preserving. Every output character is ASCII alphanumeric, `-` or `_`. Safe characters are kept and each other character becomes one `_`. |
| Fields.SanitizeIdempotent | openscad-part-maker/src/scad_params.rs:52-62 | Sanitising twice is sanitising once. |
| Fields.SanitizeFixpointIffSafe | openscad-part-maker/src/scad_params.rs:52-62 | The sanitiser leaves a text unchanged if and only if every character is already safe. |
| Fields.FieldToScadName | openscad-part-maker/src/scad_params.rs:148-150 | The SCAD name equals the field name up to ASCII case and has no ASCII lowercase letter. |
| Fields.FieldNameRoundTrip | openscad-part-maker/src/scad_params.rs:148-150 | For a field name without uppercase letters, lowercasing the SCAD name gives the field name back. |
| Fields.FieldToScadNameIdempotent | openscad-part-maker/src/scad_params.rs:148-150 | Mapping an already mapped name changes nothing. |
| Fields.EscapeIsPerCharacter | openscad-part-maker/src/scad_params.rs:126 | The two chained `replace` calls (backslashes first, then quotes) escape each character independently. |
| Fields.QuoteStringReadsBack | openscad-part-maker/src/scad_params.rs:124-128 | The quoted literal starts and ends with `"`. Reading it as an OpenSCAD string gives the submitted text exactly and stops at the final quote. |
| FloatSyntax.FloatLiteralHasNoWhitespace | openscad-part-maker/src/scad_params.rs:121 | Text that `parse::<f64>` accepts is non-empty and holds no whitespace, so padded numbers are rejected. |
| Text.SortedKeys | openscad-part-maker/src/scad_params.rs:137 | `BTreeMap` iteration yields every key exactly once, in strictly ascending `String` order. |
| Extractor.MatchAt | openscad-part-maker/src/scad_params.rs:194-195 | A match of the assignment pattern ends after its start. Its name is `[A-Z][A-Z0-9_]*`, its right-hand side is non-empty without `;`, and its comment has no newline. |
| Extractor.Captures | openscad-part-maker/src/scad_params.rs:200 | Every capture the iteration yields is well formed in that sense. |
| Matching.MatchesDeclaration | openscad-part-maker/src/scad_params.rs:194-195 | Conversely, a declaration line `NAME = RHS;` at `p`, with whitespace gaps and an optional `// comment`, is matched there when `EndsLine` holds of what follows it. After a comment that is the end of the text or a newline. After a bare `;` it is blank text to the end, or a newline and then a character that is neither whitespace nor `/`. The match carries the name, right-hand side and comment the line was written with. It ends at the end of the line, or at the end of the text when only whitespace follows a bare `;`. |
| Matching.CapturesOfLines | openscad-part-maker/src/scad_params.rs:194-200 | A text of such declaration lines, read from a line start, yields exactly one capture per line, in order, and nothing from a trailing text that holds no declaration. |
| Matching.SpecsOfLines | openscad-part-maker/src/scad_params.rs:192-244 | `extract_param_specs` on such a text gives one spec per line, in order, with the line's name, its trimmed right-hand side as default, its trimmed comment, and the type and options that follow from them. |
| ExtractorExamples.ExtractFindsCapsAssignmentsAndTypes | openscad-part-maker/src/scad_params.rs:251-277 | The first test's text gives exactly the specs `MODE`, `COASTER_D`, `USE_SPINNER` and `FIT`, in order, so no `$fn` spec. `MODE` is a String, `COASTER_D` a Number and `USE_SPINNER` a Bool. |
| ExtractorExamples.MarkerFilteringWorks | openscad-part-maker/src/scad_params.rs:279-294 | In the marker test's text, `MODE` and `COASTER_D` are user-facing and `FIT` is not. |
| ExtractorExamples.OptionsParsedFromComment | openscad-part-maker/src/scad_params.rs:344-352 | The options test's text gives one spec, `MODE`, whose options are `base`, `inlay`, `magnet`, `preview` in order. |
| Extractor.InferTypeString | openscad-part-maker/src/scad_params.rs:223-224 | The type is String if and only if the right-hand side starts with `"` after leading whitespace. |
| Extractor.InferTypeBool | openscad-part-maker/src/scad_params.rs:225-229 | The type is Bool if and only if there is no leading quote and the trimmed text is `true` or `false` in any ASCII case. |
| Extractor.InferType | openscad-part-maker/src/scad_params.rs:223-230 | A right-hand side typed Bool, once trimmed, is text `parse_bool` accepts. |
| Extractor.BoolDefaultParses | openscad-part-maker/src/scad_params.rs:223-230 | A right-hand side typed Bool, once trimmed, is accepted by `parse_bool` with the value it spells. |
| Extractor.SplitRoundTrip | openscad-part-maker/src/scad_params.rs:338 | Splitting on `\|` and `,` loses nothing: there is one more piece than separators, and interleaving the separators back rebuilds the text. |
| Extractor.OptionsAreClean | openscad-part-maker/src/scad_params.rs:328-342 | No `options:` (in any ASCII case) gives no options. Otherwise the options are the pieces of the text after the first `options:` between `\|` and `,`: trimmed, with the empty ones dropped, in order (`TrimmedNonEmptyOf`). Every option is non-empty and trimmed, and contains no separator. |
| Extractor.TrimmedNonEmptySelects | openscad-part-maker/src/scad_params.rs:337-341 | `.map(trim).filter(non-empty)` keeps exactly the pieces that trim to something, trimmed, in their original order. Each kept option comes from a distinct piece, with the pieces taken in increasing order, and every such piece is kept. |
| Extractor.ParseOptionsFromComment | openscad-part-maker/src/scad_params.rs:328-342 | Every option it returns is clean: non-empty, with no surrounding whitespace and no separator. |
| Extractor.OptionsListed | openscad-part-maker/src/scad_params.rs:328-342 | Clean options joined by `\|` or `,` and written after `options:` and blank text are read back exactly, in order, when the text before `options:` holds no `options:` of its own in any case. |
| Extractor.SplitJoined | openscad-part-maker/src/scad_params.rs:338 | Splitting options joined by one separator gives the options back. |
| Extractor.TrimmedClean | openscad-part-maker/src/scad_params.rs:339-340 | Trimming and dropping empty pieces leaves a list of clean options unchanged. |
| Extractor.ExtractParamSpecs | openscad-part-maker/src/scad_params.rs:192-244 | The loop that collects declarations and the any-marked flag, followed by the second pass, computes `ParamSpecsOf`. |
| Extractor.ParamSpecsOf | openscad-part-maker/src/scad_params.rs:192-244 | There is one spec per match. Each spec's type is the one inferred from its default, and each option is clean. |
| Extractor.ParamSpecsMatchCaptures | openscad-part-maker/src/scad_params.rs:200-241 | There is one spec per match, in source order. Each spec carries the match's name, its trimmed right-hand side as default, the type inferred from that default, the trimmed comment and that comment's options. |
| Extractor.ParamSpecsWellFormed | openscad-part-maker/src/scad_params.rs:201-211 | Each name is an uppercase identifier. Each default has no `;` and no surrounding whitespace and is typed from itself. Each comment is trimmed. |
| Extractor.ParamSpecsFollowMarkerRule | openscad-part-maker/src/scad_params.rs:212-221 | If any comment contains `@param`, a spec is user-facing exactly when its own comment does. Otherwise every spec is user-facing. |
| Loader.IncludeAt | openscad-part-maker/src/scad_params.rs:172 | A match of the include pattern consumes text, and its group is non-empty and free of `>`. |
| Loader.AfterKeyword | openscad-part-maker/src/scad_params.rs:172 | The part of the pattern after the keyword, `\s*<([^>]+)>\s*;`, when it matches, ends after its start with a non-empty group free of `>`. |
| Matching.IncludesDirective | openscad-part-maker/src/scad_params.rs:172 | Conversely, an `include <name>;` or `use <name>;` directive at `p`, with whitespace gaps and a non-empty name free of `>`, is matched with group `name`, and the search resumes right after its `;`. |
| Matching.IncludeNamesOfDirectives | openscad-part-maker/src/scad_params.rs:172-174 | A text of such directives, one per line and followed by blank text, yields exactly the trimmed names they were written with, in order. |
| Loader.IncludeNames | openscad-part-maker/src/scad_params.rs:172-174 | The iteration over include directives yields at most one name per character of the text scanned. |
| Loader.CorpusAppend | openscad-part-maker/src/scad_params.rs:166-167 | The text appended for two runs of files in turn is the two texts concatenated. |
| Loader.GatherScadText | openscad-part-maker/src/scad_params.rs:153-182 | The walk succeeds exactly when `Gather` does, leaves `Gather`'s visited set, and appends the texts of `Gather`'s files, each followed by a newline, in `Gather`'s order. This holds also when it fails part way. |
| Loader.GatherIncludesLoop | openscad-part-maker/src/scad_params.rs:172-179 | The loop over a file's includes does what `GatherIncludes` says: same outcome, same visited set, same appended texts in the same order. |
| Loader.Gather | openscad-part-maker/src/scad_params.rs:153-182 | The reference walk: a missing path fails, a visited one adds nothing, an unreadable one fails once marked, and a readable one comes first, followed by the walks of its existing includes in directive order. The visited set only grows, within the file system, and holds the path when it exists; every file appended is readable. |
| Loader.GatherIncludes | openscad-part-maker/src/scad_params.rs:172-179 | The walk over a file's includes, each existing one from the visited set the previous one left, stopping at the first failure. The visited set only grows, and every file appended is readable. |
| Loader.GatherOk | openscad-part-maker/src/scad_params.rs:158-178 | The walk fails if and only if the start path does not exist or some file it marked visited cannot be read. An include that does not exist is skipped, not an error. |
| Loader.GatherAppends | openscad-part-maker/src/scad_params.rs:161-167 | Each file is appended at most once. The files appended are exactly the readable files among those the walk marked visited. |
| Loader.GatherClosed | openscad-part-maker/src/scad_params.rs:172-179 | After a successful walk, every file it marked visited has each of its existing includes visited too. |
| Template.SpecMapKeys | openscad-part-maker/src/scad_params.rs:75-78 | The template's keys are exactly the declared names. |
| Template.SpecMapLastWins | openscad-part-maker/src/scad_params.rs:75-78 | Among duplicates the last declaration is the one kept. |
| Template.SpecMapValues | openscad-part-maker/src/scad_params.rs:75-78 | Every spec kept is one of the declarations. |
| Template.ExtractedSpecs | openscad-part-maker/src/scad_params.rs:71-78 | A template built from a text keys its specs by uppercase identifiers, and their defaults are trimmed and typed from themselves. |
| Template.BuildTemplate | openscad-part-maker/src/scad_params.rs:72-78 | The insertion loop fills specs and defaults with the same keys. Each spec is filed under its name, and its default is that spec's default. |
| Template.FromScadTree | openscad-part-maker/src/scad_params.rs:66-81 | It succeeds if and only if the main file exists and every file the walk reaches is readable. On success the specs come from the texts of `Gather`'s files in `Gather`'s depth-first, directive order, with the main file first. Each file appears once, the files are exactly those reached, every existing include of theirs is among them, and the template is well formed. |
| Template.FromScadTreeSucceeds | openscad-part-maker/src/scad_params.rs:66-69 | When the main file exists and every file is readable, gathering succeeds. |
| Template.UserParamNamesAre | openscad-part-maker/src/scad_params.rs:92-97 | The names listed are exactly those of the user-facing specs, each once, in strictly ascending order. |
| Template.UserParamNames | openscad-part-maker/src/scad_params.rs:92-97 | There are no more names than specs. |
| Instance.ApplyFieldNoOp | openscad-part-maker/src/scad_params.rs:103-112 | Blank text, or a field whose uppercased name has no spec, leaves the values as they are and succeeds. |
| Instance.ApplyField | openscad-part-maker/src/scad_params.rs:103-133 | An error arises only for a non-blank text whose field names a spec. On success only the entry of the field's SCAD name may be added or changed; every other entry keeps its value. |
| Instance.ApplyFieldFrame | openscad-part-maker/src/scad_params.rs:131 | On success only the entry of the field's SCAD name may change, and a new key always has a spec. |
| Instance.ApplyFieldBool | openscad-part-maker/src/scad_params.rs:115-118 | A Bool field is accepted if and only if `parse_bool` accepts the untrimmed text. It stores `true` or `false`, which parses to the same boolean. |
| Instance.ApplyFieldNumber | openscad-part-maker/src/scad_params.rs:119-123 | A Number field is accepted if and only if the untrimmed text parses as `f64`, and then it is stored verbatim. |
| Instance.ApplyFieldString | openscad-part-maker/src/scad_params.rs:124-128 | A String field is always accepted. The stored literal reads back as exactly the submitted text. |
| Instance.PaddedTextRejected | openscad-part-maker/src/scad_params.rs:104-123 | Emptiness is checked on trimmed text but validation on the untrimmed text. So Bool text with leading whitespace, and Number text with any whitespace, is an error. |
| Instance.ApplyFieldIgnoresVisibility | openscad-part-maker/src/scad_params.rs:109-112 | The outcome depends only on the spec keys and types, so a spec that is not user-facing is overridable. |
| Instance.ApplyFieldsKeepSpecKeys | openscad-part-maker/src/scad_params.rs:103-133 | Across any sequence of submitted fields, every value keeps a spec, so unknown fields never get a value. |
| Instance.ApplyFieldsCommute | openscad-part-maker/src/scad_params.rs:131 | Two fields naming different parameters give the same outcome in either order. |
| Instance.FragmentRoundTrip | openscad-part-maker/src/scad_params.rs:137 | For a name without `=`, splitting the `name=value` fragment at its first `=` gives the name and the value back. |
| Instance.DefinesEncodesValues | openscad-part-maker/src/scad_params.rs:136-138 | There is one fragment per value. Each fragment splits into an entry of the map, every entry appears, and names are strictly ascending. |
| Instance.Defines | openscad-part-maker/src/scad_params.rs:136-138 | There is one fragment per value. |
| Instance.ScadParams.IterDefines | openscad-part-maker/src/scad_params.rs:136-138 | The fragments are `Defines(values)`: one `NAME=value` fragment per entry, every entry present, in strictly ascending name order. |
| Instance.BoolDefaultRoundTrip | openscad-part-maker/src/scad_params.rs:115-118 | Submitting an extracted Bool default back is accepted and stores its lowercase form (`true` or `false`). |
| Instance.NumberDefaultRoundTrip | openscad-part-maker/src/scad_params.rs:119-123 | Submitting a non-empty extracted Number default back succeeds, storing it verbatim, exactly when it is a float literal; otherwise it fails. (An empty default, as `G = ;` gives, is a blank submission and changes nothing.) |
| Instance.ExpressionDefaultRejected | openscad-part-maker/src/scad_params.rs:119-122 | For a spec whose default is `CLEARANCE/2` with the type inferred from it, as extraction builds from `FIT = CLEARANCE/2;`, the type is Number, yet submitting the default back through `set_from_field` is an error, since `CLEARANCE/2` is not a float literal. |
| Instance.ScadParams.SetFromField | openscad-part-maker/src/scad_params.rs:103-133 | On acceptance, the new values are those `ApplyField` gives. On rejection, the result is an error and the values are unchanged. Every value keeps a spec. |
| Instance.ScadParams.GetRaw | openscad-part-maker/src/scad_params.rs:141-143 | The result is present exactly when the name has a value, and it is that value. |
| Instance.Instantiate | openscad-part-maker/src/scad_params.rs:84-89 | A fresh instance holds the template's specs, with the defaults as values. For a well-formed template, every value has a spec. |

## Left out

- The HTTP server, page rendering, the `openscad` process, the CLI and logging, and the older hard-coded `LibParams` are outside the parameter engine.
- The `$` check (`scad_params.rs:202-204`) is dead code: the name group must start with `[A-Z]`, so the model has no such branch.
- General regular-expression semantics are not modelled. Only the two fixed patterns are, as scanners.
- The value produced by `parse::<f64>` is not modelled, only whether the parse succeeds (`FloatSyntax.IsFloatLiteral`). The source never keeps the value.
- Paths and file system access are abstract:
  - path joining and `canonicalize` are the parameter `locate` of `GatherScadText`;
  - whether a path exists is membership in the file map;
  - the main path given to `FromScadTree` is taken to be canonical already.
- Error contexts and messages from `anyhow` become a bare `Err`.
- Loader.IncludeNames: its own contract states only a bound on the number of names. What it yields is stated by `Matching.IncludeNamesOfDirectives` for texts made of directive lines only, not for directives mixed with other code.
- Extractor.Captures: what it yields is stated by `Matching.CapturesOfLines` for texts made of declaration lines, not for declarations mixed with other code.
- The derived `Clone` and `Debug` implementations are not modelled: cloning is value copying in the model.
- Iterators (`iter_defines`, `user_param_names`) are sequences. Laziness is not modelled.
- Concurrency is not modelled: every instance is owned by one request.
