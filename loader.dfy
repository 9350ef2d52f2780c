/** `gather_scad_text`: the depth-first walk over a main `.scad` file and the
    files it pulls in with `include <...>;` or `use <...>;`, appending each
    file's text once.

    The file system is a map from canonical path to what reading that path
    gives. A path is in the map exactly when it exists, so `canonicalize`
    failing and `exists()` being false are both "not a key". How an include
    name is resolved against the including file's directory and then
    canonicalised is the parameter `locate`. */
module Loader {
  import opened Wrappers
  import opened Text
  import opened Scan

  type Path = string

  /** What `read_to_string` gives for an existing path. */
  datatype Document = Readable(text: string) | Unreadable

  type FileSystem = map<Path, Document>

  // ------------------------------------------------------------ include scan

  /** The include pattern `^\s*(?:include|use)\s*<([^>]+)>\s*;` at `p`: the
      group and where the match ends. Every choice is forced: the keywords
      start with different letters, `[^>]+` cannot pass the first `>`, and no
      whitespace character is `<` or `;`. */
  function IncludeAt(text: string, p: nat): (r: Option<(string, nat)>)
    requires p <= |text|
    ensures r.Some? ==> p < r.value.1 <= |text| && r.value.0 != [] && '>' !in r.value.0
  {
    var k := SkipWhitespace(text, p);
    var keywordEnd :=
      if OccursAt(text, "include", k) then k + 7
      else if OccursAt(text, "use", k) then k + 3
      else k;
    if keywordEnd == k then None else AfterKeyword(text, keywordEnd)
  }

  /** The rest of the include pattern, `\s*<([^>]+)>\s*;`, at `i`. */
  function AfterKeyword(text: string, i: nat): (r: Option<(string, nat)>)
    requires i <= |text|
    ensures r.Some? ==> i < r.value.1 <= |text| && r.value.0 != [] && '>' !in r.value.0
  {
    var lt := SkipWhitespace(text, i);
    if lt == |text| || text[lt] != '<' then None
    else match IndexOf(text, lt + 1, '>')
      case None => None
      case Some(gt) =>
        var semi := SkipWhitespace(text, gt + 1);
        if gt == lt + 1 || semi == |text| || text[semi] != ';' then None
        else
          SliceAvoids(text, lt + 1, gt, '>');
          Some((text[lt + 1..gt], semi + 1))
  }

  /** `include_re.captures_iter(text)` from `pos` on, each name trimmed. */
  function IncludeNames(text: string, pos: nat): (names: seq<string>)
    requires pos <= |text|
    ensures |names| <= |text| - pos
    decreases |text| - pos
  {
    if pos == |text| then []
    else if IsLineStart(text, pos) && IncludeAt(text, pos).Some? then
      var m := IncludeAt(text, pos).value;
      [Trim(m.0)] + IncludeNames(text, m.1)
    else IncludeNames(text, pos + 1)
  }

  // ------------------------------------------------------------------ gather

  /** Every file in `order` exists and can be read. */
  predicate AllReadable(fs: FileSystem, order: seq<Path>) {
    forall i :: 0 <= i < |order| ==> order[i] in fs && fs[order[i]].Readable?
  }

  /** The text appended for the files visited in this order: each file's
      text followed by a newline. */
  function Corpus(fs: FileSystem, order: seq<Path>): string
    requires AllReadable(fs, order)
    decreases |order|
  {
    if order == [] then []
    else fs[order[0]].text + "\n" + Corpus(fs, order[1..])
  }

  lemma {:induction false} CorpusAppend(fs: FileSystem, a: seq<Path>, b: seq<Path>)
    requires AllReadable(fs, a) && AllReadable(fs, b)
    ensures AllReadable(fs, a + b)
    ensures Corpus(fs, a + b) == Corpus(fs, a) + Corpus(fs, b)
    decreases |a|
  {
    if a != [] {
      assert (a + b)[1..] == a[1..] + b;
      CorpusAppend(fs, a[1..], b);
    } else {
      assert a + b == b;
    }
  }

  predicate NoDuplicates(order: seq<Path>) {
    forall i, j :: 0 <= i < j < |order| ==> order[i] != order[j]
  }

  lemma AppendNoDuplicates(a: seq<Path>, b: seq<Path>)
    requires NoDuplicates(a) && NoDuplicates(b)
    requires forall p :: p in a ==> p !in b
    ensures NoDuplicates(a + b)
  {
    forall i, j | 0 <= i < j < |a + b|
      ensures (a + b)[i] != (a + b)[j]
    {
      if i < |a| && |a| <= j {
        assert (a + b)[i] in a && (a + b)[j] in b;
      }
    }
  }

  /** Every include of the readable file `p` that exists has been visited. */
  predicate IncludesVisited(fs: FileSystem, locate: (Path, string) -> Path, p: Path, visited: set<Path>)
    requires p in fs
  {
    fs[p].Readable? ==>
      var names := IncludeNames(fs[p].text, 0);
      forall i :: 0 <= i < |names| && locate(p, names[i]) in fs ==> locate(p, names[i]) in visited
  }

  /** Visiting more files keeps a file's includes visited. */
  lemma IncludesVisitedGrow(fs: FileSystem, locate: (Path, string) -> Path, p: Path, v: set<Path>, v': set<Path>)
    requires p in fs && v <= v' && IncludesVisited(fs, locate, p, v)
    ensures IncludesVisited(fs, locate, p, v')
  {
  }

  // ---------------------------------------------------------- reference walk

  /** What one walk did: whether it succeeded, the visited set it leaves and
      the files whose texts it appended, in the order appended. */
  datatype Walk = Walk(ok: bool, visited: set<Path>, order: seq<Path>)

  /** The walk `gather_scad_text(path)` makes from the visited set `visited`.
      A path that does not exist fails; a visited one adds nothing; otherwise
      the path is marked, an unreadable one then fails, and a readable one is
      appended first and followed by its includes in directive order. */
  function Gather(fs: FileSystem, locate: (Path, string) -> Path, path: Path, visited: set<Path>): (w: Walk)
    ensures visited <= w.visited <= visited + fs.Keys
    ensures path in fs ==> path in w.visited
    ensures AllReadable(fs, w.order)
    decreases fs.Keys - visited, 0, 0
  {
    if path !in fs then Walk(false, visited, [])
    else if path in visited then Walk(true, visited, [])
    else if fs[path].Unreadable? then Walk(false, visited + {path}, [])
    else
      var names := IncludeNames(fs[path].text, 0);
      var rest := GatherIncludes(fs, locate, path, names, 0, visited + {path});
      Walk(rest.ok, rest.visited, [path] + rest.order)
  }

  /** The walk over the includes `names[i..]` of `from`: each one that exists
      is gathered in turn, from the visited set the previous one left, and
      the first failure ends the walk. */
  function GatherIncludes(fs: FileSystem, locate: (Path, string) -> Path, from: Path, names: seq<string>, i: nat, visited: set<Path>): (w: Walk)
    requires i <= |names|
    ensures visited <= w.visited <= visited + fs.Keys
    ensures AllReadable(fs, w.order)
    decreases fs.Keys - visited, 1, |names| - i
  {
    if i == |names| then Walk(true, visited, [])
    else
      var inc := locate(from, names[i]);
      if inc !in fs then GatherIncludes(fs, locate, from, names, i + 1, visited)
      else
        var sub := Gather(fs, locate, inc, visited);
        if !sub.ok then sub
        else
          var rest := GatherIncludes(fs, locate, from, names, i + 1, sub.visited);
          Walk(rest.ok, rest.visited, sub.order + rest.order)
  }

  /** The walk fails exactly when its start path does not exist or a file it
      marked visited cannot be read: an include that does not exist is
      skipped, not an error. */
  lemma {:induction false} GatherOk(fs: FileSystem, locate: (Path, string) -> Path, path: Path, visited: set<Path>)
    ensures var w := Gather(fs, locate, path, visited);
            w.ok <==> path in fs && forall p :: p in w.visited - visited ==> fs[p].Readable?
    decreases fs.Keys - visited, 0, 0
  {
    if path in fs && path !in visited && fs[path].Readable? {
      GatherIncludesOk(fs, locate, path, IncludeNames(fs[path].text, 0), 0, visited + {path});
    }
  }

  lemma {:induction false} GatherIncludesOk(fs: FileSystem, locate: (Path, string) -> Path, from: Path, names: seq<string>, i: nat, visited: set<Path>)
    requires i <= |names|
    ensures var w := GatherIncludes(fs, locate, from, names, i, visited);
            w.ok <==> forall p :: p in w.visited - visited ==> fs[p].Readable?
    decreases fs.Keys - visited, 1, |names| - i
  {
    if i < |names| {
      var inc := locate(from, names[i]);
      if inc !in fs {
        GatherIncludesOk(fs, locate, from, names, i + 1, visited);
      } else {
        var sub := Gather(fs, locate, inc, visited);
        GatherOk(fs, locate, inc, visited);
        if sub.ok {
          GatherIncludesOk(fs, locate, from, names, i + 1, sub.visited);
        }
      }
    }
  }

  /** Each file is appended at most once, and the files appended are exactly
      the readable ones among those the walk marked visited. */
  lemma {:induction false} GatherAppends(fs: FileSystem, locate: (Path, string) -> Path, path: Path, visited: set<Path>)
    ensures var w := Gather(fs, locate, path, visited);
            && NoDuplicates(w.order)
            && forall p :: p in w.order <==> p in w.visited - visited && fs[p].Readable?
    decreases fs.Keys - visited, 0, 0
  {
    if path in fs && path !in visited && fs[path].Readable? {
      var rest := GatherIncludes(fs, locate, path, IncludeNames(fs[path].text, 0), 0, visited + {path});
      GatherIncludesAppends(fs, locate, path, IncludeNames(fs[path].text, 0), 0, visited + {path});
      AppendNoDuplicates([path], rest.order);
    }
  }

  lemma {:induction false} GatherIncludesAppends(fs: FileSystem, locate: (Path, string) -> Path, from: Path, names: seq<string>, i: nat, visited: set<Path>)
    requires i <= |names|
    ensures var w := GatherIncludes(fs, locate, from, names, i, visited);
            && NoDuplicates(w.order)
            && forall p :: p in w.order <==> p in w.visited - visited && fs[p].Readable?
    decreases fs.Keys - visited, 1, |names| - i
  {
    if i < |names| {
      var inc := locate(from, names[i]);
      if inc !in fs {
        GatherIncludesAppends(fs, locate, from, names, i + 1, visited);
      } else {
        var sub := Gather(fs, locate, inc, visited);
        GatherAppends(fs, locate, inc, visited);
        if sub.ok {
          var rest := GatherIncludes(fs, locate, from, names, i + 1, sub.visited);
          GatherIncludesAppends(fs, locate, from, names, i + 1, sub.visited);
          AppendNoDuplicates(sub.order, rest.order);
        }
      }
    }
  }

  /** The includes `names[k]`, `k >= i`, of `from` that exist are in `v`. */
  ghost predicate IncludesFrom(fs: FileSystem, locate: (Path, string) -> Path, from: Path, names: seq<string>, i: nat, v: set<Path>) {
    forall k :: i <= k < |names| && locate(from, names[k]) in fs ==> locate(from, names[k]) in v
  }

  /** A successful walk is closed under includes: every file it marked
      visited has each of its existing includes visited too. */
  lemma {:induction false} GatherClosed(fs: FileSystem, locate: (Path, string) -> Path, path: Path, visited: set<Path>)
    ensures var w := Gather(fs, locate, path, visited);
            w.ok ==> forall p :: p in w.visited - visited ==> IncludesVisited(fs, locate, p, w.visited)
    decreases fs.Keys - visited, 0, 0
  {
    if path in fs && path !in visited && fs[path].Readable? {
      GatherIncludesClosed(fs, locate, path, IncludeNames(fs[path].text, 0), 0, visited + {path});
    }
  }

  lemma {:induction false} GatherIncludesClosed(fs: FileSystem, locate: (Path, string) -> Path, from: Path, names: seq<string>, i: nat, visited: set<Path>)
    requires i <= |names|
    ensures var w := GatherIncludes(fs, locate, from, names, i, visited);
            w.ok ==> && IncludesFrom(fs, locate, from, names, i, w.visited)
                     && forall p :: p in w.visited - visited ==> IncludesVisited(fs, locate, p, w.visited)
    decreases fs.Keys - visited, 1, |names| - i
  {
    if i < |names| {
      var inc := locate(from, names[i]);
      if inc !in fs {
        GatherIncludesClosed(fs, locate, from, names, i + 1, visited);
      } else {
        var sub := Gather(fs, locate, inc, visited);
        if sub.ok {
          var rest := GatherIncludes(fs, locate, from, names, i + 1, sub.visited);
          GatherClosed(fs, locate, inc, visited);
          GatherIncludesClosed(fs, locate, from, names, i + 1, sub.visited);
          forall p | p in sub.visited - visited
            ensures IncludesVisited(fs, locate, p, rest.visited)
          {
            IncludesVisitedGrow(fs, locate, p, sub.visited, rest.visited);
          }
        }
      }
    }
  }

  // ------------------------------------------------------------------ gather

  lemma CorpusCons(fs: FileSystem, p: Path, order: seq<Path>)
    requires p in fs && fs[p].Readable? && AllReadable(fs, order)
    ensures AllReadable(fs, [p] + order)
    ensures Corpus(fs, [p] + order) == fs[p].text + "\n" + Corpus(fs, order)
  {
    assert ([p] + order)[1..] == order;
  }

  /** The loop over `from`'s includes has done the first `i`: the whole walk
      `all` is the files `done` appended so far followed by the walk over the
      rest from the visited set `v`. */
  ghost predicate IncludesProgress(fs: FileSystem, locate: (Path, string) -> Path, from: Path, names: seq<string>,
                                   i: nat, v: set<Path>, all: Walk, done: seq<Path>) {
    && i <= |names|
    && AllReadable(fs, done)
    && var rest := GatherIncludes(fs, locate, from, names, i, v);
       all.ok == rest.ok && all.visited == rest.visited && all.order == done + rest.order
  }

  /** An include that does not exist is skipped. */
  lemma IncludesProgressSkip(fs: FileSystem, locate: (Path, string) -> Path, from: Path, names: seq<string>,
                             i: nat, v: set<Path>, all: Walk, done: seq<Path>)
    requires IncludesProgress(fs, locate, from, names, i, v, all, done)
    requires i < |names| && locate(from, names[i]) !in fs
    ensures IncludesProgress(fs, locate, from, names, i + 1, v, all, done)
  {
  }

  /** An include that exists is walked; if that walk fails, so does the
      whole walk, with the failed walk's visited set and files. */
  lemma IncludesProgressStep(fs: FileSystem, locate: (Path, string) -> Path, from: Path, names: seq<string>,
                             i: nat, v: set<Path>, all: Walk, done: seq<Path>)
    requires IncludesProgress(fs, locate, from, names, i, v, all, done)
    requires i < |names| && locate(from, names[i]) in fs
    ensures var w := Gather(fs, locate, locate(from, names[i]), v);
            if w.ok then IncludesProgress(fs, locate, from, names, i + 1, w.visited, all, done + w.order)
            else !all.ok && all.visited == w.visited && all.order == done + w.order
  {
    var w := Gather(fs, locate, locate(from, names[i]), v);
    if w.ok {
      var rest := GatherIncludes(fs, locate, from, names, i + 1, w.visited);
      assert all.order == done + (w.order + rest.order);
      CorpusAppend(fs, done, w.order);
    }
  }

  /** The walk of a readable file not yet visited: the file, then its
      includes from the set with it marked. */
  lemma GatherReadable(fs: FileSystem, locate: (Path, string) -> Path, path: Path, visited: set<Path>)
    requires path in fs && path !in visited && fs[path].Readable?
    ensures var all := GatherIncludes(fs, locate, path, IncludeNames(fs[path].text, 0), 0, visited + {path});
            Gather(fs, locate, path, visited) == Walk(all.ok, all.visited, [path] + all.order)
  {
  }

  /** A file's text and newline, then the texts of its includes. */
  lemma FileThenIncludes(fs: FileSystem, p: Path, order: seq<Path>, out: string, mid: string, after: string)
    requires p in fs && fs[p].Readable? && AllReadable(fs, order)
    requires mid == out + (fs[p].text + "\n") && after == mid + Corpus(fs, order)
    ensures AllReadable(fs, [p] + order)
    ensures after == out + Corpus(fs, [p] + order)
  {
    CorpusCons(fs, p, order);
  }

  /** The sub-walk appending `more` after the files `done`. */
  lemma AppendedAfter(fs: FileSystem, out: string, done: seq<Path>, mid: string, more: seq<Path>, after: string)
    requires AllReadable(fs, done) && AllReadable(fs, more)
    requires mid == out + Corpus(fs, done) && after == mid + Corpus(fs, more)
    ensures AllReadable(fs, done + more)
    ensures after == out + Corpus(fs, done + more)
  {
    CorpusAppend(fs, done, more);
  }

  /** `gather_scad_text(path, visited, out)`, with the mutable set and string
      passed in and handed back: it succeeds exactly when `Gather` does,
      leaves `Gather`'s visited set, and appends the texts of `Gather`'s
      files in `Gather`'s order, also when it fails part way. */
  method GatherScadText(fs: FileSystem, locate: (Path, string) -> Path, path: Path, visited: set<Path>, out: string)
    returns (r: Result<()>, visited': set<Path>, out': string)
    ensures var w := Gather(fs, locate, path, visited);
            && (r.Ok? <==> w.ok) && visited' == w.visited
            && out' == out + Corpus(fs, w.order)
    decreases fs.Keys - visited, 0
  {
    if path !in fs {
      return Err, visited, out;
    }
    if path in visited {
      return Ok(()), visited, out;
    }
    visited' := visited + {path};
    if fs[path].Unreadable? {
      return Err, visited', out;
    }
    var text := fs[path].text;
    out' := out + (text + "\n");
    var names := IncludeNames(text, 0);
    ghost var all := GatherIncludes(fs, locate, path, names, 0, visited');
    ghost var mid := out';
    r, visited', out' := GatherIncludesLoop(fs, locate, path, names, visited', out');
    GatherReadable(fs, locate, path, visited);
    FileThenIncludes(fs, path, all.order, out, mid, out');
  }

  /** The loop of `gather_scad_text` over the includes `names` of `from`:
      each one that exists is gathered, and the first error is returned. It
      does what `GatherIncludes` says, with the same output as above. */
  method GatherIncludesLoop(fs: FileSystem, locate: (Path, string) -> Path, from: Path, names: seq<string>,
                            visited: set<Path>, out: string)
    returns (r: Result<()>, visited': set<Path>, out': string)
    ensures var w := GatherIncludes(fs, locate, from, names, 0, visited);
            && (r.Ok? <==> w.ok) && visited' == w.visited
            && out' == out + Corpus(fs, w.order)
    decreases fs.Keys - visited, 1
  {
    ghost var all := GatherIncludes(fs, locate, from, names, 0, visited);
    ghost var done: seq<Path> := [];
    visited', out' := visited, out;
    var i := 0;
    while i < |names|
      invariant visited <= visited'
      invariant IncludesProgress(fs, locate, from, names, i, visited', all, done)
      invariant out' == out + Corpus(fs, done)
    {
      var inc := locate(from, names[i]);
      if inc in fs {
        ghost var w := Gather(fs, locate, inc, visited');
        IncludesProgressStep(fs, locate, from, names, i, visited', all, done);
        var sub, subVisited, subOut := GatherScadText(fs, locate, inc, visited', out');
        AppendedAfter(fs, out, done, out', w.order, subOut);
        if sub.Err? {
          return Err, subVisited, subOut;
        }
        done := done + w.order;
        visited', out' := subVisited, subOut;
      } else {
        IncludesProgressSkip(fs, locate, from, names, i, visited', all, done);
      }
      i := i + 1;
    }
    assert done + [] == done;
    r := Ok(());
  }
}
