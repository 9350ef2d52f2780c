/** `ScadParamTemplate`: the specs and defaults discovered once from the
    `.scad` tree, keyed by SCAD name, and shared by every request. */
module Template {
  import opened Wrappers
  import opened Text
  import opened Extractor
  import opened Loader

  datatype ScadParamTemplate = ScadParamTemplate(specs: map<string, ParamSpec>, defaults: map<string, string>)

  /** Both maps have the same keys, each spec is filed under its own name, and
      each default is that spec's default. */
  predicate WellFormed(t: ScadParamTemplate) {
    && t.specs.Keys == t.defaults.Keys
    && forall k :: k in t.specs ==> t.specs[k].name == k && t.defaults[k] == t.specs[k].default
  }

  /** The spec map after inserting every spec of `v` in order, a later spec
      replacing an earlier one of the same name. */
  function SpecMap(v: seq<ParamSpec>): map<string, ParamSpec>
    decreases |v|
  {
    if v == [] then map[] else SpecMap(v[..|v| - 1])[v[|v| - 1].name := v[|v| - 1]]
  }

  /** The keys are exactly the names declared. */
  lemma {:induction false} SpecMapKeys(v: seq<ParamSpec>)
    ensures forall k :: k in SpecMap(v) <==> exists i :: 0 <= i < |v| && v[i].name == k
    decreases |v|
  {
    if v != [] {
      var init := v[..|v| - 1];
      SpecMapKeys(init);
      forall k | k in SpecMap(v)
        ensures exists i :: 0 <= i < |v| && v[i].name == k
      {
        if k != v[|v| - 1].name {
          assert k in SpecMap(init);
          var i :| 0 <= i < |init| && init[i].name == k;
          assert v[i].name == k;
        }
      }
      forall k | exists i :: 0 <= i < |v| && v[i].name == k
        ensures k in SpecMap(v)
      {
        var i :| 0 <= i < |v| && v[i].name == k;
        if i < |init| {
          assert init[i].name == k;
        }
      }
    }
  }

  /** Of several declarations of one name, the last one wins. */
  lemma {:induction false} SpecMapLastWins(v: seq<ParamSpec>, i: nat)
    requires i < |v|
    requires forall j :: i < j < |v| ==> v[j].name != v[i].name
    ensures v[i].name in SpecMap(v) && SpecMap(v)[v[i].name] == v[i]
    decreases |v|
  {
    if i < |v| - 1 {
      var init := v[..|v| - 1];
      assert init[i] == v[i];
      SpecMapLastWins(init, i);
    }
  }

  /** Every spec filed is one of the specs inserted. */
  lemma {:induction false} SpecMapValues(v: seq<ParamSpec>)
    ensures forall k :: k in SpecMap(v) ==> exists i :: 0 <= i < |v| && SpecMap(v)[k] == v[i]
    decreases |v|
  {
    if v != [] {
      var init := v[..|v| - 1];
      SpecMapValues(init);
      forall k | k in SpecMap(v)
        ensures exists i :: 0 <= i < |v| && SpecMap(v)[k] == v[i]
      {
        if k != v[|v| - 1].name {
          assert k in SpecMap(init);
          var i :| 0 <= i < |init| && SpecMap(init)[k] == init[i];
          assert SpecMap(v)[k] == v[i];
        }
      }
    }
  }

  /** The specs a template gets from a text are filed under identifiers the
      assignment pattern allows, with trimmed defaults of the inferred type. */
  lemma ExtractedSpecs(text: string)
    ensures forall k :: k in SpecMap(ParamSpecsOf(text)) ==>
              var s := SpecMap(ParamSpecsOf(text))[k];
              IsScadName(k) && Trim(s.default) == s.default && s.ty == InferType(s.default)
  {
    var v := ParamSpecsOf(text);
    ParamSpecsWellFormed(text);
    SpecMapValues(v);
    SpecMapKeys(v);
  }

  /** `from_scad_tree`'s loop: each spec inserted into both maps under its
      name, so a later duplicate replaces both its spec and its default. */
  method BuildTemplate(v: seq<ParamSpec>) returns (t: ScadParamTemplate)
    ensures t.specs == SpecMap(v)
    ensures WellFormed(t)
  {
    var specs: map<string, ParamSpec> := map[];
    var defaults: map<string, string> := map[];
    for i := 0 to |v|
      invariant specs == SpecMap(v[..i])
      invariant WellFormed(ScadParamTemplate(specs, defaults))
    {
      var spec := v[i];
      assert v[..i + 1][..i] == v[..i];
      defaults := defaults[spec.name := spec.default];
      specs := specs[spec.name := spec];
    }
    assert v[..|v|] == v;
    t := ScadParamTemplate(specs, defaults);
  }

  /** `from_scad_tree`: gather the tree from the canonical path `main`, extract
      the specs of the gathered text and build the template.

      It succeeds exactly when `main` exists and every file the walk reaches
      can be read; a missing include is skipped. On success the text the
      specs come from is the texts of the walk's files in the walk's
      depth-first, directive order (`Gather`), `main` first, each file once;
      those files are exactly the ones reached, and every include of theirs
      that exists is among them. */
  method FromScadTree(fs: FileSystem, locate: (Path, string) -> Path, main: Path)
    returns (r: Result<ScadParamTemplate>, ghost order: seq<Path>)
    ensures r.Ok? <==> main in fs && forall p :: p in Gather(fs, locate, main, {}).visited ==> fs[p].Readable?
    ensures r.Ok? ==> var w := Gather(fs, locate, main, {});
              && w.order != [] && w.order[0] == main && NoDuplicates(w.order)
              && (forall p :: p in w.order <==> p in w.visited)
              && (forall p :: p in w.visited ==> IncludesVisited(fs, locate, p, w.visited))
              && r.value.specs == SpecMap(ParamSpecsOf(Corpus(fs, w.order)))
              && WellFormed(r.value)
    ensures order == Gather(fs, locate, main, {}).order
  {
    var gathered, visited, text := GatherScadText(fs, locate, main, {}, "");
    ghost var w := Gather(fs, locate, main, {});
    order := w.order;
    GatherOk(fs, locate, main, {});
    GatherAppends(fs, locate, main, {});
    GatherClosed(fs, locate, main, {});
    if gathered.Err? {
      return Err, order;
    }
    assert "" + Corpus(fs, order) == Corpus(fs, order);
    var specsVec := ExtractParamSpecs(text);
    var t := BuildTemplate(specsVec);
    r := Ok(t);
  }

  /** With every file readable, gathering from an existing `main` succeeds. */
  lemma FromScadTreeSucceeds(fs: FileSystem, locate: (Path, string) -> Path, main: Path)
    requires main in fs && forall p :: p in fs ==> fs[p].Readable?
    ensures Gather(fs, locate, main, {}).ok
  {
    GatherOk(fs, locate, main, {});
  }

  // ------------------------------------------------------- user-facing names

  /** The names of the user-facing specs among `keys`, in that order. */
  function UserNames(specs: map<string, ParamSpec>, keys: seq<string>): (names: seq<string>)
    requires forall i :: 0 <= i < |keys| ==> keys[i] in specs
    ensures |names| <= |keys|
    decreases |keys|
  {
    if keys == [] then []
    else
      var rest := UserNames(specs, keys[1..]);
      if specs[keys[0]].isUserParam then [specs[keys[0]].name] + rest else rest
  }

  /** `user_param_names`: the specs' values in key order, the user-facing
      ones' names. */
  function UserParamNames(t: ScadParamTemplate): (names: seq<string>)
    ensures |names| <= |t.specs.Keys|
  {
    UserNames(t.specs, SortedKeys(t.specs.Keys))
  }

  lemma {:induction false} UserNamesAre(specs: map<string, ParamSpec>, keys: seq<string>)
    requires forall i :: 0 <= i < |keys| ==> keys[i] in specs
    requires StrictlyAscending(keys)
    requires forall k :: k in specs ==> specs[k].name == k
    ensures forall n :: n in UserNames(specs, keys) <==> n in keys && specs[n].isUserParam
    ensures StrictlyAscending(UserNames(specs, keys))
    decreases |keys|
  {
    if keys != [] {
      var rest := UserNames(specs, keys[1..]);
      UserNamesAre(specs, keys[1..]);
      if specs[keys[0]].isUserParam {
        var names := [keys[0]] + rest;
        forall i, j | 0 <= i < j < |names|
          ensures Less(names[i], names[j])
        {
          if i == 0 {
            assert names[j] in keys[1..];
          }
        }
      }
    }
  }

  /** In a well-formed template the names yielded are exactly the
      user-facing specs' names, each once, in strictly ascending order. */
  lemma UserParamNamesAre(t: ScadParamTemplate)
    requires WellFormed(t)
    ensures forall n :: n in UserParamNames(t) <==> n in t.specs && t.specs[n].isUserParam
    ensures StrictlyAscending(UserParamNames(t))
  {
    UserNamesAre(t.specs, SortedKeys(t.specs.Keys));
  }
}
