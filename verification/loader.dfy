/** The loader: the configured sources run in order against one record, their
    errors gathered into one; the help trigger; and the file source's
    dispatch on the path. Everything a source reads from the operating
    system or a decoder is supplied by a `World`. */
module Loading {
  import opened Wrappers
  import opened GoStrings
  import opened Schema
  import opened Tokenize
  import opened Applier
  import opened Errors
  import opened Coercion

  /** The decoders of whole configuration files. */
  datatype Format = Json | Yaml | Toml

  /** The source types of the package. */
  datatype Source =
    | FileSource(path: string)
    | JSONSource(path: string)
    | YAMLSource(path: string)
    | TOMLSource(path: string)
    | DirSource(path: string)
    | EnvFileSource(prefix: string, path: string)
    | EnvSource(prefix: string)
    | FlagsSource

  /** What running a source leaves: the record, and the error it returned
      (None for nil). A failing decoder may already have written fields. */
  datatype Step = Step(rec: Record, err: Option<Error>)

  /** The operating system and the decoders, as seen by the sources. */
  datatype World = World(
    /** os.Args */
    args: seq<string>,
    /** os.Environ() */
    environ: seq<string>,
    /** os.Stat: whether the path is a directory, or the error */
    stat: string -> Result<bool>,
    /** opening the file and running the JSON, YAML or TOML decoder on it */
    decode: (Format, string, Record) -> Step,
    /** opening the file and parsing it with godotenv */
    readEnvFile: string -> Result<map<string, string>>,
    /** reading the directory's regular files, name to contents */
    readDir: string -> Result<map<string, string>>,
    /** the order Go iterates a map in, for the source at the given position */
    order: (nat, map<string, string>) -> seq<string>)

  /** The assumptions the model makes of the world: a program name is
      present, map iteration visits each key once, and decoders only store
      values the fields can hold. */
  ghost predicate ValidWorld(w: World, schema: seq<Field>)
  {
    |w.args| >= 1 &&
    (forall i: nat, m: map<string, string> :: IsEnumeration(w.order(i, m), m)) &&
    (forall f: Format, p: string, r: Record :: Conforms(schema, r) ==> Conforms(schema, w.decode(f, p, r).rec))
  }

  /** ErrUnknownFileType. */
  const UnknownFileType := Error("unknown file type")

  lemma OrderKeysInMap(w: World, schema: seq<Field>, i: nat, m: map<string, string>)
    requires ValidWorld(w, schema)
    ensures forall j :: 0 <= j < |w.order(i, m)| ==> w.order(i, m)[j] in m
  {
    var o := w.order(i, m);
    assert IsEnumeration(o, m);
    forall j | 0 <= j < |o|
      ensures o[j] in m
    {
      assert o[j] in o;
    }
  }

  /** Applying a flat map through map2struct; it never fails. */
  function ApplyMap(lib: Library, w: World, schema: seq<Field>, idx: nat, k: SourceKind, prefix: string,
                    m: map<string, string>, rec: Record): (s: Step)
    requires ValidWorld(w, schema) && Conforms(schema, rec)
    ensures Conforms(schema, s.rec) && s.err.None?
  {
    OrderKeysInMap(w, schema, idx, m);
    Step(Map2Struct(lib, k, prefix, m, w.order(idx, m), schema, rec), None)
  }

  /** EnvFileSource.Load. */
  function EnvFileLoad(lib: Library, w: World, schema: seq<Field>, idx: nat, prefix: string, path: string, rec: Record): (s: Step)
    requires ValidWorld(w, schema) && Conforms(schema, rec)
    ensures Conforms(schema, s.rec)
    ensures w.readEnvFile(path).Err? ==> s == Step(rec, Some(w.readEnvFile(path).error))
  {
    match w.readEnvFile(path)
    case Err(e) => Step(rec, Some(e))
    case Ok(m) => ApplyMap(lib, w, schema, idx, Env, prefix, m, rec)
  }

  /** DirSource.Load. */
  function DirLoad(lib: Library, w: World, schema: seq<Field>, idx: nat, path: string, rec: Record): (s: Step)
    requires ValidWorld(w, schema) && Conforms(schema, rec)
    ensures Conforms(schema, s.rec)
    ensures w.readDir(path).Err? ==> s == Step(rec, Some(w.readDir(path).error))
  {
    match w.readDir(path)
    case Err(e) => Step(rec, Some(e))
    case Ok(m) => ApplyMap(lib, w, schema, idx, Dir, "", m, rec)
  }

  /** The position of the dot filepath.Ext starts at, searching the first
      `i` characters backwards and stopping at a "/". */
  function ExtStart(path: string, i: nat): (r: Option<nat>)
    requires i <= |path|
    ensures r.Some? ==>
      r.value < i && path[r.value] == '.' &&
      (forall t :: r.value < t < i ==> path[t] != '.' && path[t] != '/')
    decreases i
  {
    if i == 0 then None
    else if path[i - 1] == '/' then None
    else if path[i - 1] == '.' then Some(i - 1)
    else ExtStart(path, i - 1)
  }

  /** filepath.Ext: the suffix of the last path element from its last dot,
      or "" when that element has no dot. */
  function Ext(path: string): (e: string)
    ensures e == "" || (e[0] == '.' && HasSuffix(path, e) && forall t :: 0 < t < |e| ==> e[t] != '.' && e[t] != '/')
  {
    match ExtStart(path, |path|)
    case None => ""
    case Some(j) =>
      assert path[|path| - |path[j..]|..] == path[j..];
      path[j..]
  }

  /** The backward search stops at the last dot when no dot or slash
      follows it. */
  lemma {:induction false} ExtStartFindsDot(path: string, j: nat, i: nat)
    requires j < i <= |path| && path[j] == '.'
    requires forall t :: j < t < i ==> path[t] != '.' && path[t] != '/'
    ensures ExtStart(path, i) == Some(j)
    decreases i
  {
    if i - 1 > j {
      ExtStartFindsDot(path, j, i - 1);
    }
  }

  /** The backward search finds nothing in a prefix without a dot. */
  lemma {:induction false} ExtStartNoDot(path: string, i: nat)
    requires i <= |path|
    requires forall t :: 0 <= t < i ==> path[t] != '.'
    ensures ExtStart(path, i).None?
    decreases i
  {
    if i > 0 && path[i - 1] != '/' {
      ExtStartNoDot(path, i - 1);
    }
  }

  /** The extension of `name.ext` is `.ext` when `ext` has no dot or slash. */
  lemma ExtOfDotted(name: string, ext: string)
    requires forall t :: 0 <= t < |ext| ==> ext[t] != '.' && ext[t] != '/'
    ensures Ext(name + "." + ext) == "." + ext
  {
    var path := name + "." + ext;
    var j := |name|;
    forall t | j < t < |path|
      ensures path[t] != '.' && path[t] != '/'
    {
      assert path[t] == ext[t - j - 1];
    }
    ExtStartFindsDot(path, j, |path|);
    assert path[j..] == "." + ext;
  }

  /** The chain FileSource tries for an unrecognised extension: JSON, YAML,
      dotenv, TOML, each on the record the previous attempt left. The first
      success ends the chain; if all fail, the error is "unknown file type". */
  function Fallback(lib: Library, w: World, schema: seq<Field>, idx: nat, path: string, rec: Record): (s: Step)
    requires ValidWorld(w, schema) && Conforms(schema, rec)
    ensures Conforms(schema, s.rec)
    // the decoders' own errors are never reported
    ensures s.err.None? || s.err == Some(UnknownFileType)
  {
    var s1 := w.decode(Json, path, rec);
    if s1.err.None? then s1
    else
      var s2 := w.decode(Yaml, path, s1.rec);
      if s2.err.None? then s2
      else
        var s3 := EnvFileLoad(lib, w, schema, idx, "", path, s2.rec);
        if s3.err.None? then s3
        else
          var s4 := w.decode(Toml, path, s3.rec);
          if s4.err.None? then s4 else Step(s4.rec, Some(UnknownFileType))
  }

  /** The fallback fails exactly when all four attempts fail. */
  lemma FallbackFailsIffAllFail(lib: Library, w: World, schema: seq<Field>, idx: nat, path: string, rec: Record)
    requires ValidWorld(w, schema) && Conforms(schema, rec)
    ensures var s1 := w.decode(Json, path, rec);
      var s2 := w.decode(Yaml, path, s1.rec);
      var s3 := EnvFileLoad(lib, w, schema, idx, "", path, s2.rec);
      var s4 := w.decode(Toml, path, s3.rec);
      Fallback(lib, w, schema, idx, path, rec).err.Some? <==>
        s1.err.Some? && s2.err.Some? && s3.err.Some? && s4.err.Some?
  {
  }

  /** FileSource.Load: the stat error, or the directory source for a
      directory, or the decoder the extension names, or the fallback chain. */
  function FileLoad(lib: Library, w: World, schema: seq<Field>, idx: nat, path: string, rec: Record): (s: Step)
    requires ValidWorld(w, schema) && Conforms(schema, rec)
    ensures Conforms(schema, s.rec)
    ensures w.stat(path).Err? ==> s == Step(rec, Some(w.stat(path).error))
    ensures w.stat(path) == Ok(true) ==> s == DirLoad(lib, w, schema, idx, path, rec)
    ensures w.stat(path) == Ok(false) && Ext(path) == ".json" ==> s == w.decode(Json, path, rec)
    ensures w.stat(path) == Ok(false) && (Ext(path) == ".yaml" || Ext(path) == ".yml") ==> s == w.decode(Yaml, path, rec)
    ensures w.stat(path) == Ok(false) && Ext(path) == ".env" ==> s == EnvFileLoad(lib, w, schema, idx, "", path, rec)
    ensures w.stat(path) == Ok(false) && Ext(path) == ".toml" ==> s == w.decode(Toml, path, rec)
    // the extension is matched case-sensitively; anything else falls back
    ensures (w.stat(path) == Ok(false) && Ext(path) !in [".json", ".yaml", ".yml", ".env", ".toml"]) ==>
      s == Fallback(lib, w, schema, idx, path, rec)
  {
    match w.stat(path)
    case Err(e) => Step(rec, Some(e))
    case Ok(isDir) =>
      if isDir then DirLoad(lib, w, schema, idx, path, rec)
      else
        var ext := Ext(path);
        if ext == ".json" then w.decode(Json, path, rec)
        else if ext == ".yaml" || ext == ".yml" then w.decode(Yaml, path, rec)
        else if ext == ".env" then EnvFileLoad(lib, w, schema, idx, "", path, rec)
        else if ext == ".toml" then w.decode(Toml, path, rec)
        else Fallback(lib, w, schema, idx, path, rec)
  }

  /** A regular file named `name.json` is decoded as JSON alone, with no
      fallback. */
  lemma FileJsonByName(lib: Library, w: World, schema: seq<Field>, idx: nat, name: string, rec: Record)
    requires ValidWorld(w, schema) && Conforms(schema, rec)
    requires w.stat(name + ".json") == Ok(false)
    ensures FileLoad(lib, w, schema, idx, name + ".json", rec) == w.decode(Json, name + ".json", rec)
  {
    ExtOfDotted(name, "json");
    assert name + "." + "json" == name + ".json";
    assert Ext(name + ".json") == ".json";
  }

  /** The extension is compared case-sensitively: `name.JSON` goes through
      the fallback chain. */
  lemma FileUpperJsonFallsBack(lib: Library, w: World, schema: seq<Field>, idx: nat, name: string, rec: Record)
    requires ValidWorld(w, schema) && Conforms(schema, rec)
    requires w.stat(name + ".JSON") == Ok(false)
    ensures FileLoad(lib, w, schema, idx, name + ".JSON", rec) == Fallback(lib, w, schema, idx, name + ".JSON", rec)
  {
    ExtOfDotted(name, "JSON");
    assert name + "." + "JSON" == name + ".JSON";
    UpperJsonUnknown();
  }

  lemma UpperJsonUnknown()
    ensures "." + "JSON" !in [".json", ".yaml", ".yml", ".env", ".toml"]
  {
    assert ("." + "JSON")[1] == 'J';
  }

  /** The fallback stops at the first attempt that succeeds. */
  lemma FallbackStopsAtFirstSuccess(lib: Library, w: World, schema: seq<Field>, idx: nat, path: string, rec: Record)
    requires ValidWorld(w, schema) && Conforms(schema, rec)
    ensures var s1 := w.decode(Json, path, rec);
      var s2 := w.decode(Yaml, path, s1.rec);
      var f := Fallback(lib, w, schema, idx, path, rec);
      (s1.err.None? ==> f == s1) && (s1.err.Some? && s2.err.None? ==> f == s2)
  {
  }

  /** A file whose name has no extension goes through the fallback chain. */
  lemma FileWithoutExtensionFallsBack(lib: Library, w: World, schema: seq<Field>, idx: nat, path: string, rec: Record)
    requires ValidWorld(w, schema) && Conforms(schema, rec)
    requires w.stat(path) == Ok(false) && '.' !in path
    ensures FileLoad(lib, w, schema, idx, path, rec) == Fallback(lib, w, schema, idx, path, rec)
  {
    forall t | 0 <= t < |path|
      ensures path[t] != '.'
    {
      assert path[t] in path;
    }
    ExtStartNoDot(path, |path|);
  }

  /** Source.Load for each source type. */
  function LoadSource(lib: Library, w: World, schema: seq<Field>, idx: nat, src: Source, rec: Record): (s: Step)
    requires ValidWorld(w, schema) && Conforms(schema, rec)
    ensures Conforms(schema, s.rec)
    // the sources built on map2struct over an in-memory list never fail
    ensures src.EnvSource? || src.FlagsSource? ==> s.err.None?
  {
    match src
    case FileSource(path) => FileLoad(lib, w, schema, idx, path, rec)
    case JSONSource(path) => w.decode(Json, path, rec)
    case YAMLSource(path) => w.decode(Yaml, path, rec)
    case TOMLSource(path) => w.decode(Toml, path, rec)
    case DirSource(path) => DirLoad(lib, w, schema, idx, path, rec)
    case EnvFileSource(prefix, path) => EnvFileLoad(lib, w, schema, idx, prefix, path, rec)
    case EnvSource(prefix) => ApplyMap(lib, w, schema, idx, Env, prefix, EnvMap(w.environ), rec)
    case FlagsSource => ApplyMap(lib, w, schema, idx, Flag, "", FlagMap(w.args), rec)
  }

  /** The record after the sources ran, and the error each one returned. */
  datatype Run = Run(rec: Record, errs: seq<Option<Error>>)

  /** The loop of Loader.Load: every source runs, in order, on the record
      the previous one left, whether or not earlier ones failed. */
  function RunSources(lib: Library, w: World, schema: seq<Field>, sources: seq<Source>, rec: Record): (r: Run)
    requires ValidWorld(w, schema) && Conforms(schema, rec)
    ensures Conforms(schema, r.rec)
    ensures |r.errs| == |sources|
    decreases |sources|
  {
    if sources == [] then Run(rec, [])
    else
      var n := |sources| - 1;
      var r0 := RunSources(lib, w, schema, sources[..n], rec);
      var s := LoadSource(lib, w, schema, n, sources[n], r0.rec);
      Run(s.rec, r0.errs + [s.err])
  }

  /** The error reported for source i is the one it returns when run on the
      record the sources before it left. */
  lemma {:induction false} RunSourcesTrace(lib: Library, w: World, schema: seq<Field>, sources: seq<Source>, rec: Record, i: nat)
    requires ValidWorld(w, schema) && Conforms(schema, rec)
    requires i < |sources|
    ensures RunSources(lib, w, schema, sources, rec).errs[i] ==
      LoadSource(lib, w, schema, i, sources[i], RunSources(lib, w, schema, sources[..i], rec).rec).err
    decreases |sources|
  {
    var n := |sources| - 1;
    if i < n {
      RunSourcesTrace(lib, w, schema, sources[..n], rec, i);
      RunSourcesKeepsErrors(lib, w, schema, sources, rec);
      assert sources[..n][..i] == sources[..i];
      assert RunSources(lib, w, schema, sources, rec).errs[..n][i] == RunSources(lib, w, schema, sources, rec).errs[i];
    } else {
      RunSourcesStep(lib, w, schema, sources, rec, n);
      assert sources[..n + 1] == sources;
    }
  }

  /** One more source leaves the errors of the ones before it as they were. */
  lemma RunSourcesKeepsErrors(lib: Library, w: World, schema: seq<Field>, sources: seq<Source>, rec: Record)
    requires ValidWorld(w, schema) && Conforms(schema, rec)
    requires |sources| > 0
    ensures var n := |sources| - 1;
      RunSources(lib, w, schema, sources, rec).errs[..n] == RunSources(lib, w, schema, sources[..n], rec).errs
  {
  }

  /** The loop after `i + 1` sources: source i ran, at position i, on the
      record the first i sources left, whatever errors they returned, and its
      error follows theirs. */
  lemma RunSourcesStep(lib: Library, w: World, schema: seq<Field>, sources: seq<Source>, rec: Record, i: nat)
    requires ValidWorld(w, schema) && Conforms(schema, rec)
    requires i < |sources|
    ensures var r := RunSources(lib, w, schema, sources[..i], rec);
      var s := LoadSource(lib, w, schema, i, sources[i], r.rec);
      RunSources(lib, w, schema, sources[..i + 1], rec) == Run(s.rec, r.errs + [s.err])
  {
    var t := sources[..i + 1];
    assert |t| - 1 == i && t[..i] == sources[..i] && t[i] == sources[i];
  }

  /** No entry of the map reaches field i. */
  predicate MissesField(lib: Library, k: SourceKind, prefix: string, m: map<string, string>, f: Field)
  {
    forall key :: key in m ==> !Reaches(lib, k, prefix, m, key, f)
  }

  /** Source `src` cannot write field i: a map-based source whose map has no
      entry reaching the field, or whose file or directory cannot be read. The
      whole-file decoders are opaque, so they never qualify. */
  predicate Untouched(lib: Library, w: World, schema: seq<Field>, src: Source, i: nat)
    requires i < |schema| && |w.args| >= 1
  {
    match src
    case EnvSource(prefix) => MissesField(lib, Env, prefix, EnvMap(w.environ), schema[i])
    case FlagsSource => MissesField(lib, Flag, "", FlagMap(w.args), schema[i])
    case EnvFileSource(prefix, path) =>
      w.readEnvFile(path).Err? || MissesField(lib, Env, prefix, w.readEnvFile(path).value, schema[i])
    case DirSource(path) =>
      w.readDir(path).Err? || MissesField(lib, Dir, "", w.readDir(path).value, schema[i])
    case _ => false
  }

  /** A map none of whose entries reaches field i leaves it as it was. */
  lemma ApplyMapFrame(lib: Library, w: World, schema: seq<Field>, idx: nat, k: SourceKind, prefix: string,
                      m: map<string, string>, rec: Record, i: nat)
    requires ValidWorld(w, schema) && Conforms(schema, rec)
    requires i < |schema| && MissesField(lib, k, prefix, m, schema[i])
    ensures ApplyMap(lib, w, schema, idx, k, prefix, m, rec).rec[i] == rec[i]
  {
    assert IsEnumeration(w.order(idx, m), m);
    Map2StructFrame(lib, k, prefix, m, w.order(idx, m), schema, rec, i);
  }

  /** A source that cannot write field i leaves it as it was. */
  lemma LoadSourceFrame(lib: Library, w: World, schema: seq<Field>, idx: nat, src: Source, rec: Record, i: nat)
    requires ValidWorld(w, schema) && Conforms(schema, rec)
    requires i < |schema| && Untouched(lib, w, schema, src, i)
    ensures LoadSource(lib, w, schema, idx, src, rec).rec[i] == rec[i]
  {
    match src
    case EnvSource(prefix) => ApplyMapFrame(lib, w, schema, idx, Env, prefix, EnvMap(w.environ), rec, i);
    case FlagsSource => ApplyMapFrame(lib, w, schema, idx, Flag, "", FlagMap(w.args), rec, i);
    case EnvFileSource(prefix, path) =>
      if w.readEnvFile(path).Ok? {
        ApplyMapFrame(lib, w, schema, idx, Env, prefix, w.readEnvFile(path).value, rec, i);
      }
    case DirSource(path) =>
      if w.readDir(path).Ok? {
        ApplyMapFrame(lib, w, schema, idx, Dir, "", w.readDir(path).value, rec, i);
      }
  }

  /** A field that no source of the loader can write keeps the value it had
      before Load, whatever the sources return. */
  lemma {:induction false} RunSourcesFrame(lib: Library, w: World, schema: seq<Field>, sources: seq<Source>,
                                           rec: Record, i: nat)
    requires ValidWorld(w, schema) && Conforms(schema, rec)
    requires i < |schema|
    requires forall j :: 0 <= j < |sources| ==> Untouched(lib, w, schema, sources[j], i)
    ensures RunSources(lib, w, schema, sources, rec).rec[i] == rec[i]
    decreases |sources|
  {
    if sources != [] {
      var n := |sources| - 1;
      RunSourcesFrame(lib, w, schema, sources[..n], rec, i);
      var r0 := RunSources(lib, w, schema, sources[..n], rec);
      LoadSourceFrame(lib, w, schema, n, sources[n], r0.rec, i);
    }
  }

  /** A map applied through map2struct sets a scalar field that exactly one
      of its keys reaches to that key's value, whatever the field held. */
  lemma ApplyMapUniqueScalar(lib: Library, w: World, schema: seq<Field>, idx: nat, k: SourceKind, prefix: string,
                             m: map<string, string>, rec: Record, i: nat, key: string)
    requires ValidWorld(w, schema) && Conforms(schema, rec)
    requires i < |schema| && schema[i].kind.Scalar? && schema[i].kind.elem != Other
    requires key in m && Reaches(lib, k, prefix, m, key, schema[i])
    requires forall other :: other in m && other != key ==> !Reaches(lib, k, prefix, m, other, schema[i])
    ensures ApplyMap(lib, w, schema, idx, k, prefix, m, rec).rec[i] == One(SetField(lib, schema[i].kind.elem, m[key]))
  {
    assert IsEnumeration(w.order(idx, m), m);
    Map2StructUniqueMatch(lib, k, prefix, m, w.order(idx, m), schema, rec, i, key);
  }

  /** A final environment source decides every scalar field exactly one
      environment key reaches: the field ends with that key's value, whatever
      the sources before it stored and whether or not they failed. */
  lemma EnvSourceLastWins(lib: Library, w: World, schema: seq<Field>, sources: seq<Source>, rec: Record,
                          prefix: string, i: nat, key: string)
    requires ValidWorld(w, schema) && Conforms(schema, rec)
    requires |sources| > 0 && sources[|sources| - 1] == EnvSource(prefix)
    requires i < |schema| && schema[i].kind.Scalar? && schema[i].kind.elem != Other
    requires var m := EnvMap(w.environ);
      key in m && Reaches(lib, Env, prefix, m, key, schema[i]) &&
      forall other :: other in m && other != key ==> !Reaches(lib, Env, prefix, m, other, schema[i])
    ensures RunSources(lib, w, schema, sources, rec).rec[i] == One(SetField(lib, schema[i].kind.elem, EnvMap(w.environ)[key]))
  {
    var n := |sources| - 1;
    var r0 := RunSources(lib, w, schema, sources[..n], rec);
    ApplyMapUniqueScalar(lib, w, schema, n, Env, prefix, EnvMap(w.environ), r0.rec, i, key);
  }

  /** The same for a final command-line source. */
  lemma FlagsSourceLastWins(lib: Library, w: World, schema: seq<Field>, sources: seq<Source>, rec: Record,
                            i: nat, key: string)
    requires ValidWorld(w, schema) && Conforms(schema, rec)
    requires |sources| > 0 && sources[|sources| - 1] == FlagsSource
    requires i < |schema| && schema[i].kind.Scalar? && schema[i].kind.elem != Other
    requires var m := FlagMap(w.args);
      key in m && Reaches(lib, Flag, "", m, key, schema[i]) &&
      forall other :: other in m && other != key ==> !Reaches(lib, Flag, "", m, other, schema[i])
    ensures RunSources(lib, w, schema, sources, rec).rec[i] == One(SetField(lib, schema[i].kind.elem, FlagMap(w.args)[key]))
  {
    var n := |sources| - 1;
    var r0 := RunSources(lib, w, schema, sources[..n], rec);
    ApplyMapUniqueScalar(lib, w, schema, n, Flag, "", FlagMap(w.args), r0.rec, i, key);
  }

  /** The loader NewLoader builds. */
  datatype Loader = Loader(sources: seq<Source>, helpMsg: string, disableHelpMsg: bool)

  /** The usage text shown when no help message is given. */
  function DefaultUsage(program: string): string
  {
    "\nUsage:\n    " + program + " [arguments]"
  }

  /** NewLoader; `program` is filepath.Base(os.Args[0]). The acronym
      configuration of strcase is part of the library's lowerCamel. */
  function NewLoader(sources: seq<Source>, helpMessage: seq<string>, program: string): (l: Loader)
    ensures l.sources == sources
    ensures helpMessage == [] ==> l.helpMsg == DefaultUsage(program) && !l.disableHelpMsg
    ensures helpMessage != [] ==> l.helpMsg == Join(helpMessage, "\n")
    // help is switched off exactly by passing one empty message
    ensures l.disableHelpMsg <==> helpMessage == [""]
  {
    var msg := if |helpMessage| > 0 then Join(helpMessage, "\n") else DefaultUsage(program);
    JoinEmpty(helpMessage, "\n");
    Loader(sources, msg, |msg| == 0)
  }

  /** A join of at least one piece is empty only for the single empty piece. */
  lemma JoinEmpty(parts: seq<string>, sep: string)
    requires |sep| > 0
    ensures |parts| > 0 ==> (Join(parts, sep) == "" <==> parts == [""])
  {
  }

  /** The help trigger: help is on, there is exactly one argument, and its
      name part (before any "=") ends in "help" in any letter case. */
  predicate HelpRequested(l: Loader, args: seq<string>)
  {
    !l.disableHelpMsg && |args| == 2 && HasSuffix(ToLower(Split(args[1], "=")[0]), "help")
  }

  /** The name part of `name=value` is `name`. */
  lemma SplitHeadOfPair(name: string, value: string)
    requires '=' !in name
    ensures Split(name + "=" + value, "=")[0] == name
  {
    SplitFirstChar(name, '=', value);
  }

  /** The name part of an argument without "=" is the whole argument. */
  lemma SplitHeadOfBare(arg: string)
    requires '=' !in arg
    ensures Split(arg, "=") == [arg]
  {
    NoOccurrenceOfAbsentChar(arg, '=');
  }

  /** `-help=...` asks for help exactly like `-help`: the value is ignored. */
  lemma HelpIgnoresValue(l: Loader, program: string, name: string, value: string)
    requires '=' !in name
    ensures HelpRequested(l, [program, name + "=" + value]) <==> HelpRequested(l, [program, name])
  {
    SplitHeadOfPair(name, value);
    SplitHeadOfBare(name);
  }

  /** The trigger ignores letter case: `-HELP` acts like `-help`. */
  lemma HelpIgnoresCase(l: Loader, program: string, arg: string)
    requires '=' !in arg
    ensures HelpRequested(l, [program, ToUpper(arg)]) <==> HelpRequested(l, [program, arg])
  {
    assert '=' !in ToUpper(arg) by {
      forall t | 0 <= t < |arg|
        ensures ToUpper(arg)[t] != '='
      {
        assert arg[t] != '=';
      }
    }
    SplitHeadOfBare(arg);
    SplitHeadOfBare(ToUpper(arg));
    ToLowerOfToUpper(arg);
  }

  /** The outcome of Loader.Load: the help text was requested (the process
      then prints it and exits), or the sources ran. */
  datatype Outcome = HelpShown | Completed(rec: Record, err: Option<Error>)

  /** Loader.Load. */
  function Load(lib: Library, w: World, schema: seq<Field>, l: Loader, rec: Record): (o: Outcome)
    requires ValidWorld(w, schema) && Conforms(schema, rec)
    ensures o.HelpShown? <==> HelpRequested(l, w.args)
    ensures o.Completed? ==> Conforms(schema, o.rec)
    // otherwise the sources run from first to last, and the error gathers
    // the non-nil errors they returned, in order
    ensures o.Completed? ==>
      var r := RunSources(lib, w, schema, l.sources, rec);
      o.rec == r.rec && o.err == ErrorOf(NonNil(r.errs))
  {
    if HelpRequested(l, w.args) then HelpShown
    else
      var r := RunSources(lib, w, schema, l.sources, rec);
      CollectAllContents([], r.errs);
      assert [] + NonNil(r.errs) == NonNil(r.errs);
      Completed(r.rec, ErrorOf(CollectAll([], r.errs)))
  }

  /** Load reports an error exactly when some source returned one, and the
      error's text is the failing sources' messages, in source order, each
      ended by a newline. */
  lemma LoadError(lib: Library, w: World, schema: seq<Field>, l: Loader, rec: Record)
    requires ValidWorld(w, schema) && Conforms(schema, rec)
    requires !HelpRequested(l, w.args)
    ensures var r := RunSources(lib, w, schema, l.sources, rec);
      var o := Load(lib, w, schema, l, rec);
      (o.err.None? <==> AllNil(r.errs)) &&
      (o.err.Some? ==> o.err.value.message == ErrorText(CollectAll([], r.errs)))
  {
    var r := RunSources(lib, w, schema, l.sources, rec);
    assert Load(lib, w, schema, l, rec).err == ErrorOf(CollectAll([], r.errs));
    ErrorOfCollected(r.errs);
  }

  /** A loader of environment and flag sources only never reports an error. */
  lemma EnvAndFlagsNeverFail(lib: Library, w: World, schema: seq<Field>, l: Loader, rec: Record)
    requires ValidWorld(w, schema) && Conforms(schema, rec)
    requires !HelpRequested(l, w.args)
    requires forall i :: 0 <= i < |l.sources| ==> l.sources[i].EnvSource? || l.sources[i].FlagsSource?
    ensures Load(lib, w, schema, l, rec).err.None?
  {
    LoadError(lib, w, schema, l, rec);
    var r := RunSources(lib, w, schema, l.sources, rec);
    forall i | 0 <= i < |r.errs|
      ensures r.errs[i].None?
    {
      RunSourcesTrace(lib, w, schema, l.sources, rec, i);
    }
  }
}
