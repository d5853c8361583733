/**
 * The importer of index.js: option defaulting, the choice of the abstract
 * name an import is looked up under, the candidate order of
 * readAbstractFile, the first-hit lookup of readFirstFile with the data-file
 * transform, and the hand-over through the once-cache.
 *
 * The environment the JavaScript reaches through Node (the readable files,
 * the paths that exist, the working directory, the platform separators,
 * the `.bowerrc` setting and the YAML library) is a parameter.
 */
module Importer {
  import opened Wrappers
  import opened Text
  import opened Paths
  import opened Candidates
  import opened CandidateLists
  import opened SassJson
  import opened Probe
  import opened OnceCache

  /** What the importer reads from Node. */
  datatype Env = Env(
    files: map<string, string>,        // every readable file and its text
    existing: set<string>,             // the paths `fs.existsSync` accepts
    cwd: string,                       // `process.cwd()`
    sep: char,                         // `path.sep`
    delimiter: char,                   // `path.delimiter`
    bowerrcDirectory: Option<string>,  // the `directory` of `.bowerrc`, when it has one
    yamlToJson: string -> string)      // the YAML load followed by the JSON stringify

  /** An option value, as far as the importer looks at it: a boolean, or another value that is truthy or not. */
  datatype Value = Missing | Bool(b: bool) | Other(truthy: bool)

  predicate Truthy(v: Value)
  {
    match v
    case Missing => false
    case Bool(b) => b
    case Other(t) => t
  }

  /** The defaulting of one flag: a falsy value becomes `false`, a truthy one is kept. */
  function Defaulted(v: Value): Value
  {
    if Truthy(v) then v else Bool(false)
  }

  /** The `importOnce` options object. */
  datatype Flags = Flags(index: Value, bower: Value, css: Value)

  /**
   * The importer's options: `includePaths` (a delimited string, falsy when
   * empty) and the `importOnce` object, `None` when it is missing or falsy.
   */
  datatype Options = Options(includePaths: string, importOnce: Option<Flags>)

  /** The flags as the importer reads them: a missing object reads as all flags missing. */
  function EffectiveFlags(o: Options): Flags
  {
    if o.importOnce.Some? then o.importOnce.value else Flags(Missing, Missing, Missing)
  }

  /**
   * The options after the importer's defaulting (index.js:275-292): no
   * flag changes its truthiness, every truthy value is kept as it was,
   * every falsy one becomes `false`, and the include paths are untouched.
   */
  function WithDefaults(o: Options): (d: Options)
    ensures d.importOnce.Some? && d.includePaths == o.includePaths
    ensures var f := EffectiveFlags(o);
            var g := d.importOnce.value;
            Truthy(g.index) == Truthy(f.index) && Truthy(g.bower) == Truthy(f.bower) && Truthy(g.css) == Truthy(f.css) &&
            (Truthy(f.index) ==> g.index == f.index) && (!Truthy(f.index) ==> g.index == Bool(false)) &&
            (Truthy(f.bower) ==> g.bower == f.bower) && (!Truthy(f.bower) ==> g.bower == Bool(false)) &&
            (Truthy(f.css) ==> g.css == f.css) && (!Truthy(f.css) ==> g.css == Bool(false))
  {
    var f := EffectiveFlags(o);
    Options(o.includePaths, Some(Flags(Defaulted(f.index), Defaulted(f.bower), Defaulted(f.css))))
  }

  /** Defaulting twice is defaulting once. */
  lemma DefaultsIdempotent(o: Options)
    ensures WithDefaults(WithDefaults(o)) == WithDefaults(o)
  {
  }

  /** The data files readFirstFile turns into Sass: `.js`, `.json`, `.yml` and `.yaml`. */
  predicate IsDataFile(filename: string)
  {
    Ext(filename) == ".js" || Ext(filename) == ".json" || Ext(filename) == ".yml" || Ext(filename) == ".yaml"
  }

  /** The contents handed over for a file read: data files through parseJSON, others as they are. */
  function Contents(env: Env, filename: string, data: string): (r: string)
    ensures !IsDataFile(filename) ==> r == data
    ensures IsDataFile(filename) ==> |r| > 0 && r[|r| - 1] == ';'
  {
    if IsDataFile(filename) then Transform(data, filename, env.yamlToJson) else data
  }

  const FailurePrefix := "Could not import `"
  const FailureMiddle := "` from any of the following locations:\n  "
  const LocationSeparator := "\n  "

  /** The error of a lookup where nothing could be read. */
  function FailureMessage(uri: string, examined: seq<string>): string
  {
    FailurePrefix + uri + FailureMiddle + JoinWith(examined, LocationSeparator)
  }

  /** readFirstFile: the first readable candidate with its contents, or the failure message. */
  function Lookup(env: Env, uri: string, names: seq<string>): (r: Result<Loaded, string>)
    ensures r.Success? <==> exists j :: 0 <= j < |names| && names[j] in env.files
    ensures r.Success? ==> r.value.file in names && r.value.file in env.files
  {
    FirstReadableFound(env.files, names);
    var k := FirstReadable(env.files, names);
    if k < |names| then Success(Loaded(Contents(env, names[k], env.files[names[k]]), names[k]))
    else Failure(FailureMessage(uri, names))
  }

  /**
   * A lookup succeeds exactly when some candidate is readable; it then
   * delivers the first readable one, transformed exactly when it is a
   * data file; otherwise its error names the import and every candidate.
   */
  lemma LookupSpec(env: Env, uri: string, names: seq<string>)
    ensures var r := Lookup(env, uri, names);
            (r.Success? <==> exists j :: 0 <= j < |names| && names[j] in env.files) &&
            (r.Success? ==> exists k :: 0 <= k < |names| && names[k] == r.value.file &&
                              names[k] in env.files && (forall j :: 0 <= j < k ==> names[j] !in env.files) &&
                              (IsDataFile(names[k]) ==> r.value.contents == Transform(env.files[names[k]], names[k], env.yamlToJson)) &&
                              (!IsDataFile(names[k]) ==> r.value.contents == env.files[names[k]])) &&
            (r.Failure? ==> IsInfix(uri, r.error) && forall k :: 0 <= k < |names| ==> IsInfix(names[k], r.error))
  {
    FirstReadableFound(env.files, names);
    FirstReadableFirst(env.files, names);
    var r := Lookup(env, uri, names);
    if r.Failure? {
      if |names| > 0 {
        MessageNamesAll(FailurePrefix, uri, FailureMiddle, names, LocationSeparator, 0);
      } else {
        assert OccursAt(r.error, uri, |FailurePrefix|) by {
          assert r.error[|FailurePrefix|..|FailurePrefix| + |uri|] == uri;
        }
      }
      forall k | 0 <= k < |names| ensures IsInfix(names[k], r.error) {
        MessageNamesAll(FailurePrefix, uri, FailureMiddle, names, LocationSeparator, k);
      }
    } else {
      var k := FirstReadable(env.files, names);
      assert names[k] == r.value.file;
    }
  }

  /** The abstract name's own candidates, under the effective `index` and `css` flags. */
  function OwnNames(o: Options, abstractName: string): seq<string>
  {
    var f := EffectiveFlags(o);
    FileNames(abstractName, Truthy(f.index), Truthy(f.css))
  }

  /** The include-path candidates, when there are include paths. */
  function IncludePart(env: Env, o: Options, uri: string): seq<string>
  {
    var f := EffectiveFlags(o);
    if o.includePaths != "" then IncludeNames(env.cwd, o.includePaths, env.delimiter, uri, Truthy(f.index), Truthy(f.css))
    else []
  }

  /** The Bower candidates, when Bower lookup is on. */
  function BowerPart(env: Env, o: Options, uri: string): seq<string>
  {
    var f := EffectiveFlags(o);
    if Truthy(f.bower) then BowerNames(BowerRoot(env.cwd, env.bowerrcDirectory), uri, env.sep, Truthy(f.index), Truthy(f.css))
    else []
  }

  /**
   * readAbstractFile's candidate order: the abstract name's own candidates,
   * then those of the include paths, then the Bower ones (index.js:252-262).
   */
  function CandidateList(env: Env, o: Options, uri: string, abstractName: string): (names: seq<string>)
    ensures |names| >= 1
  {
    OwnNames(o, abstractName) + IncludePart(env, o, uri) + BowerPart(env, o, uri)
  }

  /**
   * Own candidates take precedence: when one of them is readable, the
   * lookup settles on the first readable one of them, whatever the include
   * paths and Bower hold.
   */
  lemma OwnCandidatesFirst(env: Env, o: Options, uri: string, abstractName: string)
    requires FirstReadable(env.files, OwnNames(o, abstractName)) < |OwnNames(o, abstractName)|
    ensures var own := OwnNames(o, abstractName);
            var k := FirstReadable(env.files, own);
            FirstReadable(env.files, CandidateList(env, o, uri, abstractName)) == k &&
            CandidateList(env, o, uri, abstractName)[k] == own[k]
  {
    FirstReadableFirstPart(env.files, OwnNames(o, abstractName), IncludePart(env, o, uri), BowerPart(env, o, uri));
  }

  /**
   * The name an import is looked up under: relative to the directory of the
   * importing file when that file exists (and, as with any relative path
   * given to `path.resolve`, under the working directory when that directory
   * is relative), otherwise the working directory itself (index.js:299-312).
   */
  function AbstractName(env: Env, uri: string, prev: string): (n: string)
    ensures prev !in env.existing ==> n == env.cwd
    ensures prev in env.existing && uri != "" ==>
              Basename(n) == Basename(MakeFsPath(uri, env.sep)) && Ext(n) == Ext(MakeFsPath(uri, env.sep))
  {
    if prev !in env.existing then env.cwd
    else
      var segs := [env.cwd, Dirname(prev), MakeFsPath(uri, env.sep)];
      if uri == "" then Resolve(segs)
      else ResolveLast(segs); Resolve(segs)
  }

  /**
   * When the importing file does not exist, the URI plays no part in the
   * name looked up: as soon as one of the working directory's own
   * candidates is readable, every such import gets the same file and the
   * same contents, whatever its URI.
   */
  lemma MissingPrevIgnoresUri(env: Env, o: Options, uri1: string, prev1: string, uri2: string, prev2: string)
    requires prev1 !in env.existing && prev2 !in env.existing
    requires FirstReadable(env.files, OwnNames(o, env.cwd)) < |OwnNames(o, env.cwd)|
    ensures Lookup(env, uri1, CandidateList(env, o, uri1, AbstractName(env, uri1, prev1)))
         == Lookup(env, uri2, CandidateList(env, o, uri2, AbstractName(env, uri2, prev2)))
  {
    OwnCandidatesFirst(env, o, uri1, env.cwd);
    OwnCandidatesFirst(env, o, uri2, env.cwd);
  }

  /**
   * A working directory whose base name has an extension, such as
   * `/home/u/site.v2`, is its own only candidate.
   */
  lemma MissingPrevDottedCwd(env: Env, o: Options, uri: string, prev: string)
    requires prev !in env.existing && Ext(env.cwd) != ""
    ensures OwnNames(o, AbstractName(env, uri, prev)) == [env.cwd]
  {
  }

  /** What the importer hands to `done` for an import, given the files delivered before. */
  function Outcome(delivered: set<string>, r: Result<Loaded, string>): (reply: Reply)
    ensures reply == Empty <==> r.Failure?
    ensures reply.Pass? <==> r.Success? && r.value.file !in delivered
  {
    if r.Failure? then Empty else Answer(delivered, r.value)
  }

  /** `this` of index.js: the options and the once-cache, both kept across imports. */
  class Context {
    var options: Options
    var cache: Cache?

    constructor (options: Options, cache: Cache?)
      ensures this.options == options && this.cache == cache
    {
      this.options := options;
      this.cache := cache;
    }

    /** The option defaulting at the start of every import (index.js:275-292). */
    method SetDefaults()
      modifies this
      ensures options == WithDefaults(old(options)) && cache == old(cache)
    {
      if options.importOnce.None? {
        options := options.(importOnce := Some(Flags(Missing, Missing, Missing)));
      }
      var flags := options.importOnce.value;
      if !Truthy(flags.index) {
        flags := flags.(index := Bool(false));
      }
      if !Truthy(flags.bower) {
        flags := flags.(bower := Bool(false));
      }
      if !Truthy(flags.css) {
        flags := flags.(css := Bool(false));
      }
      options := options.(importOnce := Some(flags));
    }

    /** readFirstFile (index.js:220-243): the walk, then the data-file transform or the failure message. */
    static method ReadFirstFile(env: Env, uri: string, filenames: seq<string>) returns (r: Result<Loaded, string>)
      requires |filenames| > 0
      ensures r == Lookup(env, uri, filenames)
    {
      var found, examined := Walk(env.files, filenames);
      if found.Some? {
        var filename := found.value;
        var data := env.files[filename];
        if Ext(filename) == ".js" || Ext(filename) == ".json" || Ext(filename) == ".yml" || Ext(filename) == ".yaml" {
          data := ParseJson(data, filename, env.yamlToJson);
        }
        r := Success(Loaded(data, filename));
      } else {
        r := Failure(FailurePrefix + uri + FailureMiddle + JoinWith(examined, LocationSeparator));
      }
    }

    /** readAbstractFile (index.js:246-263). */
    method ReadAbstractFile(env: Env, uri: string, abstractName: string) returns (r: Result<Loaded, string>)
      ensures r == Lookup(env, uri, CandidateList(env, options, uri, abstractName))
    {
      var f := EffectiveFlags(options);
      var index := Truthy(f.index);
      var css := Truthy(f.css);
      var files := GetFileNames(abstractName, index, css);
      assert files == OwnNames(options, abstractName);
      if options.includePaths != "" {
        var more := GetIncludePaths(env.cwd, options.includePaths, env.delimiter, uri, index, css);
        files := files + more;
      }
      assert files == OwnNames(options, abstractName) + IncludePart(env, options, uri);
      if Truthy(f.bower) {
        var more := GetBowerNames(env.cwd, env.bowerrcDirectory, uri, env.sep, index, css);
        files := files + more;
      }
      assert files == CandidateList(env, options, uri, abstractName);
      r := ReadFirstFile(env, uri, files);
    }

    /** The lookup of importer: beside `prev` when it exists, else under the working directory (index.js:299-312). */
    method ReadImport(env: Env, uri: string, prev: string) returns (r: Result<Loaded, string>)
      ensures r == Lookup(env, uri, CandidateList(env, options, uri, AbstractName(env, uri, prev)))
    {
      if prev in env.existing {
        var file := Resolve([env.cwd, Dirname(prev), MakeFsPath(uri, env.sep)]);
        r := ReadAbstractFile(env, uri, file);
      } else {
        r := ReadAbstractFile(env, uri, env.cwd);
      }
    }

    /**
     * importer (index.js:268-322): defaulting, a cache created only when
     * there is none, the lookup under the abstract name, and the hand-over
     * through the cache, or `{}` when nothing could be read.
     */
    method Import(env: Env, uri: string, prev: string) returns (reply: Reply)
      modifies this, cache
      ensures options == WithDefaults(old(options))
      ensures cache != null && (old(cache) != null ==> cache == old(cache)) && (old(cache) == null ==> fresh(cache))
      ensures var before := if old(cache) == null then {} else old(cache.delivered);
              var r := Lookup(env, uri, CandidateList(env, options, uri, AbstractName(env, uri, prev)));
              reply == Outcome(before, r) &&
              cache.delivered == (if r.Success? then before + {r.value.file} else before)
    {
      SetDefaults();
      if cache == null {
        cache := new Cache();
      }
      ghost var before := cache.delivered;
      assert before == if old(cache) == null then {} else old(cache.delivered);
      var r := ReadImport(env, uri, prev);
      if r.Failure? {
        reply := Empty;
      } else {
        reply := cache.ImportOnce(r.value);
      }
      assert reply == Outcome(before, r);
    }
  }
}
