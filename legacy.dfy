/**
 * The older importer of import-once.js: the same once-cache and first-hit
 * walk, but no options.  Every extensionless name is tried with its index
 * files and never with `.css`, nothing is looked up in include paths or
 * Bower packages, the contents are delivered raw, the error lists the
 * examined paths separated by `, `, and an import from a file that does not
 * exist is never answered.
 */
module Legacy {
  import opened Wrappers
  import opened Text
  import opened Paths
  import opened Candidates
  import CandidateLists
  import opened Probe
  import opened OnceCache
  import Importer

  /** getFileNames (import-once.js:47-70): the sibling candidates, then always the index ones. */
  method GetFileNames(name: string) returns (names: seq<string>)
    ensures names == FileNames(name, true, false)
  {
    names := [];
    if Ext(name) != "" {
      names := names + [name];
    } else {
      ghost var siblings := Variants(Dirname(name), Basename(name));
      CandidateLists.FileNamesParts(name, true, false);
      names := CandidateLists.PushVariants(names, Dirname(name), Basename(name));
      assert names == siblings;
      names := CandidateLists.PushVariants(names, name, "index");
      assert names == siblings + Variants(name, "index") + [];
    }
  }

  /**
   * An extensionless name has exactly eight candidates: the four siblings,
   * then the four index files inside it.
   */
  lemma EightCandidates(name: string)
    requires Ext(name) == ""
    ensures |FileNames(name, true, false)| == 8
    ensures FileNames(name, true, false)[..4] == Variants(Dirname(name), Basename(name))
    ensures FileNames(name, true, false)[4..] == Variants(name, "index")
  {
    var siblings := Variants(Dirname(name), Basename(name));
    var indexes := Variants(name, "index");
    assert FileNames(name, true, false) == siblings + indexes + [];
    assert (siblings + indexes)[..4] == siblings;
    assert (siblings + indexes)[4..] == indexes;
  }

  /**
   * For a name with a base name, the eight candidates alternate `.scss` and
   * `.sass`; none of them is a CSS file.
   */
  lemma CandidatesAreStylesheets(name: string)
    requires Ext(name) == "" && Basename(name) != ""
    ensures forall k :: 0 <= k < |FileNames(name, true, false)| ==>
              Ext(FileNames(name, true, false)[k]) == if k % 2 == 0 then ".scss" else ".sass"
  {
    forall k | 0 <= k < |FileNames(name, true, false)|
      ensures Ext(FileNames(name, true, false)[k]) == if k % 2 == 0 then ".scss" else ".sass"
    {
      CandidateExt(name, true, false, k);
    }
  }

  const FailurePrefix := "Could not import "
  const FailureMiddle := " from any of the following locations: "
  const LocationSeparator := ", "

  /** The error of a lookup where nothing could be read. */
  function FailureMessage(uri: string, examined: seq<string>): string
  {
    FailurePrefix + uri + FailureMiddle + JoinWith(examined, LocationSeparator)
  }

  /** readFirstFile: the first readable candidate with its raw contents, or the failure message. */
  function Lookup(files: map<string, string>, uri: string, names: seq<string>): (r: Result<Loaded, string>)
    ensures r.Success? <==> exists j :: 0 <= j < |names| && names[j] in files
    ensures r.Success? ==> r.value.file in names && r.value.file in files && r.value.contents == files[r.value.file]
  {
    FirstReadableFound(files, names);
    var k := FirstReadable(files, names);
    if k < |names| then Success(Loaded(files[names[k]], names[k]))
    else Failure(FailureMessage(uri, names))
  }

  /**
   * A lookup succeeds exactly when some candidate is readable; it then
   * delivers the first readable one with its contents unchanged; otherwise
   * its error names the import and every candidate.
   */
  lemma LookupSpec(files: map<string, string>, uri: string, names: seq<string>)
    ensures var r := Lookup(files, uri, names);
            (r.Success? <==> exists j :: 0 <= j < |names| && names[j] in files) &&
            (r.Success? ==> exists k :: 0 <= k < |names| && names[k] == r.value.file &&
                              names[k] in files && (forall j :: 0 <= j < k ==> names[j] !in files) &&
                              r.value.contents == files[names[k]]) &&
            (r.Failure? ==> IsInfix(uri, r.error) && forall k :: 0 <= k < |names| ==> IsInfix(names[k], r.error))
  {
    FirstReadableFound(files, names);
    FirstReadableFirst(files, names);
    var r := Lookup(files, uri, names);
    if r.Failure? {
      if |names| > 0 {
        MessageNamesAll(FailurePrefix, uri, FailureMiddle, names, LocationSeparator, 0);
      } else {
        assert OccursAt(r.error, uri, |FailurePrefix|) by {
          assert r.error[|FailurePrefix|..|FailurePrefix| + |uri|] == uri;
        }
      }
      forall k | 0 <= k < |names| ensures IsInfix(names[k], r.error) {
        MessageNamesAll(FailurePrefix, uri, FailureMiddle, names, LocationSeparator, k);
      }
    } else {
      var k := FirstReadable(files, names);
      assert names[k] == r.value.file;
    }
  }

  /**
   * Both importers settle on the same file for the same candidates, and
   * deliver the same contents for it unless it is a data file, which only
   * the newer one transforms.
   */
  lemma AgreesWithImporter(env: Importer.Env, uri: string, names: seq<string>)
    ensures var legacy := Lookup(env.files, uri, names);
            var full := Importer.Lookup(env, uri, names);
            legacy.Success? == full.Success? &&
            (legacy.Success? ==> legacy.value.file == full.value.file) &&
            (legacy.Success? && !Importer.IsDataFile(legacy.value.file) ==> legacy.value.contents == full.value.contents)
  {
  }

  /** readFirstFile (import-once.js:81-101): the walk, then the raw contents or the failure message. */
  method ReadFirstFile(files: map<string, string>, uri: string, filenames: seq<string>) returns (r: Result<Loaded, string>)
    requires |filenames| > 0
    ensures r == Lookup(files, uri, filenames)
  {
    var found, examined := Walk(files, filenames);
    if found.Some? {
      r := Success(Loaded(files[found.value], found.value));
    } else {
      r := Failure(FailurePrefix + uri + FailureMiddle + JoinWith(examined, LocationSeparator));
    }
  }

  /** readAbstractFile (import-once.js:73-75): the lookup over the name's candidates. */
  method ReadAbstractFile(files: map<string, string>, uri: string, abstractName: string) returns (r: Result<Loaded, string>)
    ensures r == Lookup(files, uri, FileNames(abstractName, true, false))
  {
    var names := GetFileNames(abstractName);
    r := ReadFirstFile(files, uri, names);
  }

  /**
   * The name an import from the existing file `prev` is looked up under
   * (import-once.js:115-116); `path.resolve` puts the working directory in
   * front when the directory of `prev` is relative.
   */
  function AbstractName(env: Importer.Env, uri: string, prev: string): (n: string)
    ensures uri != "" ==> Basename(n) == Basename(MakeFsPath(uri, env.sep)) && Ext(n) == Ext(MakeFsPath(uri, env.sep))
  {
    var segs := [env.cwd, Dirname(prev), MakeFsPath(uri, env.sep)];
    if uri == "" then Resolve(segs)
    else ResolveLast(segs); Resolve(segs)
  }

  /** `this` of import-once.js: only the once-cache is kept across imports. */
  class Context {
    var cache: Cache?

    constructor (cache: Cache?)
      ensures this.cache == cache
    {
      this.cache := cache;
    }

    /**
     * importer (import-once.js:106-126): a cache created only when there is
     * none; when `prev` exists, the lookup under the name beside it and the
     * hand-over through the cache, or `{}` when nothing could be read; when
     * it does not, no reply at all (`None`) and the record untouched.
     */
    method Import(env: Importer.Env, uri: string, prev: string) returns (reply: Option<Reply>)
      modifies this, cache
      ensures cache != null && (old(cache) != null ==> cache == old(cache)) && (old(cache) == null ==> fresh(cache))
      ensures var before := if old(cache) == null then {} else old(cache.delivered);
              (prev !in env.existing ==> reply.None? && cache.delivered == before) &&
              (prev in env.existing ==>
                 var r := Lookup(env.files, uri, FileNames(AbstractName(env, uri, prev), true, false));
                 reply == Some(Importer.Outcome(before, r)) &&
                 cache.delivered == (if r.Success? then before + {r.value.file} else before))
    {
      if cache == null {
        cache := new Cache();
      }
      reply := None;
      if prev in env.existing {
        var file := Resolve([env.cwd, Dirname(prev), MakeFsPath(uri, env.sep)]);
        var r := ReadAbstractFile(env.files, uri, file);
        if r.Failure? {
          reply := Some(Empty);
        } else {
          var answer := cache.ImportOnce(r.value);
          reply := Some(answer);
        }
      }
    }
  }
}
