/**
 * The candidate generators of index.js as the loops they are: each method
 * builds its list by pushing and concatenating, and is proved to produce
 * the list its specification function in `Candidates` describes.
 */
module CandidateLists {
  import opened Wrappers
  import opened Text
  import opened Paths
  import opened Candidates

  /** The `forEach` over prefixes and extensions: appends the four variants of `base` in `dir`. */
  method PushVariants(names: seq<string>, dir: string, base: string) returns (r: seq<string>)
    ensures r == names + Variants(dir, base)
  {
    r := names;
    for i := 0 to |Prefixes|
      invariant r == names + Variants(dir, base)[..2 * i]
    {
      for j := 0 to |StylesheetExtensions|
        invariant r == names + Variants(dir, base)[..2 * i + j]
      {
        VariantAt(dir, base, i, j);
        r := r + [Join(dir, Prefixes[i] + base + StylesheetExtensions[j])];
      }
    }
  }

  lemma VariantAt(dir: string, base: string, i: nat, j: nat)
    requires i < |Prefixes| && j < |StylesheetExtensions|
    ensures Variants(dir, base)[..2 * i + j + 1] ==
            Variants(dir, base)[..2 * i + j] + [Join(dir, Prefixes[i] + base + StylesheetExtensions[j])]
  {
    var v := Variants(dir, base);
    assert v[2 * i + j] == Join(dir, Prefixes[i] + base + StylesheetExtensions[j]) by {
      if i == 0 {
        assert Prefixes[i] + base == base;
      }
    }
    assert v[..2 * i + j + 1] == v[..2 * i + j] + [v[2 * i + j]];
  }

  /** The candidates of an extensionless name, part by part. */
  lemma FileNamesParts(name: string, index: bool, css: bool)
    requires Ext(name) == ""
    ensures FileNames(name, index, css) ==
            Variants(Dirname(name), Basename(name)) + (if index then Variants(name, "index") else []) +
            (if css then [name + ".css"] else [])
  {
  }

  /** getFileNames of index.js (index.js:49-83), with the truthiness of the `index` and `css` options. */
  method GetFileNames(name: string, index: bool, css: bool) returns (names: seq<string>)
    ensures names == FileNames(name, index, css)
  {
    names := [];
    if Ext(name) != "" {
      names := names + [name];
    } else {
      ghost var siblings := Variants(Dirname(name), Basename(name));
      ghost var indexes := if index then Variants(name, "index") else [];
      ghost var sheets := if css then [name + ".css"] else [];
      FileNamesParts(name, index, css);
      names := PushVariants(names, Dirname(name), Basename(name));
      assert names == siblings;
      if index {
        names := PushVariants(names, name, "index");
      }
      assert names == siblings + indexes;
      if css {
        names := names + [name + ".css"];
      }
      assert names == siblings + indexes + sheets;
    }
  }

  /** The concatenating `forEach` shared by getBowerNames and getIncludePaths. */
  method ConcatFileNames(bases: seq<string>, index: bool, css: bool) returns (results: seq<string>)
    ensures results == ExpandAll(bases, index, css)
  {
    results := [];
    var k := 0;
    while k < |bases|
      invariant k <= |bases|
      invariant results == ExpandAll(bases[..k], index, css)
    {
      ExpandAllPrefix(bases, k, index, css);
      var names := GetFileNames(bases[k], index, css);
      results := results + names;
      k := k + 1;
    }
    assert bases[..|bases|] == bases;
  }

  /** `paths.push(path.resolve(...dir, uri))`, keeping track of the directories pushed so far. */
  method PushResolved(paths: seq<string>, ghost dirs: seq<seq<string>>, dir: seq<string>, uri: string)
    returns (paths': seq<string>)
    requires paths == Under(dirs, uri)
    ensures paths' == Under(dirs + [dir], uri)
  {
    UnderSnoc(dirs, dir, uri);
    paths' := paths + [Resolve(dir + [uri])];
  }

  /** The pushes for the seven Ruby-gem locations of getBowerNames. */
  method PushGemPaths(paths: seq<string>, ghost dirs: seq<seq<string>>, bowerPath: string, core: string, uri: string)
    returns (paths': seq<string>)
    requires paths == Under(dirs, uri)
    ensures paths' == Under(dirs + GemDirs(bowerPath, core), uri)
  {
    ghost var d := dirs;
    paths' := PushResolved(paths, d, [bowerPath, core], uri);
    d := d + [[bowerPath, core]];
    paths' := PushResolved(paths', d, [bowerPath, core, "stylesheets"], uri);
    d := d + [[bowerPath, core, "stylesheets"]];
    paths' := PushResolved(paths', d, [bowerPath, core + "-sass", "stylesheets"], uri);
    d := d + [[bowerPath, core + "-sass", "stylesheets"]];
    paths' := PushResolved(paths', d, [bowerPath, "sass-" + core, "stylesheets"], uri);
    d := d + [[bowerPath, "sass-" + core, "stylesheets"]];

    paths' := PushResolved(paths', d, [bowerPath, core, "sass"], uri);
    d := d + [[bowerPath, core, "sass"]];
    paths' := PushResolved(paths', d, [bowerPath, core + "-sass", "sass"], uri);
    d := d + [[bowerPath, core + "-sass", "sass"]];
    paths' := PushResolved(paths', d, [bowerPath, "sass-" + core, "sass"], uri);
    d := d + [[bowerPath, "sass-" + core, "sass"]];
    assert d == dirs + GemDirs(bowerPath, core);
  }

  /** The pushes for the two CSS locations of getBowerNames. */
  method PushDistPaths(paths: seq<string>, ghost dirs: seq<seq<string>>, bowerPath: string, core: string, uri: string)
    returns (paths': seq<string>)
    requires paths == Under(dirs, uri)
    ensures paths' == Under(dirs + DistDirs(bowerPath, core), uri)
  {
    paths' := PushResolved(paths, dirs, [bowerPath, core, "dist"], uri);
    paths' := PushResolved(paths', dirs + [[bowerPath, core, "dist"]], [bowerPath, core, "dist", "css"], uri);
    assert dirs + [[bowerPath, core, "dist"]] + [[bowerPath, core, "dist", "css"]] == dirs + DistDirs(bowerPath, core);
  }

  /** getBowerNames (index.js:88-134), with the `.bowerrc` `directory` setting passed in. */
  method GetBowerNames(cwd: string, bowerrcDirectory: Option<string>, uri: string, sep: char, index: bool, css: bool)
    returns (results: seq<string>)
    ensures results == BowerNames(BowerRoot(cwd, bowerrcDirectory), uri, sep, index, css)
  {
    var core := FirstSegment(uri);
    var fsUri := MakeFsPath(uri, sep);
    var bowerPath := GetBowerPath(cwd, bowerrcDirectory);
    var paths := PushBowerPaths(bowerPath, core, fsUri, css);
    results := ConcatFileNames(paths, index, css);
  }

  /** The Bower directory of getBowerNames (index.js:91-107): `.bowerrc`'s `directory` or `bower_components`, resolved. */
  method GetBowerPath(cwd: string, bowerrcDirectory: Option<string>) returns (bowerPath: string)
    ensures bowerPath == BowerRoot(cwd, bowerrcDirectory)
  {
    bowerPath := DefaultBowerDirectory;
    if bowerrcDirectory.Some? && bowerrcDirectory.value != "" {
      bowerPath := bowerrcDirectory.value;
    }
    bowerPath := Resolve([cwd, bowerPath]);
  }

  /** The pushes of getBowerNames (index.js:109-126): the base paths in every Bower directory. */
  method PushBowerPaths(bowerPath: string, core: string, fsUri: string, css: bool) returns (paths: seq<string>)
    ensures paths == BowerBases(bowerPath, fsUri, core, css)
  {
    paths := PushResolved([], [], [bowerPath], fsUri);
    if core != ".." && core != "." {
      paths := PushGemPaths(paths, [[bowerPath]], bowerPath, core, fsUri);
      if css {
        paths := PushDistPaths(paths, [[bowerPath]] + GemDirs(bowerPath, core), bowerPath, core, fsUri);
      } else {
        assert [[bowerPath]] + GemDirs(bowerPath, core) + [] == [[bowerPath]] + GemDirs(bowerPath, core);
      }
    }
  }

  /** getIncludePaths (index.js:139-150); the URI is used as written, without makeFsPath. */
  method GetIncludePaths(cwd: string, includePaths: string, delimiter: char, uri: string, index: bool, css: bool)
    returns (paths: seq<string>)
    ensures paths == IncludeNames(cwd, includePaths, delimiter, uri, index, css)
  {
    var arr := Split(includePaths, delimiter);
    paths := ExpandUnder(cwd, arr, uri, index, css);
  }

  /** The `forEach` of getIncludePaths: the candidates of the URI resolved under each include path, concatenated. */
  method ExpandUnder(cwd: string, arr: seq<string>, uri: string, index: bool, css: bool) returns (paths: seq<string>)
    ensures paths == ExpandAll(IncludeBases(cwd, arr, uri), index, css)
  {
    ghost var bases := IncludeBases(cwd, arr, uri);
    paths := [];
    var k := 0;
    while k < |arr|
      invariant k <= |arr|
      invariant paths == ExpandAll(bases[..k], index, css)
    {
      var names := IncludeCandidates(cwd, arr, uri, k, index, css);
      ExpandAllPrefix(bases, k, index, css);
      paths := paths + names;
      k := k + 1;
    }
    assert bases[..k] == bases;
  }

  /** One step of that `forEach`: getFileNames of the URI resolved under the `k`-th include path. */
  method IncludeCandidates(cwd: string, arr: seq<string>, uri: string, k: nat, index: bool, css: bool) returns (names: seq<string>)
    requires k < |arr|
    ensures names == FileNames(IncludeBases(cwd, arr, uri)[k], index, css)
  {
    names := GetFileNames(Resolve([cwd, arr[k], uri]), index, css);
  }
}
