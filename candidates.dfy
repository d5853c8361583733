/**
 * Candidate generation of index.js: the expansion of an abstract import name
 * into the ordered list of concrete files that may satisfy it, for the name
 * itself, for every include path and for the Bower directory.  The order of
 * each list is the order in which the files are tried.
 */
module Candidates {
  import opened Wrappers
  import opened Text
  import opened Paths

  const Prefixes: seq<string> := ["", "_"]
  const StylesheetExtensions: seq<string> := [".scss", ".sass"]
  const DefaultBowerDirectory := "bower_components"

  /**
   * The four stylesheet files for `base` in `dir`, partial prefix in the outer
   * loop and extension in the inner one: `base.scss`, `base.sass`,
   * `_base.scss`, `_base.sass`.
   */
  function Variants(dir: string, base: string): seq<string>
  {
    [ Join(dir, base + ".scss"), Join(dir, base + ".sass"),
      Join(dir, "_" + base + ".scss"), Join(dir, "_" + base + ".sass") ]
  }

  /**
   * getFileNames: a name with an extension stands for itself; otherwise the
   * sibling stylesheets, then (with `index`) the index stylesheets inside
   * the name taken as a directory, then (with `css`) the name plus `.css`.
   */
  function FileNames(name: string, index: bool, css: bool): (names: seq<string>)
    ensures Ext(name) != "" ==> names == [name]
    ensures Ext(name) == "" ==> |names| == 4 + (if index then 4 else 0) + (if css then 1 else 0)
  {
    if Ext(name) != "" then [name]
    else
      Variants(Dirname(name), Basename(name))
      + (if index then Variants(name, "index") else [])
      + (if css then [name + ".css"] else [])
  }

  /** The variants of a plain base name alternate `.scss` and `.sass`. */
  lemma VariantExt(dir: string, base: string, j: nat)
    requires base != "" && '/' !in base
    requires j < 4
    ensures Ext(Variants(dir, base)[j]) == if j % 2 == 0 then ".scss" else ".sass"
  {
    assert IsExtension(".scss") && IsExtension(".sass");
    var stem := if j < 2 then base else "_" + base;
    assert stem != "" && '/' !in stem;
    var e := if j % 2 == 0 then ".scss" else ".sass";
    assert Variants(dir, base)[j] == Join(dir, stem + e);
    ExtJoin(dir, stem, e);
  }

  /** A sibling variant of a name with a base name carries a stylesheet extension. */
  lemma SiblingExt(name: string, j: nat)
    requires Basename(name) != "" && j < 4
    ensures Ext(Variants(Dirname(name), Basename(name))[j]) == if j % 2 == 0 then ".scss" else ".sass"
  {
    BasenameHasNoSlash(name);
    VariantExt(Dirname(name), Basename(name), j);
  }

  /** The index variants inside any directory alternate `.scss` and `.sass` too. */
  lemma IndexExt(dir: string, j: nat)
    requires j < 4
    ensures Ext(Variants(dir, "index")[j]) == if j % 2 == 0 then ".scss" else ".sass"
  {
    VariantExt(dir, "index", j);
  }

  lemma CssExt(name: string)
    requires Basename(name) != ""
    ensures Ext(name + ".css") == ".css"
  {
    assert IsExtension(".css");
    ExtAppend(name, ".css");
  }

  /** Helper: subtracting four keeps the parity of a candidate position. */
  lemma SameParity(k: int)
    ensures (k - 4) % 2 == k % 2
  {
  }

  /** Helper: indexing into the middle part of a three-part concatenation. */
  lemma ConcatMiddle<T>(a: seq<T>, b: seq<T>, c: seq<T>, k: nat)
    requires |a| <= k < |a| + |b|
    ensures (a + b + c)[k] == b[k - |a|]
  {
  }

  lemma SiblingCandidateExt(name: string, index: bool, css: bool, k: nat)
    requires Ext(name) == "" && Basename(name) != "" && k < 4
    ensures k < |FileNames(name, index, css)|
    ensures Ext(FileNames(name, index, css)[k]) == if k % 2 == 0 then ".scss" else ".sass"
  {
    assert FileNames(name, index, css)[k] == Variants(Dirname(name), Basename(name))[k];
    SiblingExt(name, k);
  }

  /** With `index`, candidates four to seven are the index variants inside the name. */
  lemma IndexCandidate(name: string, css: bool, k: nat)
    requires Ext(name) == "" && 4 <= k < 8
    ensures k < |FileNames(name, true, css)|
    ensures FileNames(name, true, css)[k] == Variants(name, "index")[k - 4]
  {
    var sib := Variants(Dirname(name), Basename(name));
    var inner := Variants(name, "index");
    var rest: seq<string> := if css then [name + ".css"] else [];
    assert FileNames(name, true, css) == sib + inner + rest;
    ConcatMiddle(sib, inner, rest, k);
  }

  lemma IndexCandidateExt(name: string, css: bool, k: nat)
    requires Ext(name) == "" && 4 <= k < 8
    ensures k < |FileNames(name, true, css)|
    ensures Ext(FileNames(name, true, css)[k]) == if k % 2 == 0 then ".scss" else ".sass"
  {
    IndexCandidate(name, css, k);
    IndexExt(name, k - 4);
    SameParity(k);
  }

  lemma CssCandidateExt(name: string, index: bool)
    requires Ext(name) == "" && Basename(name) != ""
    ensures var names := FileNames(name, index, true);
            Ext(names[|names| - 1]) == ".css"
  {
    var names := FileNames(name, index, true);
    assert names[|names| - 1] == name + ".css";
    CssExt(name);
  }

  /**
   * Every candidate produced for an extensionless name with a base name has
   * a stylesheet or CSS extension: `.scss` and `.sass` alternate over the
   * stylesheet candidates, and the CSS candidate comes last.
   */
  lemma CandidateExt(name: string, index: bool, css: bool, k: nat)
    requires Ext(name) == "" && Basename(name) != ""
    requires k < |FileNames(name, index, css)|
    ensures var stylesheets := if index then 8 else 4;
            Ext(FileNames(name, index, css)[k]) ==
              if k < stylesheets then (if k % 2 == 0 then ".scss" else ".sass") else ".css"
  {
    if k < 4 {
      SiblingCandidateExt(name, index, css, k);
    } else if index && k < 8 {
      IndexCandidateExt(name, css, k);
    } else {
      assert css && k == |FileNames(name, index, css)| - 1;
      CssCandidateExt(name, index);
    }
  }

  /** Expanding a candidate again gives just that candidate, whatever the options. */
  lemma CandidatesAreExplicit(name: string, index: bool, css: bool, k: nat, index': bool, css': bool)
    requires Ext(name) == "" && Basename(name) != ""
    requires k < |FileNames(name, index, css)|
    ensures FileNames(FileNames(name, index, css)[k], index', css') == [FileNames(name, index, css)[k]]
  {
    CandidateExt(name, index, css, k);
  }

  /** The concatenation of getFileNames over `bases`, in the order of `bases`. */
  function ExpandAll(bases: seq<string>, index: bool, css: bool): seq<string>
    decreases |bases|
  {
    if |bases| == 0 then []
    else ExpandAll(bases[..|bases| - 1], index, css) + FileNames(bases[|bases| - 1], index, css)
  }

  /** Expanding a concatenation of base lists expands each list in turn: generation order is kept. */
  lemma {:induction false} ExpandAllAppend(a: seq<string>, b: seq<string>, index: bool, css: bool)
    ensures ExpandAll(a + b, index, css) == ExpandAll(a, index, css) + ExpandAll(b, index, css)
    decreases |b|
  {
    if |b| == 0 {
      assert a + b == a;
    } else {
      var b' := b[..|b| - 1];
      var x := b[|b| - 1];
      assert (a + b)[..|a + b| - 1] == a + b' && (a + b)[|a + b| - 1] == x;
      calc {
        ExpandAll(a + b, index, css);
        ExpandAll(a + b', index, css) + FileNames(x, index, css);
        { ExpandAllAppend(a, b', index, css); }
        ExpandAll(a, index, css) + ExpandAll(b', index, css) + FileNames(x, index, css);
      }
    }
  }

  /** Every name of the expansion comes from one of the bases. */
  lemma {:induction false} ExpandAllFrom(bases: seq<string>, index: bool, css: bool, n: string) returns (k: nat)
    requires n in ExpandAll(bases, index, css)
    ensures k < |bases| && n in FileNames(bases[k], index, css)
    decreases |bases|
  {
    var init, last := bases[..|bases| - 1], bases[|bases| - 1];
    var before, own := ExpandAll(init, index, css), FileNames(last, index, css);
    assert ExpandAll(bases, index, css) == before + own;
    if n in before {
      k := ExpandAllFrom(init, index, css, n);
      assert init[k] == bases[k];
    } else {
      k := |bases| - 1;
    }
  }

  /** Every name of every base is in the expansion. */
  lemma {:induction false} ExpandAllInto(bases: seq<string>, index: bool, css: bool, k: nat, j: nat)
    requires k < |bases| && j < |FileNames(bases[k], index, css)|
    ensures FileNames(bases[k], index, css)[j] in ExpandAll(bases, index, css)
    decreases |bases|
  {
    var init, last := bases[..|bases| - 1], bases[|bases| - 1];
    var before, own := ExpandAll(init, index, css), FileNames(last, index, css);
    assert ExpandAll(bases, index, css) == before + own;
    if k < |bases| - 1 {
      assert init[k] == bases[k];
      ExpandAllInto(init, index, css, k, j);
    } else {
      assert own[j] in own;
    }
  }

  /** A name is a candidate exactly when it is a candidate of one of the bases. */
  lemma ExpandAllMembers(bases: seq<string>, index: bool, css: bool, n: string)
    ensures n in ExpandAll(bases, index, css) <==> exists k :: 0 <= k < |bases| && n in FileNames(bases[k], index, css)
  {
    if n in ExpandAll(bases, index, css) {
      var k := ExpandAllFrom(bases, index, css, n);
    }
    if exists k :: 0 <= k < |bases| && n in FileNames(bases[k], index, css) {
      var k :| 0 <= k < |bases| && n in FileNames(bases[k], index, css);
      var own := FileNames(bases[k], index, css);
      var j :| 0 <= j < |own| && own[j] == n;
      ExpandAllInto(bases, index, css, k, j);
    }
  }

  lemma ExpandAllSingle(x: string, index: bool, css: bool)
    ensures ExpandAll([x], index, css) == FileNames(x, index, css)
  {
    assert [x][..0] == [];
  }

  /** Extending a prefix of `bases` by one base appends that base's names. */
  lemma ExpandAllPrefix(bases: seq<string>, k: nat, index: bool, css: bool)
    requires k < |bases|
    ensures ExpandAll(bases[..k + 1], index, css) == ExpandAll(bases[..k], index, css) + FileNames(bases[k], index, css)
  {
    assert bases[..k + 1][..k] == bases[..k];
  }

  /** Helper: one more base adds `n` more names. */
  lemma MulSucc(a: nat, n: nat)
    ensures a * n + n == (a + 1) * n
  {
  }

  /** When every base expands to `n` files, the expansion has `n` files per base. */
  lemma {:induction false} ExpandAllLength(bases: seq<string>, index: bool, css: bool, n: nat)
    requires forall k :: 0 <= k < |bases| ==> |FileNames(bases[k], index, css)| == n
    ensures |ExpandAll(bases, index, css)| == |bases| * n
    decreases |bases|
  {
    if |bases| > 0 {
      var init := bases[..|bases| - 1];
      ExpandAllLength(init, index, css, n);
      calc {
        |ExpandAll(bases, index, css)|;
        |ExpandAll(init, index, css)| + |FileNames(bases[|bases| - 1], index, css)|;
        |init| * n + n;
        { MulSucc(|init|, n); }
        |bases| * n;
      }
    }
  }

  /** The Bower directory: `.bowerrc`'s `directory` when it is set and non-empty, resolved against the working directory. */
  function BowerRoot(cwd: string, bowerrcDirectory: Option<string>): string
  {
    var dir := if bowerrcDirectory.Some? && bowerrcDirectory.value != "" then bowerrcDirectory.value
               else DefaultBowerDirectory;
    Resolve([cwd, dir])
  }

  /**
   * An absolute `.bowerrc` directory is used as it is, a relative one is
   * joined onto the working directory; without a non-empty one the root is
   * `bower_components` under the working directory; under an absolute
   * working directory the root is absolute.
   */
  lemma BowerRootSpec(cwd: string, bowerrcDirectory: Option<string>)
    ensures var root := BowerRoot(cwd, bowerrcDirectory);
            (bowerrcDirectory.Some? && IsAbsolute(bowerrcDirectory.value) ==> root == bowerrcDirectory.value) &&
            (bowerrcDirectory.Some? && bowerrcDirectory.value != "" && !IsAbsolute(bowerrcDirectory.value) ==>
               root == Join(cwd, bowerrcDirectory.value)) &&
            (bowerrcDirectory.None? || bowerrcDirectory.value == "" ==> root == Join(cwd, DefaultBowerDirectory)) &&
            (IsAbsolute(cwd) ==> IsAbsolute(root))
  {
    var dir := if bowerrcDirectory.Some? && bowerrcDirectory.value != "" then bowerrcDirectory.value
               else DefaultBowerDirectory;
    assert [cwd, dir][0] == cwd && [cwd, dir][..1] == [cwd];
    assert Resolve([cwd]) == cwd by {
      assert [cwd][..0] == [];
    }
  }

  /**
   * The directories getBowerNames looks in, as `path.resolve` segments, in
   * generation order: the Bower directory itself; unless the first URI
   * segment `core` is `.` or `..`, seven locations used by packages that were
   * Ruby gems (`core`, `core/stylesheets`, `core-sass/stylesheets`,
   * `sass-core/stylesheets`, `core/sass`, `core-sass/sass`, `sass-core/sass`);
   * with `css`, then `core/dist` and `core/dist/css`.
   */
  function BowerDirs(bowerPath: string, core: string, css: bool): (dirs: seq<seq<string>>)
    ensures |dirs| == if core == "." || core == ".." then 1 else if css then 10 else 8
  {
    if core == ".." || core == "." then [[bowerPath]]
    else [[bowerPath]] + GemDirs(bowerPath, core) + (if css then DistDirs(bowerPath, core) else [])
  }

  /** The seven locations of packages that were Ruby gems. */
  function GemDirs(bowerPath: string, core: string): (dirs: seq<seq<string>>)
    ensures |dirs| == 7
  {
    [ [bowerPath, core],
      [bowerPath, core, "stylesheets"], [bowerPath, core + "-sass", "stylesheets"], [bowerPath, "sass-" + core, "stylesheets"],
      [bowerPath, core, "sass"], [bowerPath, core + "-sass", "sass"], [bowerPath, "sass-" + core, "sass"] ]
  }

  /** The two locations of built CSS. */
  function DistDirs(bowerPath: string, core: string): (dirs: seq<seq<string>>)
    ensures |dirs| == 2
  {
    [[bowerPath, core, "dist"], [bowerPath, core, "dist", "css"]]
  }

  /** `path.resolve(...dir, p)` for every directory `dir` in turn. */
  function Under(dirs: seq<seq<string>>, p: string): (paths: seq<string>)
    ensures |paths| == |dirs|
  {
    seq(|dirs|, k requires 0 <= k < |dirs| => Resolve(dirs[k] + [p]))
  }

  lemma UnderSnoc(dirs: seq<seq<string>>, dir: seq<string>, p: string)
    ensures Under(dirs + [dir], p) == Under(dirs, p) + [Resolve(dir + [p])]
  {
    var whole := Under(dirs + [dir], p);
    var parts := Under(dirs, p) + [Resolve(dir + [p])];
    forall k | 0 <= k < |whole| ensures whole[k] == parts[k] {
      if k < |dirs| {
        assert (dirs + [dir])[k] == dirs[k];
      }
    }
  }

  /** The base paths of getBowerNames: the (makeFsPath) URI resolved in every Bower directory. */
  function BowerBases(bowerPath: string, fsUri: string, core: string, css: bool): (bases: seq<string>)
  {
    Under(BowerDirs(bowerPath, core, css), fsUri)
  }

  /**
   * getBowerNames: the expansion of every Bower base path in turn; `core` is
   * taken from the URI as written, the paths from its makeFsPath form.
   */
  function BowerNames(bowerPath: string, uri: string, sep: char, index: bool, css: bool): seq<string>
  {
    ExpandAll(BowerBases(bowerPath, MakeFsPath(uri, sep), FirstSegment(uri), css), index, css)
  }

  /** A relative URI (first segment `.` or `..`) is looked up in the Bower directory only. */
  lemma BowerRelativeOnly(bowerPath: string, uri: string, sep: char, index: bool, css: bool)
    requires FirstSegment(uri) == "." || FirstSegment(uri) == ".."
    ensures BowerNames(bowerPath, uri, sep, index, css) == FileNames(Resolve([bowerPath, MakeFsPath(uri, sep)]), index, css)
  {
    var fsUri := MakeFsPath(uri, sep);
    var bases := BowerBases(bowerPath, fsUri, FirstSegment(uri), css);
    assert [bowerPath] + [fsUri] == [bowerPath, fsUri];
    assert bases == [Resolve([bowerPath, fsUri])];
    ExpandAllSingle(bases[0], index, css);
  }

  /** Every base path ends in the URI, so all of them expand to the same number of candidates. */
  lemma BowerBasesAlike(bowerPath: string, fsUri: string, core: string, css: bool, index: bool)
    requires fsUri != ""
    ensures var bases := BowerBases(bowerPath, fsUri, core, css);
            forall k :: 0 <= k < |bases| ==> |FileNames(bases[k], index, css)| == |FileNames(fsUri, index, css)|
  {
    var dirs := BowerDirs(bowerPath, core, css);
    var bases := BowerBases(bowerPath, fsUri, core, css);
    forall k | 0 <= k < |bases| ensures |FileNames(bases[k], index, css)| == |FileNames(fsUri, index, css)| {
      ResolveLast(dirs[k] + [fsUri]);
    }
  }

  /**
   * The number of Bower candidates: one expansion per base path, each as
   * long as the expansion of the URI itself.
   */
  lemma BowerNamesLength(bowerPath: string, uri: string, sep: char, index: bool, css: bool)
    requires uri != ""
    ensures var fsUri := MakeFsPath(uri, sep);
            var perBase := if Ext(fsUri) != "" then 1 else 4 + (if index then 4 else 0) + (if css then 1 else 0);
            var bases := if FirstSegment(uri) == "." || FirstSegment(uri) == ".." then 1 else if css then 10 else 8;
            |BowerNames(bowerPath, uri, sep, index, css)| == bases * perBase
  {
    var fsUri := MakeFsPath(uri, sep);
    var bases := BowerBases(bowerPath, fsUri, FirstSegment(uri), css);
    BowerBasesAlike(bowerPath, fsUri, FirstSegment(uri), css, index);
    ExpandAllLength(bases, index, css, |FileNames(fsUri, index, css)|);
  }

  /** The names of the base at position `|a|` sit after those of the bases before it. */
  lemma ExpandAllAt(a: seq<string>, x: string, b: seq<string>, index: bool, css: bool, j: nat)
    requires j < |FileNames(x, index, css)|
    ensures |ExpandAll(a, index, css)| + j < |ExpandAll(a + [x] + b, index, css)|
    ensures ExpandAll(a + [x] + b, index, css)[|ExpandAll(a, index, css)| + j] == FileNames(x, index, css)[j]
  {
    ExpandAllAppend(a + [x], b, index, css);
    ExpandAllAppend(a, [x], index, css);
    ExpandAllSingle(x, index, css);
  }

  /** A plain package name is its own first segment, unchanged by makeFsPath, and has no extension. */
  lemma PlainPackage(pkg: string, sep: char)
    requires pkg != "" && '/' !in pkg && '.' !in pkg
    ensures MakeFsPath(pkg, sep) == pkg && FirstSegment(pkg) == pkg
    ensures pkg != "." && pkg != ".." && Ext(pkg) == ""
  {
    IndexOfFirst(pkg, '/');
    assert pkg[0] != '.';
    assert Ext(pkg) == "" by {
      LastIndexOfUnique(pkg, '/', -1);
      LastIndexOfUnique(pkg, '.', -1);
    }
  }

  /** The third Bower base of a plain package is the package name inside `pkg/stylesheets`. */
  lemma PlainBowerBase(bowerPath: string, pkg: string)
    requires bowerPath != "" && bowerPath[0] == '/'
    requires pkg != "" && '/' !in pkg && '.' !in pkg
    ensures BowerBases(bowerPath, pkg, pkg, false)[2] == Join(Join(Join(bowerPath, pkg), "stylesheets"), pkg)
  {
    PlainPackage(pkg, '/');
    var dirs := BowerDirs(bowerPath, pkg, false);
    ConcatMiddle([[bowerPath]], GemDirs(bowerPath, pkg), [], 2);
    assert dirs[2] + [pkg] == [bowerPath] + [pkg] + ["stylesheets"] + [pkg];
    assert Resolve([bowerPath]) == bowerPath;
    ResolveStep([bowerPath], pkg);
    ResolveStep([bowerPath] + [pkg], "stylesheets");
    ResolveStep([bowerPath] + [pkg] + ["stylesheets"], pkg);
  }

  /**
   * For a plain package name `pkg` (no slash, no dot) and no options, the
   * eleventh Bower candidate is `pkg/stylesheets/_pkg.scss` in the package:
   * ten higher-precedence candidates are tried before it.
   */
  lemma BowerStylesheetsPartial(bowerPath: string, pkg: string, sep: char)
    requires bowerPath != "" && bowerPath[0] == '/'
    requires pkg != "" && '/' !in pkg && '.' !in pkg
    ensures var names := BowerNames(bowerPath, pkg, sep, false, false);
            |names| == 32 &&
            names[10] == Join(Join(Join(bowerPath, pkg), "stylesheets"), "_" + pkg + ".scss")
  {
    var bases := BowerBases(bowerPath, pkg, pkg, false);
    PlainBowerNames(bowerPath, pkg, sep);
    PlainBowerThirdBase(bowerPath, pkg);
    PlainBowerFirstBases(bowerPath, pkg);
    Around(bases, 2);
    ExpandAllAt(bases[..2], bases[2], bases[3..], false, false, 2);
  }

  /** With no options a plain package has eight Bower base paths of four candidates each. */
  lemma PlainBowerNames(bowerPath: string, pkg: string, sep: char)
    requires pkg != "" && '/' !in pkg && '.' !in pkg
    ensures BowerNames(bowerPath, pkg, sep, false, false) == ExpandAll(BowerBases(bowerPath, pkg, pkg, false), false, false)
    ensures |BowerNames(bowerPath, pkg, sep, false, false)| == 32
  {
    PlainPackage(pkg, sep);
    BowerNamesLength(bowerPath, pkg, sep, false, false);
  }

  lemma PlainBowerThirdBase(bowerPath: string, pkg: string)
    requires bowerPath != "" && bowerPath[0] == '/'
    requires pkg != "" && '/' !in pkg && '.' !in pkg
    ensures var bases := BowerBases(bowerPath, pkg, pkg, false);
            |FileNames(bases[2], false, false)| == 4 &&
            FileNames(bases[2], false, false)[2] == Join(Join(Join(bowerPath, pkg), "stylesheets"), "_" + pkg + ".scss")
  {
    PlainBowerBase(bowerPath, pkg);
    StylesheetsPartialName(bowerPath, pkg);
  }

  lemma PlainBowerFirstBases(bowerPath: string, pkg: string)
    requires pkg != "" && '/' !in pkg && '.' !in pkg
    ensures var bases := BowerBases(bowerPath, pkg, pkg, false);
            |bases| == 8 && |ExpandAll(bases[..2], false, false)| == 8
  {
    var bases := BowerBases(bowerPath, pkg, pkg, false);
    PlainPackage(pkg, '/');
    BowerBasesAlike(bowerPath, pkg, pkg, false, false);
    ExpandAllLength(bases[..2], false, false, 4);
  }

  /** The third candidate for `bowerPath/pkg/stylesheets/pkg` is the partial `_pkg.scss` beside it. */
  lemma StylesheetsPartialName(bowerPath: string, pkg: string)
    requires pkg != "" && '/' !in pkg && '.' !in pkg
    ensures var dir := Join(Join(bowerPath, pkg), "stylesheets");
            Ext(Join(dir, pkg)) == "" &&
            FileNames(Join(dir, pkg), false, false)[2] == Join(dir, "_" + pkg + ".scss")
  {
    var dir := Join(Join(bowerPath, pkg), "stylesheets");
    var name := Join(dir, pkg);
    assert Basename(name) == pkg by {
      LastIndexOfUnique(pkg, '/', -1);
      BasenameJoin(dir, pkg);
    }
    assert Ext(name) == "" by {
      ExtEmpty(name);
      forall j | 0 < j < |pkg| ensures pkg[j] != '.' {
        assert pkg[j] in pkg;
      }
    }
    assert FileNames(name, false, false)[2] == Join(Dirname(name), "_" + pkg + ".scss") by {
      assert FileNames(name, false, false) == Variants(Dirname(name), pkg);
    }
    assert Dirname(name) == dir by {
      var sheets := "stylesheets";
      assert dir != "" && dir[|dir| - 1] != '/' by {
        assert dir[|dir| - |sheets|..] == sheets;
      }
      JoinDirname(dir, pkg, "");
    }
  }

  /** The base paths of getIncludePaths: the URI resolved under each include path, in order. */
  function IncludeBases(cwd: string, dirs: seq<string>, uri: string): (bases: seq<string>)
  {
    seq(|dirs|, k requires 0 <= k < |dirs| => Resolve([cwd, dirs[k], uri]))
  }

  /** getIncludePaths: the expansion of the URI under every entry of the delimited include-path string, in order. */
  function IncludeNames(cwd: string, includePaths: string, delimiter: char, uri: string, index: bool, css: bool): seq<string>
  {
    ExpandAll(IncludeBases(cwd, Split(includePaths, delimiter), uri), index, css)
  }

  /** A name is an include-path candidate exactly when it is a candidate of the URI under one of the include paths. */
  lemma IncludeNamesMembers(cwd: string, includePaths: string, delimiter: char, uri: string, index: bool, css: bool, n: string)
    ensures var dirs := Split(includePaths, delimiter);
            n in IncludeNames(cwd, includePaths, delimiter, uri, index, css) <==>
            exists k :: 0 <= k < |dirs| && n in FileNames(Resolve([cwd, dirs[k], uri]), index, css)
  {
    var dirs := Split(includePaths, delimiter);
    var bases := IncludeBases(cwd, dirs, uri);
    ExpandAllMembers(bases, index, css, n);
    assert forall k :: 0 <= k < |dirs| ==> bases[k] == Resolve([cwd, dirs[k], uri]);
  }

  /** The first include path's base comes first, then those of the others. */
  lemma IncludeBasesCons(cwd: string, dirs: seq<string>, uri: string)
    requires |dirs| > 0
    ensures IncludeBases(cwd, dirs, uri) == [Resolve([cwd, dirs[0], uri])] + IncludeBases(cwd, dirs[1..], uri)
  {
    var bases := IncludeBases(cwd, dirs, uri);
    var rest := IncludeBases(cwd, dirs[1..], uri);
    forall k | 1 <= k < |dirs| ensures bases[k] == rest[k - 1] {
      var segs := [cwd, dirs[k], uri];
      assert [cwd, dirs[1..][k - 1], uri] == segs;
    }
  }

  /**
   * An include-path string joined from `dirs` yields the candidates of the
   * first directory, then those of the rest, in that order.
   */
  lemma IncludeNamesInOrder(cwd: string, dirs: seq<string>, delimiter: char, uri: string, index: bool, css: bool)
    requires |dirs| >= 2
    requires forall k :: 0 <= k < |dirs| ==> delimiter !in dirs[k]
    ensures IncludeNames(cwd, JoinWith(dirs, [delimiter]), delimiter, uri, index, css) ==
            FileNames(Resolve([cwd, dirs[0], uri]), index, css)
            + IncludeNames(cwd, JoinWith(dirs[1..], [delimiter]), delimiter, uri, index, css)
  {
    SplitJoin(dirs, delimiter);
    SplitJoin(dirs[1..], delimiter);
    var first := Resolve([cwd, dirs[0], uri]);
    var rest := IncludeBases(cwd, dirs[1..], uri);
    IncludeBasesCons(cwd, dirs, uri);
    ExpandAllAppend([first], rest, index, css);
    ExpandAllSingle(first, index, css);
  }
}
