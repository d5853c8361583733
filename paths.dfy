/**
 * A model of the parts of Node's `path` module the importer calls, over
 * `/`-separated paths, and of the importer's own `makeFsPath`.
 */
module Paths {
  import opened Text

  /** `path.basename(p)`: everything after the last `/`; the whole path exactly when it has none. */
  function Basename(p: string): (b: string)
    ensures b == p <==> '/' !in p
  {
    LastIndexOfLast(p, '/');
    p[LastIndexOf(p, '/') + 1..]
  }

  /** The base name is a suffix of the path, preceded by a `/` when it is not the whole path. */
  lemma BasenameSuffix(p: string)
    ensures |Basename(p)| <= |p| && p[|p| - |Basename(p)|..] == Basename(p)
    ensures |Basename(p)| < |p| ==> p[|p| - |Basename(p)| - 1] == '/'
  {
  }

  lemma BasenameHasNoSlash(p: string)
    ensures '/' !in Basename(p)
  {
    LastIndexOfLast(p, '/');
    var i := LastIndexOf(p, '/');
    forall k | 0 <= k < |Basename(p)| ensures Basename(p)[k] != '/' {
      assert Basename(p)[k] == p[i + 1 + k];
    }
  }

  /** A path starting with `/`. */
  predicate IsAbsolute(p: string)
  {
    p != "" && p[0] == '/'
  }

  /**
   * `path.dirname(p)`: everything before the last `/`; `.` without one, `/`
   * for a root entry.  Otherwise the directory, a `/` and the base name
   * give the path back, and the directory of an absolute path is absolute.
   */
  function Dirname(p: string): (d: string)
    ensures d == "." || d == "/" || d + "/" + Basename(p) == p
    ensures IsAbsolute(p) ==> IsAbsolute(d)
  {
    LastIndexOfLast(p, '/');
    var i := LastIndexOf(p, '/');
    if i < 0 then "." else if i == 0 then "/" else p[..i]
  }

  /**
   * Which directory `Dirname` returns: `.` for a path without `/`, `/` when
   * the only `/` is the leading one, and otherwise the text before the last
   * `/`, which with a `/` and the base name gives the path back.
   */
  lemma DirnameCases(p: string)
    ensures '/' !in p ==> Dirname(p) == "."
    ensures IsAbsolute(p) && '/' !in p[1..] ==> Dirname(p) == "/"
    ensures p != "" && '/' in p[1..] ==> Dirname(p) != "" && Dirname(p) + "/" + Basename(p) == p
  {
    LastIndexOfLast(p, '/');
    var i := LastIndexOf(p, '/');
    if p != "" && '/' in p[1..] {
      var k :| 0 <= k < |p[1..]| && p[1..][k] == '/';
      assert p[k + 1] == '/';
      assert i > 0;
      assert p == p[..i] + "/" + p[i + 1..];
    } else if IsAbsolute(p) {
      assert forall j :: 1 <= j < |p| ==> p[j] == p[1..][j - 1];
    }
  }

  /**
   * `path.extname(p)`: the base name from its last `.` on, or empty when the base
   * name has no `.` after its first character or is `..`.
   */
  function Ext(p: string): (e: string)
    ensures e == "" || (e[0] == '.' && '.' !in e[1..] && |e| < |Basename(p)| && Basename(p)[|Basename(p)| - |e|..] == e)
  {
    var b := Basename(p);
    LastIndexOfLast(b, '.');
    var i := LastIndexOf(b, '.');
    if i <= 0 || b == ".." then "" else b[i..]
  }

  /** A non-empty extension starts with `.` and is shorter than the base name it ends. */
  lemma ExtShape(p: string)
    ensures Ext(p) != "" ==> Ext(p)[0] == '.' && |Ext(p)| < |Basename(p)|
  {
  }

  /** A path has no extension exactly when its base name is `..` or has no `.` after its first character. */
  lemma ExtEmpty(p: string)
    ensures Ext(p) == "" <==> Basename(p) == ".." || forall j :: 0 < j < |Basename(p)| ==> Basename(p)[j] != '.'
  {
    LastIndexOfLast(Basename(p), '.');
  }

  /** The extension depends on the base name only. */
  lemma ExtOfBasename(p: string, q: string)
    requires Basename(p) == Basename(q)
    ensures Ext(p) == Ext(q)
  {
  }

  /** An extension such as `.scss`: a dot, then at least one character that is neither `.` nor `/`. */
  predicate IsExtension(e: string)
  {
    |e| >= 2 && e[0] == '.' && '.' !in e[1..] && '/' !in e
  }

  /**
   * `path.join(a, b)`, without the normalisation of `.` and `..` segments:
   * an empty part is ignored, otherwise the parts meet at one `/`, so at
   * most one character is added; a join onto an absolute path is absolute.
   */
  function Join(a: string, b: string): (r: string)
    ensures a == "" ==> r == b
    ensures b == "" ==> r == a
    ensures a != "" && b != "" ==> |a| + |b| <= |r| <= |a| + |b| + 1
    ensures IsAbsolute(a) ==> IsAbsolute(r)
  {
    if |b| == 0 then a
    else if |a| == 0 then b
    else if a[|a| - 1] == '/' then a + b
    else a + "/" + b
  }

  /**
   * Two non-empty parts are joined in order: the result starts with `a` and
   * ends with `b`, with a `/` added between them exactly when `a` does not
   * already end with one.
   */
  lemma JoinParts(a: string, b: string)
    requires a != "" && b != ""
    ensures var r := Join(a, b);
            r[..|a|] == a && r[|r| - |b|..] == b &&
            (a[|a| - 1] == '/' ==> |r| == |a| + |b|) &&
            (a[|a| - 1] != '/' ==> |r| == |a| + |b| + 1 && r[|a|] == '/')
  {
  }

  /**
   * `path.resolve(...segs)`: the segments are taken from the right until an
   * absolute one (starting with `/`) is met, and joined on from there; empty
   * segments are ignored.  Node puts `process.cwd()` in front of the
   * segments; here every caller passes the working directory as the first
   * segment itself.  The result is empty exactly when every segment is, and
   * absolute as soon as one segment is.
   */
  function Resolve(segs: seq<string>): (r: string)
    ensures r == "" <==> forall k :: 0 <= k < |segs| ==> segs[k] == ""
    ensures (exists k :: 0 <= k < |segs| && IsAbsolute(segs[k])) ==> IsAbsolute(r)
    decreases |segs|
  {
    if |segs| == 0 then ""
    else
      var init, last := segs[..|segs| - 1], segs[|segs| - 1];
      assert forall k :: 0 <= k < |init| ==> init[k] == segs[k];
      if |last| == 0 then Resolve(init)
      else if last[0] == '/' then last
      else Join(Resolve(init), last)
  }

  /** `uri.split('/')[0]`: the first segment of an import URI. */
  function FirstSegment(uri: string): (core: string)
    ensures '/' !in core
    ensures |core| <= |uri| && uri[..|core|] == core
    ensures |core| < |uri| ==> uri[|core|] == '/'
  {
    var i := IndexOf(uri, '/');
    IndexOfFirst(uri, '/');
    assert Split(uri, '/')[0] == if i < 0 then uri else uri[..i];
    Split(uri, '/')[0]
  }

  /**
   * makeFsPath: the first `/` of an import path becomes the platform separator
   * `sep`; the pattern has no global flag, so later slashes stay.
   */
  function MakeFsPath(importPath: string, sep: char): (fsPath: string)
    ensures |fsPath| == |importPath|
    ensures sep == '/' ==> fsPath == importPath
    ensures forall k :: 0 <= k < |importPath| && k != IndexOf(importPath, '/') ==> fsPath[k] == importPath[k]
    ensures IndexOf(importPath, '/') >= 0 ==> fsPath[IndexOf(importPath, '/')] == sep
  {
    if sep == '/' then importPath
    else
      var i := IndexOf(importPath, '/');
      if i < 0 then importPath else importPath[..i] + [sep] + importPath[i + 1..]
  }

  /** Turning the separator back into `/` undoes makeFsPath when the separator did not occur before. */
  lemma MakeFsPathUndo(importPath: string, sep: char)
    requires sep !in importPath
    ensures ReplaceFirst(MakeFsPath(importPath, sep), [sep], "/") == importPath
  {
    var r := MakeFsPath(importPath, sep);
    var i := IndexOf(importPath, '/');
    FindChar(r, sep);
    IndexOfFirst(r, sep);
    if sep != '/' && i >= 0 {
      assert r[..i] == importPath[..i];
      assert IndexOf(r, sep) == i;
      assert r[..i] + "/" + r[i + 1..] == importPath;
    } else {
      assert IndexOf(r, sep) == -1;
    }
  }

  /** Only the first slash is rewritten: a second one survives on every platform. */
  lemma MakeFsPathKeepsLaterSlashes(importPath: string, sep: char, k: nat)
    requires k < |importPath| && importPath[k] == '/' && k != IndexOf(importPath, '/')
    ensures '/' in MakeFsPath(importPath, sep)
  {
    assert MakeFsPath(importPath, sep)[k] == '/';
  }

  lemma LastIndexOfAppend(x: string, y: string, c: char)
    ensures LastIndexOf(x + y, c) ==
      if LastIndexOf(y, c) >= 0 then |x| + LastIndexOf(y, c) else LastIndexOf(x, c)
  {
    var s := x + y;
    var j := LastIndexOf(y, c);
    LastIndexOfLast(x, c);
    LastIndexOfLast(y, c);
    if j >= 0 {
      forall k | |x| + j < k < |s| ensures s[k] != c {
        assert s[k] == y[k - |x|];
      }
      LastIndexOfUnique(s, c, |x| + j);
    } else {
      var i := LastIndexOf(x, c);
      forall k | i < k < |s| ensures s[k] != c {
        if k < |x| {
          assert s[k] == x[k];
        } else {
          assert s[k] == y[k - |x|];
        }
      }
      LastIndexOfUnique(s, c, i);
    }
  }

  /** The base name of `x + y` is the base name of `y` when `y` holds a `/`, and extends that of `x` otherwise. */
  lemma BasenameAppend(x: string, y: string)
    ensures '/' in y ==> Basename(x + y) == Basename(y)
    ensures '/' !in y ==> Basename(x + y) == Basename(x) + y
  {
    var s, j := x + y, LastIndexOf(y, '/');
    LastIndexOfLast(y, '/');
    LastIndexOfAppend(x, y, '/');
    if '/' in y {
      assert j >= 0 && LastIndexOf(s, '/') == |x| + j;
      assert s[|x| + j + 1..] == y[j + 1..];
    } else {
      var i := LastIndexOf(x, '/');
      assert j == -1 && LastIndexOf(s, '/') == i;
      assert s[i + 1..] == x[i + 1..] + y;
    }
  }

  /** The base name of a join is the base name of its second part. */
  lemma BasenameJoin(a: string, b: string)
    requires b != ""
    ensures Basename(Join(a, b)) == Basename(b)
  {
    if a != "" {
      var x := if a[|a| - 1] == '/' then a else a + "/";
      assert Join(a, b) == x + b;
      BasenameAppend(x, b);
      if '/' !in b {
        assert Basename(x) == "" by {
          LastIndexOfUnique(x, '/', |x| - 1);
        }
        assert Basename(b) == b by {
          LastIndexOfUnique(b, '/', -1);
        }
      }
    }
  }

  /** A relative, non-empty last segment is joined onto the resolution of the others. */
  lemma ResolveStep(segs: seq<string>, x: string)
    requires x != "" && x[0] != '/'
    ensures Resolve(segs + [x]) == Join(Resolve(segs), x)
  {
    assert (segs + [x])[..|segs|] == segs;
  }

  /** Resolving never changes the base name, so never the extension, of a non-empty last segment. */
  lemma ResolveLast(segs: seq<string>)
    requires |segs| > 0 && segs[|segs| - 1] != ""
    ensures Basename(Resolve(segs)) == Basename(segs[|segs| - 1])
    ensures Ext(Resolve(segs)) == Ext(segs[|segs| - 1])
  {
    var last := segs[|segs| - 1];
    assert Basename(Resolve(segs)) == Basename(last) by {
      if last[0] != '/' {
        assert Resolve(segs) == Join(Resolve(segs[..|segs| - 1]), last);
        BasenameJoin(Resolve(segs[..|segs| - 1]), last);
      }
    }
    ExtOfBasename(Resolve(segs), last);
  }

  /** Appending an extension to a path with a non-empty base name gives a path with that extension. */
  lemma ExtAppend(p: string, e: string)
    requires Basename(p) != "" && IsExtension(e)
    ensures Ext(p + e) == e
  {
    var b := Basename(p);
    assert Basename(p + e) == b + e by {
      BasenameAppend(p, e);
    }
    assert LastIndexOf(b + e, '.') == |b| by {
      LastIndexOfAppend(b, e, '.');
      forall j | 0 < j < |e| ensures e[j] != '.' {
        assert e[j] in e[1..];
      }
      LastIndexOfUnique(e, '.', 0);
    }
    assert |b + e| != |".."|;
    assert (b + e)[|b|..] == e;
  }

  /** A file name `x + e` placed in any directory has extension `e`. */
  lemma ExtJoin(dir: string, x: string, e: string)
    requires x != "" && '/' !in x && IsExtension(e)
    ensures Ext(Join(dir, x + e)) == e
  {
    assert Join(dir, x + e) == Join(dir, x) + e;
    BasenameJoin(dir, x);
    LastIndexOfUnique(x, '/', -1);
    ExtAppend(Join(dir, x), e);
  }

  /** Joining the directory of `a/b` with another name is joining `a` with it. */
  lemma JoinDirname(a: string, b: string, x: string)
    requires a != "" && a[|a| - 1] != '/' && b != "" && '/' !in b
    ensures Join(Dirname(Join(a, b)), x) == Join(a, x)
  {
    var s := Join(a, b);
    LastIndexOfUnique(s, '/', |a|);
    assert s[..|a|] == a;
    if |a| == 0 { }
  }
}
