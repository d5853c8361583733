/**
 * The first-hit walk of readFirstFile, shared by both importers: the
 * candidates are shifted off the front of the list one at a time, each is
 * recorded as examined, and the walk stops at the first one that can be
 * read.  The file system is the map from every readable path to its text.
 */
module Probe {
  import opened Wrappers
  import opened Text

  /** The position of the first readable candidate, or the length of the list when none is. */
  function FirstReadable(files: map<string, string>, names: seq<string>): (k: nat)
    ensures k <= |names|
    ensures k < |names| ==> names[k] in files
    decreases |names|
  {
    if |names| == 0 then 0
    else if names[0] in files then 0
    else 1 + FirstReadable(files, names[1..])
  }

  /** No candidate before the first readable one is readable. */
  lemma {:induction false} FirstReadableFirst(files: map<string, string>, names: seq<string>)
    ensures forall j :: 0 <= j < FirstReadable(files, names) ==> names[j] !in files
    decreases |names|
  {
    if |names| > 0 && names[0] !in files {
      FirstReadableFirst(files, names[1..]);
    }
  }

  /** A readable candidate is found exactly when the list holds a readable path. */
  lemma FirstReadableFound(files: map<string, string>, names: seq<string>)
    ensures FirstReadable(files, names) < |names| <==> exists j :: 0 <= j < |names| && names[j] in files
  {
    var k := FirstReadable(files, names);
    FirstReadableFirst(files, names);
    if k < |names| {
      assert names[k] in files;
    }
  }

  /** Only the part of the list up to the first readable candidate matters. */
  lemma {:induction false} FirstReadableAppend(files: map<string, string>, a: seq<string>, b: seq<string>)
    ensures FirstReadable(files, a + b) ==
            if FirstReadable(files, a) < |a| then FirstReadable(files, a) else |a| + FirstReadable(files, b)
    decreases |a|
  {
    if |a| > 0 && a[0] !in files {
      assert (a + b)[1..] == a[1..] + b;
      FirstReadableAppend(files, a[1..], b);
    } else if |a| == 0 {
      assert a + b == b;
    }
  }

  /** Candidates after a readable one are never looked at. */
  lemma FirstReadablePrefix(files: map<string, string>, own: seq<string>, rest: seq<string>)
    requires FirstReadable(files, own) < |own|
    ensures FirstReadable(files, own + rest) == FirstReadable(files, own)
    ensures (own + rest)[FirstReadable(files, own)] == own[FirstReadable(files, own)]
  {
    FirstReadableAppend(files, own, rest);
  }

  /** The same for a list built of three parts, of which the first holds a readable candidate. */
  lemma FirstReadableFirstPart(files: map<string, string>, a: seq<string>, b: seq<string>, c: seq<string>)
    requires FirstReadable(files, a) < |a|
    ensures FirstReadable(files, a + b + c) == FirstReadable(files, a)
    ensures (a + b + c)[FirstReadable(files, a)] == a[FirstReadable(files, a)]
  {
    assert a + b + c == a + (b + c);
    FirstReadablePrefix(files, a, b + c);
  }

  /**
   * The walk of readFirstFile: `examined` is what was shifted off the list,
   * `found` the readable path it stopped at, if any.  The list is never
   * empty, as every candidate list holds at least the name itself.
   */
  method Walk(files: map<string, string>, filenames: seq<string>) returns (found: Option<string>, examined: seq<string>)
    requires |filenames| > 0
    ensures var k := FirstReadable(files, filenames);
            (found.Some? <==> k < |filenames|) &&
            (found.Some? ==> found.value == filenames[k] && examined == filenames[..k + 1]) &&
            (found.None? ==> examined == filenames)
  {
    var rest := filenames;
    examined := [];
    while true
      invariant examined + rest == filenames && |rest| > 0
      invariant FirstReadable(files, filenames) == |examined| + FirstReadable(files, rest)
      decreases |rest|
    {
      ghost var before := rest;
      var filename := rest[0];
      rest := rest[1..];
      examined := examined + [filename];
      if filename in files {
        found := Some(filename);
        assert FirstReadable(files, before) == 0;
        assert filenames[..|examined|] == examined;
        return;
      }
      assert FirstReadable(files, before) == 1 + FirstReadable(files, rest);
      if |rest| == 0 {
        found := None;
        assert examined == filenames;
        return;
      }
    }
  }
}
