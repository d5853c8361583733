/**
 * The few JavaScript string operations the importer relies on, over
 * `string` (a sequence of UTF-16 code units is modelled as `seq<char>`).
 */
module Text {

  /** `s.indexOf(c)`: the first position holding `c`, or -1. */
  function IndexOf(s: string, c: char): (i: int)
    ensures -1 <= i < |s|
    ensures i >= 0 ==> s[i] == c
  {
    if s == [] then -1
    else if s[0] == c then 0
    else
      var k := IndexOf(s[1..], c);
      if k < 0 then -1 else k + 1
  }

  /** No position before the one `indexOf` returns holds `c`; none at all when it returns -1. */
  lemma {:induction false} IndexOfFirst(s: string, c: char)
    ensures forall j :: 0 <= j < |s| && (IndexOf(s, c) < 0 || j < IndexOf(s, c)) ==> s[j] != c
    decreases |s|
  {
    if s != [] && s[0] != c {
      IndexOfFirst(s[1..], c);
      forall j | 1 <= j < |s| ensures s[j] == s[1..][j - 1] { }
    }
  }

  /** `s.lastIndexOf(c)`: the last position holding `c`, or -1. */
  function LastIndexOf(s: string, c: char): (i: int)
    ensures -1 <= i < |s|
    ensures i >= 0 ==> s[i] == c
  {
    if s == [] then -1
    else if s[|s| - 1] == c then |s| - 1
    else LastIndexOf(s[..|s| - 1], c)
  }

  /** No position after the one `lastIndexOf` returns holds `c`. */
  lemma {:induction false} LastIndexOfLast(s: string, c: char)
    ensures forall j :: LastIndexOf(s, c) < j < |s| ==> s[j] != c
    decreases |s|
  {
    if s != [] && s[|s| - 1] != c {
      LastIndexOfLast(s[..|s| - 1], c);
    }
  }

  /** A position holding `c` with no `c` after it is the one `lastIndexOf` returns; -1 when there is none. */
  lemma LastIndexOfUnique(s: string, c: char, i: int)
    requires -1 <= i < |s|
    requires i >= 0 ==> s[i] == c
    requires forall j :: i < j < |s| ==> s[j] != c
    ensures LastIndexOf(s, c) == i
  {
    LastIndexOfLast(s, c);
  }

  predicate OccursAt(s: string, pat: string, i: nat)
  {
    i + |pat| <= |s| && s[i..i + |pat|] == pat
  }

  /** `s.indexOf(pat, from)`: the first occurrence of `pat` at or after `from`, or -1. */
  function FindFrom(s: string, pat: string, from: nat): (i: int)
    requires from <= |s|
    ensures i == -1 || (from <= i && OccursAt(s, pat, i))
    decreases |s| - from
  {
    if OccursAt(s, pat, from) then from
    else if from == |s| then -1
    else FindFrom(s, pat, from + 1)
  }

  /** No occurrence lies between `from` and the position found; none at all after `from` when -1 is returned. */
  lemma {:induction false} FindFromFirst(s: string, pat: string, from: nat)
    requires from <= |s|
    ensures forall j :: from <= j && (FindFrom(s, pat, from) < 0 || j < FindFrom(s, pat, from)) ==> !OccursAt(s, pat, j)
    decreases |s| - from
  {
    if !OccursAt(s, pat, from) && from < |s| {
      FindFromFirst(s, pat, from + 1);
    }
  }

  /** `s.indexOf(pat)`. */
  function Find(s: string, pat: string): (i: int)
    ensures i == -1 || (0 <= i && OccursAt(s, pat, i))
  {
    FindFrom(s, pat, 0)
  }

  /** `indexOf` finds the first occurrence. */
  lemma FindFirst(s: string, pat: string)
    ensures forall j :: 0 <= j && (Find(s, pat) < 0 || j < Find(s, pat)) ==> !OccursAt(s, pat, j)
  {
    FindFromFirst(s, pat, 0);
  }

  lemma OccursAtChar(s: string, c: char, j: nat)
    ensures OccursAt(s, [c], j) <==> j < |s| && s[j] == c
  {
    if j < |s| {
      assert s[j..j + 1] == [s[j]];
    }
  }

  /** Searching for a one-character string finds the character's first position. */
  lemma FindChar(s: string, c: char)
    ensures Find(s, [c]) == IndexOf(s, c)
  {
    FindFirst(s, [c]);
    IndexOfFirst(s, c);
    forall j: nat ensures OccursAt(s, [c], j) <==> j < |s| && s[j] == c {
      OccursAtChar(s, c, j);
    }
  }

  /** `s.replace(pat, rep)` with a string pattern: only the first occurrence is replaced. */
  function ReplaceFirst(s: string, pat: string, rep: string): string
  {
    var i := Find(s, pat);
    if i < 0 then s else s[..i] + rep + s[i + |pat|..]
  }

  /** `s.replace(/c/g, d)` for a one-character pattern: every `c` becomes `d`. */
  function ReplaceAll(s: string, c: char, d: char): (r: string)
    ensures |r| == |s|
  {
    if s == [] then []
    else [if s[0] == c then d else s[0]] + ReplaceAll(s[1..], c, d)
  }

  /** Every `c` became `d`, and every other character is unchanged. */
  lemma {:induction false} ReplaceAllAt(s: string, c: char, d: char)
    ensures forall i :: 0 <= i < |s| ==> ReplaceAll(s, c, d)[i] == (if s[i] == c then d else s[i])
    decreases |s|
  {
    if s != [] {
      ReplaceAllAt(s[1..], c, d);
    }
  }

  /** `s.split(d)` for a one-character separator. */
  function Split(s: string, d: char): (parts: seq<string>)
    ensures |parts| >= 1
    decreases |s|
  {
    var i := IndexOf(s, d);
    if i < 0 then [s] else [s[..i]] + Split(s[i + 1..], d)
  }

  /** No part of a split holds the separator. */
  lemma {:induction false} SplitParts(s: string, d: char)
    ensures forall k :: 0 <= k < |Split(s, d)| ==> d !in Split(s, d)[k]
    decreases |s|
  {
    IndexOfFirst(s, d);
    var i := IndexOf(s, d);
    if i >= 0 {
      SplitParts(s[i + 1..], d);
      assert d !in s[..i];
      assert Split(s, d) == [s[..i]] + Split(s[i + 1..], d);
    }
  }

  /** `parts.join(sep)`. */
  function JoinWith(parts: seq<string>, sep: string): string
  {
    if |parts| == 0 then ""
    else if |parts| == 1 then parts[0]
    else parts[0] + sep + JoinWith(parts[1..], sep)
  }

  ghost predicate IsInfix(small: string, big: string)
  {
    exists i :: 0 <= i && OccursAt(big, small, i)
  }

  /** A string is what lies before position `i`, the character there, and what follows. */
  lemma Around<T>(s: seq<T>, i: nat)
    requires i < |s|
    ensures s == s[..i] + [s[i]] + s[i + 1..]
  {
  }

  lemma JoinWithCons(a: string, rest: seq<string>, sep: string)
    requires |rest| >= 1
    ensures JoinWith([a] + rest, sep) == a + sep + JoinWith(rest, sep)
  {
    assert ([a] + rest)[1..] == rest;
  }

  /** Joining what `split` produced gives the string back. */
  lemma {:induction false} JoinSplit(s: string, d: char)
    ensures JoinWith(Split(s, d), [d]) == s
    decreases |s|
  {
    var i := IndexOf(s, d);
    if i >= 0 {
      var tail := s[i + 1..];
      Around(s, i);
      calc {
        JoinWith(Split(s, d), [d]);
        JoinWith([s[..i]] + Split(tail, d), [d]);
        { JoinWithCons(s[..i], Split(tail, d), [d]); }
        s[..i] + [d] + JoinWith(Split(tail, d), [d]);
        { JoinSplit(tail, d); }
        s[..i] + [d] + tail;
      }
    }
  }

  /** Splitting a join gives the parts back, when no part holds the separator. */
  lemma {:induction false} SplitJoin(parts: seq<string>, d: char)
    requires |parts| >= 1
    requires forall k :: 0 <= k < |parts| ==> d !in parts[k]
    ensures Split(JoinWith(parts, [d]), d) == parts
    decreases |parts|
  {
    var s := JoinWith(parts, [d]);
    if |parts| == 1 {
      assert IndexOf(s, d) == -1;
    } else {
      var rest := JoinWith(parts[1..], [d]);
      assert s == parts[0] + [d] + rest;
      assert IndexOf(s, d) == |parts[0]| by {
        IndexOfFirst(s, d);
        assert s[|parts[0]|] == d;
        forall j | 0 <= j < |parts[0]| ensures s[j] != d {
          assert s[j] == parts[0][j];
        }
      }
      assert s[..|parts[0]|] == parts[0];
      assert s[|parts[0]| + 1..] == rest;
      SplitJoin(parts[1..], d);
      assert parts == [parts[0]] + parts[1..];
    }
  }

  /** Every part of a join appears in it as an infix, so a joined list names all its parts. */
  lemma {:induction false} JoinWithMentions(parts: seq<string>, sep: string, k: nat)
    requires k < |parts|
    ensures IsInfix(parts[k], JoinWith(parts, sep))
    decreases |parts|
  {
    var s := JoinWith(parts, sep);
    if |parts| == 1 {
      assert OccursAt(s, parts[0], 0);
    } else if k == 0 {
      assert s[0..|parts[0]|] == parts[0];
      assert OccursAt(s, parts[0], 0);
    } else {
      JoinWithMentions(parts[1..], sep, k - 1);
      var rest := JoinWith(parts[1..], sep);
      var i :| 0 <= i && OccursAt(rest, parts[k], i);
      var off := |parts[0]| + |sep|;
      assert s == parts[0] + sep + rest;
      assert s[off + i..off + i + |parts[k]|] == rest[i..i + |parts[k]|];
      assert OccursAt(s, parts[k], off + i);
    }
  }

  /**
   * A message made of a head, a subject, a middle part and a joined list
   * names the subject and every part of the list.
   */
  lemma MessageNamesAll(head: string, subject: string, middle: string, parts: seq<string>, sep: string, k: nat)
    requires k < |parts|
    ensures IsInfix(subject, head + subject + middle + JoinWith(parts, sep))
    ensures IsInfix(parts[k], head + subject + middle + JoinWith(parts, sep))
  {
    var before := head + subject + middle;
    var list := JoinWith(parts, sep);
    var m := before + list;
    assert m[|head|..|head| + |subject|] == subject;
    assert OccursAt(m, subject, |head|);
    JoinWithMentions(parts, sep, k);
    var i :| 0 <= i && OccursAt(list, parts[k], i);
    assert m[|before| + i..|before| + i + |parts[k]|] == list[i..i + |parts[k]|];
    assert OccursAt(m, parts[k], |before| + i);
  }
}
