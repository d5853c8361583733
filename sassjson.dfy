/**
 * parseJSON of index.js: the lexical rewrite that turns a JSON (or YAML,
 * or `.js`) data file into one Sass variable assignment.  Brackets and
 * braces become parentheses, the text is wrapped as `$name:…;`, and quoted
 * colour literals found by three regular expressions are unquoted.
 */
module SassJson {
  import opened Text
  import opened Paths

  /**
   * The variable a data file defines: its base name with the first
   * occurrence of its extension removed (a string replace, so only the
   * first), which is the extension itself unless it also occurs earlier in
   * the base name.  It never holds a `/`, and a file without an extension
   * names the variable after its whole base name.
   */
  function VariableName(filename: string): (name: string)
    ensures '/' !in name
    ensures Ext(filename) == "" ==> name == Basename(filename)
  {
    BasenameHasNoSlash(filename);
    RemoveFirstKeepsOut(Basename(filename), Ext(filename), '/');
    ReplaceFirst(Basename(filename), Ext(filename), "")
  }

  /** Removing an occurrence brings in no character. */
  lemma RemoveFirstKeepsOut(s: string, pat: string, c: char)
    requires c !in s
    ensures c !in ReplaceFirst(s, pat, "")
  {
    var i := Find(s, pat);
    if i >= 0 {
      var r := ReplaceFirst(s, pat, "");
      assert r == s[..i] + s[i + |pat|..];
      forall k | 0 <= k < |r| ensures r[k] != c {
        if k < i {
          assert r[k] == s[k];
        } else {
          assert r[k] == s[k + |pat|];
        }
      }
    }
  }

  /** When the extension occurs only at the end of the base name, the variable name is the base name without it. */
  lemma VariableNameDropsExt(filename: string)
    requires Find(Basename(filename), Ext(filename)) == |Basename(filename)| - |Ext(filename)|
    ensures VariableName(filename) == Basename(filename)[..|Basename(filename)| - |Ext(filename)|]
  {
  }

  /** The four global replacements `{`, `[` to `(` and `}`, `]` to `)`, in the order index.js applies them. */
  function Delimit(data: string): (r: string)
    ensures |r| == |data|
  {
    ReplaceAll(ReplaceAll(ReplaceAll(ReplaceAll(data, '{', '('), '[', '('), '}', ')'), ']', ')')
  }

  predicate IsBracket(c: char)
  {
    c == '{' || c == '[' || c == '}' || c == ']'
  }

  predicate NoBrackets(s: string)
  {
    forall k :: 0 <= k < |s| ==> !IsBracket(s[k])
  }

  /** Delimiting keeps the length, leaves no bracket or brace, and changes nothing else. */
  lemma DelimitSpec(data: string)
    ensures |Delimit(data)| == |data|
    ensures NoBrackets(Delimit(data))
    ensures forall k :: 0 <= k < |data| ==>
              Delimit(data)[k] == (if data[k] == '{' || data[k] == '[' then '('
                                   else if data[k] == '}' || data[k] == ']' then ')'
                                   else data[k])
  {
    var a := ReplaceAll(data, '{', '(');
    var b := ReplaceAll(a, '[', '(');
    var c := ReplaceAll(b, '}', ')');
    ReplaceAllAt(data, '{', '(');
    ReplaceAllAt(a, '[', '(');
    ReplaceAllAt(b, '}', ')');
    ReplaceAllAt(c, ']', ')');
  }

  /** Delimiting works character by character, so it distributes over concatenation. */
  lemma DelimitAppend(x: string, y: string)
    ensures Delimit(x + y) == Delimit(x) + Delimit(y)
  {
    DelimitSpec(x);
    DelimitSpec(y);
    DelimitSpec(x + y);
    forall k | 0 <= k < |x + y| ensures Delimit(x + y)[k] == (Delimit(x) + Delimit(y))[k] {
      if k >= |x| {
        assert (x + y)[k] == y[k - |x|];
      }
    }
  }

  /** A single trailing newline, if there is one, is dropped. */
  function DropNewline(s: string): (r: string)
  {
    if |s| > 0 && s[|s| - 1] == '\n' then s[..|s| - 1] else s
  }

  lemma DropNewlineAfter(p: string, d: string)
    requires p != [] && p[|p| - 1] != '\n'
    ensures DropNewline(p + d) == p + DropNewline(d)
  {
    if d != [] && d[|d| - 1] == '\n' {
      assert (p + d)[..|p + d| - 1] == p + d[..|d| - 1];
    }
  }

  /**
   * The assignment before colour unquoting: `$name:` and the delimited data,
   * one trailing newline dropped, then `;`: never empty, always ending in `;`.
   */
  function Assemble(name: string, data: string): (s: string)
    ensures |s| > 0 && s[|s| - 1] == ';'
  {
    DropNewline("$" + name + ":" + Delimit(data)) + ";"
  }

  /** Newlines pass through delimiting unchanged. */
  lemma DelimitNewline(data: string)
    ensures Delimit(data + "\n") == Delimit(data) + "\n"
  {
    DelimitSpec("\n");
    DelimitAppend(data, "\n");
  }

  /** Exactly one trailing newline is dropped: a data text and the same text plus a newline assemble alike. */
  lemma AssembleOneNewline(name: string, data: string)
    requires data == [] || data[|data| - 1] != '\n'
    ensures Assemble(name, data + "\n") == Assemble(name, data)
    ensures Assemble(name, data + "\n\n") == "$" + name + ":" + Delimit(data) + "\n;"
  {
    var p := "$" + name + ":";
    var d := Delimit(data);
    assert DropNewline(d) == d by {
      DelimitSpec(data);
      assert d == [] || d[|d| - 1] != '\n';
    }
    DelimitNewline(data);
    DelimitNewline(data + "\n");
    assert data + "\n\n" == data + "\n" + "\n";
    assert DropNewline(d + "\n") == d by {
      assert (d + "\n")[..|d|] == d;
    }
    assert DropNewline(d + "\n" + "\n") == d + "\n" by {
      assert (d + "\n" + "\n")[..|d| + 1] == d + "\n";
    }
    DropNewlineAfter(p, d);
    DropNewlineAfter(p, d + "\n");
    DropNewlineAfter(p, d + "\n" + "\n");
  }

  // ---------------------------------------------------------------------
  // The three colour regular expressions of index.js:182, 193 and 206.
  // ---------------------------------------------------------------------

  datatype ColorKind = Hex | Rgb | Hsl

  /**
   * One element of the three colour expressions: a literal character, an
   * optional literal character, `[0-9a-f]`, or `\d{1,3}`.
   */
  datatype Token = Char(c: char) | OptionalChar(c: char) | HexDigit | Number

  predicate IsDigit(c: char)
  {
    '0' <= c <= '9'
  }

  /** `[0-9a-f]`: lower-case hexadecimal digits only. */
  predicate IsHexDigit(c: char)
  {
    IsDigit(c) || 'a' <= c <= 'f'
  }

  /** The number of consecutive decimal digits from `i`. */
  function DigitRun(s: string, i: nat): (n: nat)
    requires i <= |s|
    ensures i + n <= |s|
    decreases |s| - i
  {
    if i < |s| && IsDigit(s[i]) then 1 + DigitRun(s, i + 1) else 0
  }

  /**
   * Matches `pat` against `s` from `i`: the position after the match, or -1.
   * An optional character is taken whenever present and `\d{1,3}` takes the
   * whole run of digits when it has one to three of them.  Backtracking
   * would not find more: in the three expressions an optional `a` is
   * followed by `(`, and every number by a character that is not a digit.
   */
  function MatchPattern(pat: seq<Token>, s: string, i: nat): (e: int)
    requires i <= |s|
    ensures e == -1 || i <= e <= |s|
    decreases |pat|
  {
    if pat == [] then i
    else
      match pat[0]
      case Char(c) =>
        if i < |s| && s[i] == c then MatchPattern(pat[1..], s, i + 1) else -1
      case OptionalChar(c) =>
        if i < |s| && s[i] == c then MatchPattern(pat[1..], s, i + 1) else MatchPattern(pat[1..], s, i)
      case HexDigit =>
        if i < |s| && IsHexDigit(s[i]) then MatchPattern(pat[1..], s, i + 1) else -1
      case Number =>
        var n := DigitRun(s, i);
        if 1 <= n <= 3 then MatchPattern(pat[1..], s, i + n) else -1
  }

  /** `"#` and six hexadecimal digits and `"`: the greedy `{1,2}` of the hex expression, tried first. */
  const HexSix: seq<Token> :=
    [Char('"'), Char('#'), HexDigit, HexDigit, HexDigit, HexDigit, HexDigit, HexDigit, Char('"')]
  /** `"#` and three hexadecimal digits and `"`: the hex expression after backtracking. */
  const HexThree: seq<Token> := [Char('"'), Char('#'), HexDigit, HexDigit, HexDigit, Char('"')]
  /** `(` and three numbers separated by `, `, then `)"`; the optional `a` makes `rgba`/`hsla`. */
  const Arguments: seq<Token> :=
    [OptionalChar('a'), Char('('), Number, Char(','), Char(' '), Number, Char(','), Char(' '), Number, Char(')'), Char('"')]
  const RgbPattern: seq<Token> := [Char('"'), Char('r'), Char('g'), Char('b')] + Arguments
  const HslPattern: seq<Token> := [Char('"'), Char('h'), Char('s'), Char('l')] + Arguments

  /** The length of the match of `pat` at `i`, or 0. */
  function Span(pat: seq<Token>, s: string, i: nat): (n: nat)
    requires i <= |s|
    ensures i + n <= |s|
  {
    var e := MatchPattern(pat, s, i);
    if e < 0 then 0 else e - i
  }

  /**
   * The colour expression of `kind` as the alternatives it stands for, in
   * the order the regular expression tries them.
   */
  function Alternatives(kind: ColorKind): seq<seq<Token>>
  {
    match kind
    case Hex => [HexSix, HexThree]
    case Rgb => [RgbPattern]
    case Hsl => [HslPattern]
  }

  /** The length of the match of the first alternative that matches at `i`, or 0 when none does. */
  function MatchAt(alts: seq<seq<Token>>, s: string, i: nat): (n: nat)
    requires i <= |s|
    ensures i + n <= |s|
    decreases |alts|
  {
    if alts == [] then 0
    else if Span(alts[0], s, i) > 0 then Span(alts[0], s, i)
    else MatchAt(alts[1..], s, i)
  }

  /** A match starts and ends with a double quote. */
  predicate Quoted(c: string)
  {
    |c| >= 2 && c[0] == '"' && c[|c| - 1] == '"'
  }

  /** A pattern that starts and ends with a literal double quote. */
  predicate QuotedPattern(pat: seq<Token>)
  {
    |pat| >= 2 && pat[0] == Char('"') && pat[|pat| - 1] == Char('"')
  }

  predicate AllQuotedPatterns(alts: seq<seq<Token>>)
  {
    forall k :: 0 <= k < |alts| ==> QuotedPattern(alts[k])
  }

  /** All three colour expressions look for double-quoted literals. */
  lemma AlternativesQuoted(kind: ColorKind)
    ensures AllQuotedPatterns(Alternatives(kind))
  {
    assert RgbPattern[|RgbPattern| - 1] == Arguments[|Arguments| - 1];
    assert HslPattern[|HslPattern| - 1] == Arguments[|Arguments| - 1];
  }

  /** A match of a pattern that ends with a literal character ends with that character. */
  lemma {:induction false} MatchPatternLast(pat: seq<Token>, s: string, i: nat, c: char)
    requires i <= |s| && |pat| > 0 && pat[|pat| - 1] == Char(c)
    requires MatchPattern(pat, s, i) >= 0
    ensures i < MatchPattern(pat, s, i) && s[MatchPattern(pat, s, i) - 1] == c
    decreases |pat|
  {
    if |pat| > 1 {
      var j :| j == match pat[0]
        case Char(_) => i + 1
        case OptionalChar(d) => if i < |s| && s[i] == d then i + 1 else i
        case HexDigit => i + 1
        case Number => i + DigitRun(s, i);
      assert i <= j <= |s| && MatchPattern(pat, s, i) == MatchPattern(pat[1..], s, j);
      MatchPatternLast(pat[1..], s, j, c);
    }
  }

  /** A match of a quoted pattern is quoted. */
  lemma SpanQuoted(pat: seq<Token>, s: string, i: nat)
    requires i <= |s| && QuotedPattern(pat) && Span(pat, s, i) > 0
    ensures Quoted(s[i..i + Span(pat, s, i)])
  {
    MatchPatternLast(pat, s, i, '"');
    MatchPatternLast(pat[1..], s, i + 1, '"');
  }

  lemma {:induction false} MatchAtQuoted(alts: seq<seq<Token>>, s: string, i: nat)
    requires i <= |s| && AllQuotedPatterns(alts) && MatchAt(alts, s, i) > 0
    ensures Quoted(s[i..i + MatchAt(alts, s, i)])
    decreases |alts|
  {
    if Span(alts[0], s, i) > 0 {
      SpanQuoted(alts[0], s, i);
    } else {
      MatchAtQuoted(alts[1..], s, i);
    }
  }

  /**
   * `s.match(re)` with the global flag, from position `from`: the matched
   * texts, left to right, each search resuming after the previous match.
   * No match gives the empty list (JavaScript's `null`, which the
   * `if (colors)` guard skips).
   */
  function Matches(alts: seq<seq<Token>>, s: string, from: nat): (colors: seq<string>)
    requires from <= |s|
    ensures |colors| <= |s| - from
    decreases |s| - from
  {
    if from == |s| then []
    else
      var n := MatchAt(alts, s, from);
      if n > 0 then [s[from..from + n]] + Matches(alts, s, from + n)
      else Matches(alts, s, from + 1)
  }

  /** Every match found is a quoted literal. */
  lemma {:induction false} MatchesQuoted(alts: seq<seq<Token>>, s: string, from: nat)
    requires from <= |s| && AllQuotedPatterns(alts)
    ensures forall k :: 0 <= k < |Matches(alts, s, from)| ==> Quoted(Matches(alts, s, from)[k])
    decreases |s| - from
  {
    if from < |s| {
      var n := MatchAt(alts, s, from);
      if n > 0 {
        MatchAtQuoted(alts, s, from);
        MatchesQuoted(alts, s, from + n);
      } else {
        MatchesQuoted(alts, s, from + 1);
      }
    }
  }

  /** The search is leftmost: no match is found exactly when the expression matches nowhere from `from` on. */
  lemma {:induction false} MatchesNone(alts: seq<seq<Token>>, s: string, from: nat)
    requires from <= |s|
    ensures Matches(alts, s, from) == [] <==> forall i :: from <= i < |s| ==> MatchAt(alts, s, i) == 0
    decreases |s| - from
  {
    if from < |s| {
      var n := MatchAt(alts, s, from);
      if n == 0 {
        assert Matches(alts, s, from) == Matches(alts, s, from + 1);
        MatchesNone(alts, s, from + 1);
      } else {
        assert Matches(alts, s, from) != [] by {
          assert Matches(alts, s, from) == [s[from..from + n]] + Matches(alts, s, from + n);
        }
        assert !(forall i :: from <= i < |s| ==> MatchAt(alts, s, i) == 0) by {
          assert MatchAt(alts, s, from) != 0;
        }
      }
    }
  }

  /** The first match found is the text of the leftmost position where the expression matches. */
  lemma {:induction false} MatchesFirst(alts: seq<seq<Token>>, s: string, from: nat, p: nat)
    requires from <= p < |s| && MatchAt(alts, s, p) > 0
    requires forall i :: from <= i < p ==> MatchAt(alts, s, i) == 0
    ensures Matches(alts, s, from) != []
    ensures Matches(alts, s, from)[0] == s[p..p + MatchAt(alts, s, p)]
    decreases p - from
  {
    if from < p {
      assert MatchAt(alts, s, from) == 0;
      assert Matches(alts, s, from) == Matches(alts, s, from + 1);
      MatchesFirst(alts, s, from + 1, p);
    } else {
      var n := MatchAt(alts, s, p);
      var rest := Matches(alts, s, p + n);
      assert Matches(alts, s, p) == [s[p..p + n]] + rest;
    }
  }

  /** A colour literal without its first and last character (empty when it is shorter than two). */
  function Unquote(c: string): (r: string)
    ensures Quoted(c) ==> |r| == |c| - 2 && c == "\"" + r + "\""
  {
    if |c| >= 2 then c[1..|c| - 1] else ""
  }

  /**
   * The `forEach` over the matched colours: each one in turn replaces its
   * first occurrence in the current text by its unquoted form.
   */
  function UnquoteAll(s: string, colors: seq<string>): string
    decreases |colors|
  {
    if |colors| == 0 then s
    else UnquoteAll(ReplaceFirst(s, colors[0], Unquote(colors[0])), colors[1..])
  }

  /** `r` starts with the quote-free `prefix`, has more after it, and ends with `;`. */
  predicate Framed(r: string, prefix: string)
  {
    |prefix| < |r| && r[..|prefix|] == prefix && '"' !in prefix && r[|r| - 1] == ';'
  }

  /**
   * One colour replacement keeps the frame: a quoted literal cannot start
   * inside a quote-free prefix nor end on the final `;`, and the
   * replacement only drops two characters.
   */
  lemma UnquoteOneFrame(s: string, c: string, prefix: string)
    requires Quoted(c) && Framed(s, prefix)
    ensures var r := ReplaceFirst(s, c, Unquote(c));
            |r| <= |s| && Framed(r, prefix)
  {
    var p := Find(s, c);
    if p >= 0 {
      assert s[p..p + |c|] == c;
      assert s[p] == '"' && s[p + |c| - 1] == '"';
      assert p >= |prefix| by {
        assert forall j :: 0 <= j < |prefix| ==> s[j] == prefix[j] && prefix[j] != '"';
      }
      var r := s[..p] + Unquote(c) + s[p + |c|..];
      assert r[..|prefix|] == prefix;
    }
  }

  lemma NoBracketsSlice(s: string, a: nat, b: nat)
    requires a <= b <= |s| && NoBrackets(s)
    ensures NoBrackets(s[a..b])
  {
    forall k | 0 <= k < b - a ensures !IsBracket(s[a..b][k]) {
      assert s[a..b][k] == s[a + k];
    }
  }

  lemma NoBracketsConcat(x: string, y: string)
    requires NoBrackets(x) && NoBrackets(y)
    ensures NoBrackets(x + y)
  {
    forall k | 0 <= k < |x + y| ensures !IsBracket((x + y)[k]) {
      if k >= |x| {
        assert (x + y)[k] == y[k - |x|];
      }
    }
  }

  /** Splicing the inside of a quoted literal found at `p` in place of the literal brings in no bracket. */
  lemma NoBracketsSplice(s: string, p: nat, c: string)
    requires Quoted(c) && NoBrackets(s)
    requires p + |c| <= |s| && s[p..p + |c|] == c
    ensures NoBrackets(s[..p] + Unquote(c) + s[p + |c|..])
  {
    var u := Unquote(c);
    var before, after := s[..p], s[p + |c|..];
    assert NoBrackets(u) by {
      forall k | 0 <= k < |u| ensures !IsBracket(u[k]) {
        assert u[k] == c[k + 1] == s[p + k + 1];
      }
    }
    NoBracketsSlice(s, 0, p);
    assert s[0..p] == before;
    NoBracketsSlice(s, p + |c|, |s|);
    assert s[p + |c|..|s|] == after;
    NoBracketsConcat(before, u);
    NoBracketsConcat(before + u, after);
  }

  /** One colour replacement brings in no bracket: it only drops the two quotes. */
  lemma UnquoteOneNoBrackets(s: string, c: string)
    requires Quoted(c) && NoBrackets(s)
    ensures NoBrackets(ReplaceFirst(s, c, Unquote(c)))
  {
    var p := Find(s, c);
    if p >= 0 {
      assert OccursAt(s, c, p);
      NoBracketsSplice(s, p, c);
    }
  }

  /** Unquoting any list of quoted literals keeps the frame and the absence of brackets. */
  lemma {:induction false} UnquoteAllKeeps(s: string, colors: seq<string>, prefix: string)
    requires forall k :: 0 <= k < |colors| ==> Quoted(colors[k])
    requires Framed(s, prefix)
    ensures var r := UnquoteAll(s, colors);
            |r| <= |s| && Framed(r, prefix) && (NoBrackets(s) ==> NoBrackets(r))
    decreases |colors|
  {
    if |colors| > 0 {
      UnquoteOneFrame(s, colors[0], prefix);
      if NoBrackets(s) {
        UnquoteOneNoBrackets(s, colors[0]);
      }
      var s' := ReplaceFirst(s, colors[0], Unquote(colors[0]));
      UnquoteAllKeeps(s', colors[1..], prefix);
    }
  }

  /** The text after the unquoting pass of `kind`. */
  function UnquoteKind(s: string, kind: ColorKind): string
  {
    UnquoteAll(s, Matches(Alternatives(kind), s, 0))
  }

  lemma UnquoteKindKeeps(s: string, kind: ColorKind, prefix: string)
    requires Framed(s, prefix)
    ensures var r := UnquoteKind(s, kind);
            |r| <= |s| && Framed(r, prefix) && (NoBrackets(s) ==> NoBrackets(r))
  {
    AlternativesQuoted(kind);
    MatchesQuoted(Alternatives(kind), s, 0);
    UnquoteAllKeeps(s, Matches(Alternatives(kind), s, 0), prefix);
  }

  // ---------------------------------------------------------------------
  // What the unquoting removes: exactly the two quotes of every match.
  // ---------------------------------------------------------------------

  /**
   * The literals `colors` occur in `s` one after the other, each starting
   * at or after the end of the previous one.
   */
  ghost predicate InOrder(s: string, colors: seq<string>)
    decreases |colors|
  {
    colors == [] ||
    exists p: nat :: OccursAt(s, colors[0], p) && InOrder(s[p + |colors[0]|..], colors[1..])
  }

  /** Literals in order in a text are still in order when more text is put before it. */
  lemma InOrderSuffix(x: string, t: string, colors: seq<string>)
    requires InOrder(t, colors)
    ensures InOrder(x + t, colors)
  {
    if colors != [] {
      var c := colors[0];
      var p: nat :| OccursAt(t, c, p) && InOrder(t[p + |c|..], colors[1..]);
      assert (x + t)[|x| + p..|x| + p + |c|] == t[p..p + |c|];
      assert (x + t)[|x| + p + |c|..] == t[p + |c|..];
      assert OccursAt(x + t, c, |x| + p);
    }
  }

  /** The global match finds its literals in order, each where it was matched. */
  lemma {:induction false} MatchesInOrder(alts: seq<seq<Token>>, s: string, from: nat)
    requires from <= |s|
    ensures InOrder(s[from..], Matches(alts, s, from))
    decreases |s| - from
  {
    if from < |s| {
      var n := MatchAt(alts, s, from);
      var rest := Matches(alts, s, from + n);
      if n > 0 {
        MatchesInOrder(alts, s, from + n);
        var m := Matches(alts, s, from);
        assert m == [s[from..from + n]] + rest;
        assert m[0] == s[from..from + n] && m[1..] == rest;
        assert s[from..][0..n] == s[from..from + n];
        assert s[from..][0 + |m[0]|..] == s[from + n..];
        assert OccursAt(s[from..], m[0], 0);
      } else {
        MatchesInOrder(alts, s, from + 1);
        assert s[from..] == [s[from]] + s[from + 1..];
        InOrderSuffix([s[from]], s[from + 1..], Matches(alts, s, from + 1));
      }
    }
  }

  /** Unquoting one occurrence of a quoted literal drops its two quotes and nothing else. */
  lemma UnquoteAtCounts(s: string, c: string, q: nat)
    requires Quoted(c) && OccursAt(s, c, q)
    ensures multiset(s[..q] + Unquote(c) + s[q + |c|..]) + multiset{'"', '"'} == multiset(s)
  {
    var u := Unquote(c);
    assert s == s[..q] + c + s[q + |c|..] by {
      assert s[q..q + |c|] == c;
    }
    assert multiset(c) == multiset(u) + multiset{'"', '"'} by {
      assert c == "\"" + u + "\"";
    }
  }

  /** Literals that stood in order after an unquoted occurrence still stand in order after it. */
  lemma UnquoteAtInOrder(s: string, c: string, q: nat, p: nat, rest: seq<string>)
    requires Quoted(c) && OccursAt(s, c, q) && q <= p && OccursAt(s, c, p)
    requires InOrder(s[p + |c|..], rest)
    ensures InOrder(s[..q] + Unquote(c) + s[q + |c|..], rest)
  {
    var s' := s[..q] + Unquote(c) + s[q + |c|..];
    var t := s[p + |c|..];
    assert s' == s'[..|s'| - |t|] + t by {
      assert s[q + |c|..] == s[q + |c|..p + |c|] + t;
    }
    InOrderSuffix(s'[..|s'| - |t|], t, rest);
  }

  /**
   * Unquoting quoted literals that occur in order removes two double quotes
   * per literal and no other character.
   */
  lemma {:induction false} UnquoteAllQuotes(s: string, colors: seq<string>)
    requires forall k :: 0 <= k < |colors| ==> Quoted(colors[k])
    requires InOrder(s, colors)
    ensures multiset(UnquoteAll(s, colors))['"'] + 2 * |colors| == multiset(s)['"']
    ensures forall ch :: ch != '"' ==> multiset(UnquoteAll(s, colors))[ch] == multiset(s)[ch]
    decreases |colors|
  {
    if colors != [] {
      var s' := UnquoteFirst(s, colors);
      var rest := colors[1..];
      assert forall k :: 0 <= k < |rest| ==> Quoted(rest[k]) by {
        forall k | 0 <= k < |rest| ensures Quoted(rest[k]) {
          assert rest[k] == colors[k + 1];
        }
      }
      UnquoteAllQuotes(s', rest);
      var r := UnquoteAll(s', rest);
      assert UnquoteAll(s, colors) == r;
      var m, m', mr := multiset(s), multiset(s'), multiset(r);
      assert m'['"'] + 2 == m['"'];
      assert mr['"'] + 2 * |colors| == m['"'];
      forall ch | ch != '"' ensures mr[ch] == m[ch] {
        assert (m' + multiset{'"', '"'})[ch] == m'[ch];
      }
    }
  }

  /** Unquoting the first of literals that occur in order leaves the rest in order and two quotes fewer. */
  lemma UnquoteFirst(s: string, colors: seq<string>) returns (s': string)
    requires colors != [] && Quoted(colors[0]) && InOrder(s, colors)
    ensures UnquoteAll(s, colors) == UnquoteAll(s', colors[1..])
    ensures InOrder(s', colors[1..])
    ensures multiset(s') + multiset{'"', '"'} == multiset(s)
  {
    var c := colors[0];
    var p: nat :| OccursAt(s, c, p) && InOrder(s[p + |c|..], colors[1..]);
    FindFirst(s, c);
    var q := Find(s, c);
    assert 0 <= q <= p;
    s' := s[..q] + Unquote(c) + s[q + |c|..];
    assert ReplaceFirst(s, c, Unquote(c)) == s';
    UnquoteAtCounts(s, c, q);
    UnquoteAtInOrder(s, c, q, p, colors[1..]);
  }

  /**
   * A colour pass removes exactly the two quotes of every literal its
   * expression matches, and nothing else; so a text in which the
   * expression matches somewhere loses quotes.
   */
  lemma UnquoteKindQuotes(s: string, kind: ColorKind)
    ensures multiset(UnquoteKind(s, kind))['"'] + 2 * |Matches(Alternatives(kind), s, 0)| == multiset(s)['"']
    ensures forall ch :: ch != '"' ==> multiset(UnquoteKind(s, kind))[ch] == multiset(s)[ch]
  {
    AlternativesQuoted(kind);
    MatchesQuoted(Alternatives(kind), s, 0);
    MatchesInOrder(Alternatives(kind), s, 0);
    assert s[0..] == s;
    UnquoteAllQuotes(s, Matches(Alternatives(kind), s, 0));
  }

  /** The assembled text starts with `$name:`, ends with `;`, and holds only brackets of the name. */
  lemma AssembleShape(name: string, data: string)
    ensures var s := Assemble(name, data);
            |"$" + name + ":"| < |s| && s[..|name| + 2] == "$" + name + ":" && s[|s| - 1] == ';' &&
            (NoBrackets(name) ==> NoBrackets(s))
  {
    var p := "$" + name + ":";
    var d := Delimit(data);
    DelimitSpec(data);
    DropNewlineAfter(p, d);
    var x := DropNewline(d);
    assert |x| <= |d| && x == d[..|x|];
    var s := p + x + ";";
    assert s[..|p|] == p;
    assert NoBrackets(name) ==> NoBrackets(s) by {
      if NoBrackets(name) {
        forall k | 0 <= k < |s| ensures !IsBracket(s[k]) {
          if 0 < k <= |name| {
            assert s[k] == name[k - 1];
          } else if |p| <= k < |p| + |x| {
            assert s[k] == d[k - |p|];
          }
        }
      }
    }
  }

  /**
   * Assembly, then hex, rgb/rgba and hsl/hsla unquoting, in that order: the
   * unquoting only removes characters, and never the final `;`.
   */
  function ToSass(name: string, text: string): (r: string)
    ensures |r| <= |Assemble(name, text)|
    ensures |r| > 0 && r[|r| - 1] == ';'
  {
    var s := Assemble(name, text);
    AssembleShape(name, text);
    assert Framed(s, "");
    PassesKeep(s, "");
    UnquoteKind(UnquoteKind(UnquoteKind(s, Hex), Rgb), Hsl)
  }

  /** The hex, rgb/rgba and hsl/hsla passes in turn keep a frame and the absence of brackets. */
  lemma PassesKeep(s: string, prefix: string)
    requires Framed(s, prefix)
    ensures var r := UnquoteKind(UnquoteKind(UnquoteKind(s, Hex), Rgb), Hsl);
            |r| <= |s| && Framed(r, prefix) && (NoBrackets(s) ==> NoBrackets(r))
  {
    var s1 := UnquoteKind(s, Hex);
    var s2 := UnquoteKind(s1, Rgb);
    UnquoteKindKeeps(s, Hex, prefix);
    UnquoteKindKeeps(s1, Rgb, prefix);
    UnquoteKindKeeps(s2, Hsl, prefix);
  }

  /** The three unquoting passes keep the frame of the assembled text and the absence of brackets. */
  lemma ToSassKeeps(name: string, text: string, prefix: string)
    requires Framed(Assemble(name, text), prefix)
    ensures Framed(ToSass(name, text), prefix)
    ensures NoBrackets(Assemble(name, text)) ==> NoBrackets(ToSass(name, text))
  {
    PassesKeep(Assemble(name, text), prefix);
  }

  /** The output starts with `$name:` when the variable name holds no double quote. */
  lemma ToSassStarts(name: string, text: string)
    requires '"' !in name
    ensures var r := ToSass(name, text);
            |name| + 2 < |r| && r[..|name| + 2] == "$" + name + ":"
  {
    AssembleShape(name, text);
    ToSassKeeps(name, text, "$" + name + ":");
  }

  /** Every bracket and brace of the data became a parenthesis: the output holds none unless the name does. */
  lemma ToSassNoBrackets(name: string, text: string)
    requires NoBrackets(name)
    ensures NoBrackets(ToSass(name, text))
  {
    AssembleShape(name, text);
    ToSassKeeps(name, text, "");
  }

  predicate IsYaml(filename: string)
  {
    Ext(filename) == ".yml" || Ext(filename) == ".yaml"
  }

  /**
   * The whole of parseJSON: YAML data is first re-expressed as JSON by
   * `yamlToJson` (a library call outside this model), then turned into an
   * assignment to the variable named after the file, which always ends
   * in `;`.
   */
  function Transform(data: string, filename: string, yamlToJson: string -> string): (r: string)
    ensures |r| > 0 && r[|r| - 1] == ';'
  {
    var text := if IsYaml(filename) then yamlToJson(data) else data;
    ToSass(VariableName(filename), text)
  }

  /** The `forEach` over the matched colours, each replacing its first occurrence in the current text. */
  method UnquoteColors(text: string, colors: seq<string>) returns (r: string)
    ensures r == UnquoteAll(text, colors)
  {
    r := text;
    var k := 0;
    while k < |colors|
      invariant k <= |colors|
      invariant UnquoteAll(r, colors[k..]) == UnquoteAll(text, colors)
    {
      assert colors[k..][1..] == colors[k + 1..];
      r := ReplaceFirst(r, colors[k], Unquote(colors[k]));
      k := k + 1;
    }
  }

  /**
   * One colour pass: the global match (no match gives an empty list, as
   * the `if (colors)` guard skips JavaScript's `null`), then the unquoting.
   */
  method UnquotePass(text: string, kind: ColorKind) returns (r: string)
    ensures r == UnquoteKind(text, kind)
  {
    var colors := Matches(Alternatives(kind), text, 0);
    r := UnquoteColors(text, colors);
  }

  /** The assignment is built up: the name, the delimited data, the newline dropped, the `;`. */
  method AssembleText(name: string, data: string) returns (fileReturn: string)
    ensures fileReturn == Assemble(name, data)
  {
    fileReturn := "$" + name + ":";
    var text := ReplaceAll(data, '{', '(');
    text := ReplaceAll(text, '[', '(');
    text := ReplaceAll(text, '}', ')');
    text := ReplaceAll(text, ']', ')');
    fileReturn := fileReturn + text;
    if |fileReturn| > 0 && fileReturn[|fileReturn| - 1] == '\n' {
      fileReturn := fileReturn[..|fileReturn| - 1];
    }
    fileReturn := fileReturn + ";";
  }

  /** parseJSON (index.js:155-214); `yamlToJson` stands for the YAML load and JSON stringify. */
  method ParseJson(data: string, filename: string, yamlToJson: string -> string) returns (fileReturn: string)
    ensures fileReturn == Transform(data, filename, yamlToJson)
  {
    var name := ReplaceFirst(Basename(filename), Ext(filename), "");
    var text := data;
    if Ext(filename) == ".yml" || Ext(filename) == ".yaml" {
      text := yamlToJson(text);
    }
    fileReturn := AssembleText(name, text);
    fileReturn := UnquotePass(fileReturn, Hex);
    fileReturn := UnquotePass(fileReturn, Rgb);
    fileReturn := UnquotePass(fileReturn, Hsl);
  }

  /** A search that finds nothing at a character that is not a double quote. */
  lemma MatchAtUnquoted(alts: seq<seq<Token>>, s: string, i: nat)
    requires i < |s| && AllQuotedPatterns(alts) && s[i] != '"'
    ensures MatchAt(alts, s, i) == 0
    decreases |alts|
  {
    if alts != [] {
      MatchAtUnquoted(alts[1..], s, i);
    }
  }

  /** Every alternative starts with a double quote followed by `c`. */
  predicate QuoteThen(alts: seq<seq<Token>>, c: char)
  {
    forall k :: 0 <= k < |alts| ==> QuotedPattern(alts[k]) && alts[k][1] == Char(c)
  }

  lemma {:induction false} MatchAtQuoteThen(alts: seq<seq<Token>>, s: string, i: nat, c: char)
    requires i < |s| && QuoteThen(alts, c) && (i + 1 == |s| || s[i + 1] != c)
    ensures MatchAt(alts, s, i) == 0
    decreases |alts|
  {
    if alts != [] {
      var pat := alts[0];
      if s[i] == '"' {
        assert MatchPattern(pat[1..], s, i + 1) == -1 by {
          assert pat[1..][0] == Char(c);
        }
      }
      MatchAtQuoteThen(alts[1..], s, i, c);
    }
  }

  /** Position `i` of `s` holds a double quote that ends `s` or is followed by `c`. */
  predicate QuoteBefore(s: string, i: nat, c: char)
  {
    i < |s| && s[i] == '"' && (i + 1 == |s| || s[i + 1] == c)
  }

  /** Every double quote of `s` is followed, inside `s`, by a character other than `c`. */
  ghost predicate QuotesNotBefore(s: string, c: char)
  {
    forall i: nat :: !QuoteBefore(s, i, c)
  }

  lemma QuotesNotBeforeConcat(x: string, y: string, c: char)
    requires QuotesNotBefore(x, c) && QuotesNotBefore(y, c)
    ensures QuotesNotBefore(x + y, c)
  {
    forall i: nat ensures !QuoteBefore(x + y, i, c) {
      if i < |x| {
        assert !QuoteBefore(x, i, c);
        if i + 1 < |x| {
          assert (x + y)[i + 1] == x[i + 1];
        }
      } else if i < |x + y| {
        assert !QuoteBefore(y, i - |x|, c);
        assert (x + y)[i] == y[i - |x|];
        if i + 1 < |x + y| {
          assert (x + y)[i + 1] == y[i + 1 - |x|];
        }
      }
    }
  }

  /** No double quote between `from` and `until` ends `s` or is followed by `c`. */
  ghost predicate QuotesNotBeforeIn(s: string, from: nat, until: nat, c: char)
  {
    forall i: nat :: from <= i < until ==> !QuoteBefore(s, i, c)
  }

  /** A part of a text in which no quote is followed by `c` keeps that property inside the text. */
  lemma QuotesNotBeforePart(w: string, x: string, y: string, c: char)
    requires QuotesNotBefore(x, c)
    ensures QuotesNotBeforeIn(w + x + y, |w|, |w| + |x|, c)
  {
    var s := w + x + y;
    forall i: nat | |w| <= i < |w| + |x| ensures !QuoteBefore(s, i, c) {
      assert !QuoteBefore(x, i - |w|, c);
      assert s[i] == x[i - |w|];
      if i + 1 < |w| + |x| {
        assert s[i + 1] == x[i - |w| + 1];
      }
    }
  }

  /** Where no quote is followed by `c`, an expression whose alternatives all start with `"` and `c` matches nowhere. */
  lemma {:induction false} MatchesSkip(alts: seq<seq<Token>>, s: string, from: nat, until: nat, c: char)
    requires from <= until <= |s| && QuoteThen(alts, c) && QuotesNotBeforeIn(s, from, until, c)
    ensures Matches(alts, s, from) == Matches(alts, s, until)
    decreases until - from
  {
    if from < until {
      assert !QuoteBefore(s, from, c);
      if s[from] == '"' {
        MatchAtQuoteThen(alts, s, from, c);
      } else {
        assert AllQuotedPatterns(alts);
        MatchAtUnquoted(alts, s, from);
      }
      MatchesSkip(alts, s, from + 1, until, c);
    }
  }

  /** The same for the search of a quoted literal whose second character is `c`. */
  lemma {:induction false} FindFromSkip(s: string, pat: string, from: nat, until: nat)
    requires from <= until <= |s| && |pat| >= 2 && pat[0] == '"' && QuotesNotBeforeIn(s, from, until, pat[1])
    ensures FindFrom(s, pat, from) == FindFrom(s, pat, until)
    decreases until - from
  {
    if from < until {
      assert !QuoteBefore(s, from, pat[1]);
      assert !OccursAt(s, pat, from) by {
        if from + |pat| <= |s| {
          assert s[from..from + |pat|][0] == s[from];
          assert s[from..from + |pat|][1] == s[from + 1];
        }
      }
      FindFromSkip(s, pat, from + 1, until);
    }
  }

  /** A quoted `#` and six lower-case hexadecimal digits is matched whole by the hex expression. */
  lemma HexSixMatch(s: string, i: nat)
    requires i + 9 <= |s| && s[i] == '"' && s[i + 1] == '#' && s[i + 8] == '"'
    requires forall j :: i + 2 <= j < i + 8 ==> IsHexDigit(s[j])
    ensures MatchAt(Alternatives(Hex), s, i) == 9
  {
    assert MatchPattern(HexSix[9..], s, i + 9) == i + 9;
    assert MatchPattern(HexSix[8..], s, i + 8) == i + 9;
    assert MatchPattern(HexSix[7..], s, i + 7) == i + 9;
    assert MatchPattern(HexSix[6..], s, i + 6) == i + 9;
    assert MatchPattern(HexSix[5..], s, i + 5) == i + 9;
    assert MatchPattern(HexSix[4..], s, i + 4) == i + 9;
    assert MatchPattern(HexSix[3..], s, i + 3) == i + 9;
    assert MatchPattern(HexSix[2..], s, i + 2) == i + 9;
    assert MatchPattern(HexSix[1..], s, i + 1) == i + 9;
  }

  /**
   * `"#` and three hexadecimal digits and `"`: the six-digit alternative
   * fails at the closing quote, and the expression backtracks to three.
   */
  lemma HexThreeMatch(s: string, i: nat)
    requires i + 6 <= |s| && s[i] == '"' && s[i + 1] == '#' && s[i + 5] == '"'
    requires forall j :: i + 2 <= j < i + 5 ==> IsHexDigit(s[j])
    ensures MatchAt(Alternatives(Hex), s, i) == 6
  {
    assert MatchPattern(HexSix[5..], s, i + 5) == -1;
    assert MatchPattern(HexSix[4..], s, i + 4) == -1;
    assert MatchPattern(HexSix[3..], s, i + 3) == -1;
    assert MatchPattern(HexSix[2..], s, i + 2) == -1;
    assert MatchPattern(HexSix[1..], s, i + 1) == -1;
    assert Span(HexSix, s, i) == 0;
    assert MatchPattern(HexThree[6..], s, i + 6) == i + 6;
    assert MatchPattern(HexThree[5..], s, i + 5) == i + 6;
    assert MatchPattern(HexThree[4..], s, i + 4) == i + 6;
    assert MatchPattern(HexThree[3..], s, i + 3) == i + 6;
    assert MatchPattern(HexThree[2..], s, i + 2) == i + 6;
    assert MatchPattern(HexThree[1..], s, i + 1) == i + 6;
    assert Alternatives(Hex)[1..] == [HexThree];
  }

  lemma DelimitKeeps(x: string)
    requires NoBrackets(x)
    ensures Delimit(x) == x
  {
    DelimitSpec(x);
  }

  /** A one-entry object `{"key": "#digits"}` and a newline, as a JSON file holding one colour. */
  function ColorEntry(key: string, digits: string): string
  {
    "{\"" + key + "\": \"#" + digits + "\"}\n"
  }

  function Inner(key: string, digits: string): string
  {
    "\"" + key + "\": \"#" + digits + "\""
  }

  lemma InnerNoBrackets(key: string, digits: string)
    requires NoBrackets(key) && NoBrackets(digits)
    ensures NoBrackets(Inner(key, digits))
  {
    NoBracketsConcat("\"", key);
    NoBracketsConcat("\"" + key, "\": \"#");
    NoBracketsConcat("\"" + key + "\": \"#", digits);
    NoBracketsConcat("\"" + key + "\": \"#" + digits, "\"");
  }

  lemma DelimitColorEntry(key: string, digits: string)
    requires NoBrackets(key) && NoBrackets(digits)
    ensures Delimit(ColorEntry(key, digits)) == "(" + Inner(key, digits) + ")\n"
  {
    var inner := Inner(key, digits);
    assert ColorEntry(key, digits) == "{" + inner + "}\n";
    InnerNoBrackets(key, digits);
    DelimitKeeps(inner);
    assert Delimit("{") == "(" by {
      DelimitSpec("{");
    }
    assert Delimit("}\n") == ")\n" by {
      DelimitSpec("}\n");
    }
    DelimitAppend("{", inner);
    DelimitAppend("{" + inner, "}\n");
  }

  lemma AssembleColorEntry(name: string, key: string, digits: string)
    requires NoBrackets(key) && NoBrackets(digits)
    ensures Assemble(name, ColorEntry(key, digits)) == "$" + name + ":(" + Inner(key, digits) + ");"
  {
    var inner := Inner(key, digits);
    DelimitColorEntry(key, digits);
    var t := "$" + name + ":" + ("(" + inner + ")\n");
    assert t[..|t| - 1] == "$" + name + ":(" + inner + ")";
  }

  /** The text of the entry up to the colour: `$name:("key": `. */
  function EntryHead(name: string, key: string): string
  {
    "$" + name + ":(" + ("\"" + key) + "\": "
  }

  lemma QuoteFreeNotBefore(x: string, c: char)
    requires '"' !in x
    ensures QuotesNotBefore(x, c)
  {
    forall i: nat ensures !QuoteBefore(x, i, c) {
      if i < |x| {
        assert x[i] in x;
      }
    }
  }

  lemma EntryHeadQuotes(name: string, key: string, c: char)
    requires '"' !in name && '"' !in key && key != [] && key[0] != c && c != ':'
    ensures QuotesNotBefore(EntryHead(name, key), c)
  {
    QuoteFreeNotBefore("$" + name + ":(", c);
    assert QuotesNotBefore("\"" + key, c) by {
      var p := "\"" + key;
      forall i: nat ensures !QuoteBefore(p, i, c) {
        if 1 <= i < |p| {
          assert p[i] == key[i - 1];
          assert key[i - 1] in key;
        } else if i == 0 {
          assert p[1] == key[0];
        }
      }
    }
    assert QuotesNotBefore("\": ", c) by {
      forall i: nat ensures !QuoteBefore("\": ", i, c) {
      }
    }
    QuotesNotBeforeConcat("$" + name + ":(", "\"" + key, c);
    QuotesNotBeforeConcat("$" + name + ":(" + ("\"" + key), "\": ", c);
  }

  /** The digits of a colour the hex expression accepts: `rrggbb` or `rgb`. */
  predicate HexDigits(digits: string)
  {
    (|digits| == 6 || |digits| == 3) && forall j :: 0 <= j < |digits| ==> IsHexDigit(digits[j])
  }

  /** The colour literal of an entry: `"#rrggbb"` or `"#rgb"`. */
  function QuotedHex(digits: string): string
  {
    "\"#" + digits + "\""
  }

  /** Each colour expression starts with a double quote and the character that begins its colours. */
  lemma QuoteThenKinds()
    ensures QuoteThen(Alternatives(Hex), '#')
    ensures QuoteThen(Alternatives(Rgb), 'r')
    ensures QuoteThen(Alternatives(Hsl), 'h')
  {
  }

  /** The hex expression matches a colour literal whole. */
  lemma HexMatchAt(head: string, digits: string, tail: string)
    requires HexDigits(digits)
    ensures MatchAt(Alternatives(Hex), head + QuotedHex(digits) + tail, |head|) == |QuotedHex(digits)|
  {
    var a := head + QuotedHex(digits) + tail;
    var n, m := |head|, |digits|;
    assert a[n..n + m + 3] == QuotedHex(digits);
    assert a[n] == '"' && a[n + 1] == '#' && a[n + m + 2] == '"';
    forall j | n + 2 <= j < n + m + 2 ensures IsHexDigit(a[j]) {
      assert a[j] == digits[j - n - 2];
    }
    if m == 6 {
      HexSixMatch(a, n);
    } else {
      HexThreeMatch(a, n);
    }
  }

  /** A match from `p` to `q`, with no quote followed by `ch` before or after it, is the only match. */
  lemma MatchesOnly(alts: seq<seq<Token>>, s: string, p: nat, q: nat, ch: char)
    requires p < q <= |s| && MatchAt(alts, s, p) == q - p
    requires QuoteThen(alts, ch) && QuotesNotBeforeIn(s, 0, p, ch) && QuotesNotBeforeIn(s, q, |s|, ch)
    ensures Matches(alts, s, 0) == [s[p..q]]
  {
    MatchesSkip(alts, s, 0, p, ch);
    MatchesStep(alts, s, p, q);
    MatchesSkip(alts, s, q, |s|, ch);
  }

  /** A match from `from` to `until` is the first match found from `from` on. */
  lemma MatchesStep(alts: seq<seq<Token>>, s: string, from: nat, until: nat)
    requires from < until <= |s| && MatchAt(alts, s, from) == until - from
    ensures Matches(alts, s, from) == [s[from..until]] + Matches(alts, s, until)
  {
  }

  /** In an entry, the hex expression matches the colour literal only. */
  lemma HexMatchesEntry(head: string, digits: string)
    requires QuotesNotBefore(head, '#') && HexDigits(digits)
    ensures Matches(Alternatives(Hex), head + QuotedHex(digits) + ");", 0) == [QuotedHex(digits)]
  {
    var c := QuotedHex(digits);
    var a := head + c + ");";
    QuoteThenKinds();
    QuoteFreeNotBefore(");", '#');
    HexMatchAt(head, digits, ");");
    assert "" + head + (c + ");") == a;
    QuotesNotBeforePart("", head, c + ");", '#');
    QuotesNotBeforePart(head + c, ");", "", '#');
    assert a + "" == a;
    MatchesOnly(Alternatives(Hex), a, |head|, |head + c|, '#');
    assert a[|head|..|head + c|] == c;
  }

  /** In an entry, the first occurrence of the colour literal is the entry's own. */
  lemma HexFindEntry(head: string, digits: string)
    requires QuotesNotBefore(head, '#') && HexDigits(digits)
    ensures Find(head + QuotedHex(digits) + ");", QuotedHex(digits)) == |head|
  {
    var c := QuotedHex(digits);
    var a := head + c + ");";
    assert "" + head + (c + ");") == a;
    QuotesNotBeforePart("", head, c + ");", '#');
    assert a[|head|..|head| + |c|] == c;
    FindFromSkip(a, c, 0, |head|);
  }

  /** The hex pass of an entry unquotes exactly its colour. */
  lemma HexPassEntry(head: string, digits: string)
    requires QuotesNotBefore(head, '#') && HexDigits(digits)
    ensures UnquoteKind(head + QuotedHex(digits) + ");", Hex) == head + ("#" + digits) + ");"
  {
    var c := QuotedHex(digits);
    var a := head + c + ");";
    var n := |head|;
    var r := ReplaceFirst(a, c, Unquote(c));
    assert r == head + ("#" + digits) + ");" by {
      HexFindEntry(head, digits);
      assert a[..n] == head;
      assert a[n + |c|..] == ");";
      assert Unquote(c) == "#" + digits;
    }
    HexMatchesEntry(head, digits);
    assert UnquoteAll(a, [c]) == UnquoteAll(r, []);
  }

  /** The rgb and hsl passes find nothing in an entry whose head has no quote before `r` or `h`. */
  lemma NoMatchPass(b: string, kind: ColorKind, c: char)
    requires (kind == Rgb && c == 'r') || (kind == Hsl && c == 'h')
    requires QuotesNotBefore(b, c)
    ensures UnquoteKind(b, kind) == b
  {
    var g := Alternatives(kind);
    assert QuoteThen(g, c);
    assert "" + b + "" == b;
    QuotesNotBeforePart("", b, "", c);
    MatchesSkip(g, b, 0, |b|, c);
  }

  lemma ColorTailQuoteFree(digits: string, c: char)
    requires HexDigits(digits)
    ensures QuotesNotBefore("#" + digits + ");", c)
  {
    var t := "#" + digits + ");";
    forall i: nat ensures !QuoteBefore(t, i, c) {
      if 1 <= i <= |digits| {
        assert t[i] == digits[i - 1];
      }
    }
  }

  /** The entry after unquoting, written as the text it is. */
  lemma EntryText(name: string, key: string, digits: string)
    ensures EntryHead(name, key) + ("#" + digits) + ");" == "$" + name + ":(\"" + key + "\": #" + digits + ");"
  {
    assert ":(" + "\"" == ":(\"";
    assert "\": " + "#" == "\": #";
  }

  /** An entry assembled: its head, its colour literal and `);`. */
  lemma AssembleEntry(name: string, key: string, digits: string)
    requires HexDigits(digits) && NoBrackets(key)
    ensures Assemble(name, ColorEntry(key, digits)) == EntryHead(name, key) + QuotedHex(digits) + ");"
  {
    assert NoBrackets(digits);
    AssembleColorEntry(name, key, digits);
    InnerSplit(key, digits);
    assert "$" + name + ":(" + Inner(key, digits) == "$" + name + ":(" + (("\"" + key) + "\": " + QuotedHex(digits));
  }

  /** The inside of an entry is its quoted key, `: ` and its colour literal. */
  lemma InnerSplit(key: string, digits: string)
    ensures Inner(key, digits) == ("\"" + key) + "\": " + QuotedHex(digits)
  {
    assert "\": \"#" == "\": " + "\"#";
  }

  lemma NoMatchEntry(name: string, key: string, digits: string, kind: ColorKind, c: char)
    requires (kind == Rgb && c == 'r') || (kind == Hsl && c == 'h')
    requires '"' !in name && key != [] && '"' !in key && key[0] != c && HexDigits(digits)
    ensures UnquoteKind(EntryHead(name, key) + ("#" + digits) + ");", kind) == EntryHead(name, key) + ("#" + digits) + ");"
  {
    var head := EntryHead(name, key);
    var b := head + ("#" + digits) + ");";
    assert b == head + ("#" + digits + ");");
    EntryHeadQuotes(name, key, c);
    ColorTailQuoteFree(digits, c);
    QuotesNotBeforeConcat(head, "#" + digits + ");", c);
    NoMatchPass(b, kind, c);
  }

  /**
   * A JSON file holding one colour entry `{"key": "#rrggbb"}` or
   * `{"key": "#rgb"}` becomes `$name:("key": #rrggbb);` or
   * `$name:("key": #rgb);`: the braces become parentheses, the key keeps
   * its quotes and the colour loses them.  The key must not start with a
   * character that would let a colour expression match at its opening
   * quote.
   */
  lemma ToSassColorEntry(name: string, key: string, digits: string)
    requires '"' !in name
    requires key != [] && '"' !in key && NoBrackets(key) && key[0] != '#' && key[0] != 'r' && key[0] != 'h'
    requires HexDigits(digits)
    ensures ToSass(name, ColorEntry(key, digits)) == "$" + name + ":(\"" + key + "\": #" + digits + ");"
  {
    AssembleEntry(name, key, digits);
    EntryHeadQuotes(name, key, '#');
    HexPassEntry(EntryHead(name, key), digits);
    NoMatchEntry(name, key, digits, Rgb, 'r');
    NoMatchEntry(name, key, digits, Hsl, 'h');
    EntryText(name, key, digits);
  }

  lemma ColorsJsonText()
    ensures ColorEntry("primary", "ff0000") == "{\"primary\": \"#ff0000\"}\n"
    ensures "$" + "colors" + ":(\"" + "primary" + "\": #" + "ff0000" + ");" == "$colors:(\"primary\": #ff0000);"
  {
  }

  /** The colours file of the project's JSON-map test: `{"primary": "#ff0000"}` and a newline. */
  lemma ColorsJson()
    ensures ToSass("colors", "{\"primary\": \"#ff0000\"}\n") == "$colors:(\"primary\": #ff0000);"
  {
    assert HexDigits("ff0000") && NoBrackets("primary");
    ToSassColorEntry("colors", "primary", "ff0000");
    ColorsJsonText();
  }

  /**
   * Each colour replaces its first occurrence in the current text, which
   * need not be where it was matched: in `""#abc"" "#abc"` the hex
   * expression matches `"#abc"` twice, the first replacement leaves
   * `"#abc" "#abc"`, and the second then unquotes the literal the outer
   * quotes form, so the second matched literal keeps its quotes.
   */
  lemma HexPassFirstOccurrence()
    ensures var c := QuotedHex("abc");
            var s := "\"" + c + ("\" " + c);
            c == "\"#abc\"" && Matches(Alternatives(Hex), s, 0) == [c, c] && UnquoteKind(s, Hex) == "#abc" + (" " + c)
  {
    AbcHexDigits();
    HexPassFirstMatches("abc");
    HexPassFirstReplaces("abc");
  }

  lemma AbcHexDigits()
    ensures HexDigits("abc") && |"abc"| == 3 && "#" + "abc" == "#abc" && QuotedHex("abc") == "\"#abc\""
  {
    var d := "abc";
    assert d[0] == 'a' && d[1] == 'b' && d[2] == 'c';
  }

  /** In `"c" c` the hex expression matches at positions 1 and 9, each time the literal `c`. */
  lemma HexPassFirstMatchAt(d: string)
    requires HexDigits(d) && |d| == 3
    ensures var c := QuotedHex(d);
            var s := "\"" + c + ("\" " + c);
            |s| == 15 && s[1..7] == c && s[9..15] == c &&
            MatchAt(Alternatives(Hex), s, 1) == 6 && MatchAt(Alternatives(Hex), s, 9) == 6
  {
    var c := QuotedHex(d);
    var tail := "\" " + c;
    HexMatchAt("\"", d, tail);
    var head := "\"" + c + "\" ";
    assert "\"" + c + tail == head + c + "";
    HexMatchAt(head, d, "");
  }

  /** In `"c" c` the hex expression matches nowhere else before the second literal. */
  lemma HexPassFirstNoMatchAt(d: string)
    requires |d| == 3
    ensures var c := QuotedHex(d);
            var s := "\"" + c + ("\" " + c);
            |s| == 15 && MatchAt(Alternatives(Hex), s, 0) == 0 &&
            MatchAt(Alternatives(Hex), s, 7) == 0 && MatchAt(Alternatives(Hex), s, 8) == 0
  {
    var c := QuotedHex(d);
    var s := "\"" + c + ("\" " + c);
    var g := Alternatives(Hex);
    assert s[1] == '"' && s[8] == ' ' && s[9] == '"';
    QuoteThenKinds();
    MatchAtQuoteThen(g, s, 0, '#');
    MatchAtQuoteThen(g, s, 7, '#');
    MatchAtQuoteThen(g, s, 8, '#');
  }

  /** Both copies of a three-digit literal in `"c" c` are matched. */
  lemma HexPassFirstMatches(d: string)
    requires HexDigits(d) && |d| == 3
    ensures var c := QuotedHex(d);
            Matches(Alternatives(Hex), "\"" + c + ("\" " + c), 0) == [c, c]
  {
    var g := Alternatives(Hex);
    var c := QuotedHex(d);
    var s := "\"" + c + ("\" " + c);
    HexPassFirstMatchAt(d);
    HexPassFirstNoMatchAt(d);
    MatchesStep(g, s, 9, 15);
    MatchesStep(g, s, 1, 7);
  }

  /** The first replacement in `"c" c` unquotes the first literal and leaves `c c`. */
  lemma HexPassFirstReplace(d: string)
    requires |d| == 3
    ensures var c := QuotedHex(d);
            ReplaceFirst("\"" + c + ("\" " + c), c, Unquote(c)) == c + (" " + c)
  {
    var c := QuotedHex(d);
    var s := "\"" + c + ("\" " + c);
    var u := Unquote(c);
    assert !OccursAt(s, c, 0) by {
      assert s[1] == '"' && c[1] == '#';
      assert s[0..6][1] == s[1];
    }
    assert s[1..7] == c;
    assert FindFrom(s, c, 1) == 1;
    assert Find(s, c) == FindFrom(s, c, 0) == 1;
    assert s[..1] == "\"" && s[7..] == "\" " + c;
    assert "\"" + u + "\"" == c;
  }

  /** The second replacement in `c c` unquotes the first literal again. */
  lemma HexPassSecondReplace(d: string)
    requires |d| == 3
    ensures var c := QuotedHex(d);
            ReplaceFirst(c + (" " + c), c, Unquote(c)) == "#" + d + (" " + c)
  {
    var c := QuotedHex(d);
    var s1 := c + (" " + c);
    assert s1[0..|c|] == c;
    assert Find(s1, c) == 0;
    assert s1[|c|..] == " " + c;
  }

  /** Replacing the first occurrence twice in `"c" c` unquotes the outer literal instead of the second one. */
  lemma HexPassFirstReplaces(d: string)
    requires |d| == 3
    ensures var c := QuotedHex(d);
            UnquoteAll("\"" + c + ("\" " + c), [c, c]) == "#" + d + (" " + c)
  {
    var c := QuotedHex(d);
    var s := "\"" + c + ("\" " + c);
    HexPassFirstReplace(d);
    HexPassSecondReplace(d);
    assert [c, c][1..] == [c];
    assert UnquoteAll(s, [c, c]) == UnquoteAll(c + (" " + c), [c]);
  }

  lemma ColorsJsonShortText()
    ensures ColorEntry("primary", "f00") == "{\"primary\": \"#f00\"}\n"
    ensures "$" + "colors" + ":(\"" + "primary" + "\": #" + "f00" + ");" == "$colors:(\"primary\": #f00);"
  {
  }

  /** The same file with a three-digit colour: `{"primary": "#f00"}` and a newline. */
  lemma ColorsJsonShort()
    ensures ToSass("colors", "{\"primary\": \"#f00\"}\n") == "$colors:(\"primary\": #f00);"
  {
    assert HexDigits("f00") && NoBrackets("primary");
    ToSassColorEntry("colors", "primary", "f00");
    ColorsJsonShortText();
  }
}
