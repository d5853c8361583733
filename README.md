# node-sass-import-once, modelled in Dafny

This project models the import resolution of the `node-sass-import-once`
importer for node-sass. Sass asks the importer for an `@import` URI seen in
the file `prev`. The importer then:

- works out an abstract name for the URI;
- expands it into an ordered list of candidate files (partials, index
  files, CSS, include paths, Bower packages);
- reads the first candidate that exists;
- turns JSON and YAML data files into a Sass variable assignment;
- hands the result to Sass through a per-compilation cache, so that every
  file is included at most once.

Both importers in the repository are modelled:

- the full one, `index.js`;
- the older `import-once.js`, which has no options, always tries index
  files, never tries CSS, delivers contents raw and reports errors in a
  different format.

Node's file system, working directory, platform separators, the `.bowerrc`
setting and the YAML library are parameters: the `Importer.Env` datatype.
The file system is a map from every readable path to its text, plus the
set of paths that exist.

Modules, one per file:

| file | module | what it holds |
|---|---|---|
| wrappers.dfy | `Wrappers` | `Option` and `Result` |
| text.dfy | `Text` | the JavaScript string operations used: `indexOf`, `lastIndexOf`, `replace` with a string or one-character pattern, `split`, `join` |
| paths.dfy | `Paths` | `path.basename`, `dirname`, `extname`, `join`, `resolve` over `/`-separated paths; `makeFsPath` |
| candidates.dfy | `Candidates` | the candidate lists of getFileNames, getBowerNames and getIncludePaths as functions, with their properties |
| generators.dfy | `CandidateLists` | the same three generators as the push/concat loops of the source, each proved to build its function's list |
| sassjson.dfy | `SassJson` | parseJSON: the bracket rewrite, the `$name:…;` assembly, and the three colour regular expressions as a small pattern matcher with global-match semantics |
| probe.dfy | `Probe` | the first-hit walk of readFirstFile |
| oncecache.dfy | `OnceCache` | importOnce and the cache as a class with a set field |
| importer.dfy | `Importer` | option defaulting, readFirstFile, readAbstractFile and importer of `index.js`, as a `Context` class holding the options and the cache |
| legacy.dfy | `Legacy` | getFileNames, readFirstFile, readAbstractFile and importer of `import-once.js` |

Stateful code is modelled as methods on classes:

- the options and the cache live in `Importer.Context` (and
  `Legacy.Context`);
- the record of delivered files lives in `OnceCache.Cache`.

Each loop of the source is a method with loop invariants, proved equal to
a specification function:

- the `forEach` pushes and concatenations;
- the shifting walk of `readFirstFile`;
- the colour `forEach` of parseJSON.

The properties are proved as lemmas about those functions.

### Behaviour of the code that is easy to miss

- When `prev` does not exist, `index.js:312` looks the URI up under the
  working directory itself (`process.cwd()`), not under the URI resolved
  against it. The URI then plays no part in the own candidates:
  - a working directory whose base name has an extension, such as
    `/home/u/site.v2`, is its own only candidate
    (`Importer.MissingPrevDottedCwd`);
  - otherwise the own candidates are `<cwd>.scss`, `_<base>.scss` beside
    the working directory, `<cwd>/index.scss` with `index`, and so on.
    When one of them is readable, every such import gets that file,
    whatever its URI (`Importer.MissingPrevIgnoresUri`). Only when none is
    readable can the include paths or Bower supply one.

  `Importer.AbstractName` models this as written.
- A relative `prev` is resolved under the working directory, as
  `path.resolve` does, so the abstract name is absolute whenever the
  working directory is.
- A data file `colors.json` holding `{"primary": "#ff0000"}` and a newline
  (the kind of file the JSON-map test of `test/main.js` imports) becomes
  `$colors:("primary": #ff0000);` (`SassJson.ColorsJson`). No space
  follows the colon, and keys keep their quotes: only colour literals are
  unquoted.
- The colour passes do not unquote every matched literal. Each matched
  colour replaces its first occurrence in the text as it stands
  (index.js:185), which can be another literal. In `""#abc"" "#abc"`,
  which a `.js` data file may hold, both `"#abc"` are matched; the first
  replacement leaves `"#abc" "#abc"`, and the second then unquotes the
  pair of outer quotes, giving `#abc "#abc"`
  (`SassJson.HexPassFirstOccurrence`). This is why
  `SassJson.UnquoteKindQuotes` in general only counts the quotes removed;
  where every match is the only occurrence of its text, as in a one-entry
  object, the colour itself is unquoted (`SassJson.HexPassEntry`).
- `index.js:234` treats `.js` files as data files, like `.json`, `.yml`
  and `.yaml`. `import-once.js` transforms nothing and delivers every file
  raw. Both are modelled as written.

## Model

| member | source | states |
|---|---|---|
| Text.IndexOfFirst | index.js:93 | `indexOf` returns the first position holding the character, and -1 only when there is none |
| Text.LastIndexOfLast | index.js:59 | no occurrence of the character lies after the position `lastIndexOf` returns |
| Text.LastIndexOfUnique | index.js:59 | a position holding the character with none after it is the one `lastIndexOf` returns |
| Text.FindFirst | index.js:185 | `indexOf` with a string finds the first occurrence: there is none before the returned position, and none at all on -1 |
| Text.FindChar | index.js:19 | searching for a one-character string is searching for the character |
| Text.ReplaceAllAt | index.js:166-169 | a global one-character replace changes every occurrence of the character and no other position |
| Text.SplitParts | index.js:141 | no part produced by `split` contains the delimiter |
| Text.JoinSplit | index.js:141 | joining the parts of a split with the delimiter gives the original string back |
| Text.SplitJoin | index.js:141 | splitting a join of delimiter-free parts gives the parts back, so every include path is seen exactly once and in order |
| Text.JoinWithMentions | index.js:230 | every part of a joined list occurs in the joined text |
| Text.MessageNamesAll | index.js:230 | an error built from a head, the URI, a middle part and the joined examined files names the URI and every examined file |
| Paths.Basename | index.js:59 | the base name is the whole path exactly when the path holds no `/` |
| Paths.Dirname | index.js:58 | the directory is `.`, `/`, or the part that, followed by `/` and the base name, gives the path back; the directory of an absolute path is absolute |
| Paths.DirnameCases | index.js:58 | which one: `.` exactly for a path without `/`, `/` when the only `/` is the leading one, otherwise the non-empty text before the last `/`, which with `/` and the base name gives the path back |
| Paths.Ext | index.js:54 | the extension is empty or a `.` with no further `.`, ending the base name and shorter than it |
| Paths.Join | index.js:64-72 | an empty part is ignored; otherwise the result is at most one character longer than both parts together; a join onto an absolute path is absolute |
| Paths.JoinParts | index.js:64-72 | two non-empty parts are joined in order: the result starts with the first part and ends with the second, and a `/` is put between them exactly when the first part does not already end with one |
| Paths.Resolve | index.js:300 | the result is empty exactly when every segment is, and absolute as soon as one segment is |
| Paths.BasenameSuffix | index.js:59 | the base name is a suffix of the path, preceded by `/` when it is not the whole path |
| Paths.BasenameHasNoSlash | index.js:59 | a base name holds no `/` |
| Paths.ExtShape | index.js:54 | a non-empty extension starts with `.` and is shorter than the base name |
| Paths.ExtEmpty | index.js:54 | a path has no extension exactly when its base name is `..` or has no `.` after its first character |
| Paths.ExtOfBasename | index.js:54 | the extension depends on the base name only |
| Paths.FirstSegment | index.js:93 | `uri.split('/')[0]` is a slash-free prefix of the URI, followed by `/` when shorter |
| Paths.MakeFsPath | index.js:16-22 | same length; identity when the separator is `/`; only the first `/` becomes the separator and every other character is kept |
| Paths.MakeFsPathUndo | index.js:16-22 | turning the separator back into `/` undoes makeFsPath when the separator did not occur in the import path |
| Paths.MakeFsPathKeepsLaterSlashes | import-once.js:15-21 | a second `/` survives makeFsPath on every platform, because the regular expression has no global flag |
| Paths.BasenameAppend | index.js:79 | the base name of `x + y` is that of `y` when `y` holds a `/`, and extends that of `x` otherwise |
| Paths.BasenameJoin | index.js:64-72 | `path.join` keeps the base name of its last part |
| Paths.ResolveStep | index.js:110 | `path.resolve` joins a relative non-empty last segment onto the resolution of the others |
| Paths.ResolveLast | index.js:300 | resolving keeps the base name and extension of a non-empty last segment |
| Paths.ExtAppend | index.js:79 | appending an extension to a path with a base name gives that extension |
| Paths.ExtJoin | index.js:64-72 | `name + ext` joined into any directory has extension `ext` |
| Paths.JoinDirname | index.js:64-72 | joining the directory of `a/b` with a name is joining `a` with it |
| Candidates.FileNames | index.js:49-83 | a name with an extension gives just itself; otherwise 4 candidates, plus 4 with `index` and 1 with `css` |
| Candidates.VariantExt | index.js:62-66 | the four variants alternate `.scss` and `.sass` |
| Candidates.IndexCandidate | index.js:69-75 | with `index`, candidates 4 to 7 are the index variants inside the name |
| Candidates.CandidateExt | index.js:62-80 | every candidate of an extensionless name has `.scss` or `.sass` (alternating), or `.css` for the last one with `css` |
| Candidates.CandidatesAreExplicit | index.js:54-56 | expanding any candidate again yields only that candidate, whatever the options |
| Candidates.ExpandAllMembers | index.js:129-131 | a name is in the concatenated expansion exactly when it is a candidate of one of the bases |
| Candidates.ExpandAllFrom | index.js:129-131 | every name of the expansion comes from a base, which the lemma names |
| Candidates.ExpandAllInto | index.js:129-131 | every candidate of every base is in the expansion |
| Candidates.ExpandAllAppend | index.js:129-131 | concatenating the expansions keeps the order of the bases |
| Candidates.ExpandAllLength | index.js:129-131 | when every base expands to `n` names, the total is `n` times the number of bases |
| Candidates.ExpandAllAt | index.js:129-131 | the names of one base sit right after those of all bases before it |
| Candidates.BowerRootSpec | index.js:91-107 | an absolute `.bowerrc` directory is used as it is; a relative one is joined onto the working directory; without a non-empty one the root is `bower_components` joined onto the working directory; under an absolute working directory the root is absolute |
| Candidates.BowerDirs | index.js:110-126 | one Bower directory for a `.` or `..` URI; otherwise 8, or 10 with `css` |
| Candidates.BowerRelativeOnly | index.js:112 | a URI starting with `.` or `..` is looked up in the Bower directory only |
| Candidates.BowerBasesAlike | index.js:110-124 | every Bower base ends in the URI, so every one expands to as many names as the URI itself |
| Candidates.BowerNamesLength | index.js:88-134 | the number of Bower candidates is the number of bases times the number of names per base |
| Candidates.PlainPackage | index.js:93-97 | a plain package name is its own first segment, unchanged by makeFsPath, with no extension |
| Candidates.PlainBowerNames | index.js:110-131 | with no options, a plain package yields 32 Bower candidates, the expansions of its 8 bases |
| Candidates.PlainBowerBase | index.js:114 | the third Bower base of a plain package is `pkg/stylesheets/pkg` under the Bower directory |
| Candidates.StylesheetsPartialName | index.js:62-66 | the third candidate of that base is `_pkg.scss` in `pkg/stylesheets` |
| Candidates.BowerStylesheetsPartial | index.js:88-134 | with no options, candidate 11 for a plain package is `bower/pkg/stylesheets/_pkg.scss`, after ten candidates of higher precedence |
| Candidates.IncludeBasesCons | index.js:145-147 | the first include path's base comes first, then those of the others |
| Candidates.IncludeNamesMembers | index.js:139-150 | a name is an include-path candidate exactly when it is a candidate of the URI resolved under one of the split include paths |
| Candidates.IncludeNamesInOrder | index.js:139-150 | an include-path string yields the candidates of its first directory, then those of the rest |
| CandidateLists.PushVariants | index.js:62-66 | the nested `forEach` appends the four variants, prefix outer and extension inner |
| CandidateLists.GetFileNames | index.js:49-83 | the pushes build exactly `FileNames` for the effective `index` and `css` |
| CandidateLists.ConcatFileNames | index.js:129-131 | the concatenating `forEach` builds the expansion of every base in order |
| CandidateLists.PushResolved | index.js:110 | one push adds `path.resolve(...dir, uri)` after the paths of the directories before |
| CandidateLists.PushGemPaths | index.js:113-120 | the seven pushes add the seven Ruby-gem locations in source order |
| CandidateLists.PushDistPaths | index.js:122-125 | the two pushes add the `dist` and `dist/css` locations |
| CandidateLists.GetBowerPath | index.js:91-107 | the method computes the Bower root: the `.bowerrc` directory when set and non-empty, else `bower_components`, resolved under the working directory |
| CandidateLists.PushBowerPaths | index.js:109-126 | the pushes build exactly the Bower base paths: the Bower directory, then the gem and `dist` locations unless the URI starts with `.` or `..` |
| CandidateLists.GetBowerNames | index.js:88-134 | the method builds exactly `BowerNames` for the Bower root from `.bowerrc` or `bower_components` |
| CandidateLists.GetIncludePaths | index.js:139-150 | the method builds exactly `IncludeNames` for the split include-path string |
| CandidateLists.ExpandUnder | index.js:145-147 | the `forEach` concatenates the candidates of the URI resolved under each include path |
| SassJson.VariableName | index.js:156 | the variable name holds no `/`, and is the whole base name for a file without an extension |
| SassJson.VariableNameDropsExt | index.js:156 | when the extension occurs only at the end of the base name, the variable name is the base name without it |
| SassJson.Delimit | index.js:166-169 | the bracket rewrite keeps the length of the data |
| SassJson.DelimitSpec | index.js:166-169 | the bracket rewrite keeps the length, leaves no bracket or brace, and changes nothing else |
| SassJson.DelimitAppend | index.js:166-169 | the bracket rewrite works character by character |
| SassJson.DropNewlineAfter | index.js:173-175 | only a trailing newline of the data is dropped, never part of the `$name:` prefix |
| SassJson.AssembleOneNewline | index.js:171-177 | exactly one trailing newline is dropped: data with and without one newline assemble alike, and a second one survives |
| SassJson.Assemble | index.js:171-177 | the assembled assignment is never empty and ends with `;` |
| SassJson.AssembleShape | index.js:156-177 | the assembled text starts with `$name:`, ends with `;`, and has no brackets except those of the name |
| SassJson.MatchPatternLast | index.js:182 | a match of a pattern ending in a literal character ends in that character |
| SassJson.AlternativesQuoted | index.js:182-206 | all three colour expressions begin and end with a literal double quote |
| SassJson.MatchAtQuoted | index.js:182-206 | every match of a colour expression is a double-quoted literal |
| SassJson.MatchesQuoted | index.js:182-206 | every colour the global match returns is double-quoted |
| SassJson.Matches | index.js:182 | the global match finds at most one literal per character searched |
| SassJson.MatchesInOrder | index.js:182 | the matched literals occur in the text one after the other, each where it was matched |
| SassJson.MatchesOnly | index.js:182 | a match with no quote able to start another match before or after it is the only match |
| SassJson.MatchesNone | index.js:182-183 | the global match is empty (the `null` the guard skips) exactly when the expression matches nowhere |
| SassJson.MatchesFirst | index.js:182 | the first colour found is the text of the leftmost position where the expression matches |
| SassJson.Unquote | index.js:185 | `slice(1, -1)` of a quoted literal is its inside, two characters shorter |
| SassJson.UnquoteOneFrame | index.js:184-186 | one replacement keeps the `$name:` prefix and the final `;` and never makes the text longer |
| SassJson.UnquoteOneNoBrackets | index.js:184-186 | one replacement brings in no bracket |
| SassJson.UnquoteAllKeeps | index.js:183-187 | unquoting any list of quoted colours keeps the prefix, the final `;` and the absence of brackets |
| SassJson.UnquoteFirst | index.js:184-186 | replacing the first of in-order literals leaves the others in order and the text with two double quotes fewer |
| SassJson.UnquoteAllQuotes | index.js:183-187 | unquoting in-order quoted literals removes exactly two double quotes per literal and no other character |
| SassJson.UnquoteKindQuotes | index.js:182-211 | each colour pass removes exactly two double quotes per literal its expression matches, and no other character |
| SassJson.HexThreeMatch | index.js:182 | a quote, `#`, three hexadecimal digits and a quote match as a whole: the six-digit reading fails at the closing quote and the expression backtracks to three digits |
| SassJson.HexMatchesEntry | index.js:182 | in a `"key": "#rrggbb"` or `"key": "#rgb"` entry whose key cannot start a match, the hex expression matches the colour literal only |
| SassJson.HexPassEntry | index.js:182-187 | the hex pass over such an entry unquotes exactly its colour, of six or three digits |
| SassJson.HexPassFirstOccurrence | index.js:182-187 | in `""#abc"" "#abc"` both literals `"#abc"` are matched, but the pass yields `#abc "#abc"`: each replacement takes the first occurrence in the current text, so the second match unquotes the outer pair and the second literal stays quoted |
| SassJson.UnquoteKindKeeps | index.js:182-211 | each of the three passes keeps the prefix, the final `;` and the absence of brackets |
| SassJson.PassesKeep | index.js:180-211 | the hex, rgb/rgba and hsl/hsla passes in turn never lengthen the text, and keep its frame and its absence of brackets |
| SassJson.ToSassKeeps | index.js:155-214 | all three passes together keep the frame and the absence of brackets of the assembled text |
| SassJson.ToSass | index.js:155-214 | the unquoting passes only remove characters: the output is never longer than the assembled text, and it always ends with the `;` of index.js:177 |
| SassJson.ToSassColorEntry | index.js:155-214 | a JSON object with one entry `"key": "#rrggbb"` or `"key": "#rgb"` becomes `$name:("key": #rrggbb);` or `$name:("key": #rgb);`: braces become parentheses, the key keeps its quotes and the colour loses them; the key must be quote- and bracket-free and must not start with `#`, `r` or `h` |
| SassJson.ColorsJson | index.js:155-214 | `{"primary": "#ff0000"}` and a newline, read from `colors.json`, become `$colors:("primary": #ff0000);` |
| SassJson.ColorsJsonShort | index.js:155-214 | with a three-digit colour, `{"primary": "#f00"}` and a newline become `$colors:("primary": #f00);` |
| SassJson.ToSassStarts | index.js:156 | the output starts with `$name:` when the name holds no double quote |
| SassJson.ToSassNoBrackets | index.js:166-169 | every bracket and brace of the data became a parenthesis: the output holds none unless the name does |
| SassJson.Transform | index.js:155-214 | the transform of any data file, YAML or JSON, ends with `;` |
| SassJson.UnquoteColors | index.js:184-186 | the `forEach` replaces each colour's first occurrence in the current text in turn |
| SassJson.UnquotePass | index.js:182-187 | one colour pass is the global match followed by the unquoting |
| SassJson.AssembleText | index.js:156-177 | the step-by-step construction of `fileReturn` builds the assembled assignment |
| SassJson.ParseJson | index.js:155-214 | the method computes the whole transform: YAML conversion, assembly, then hex, rgb/rgba and hsl/hsla unquoting in that order |
| Probe.FirstReadable | index.js:220-243 | the index found is at most the list length, and below it the candidate is readable |
| Probe.FirstReadableFirst | index.js:220-243 | no candidate before the one found is readable |
| Probe.FirstReadableFound | index.js:220-243 | a readable candidate is found exactly when the list holds one |
| Probe.FirstReadableAppend | index.js:252-262 | the candidates after the first readable one never matter |
| Probe.FirstReadablePrefix | index.js:252-262 | when the first part of a list holds a readable candidate, the whole list settles on the same one |
| Probe.FirstReadableFirstPart | index.js:252-262 | a list of three parts whose first part holds a readable candidate settles on that part's first readable candidate |
| Probe.Walk | index.js:220-228 | the shifting walk stops at the first readable candidate, with the candidates up to it examined, or examines them all |
| OnceCache.Answer | index.js:27-38 | the data passes through exactly when its file was not delivered before |
| OnceCache.Files | index.js:27-38 | the files of a delivery stream are exactly those of its elements |
| OnceCache.AfterGrows | index.js:35 | the record only grows, by exactly the files delivered |
| OnceCache.RepliesAt | index.js:27-38 | each reply is the answer given the files delivered before it |
| OnceCache.OnceOnly | index.js:27-38 | in any sequence of imports, a file's data passes at most once; every repeat gets empty contents under `already-imported:` plus the file |
| OnceCache.Cache.ImportOnce | index.js:27-38 | the reply is the answer for the old record, and the file is added to the record |
| Importer.WithDefaults | index.js:275-292 | after defaulting the options object exists, no flag changes truthiness, truthy values are kept, falsy ones become `false` |
| Importer.DefaultsIdempotent | index.js:275-292 | defaulting twice is defaulting once |
| Importer.Contents | index.js:234-240 | a file that is not `.js`, `.json`, `.yml` or `.yaml` is handed over as read; a data file becomes text ending with `;` |
| Importer.Lookup | index.js:220-243 | the lookup succeeds exactly when a candidate is readable, and then names a readable candidate |
| Importer.LookupSpec | index.js:220-243 | the lookup succeeds exactly when a candidate is readable; it then delivers the first readable one, parsed exactly when it is `.js`, `.json`, `.yml` or `.yaml`; otherwise the error names the URI and every candidate |
| Importer.CandidateList | index.js:252-262 | the candidate list is never empty |
| Importer.OwnCandidatesFirst | index.js:252-262 | when one of the abstract name's own candidates is readable, the lookup settles on it, whatever the include paths and Bower hold |
| Importer.AbstractName | index.js:299-312 | when `prev` does not exist the name is the working directory; next to an existing file it keeps the URI's base name and extension |
| Importer.MissingPrevIgnoresUri | index.js:311-312 | when `prev` does not exist and one of the working directory's own candidates is readable, every import gets the same result, whatever its URI |
| Importer.MissingPrevDottedCwd | index.js:311-312 | when `prev` does not exist and the working directory's base name has an extension, the working directory is its own only candidate |
| Importer.Outcome | index.js:301-308 | the reply is `{}` exactly when the lookup failed, and passes the data exactly when it succeeded with a file not delivered before |
| Importer.Context.SetDefaults | index.js:275-292 | the options become their defaulted form and the cache is untouched |
| Importer.Context.ReadFirstFile | index.js:220-243 | the walk and the data-file transform compute the lookup |
| Importer.Context.ReadImport | index.js:299-312 | the file is looked up from the candidates of the name beside an existing `prev`, else of the working directory itself |
| Importer.Context.ReadAbstractFile | index.js:246-263 | the candidate list is own names, then include paths when set, then Bower when on, and it is looked up |
| Importer.Context.Import | index.js:268-322 | defaulted options; a cache created only when missing; the reply is `{}` on failure or the cache's answer for the lookup under the abstract name; the record gains exactly the delivered file |
| Legacy.GetFileNames | import-once.js:47-70 | the pushes build the full importer's list with `index` on and `css` off |
| Legacy.EightCandidates | import-once.js:52-67 | an extensionless name has exactly eight candidates: the four siblings, then the four index files |
| Legacy.CandidatesAreStylesheets | import-once.js:55-67 | those candidates alternate `.scss` and `.sass`, and none is CSS |
| Legacy.Lookup | import-once.js:81-101 | the lookup succeeds exactly when a candidate is readable, and then delivers a readable candidate with its contents as read |
| Legacy.LookupSpec | import-once.js:81-101 | the lookup succeeds exactly when a candidate is readable; it then delivers the first readable one with raw contents; otherwise the error names the URI and every candidate |
| Legacy.AgreesWithImporter | import-once.js:94-98 | both importers pick the same file from the same candidates, with the same contents unless it is a data file |
| Legacy.AbstractName | import-once.js:115-116 | the abstract name keeps the URI's base name and extension |
| Legacy.ReadFirstFile | import-once.js:81-101 | the walk computes the legacy lookup |
| Legacy.ReadAbstractFile | import-once.js:73-75 | the lookup is over the eight-candidate list |
| Legacy.Context.Import | import-once.js:106-126 | a cache created only when missing; no reply at all and an untouched record when `prev` does not exist; otherwise `{}` on failure or the cache's answer, the record gaining exactly the delivered file |

## Left out

- File system access, its asynchrony, `console.log` of the error, and `Buffer` versus string are not modelled. A read either finds the path in the map of readable files or fails, and contents are strings.
- `fs.existsSync` is membership in a set of existing paths. `process.cwd()`, `path.sep` and `path.delimiter` are fields of the environment.
- The `.bowerrc` file is a parameter: the `directory` it sets, or none. A `.bowerrc` that is not valid JSON, which makes the source throw, is not modelled.
- `yaml.safeLoad` followed by `JSON.stringify` is an opaque function parameter. YAML parsing is not modelled.
- The JavaScript regular-expression engine is not modelled. The three colour expressions are a small pattern matcher. Its greedy choices equal the regex's backtracking for these three expressions, because an optional `a` is always followed by `(` and a number by a non-digit.
- Paths: `path.resolve` and `path.join` do not normalise `.` and `..` segments or repeated slashes, and keep a trailing slash. So `@import "foo/"` from `/p/main.scss` gives candidates such as `/p/foo/.scss` and `/p/foo/_.scss`, where Node gives `/p/foo.scss` and `/p/_foo.scss`. `path.extname` and `path.dirname` do not strip trailing slashes. The path functions treat only `/` as a separator, so a Windows separator inserted by makeFsPath is an ordinary character to them.
- Option values are either booleans or other values that are only truthy or falsy. `includePaths` is the delimited string node-sass passes, and the empty string is its only falsy value.
- The cache object's key lookup is set membership. Keys that collide with `Object.prototype` properties such as `constructor` are not modelled.
- `readFirstFile` is never called with an empty list, so its model requires a non-empty one. Every candidate list holds at least the abstract name's own candidates.
- The `css` parameter of `readFirstFile` in `index.js` is never used by the function, so it is not modelled.
- Legacy.Context.Import: an import that is never answered (`done` is not called) is modelled as the reply `None`; Sass waiting for that reply is not modelled.
