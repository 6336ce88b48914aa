# copy-basta ignore engine, in Dafny

This project models the ignore engine of the copy-basta template generator
(`cmd/generate/parse/ignore.go`). The engine decides which entries of a
template tree take no part in generation.

- `newIgnorer(root, r)` reads an ignore file and splits it into lines.
  - Empty lines and `#` comments are skipped.
  - A line ending in `/` becomes a directory rule.
  - Every other line becomes a glob pattern.
  - Each rule is `filepath.Join(root, line)`.
  - A pattern that `filepath.Match` rejects ends construction with an error.
- `ignorer.ignore(s)` first walks the ancestors of `s` with `filepath.Dir`
  until it reaches `"."`, once per directory rule, and answers true when an
  ancestor equals the rule. Otherwise it tries the patterns in order:
  - the first pattern that matches answers true;
  - the first match-time error answers false.

The model has five modules.

- `Wrappers`: `Option` and `Result`.
- `Strings`: `strings.Split` on one character, and its inverse `JoinWith`.
- `Paths`: Go's `filepath.Clean`, `Join` and `Dir` on a Unix host, and the chain
  of ancestors that repeated `Dir` visits (`Ancestors`).
- `Glob`: Go's `filepath.Match` as implemented since Go 1.16, with its
  chunk scanning, its star back-tracking loop and its "keep scanning after a
  failure" rule, over a name of characters rather than bytes: the star loop
  steps one character at a time.
  - `WellFormed` is the pattern syntax the library documents, defined on the
    characters of the pattern alone. `Match` is proved to report
    `ErrBadPattern` exactly on patterns outside it, whatever the name.
  - Patterns made of literals, `?` and `*` also get a declarative meaning,
    `Matches`, and the library algorithm is proved to agree with it.
- `Ignore`:
  - the `Ignorer` class, whose `dirs` and `patterns` fields the methods append to;
  - the `NewIgnorer` method, which is the reading loop;
  - the `Ignorer.Ignore` method, which is the two query loops;
  - the specification functions these are proved against (`ParseLines`,
    `Build`, `DirLines`, `PatternLines`, `DirHit`, `FirstMatch`, `Ignored`);
  - lemmas about what those functions mean.

Inputs from outside the engine are parameters:

- `NewIgnorer` receives the ignore text as `Option<string>`, already read. `None` stands for a nil reader.
- `Ignore` receives the candidate path as a string.

Go's `ignore` stops at the first pattern whose matching fails, so with a
malformed pattern the answer depends on pattern order. With the Go 1.16
`filepath.Match` modelled here, this matters only for patterns `newIgnorer`
would never accept. `PatternOrderIrrelevant` proves order independence for
the patterns of a built ignorer. `FirstErrorHides` proves that the first
error hides every later match, and `ErrorHidesLaterMatch` shows the order
dependence that follows.

## Model

| member | source | states |
|---|---|---|
| Ignore.Ignorer.constructor | cmd/generate/parse/ignore.go:16 | a fresh ignorer holds no directory rules and no patterns |
| Ignore.NewIgnorer | cmd/generate/parse/ignore.go:15-47 | without a source the result is an empty ignorer. Otherwise the result is the error of the first malformed pattern line, or a fresh ignorer whose `dirs` and `patterns` are exactly the rules `Build` reads from the lines |
| Ignore.ReadStep | cmd/generate/parse/ignore.go:27-44 | one turn of the line loop. A blank or comment line changes nothing. A directory line appends its joined rule to `dirs`. A well-formed pattern line appends to `patterns`. A malformed one makes the whole reading fail |
| Ignore.ErrorStops | cmd/generate/parse/ignore.go:38-41 | once reading has failed, the lines after the failure do not change the outcome |
| Ignore.FailedLineFails | cmd/generate/parse/ignore.go:38-41 | the first failing line's error is the error of the whole source |
| Ignore.ParseLinesMeaning | cmd/generate/parse/ignore.go:27-44 | reading succeeds exactly when every pattern line joins onto the root as a well-formed pattern. On success the rules are the directory lines' rules and the pattern lines' rules, each in line order |
| Ignore.OneRulePerKeptLine | cmd/generate/parse/ignore.go:27-44 | the two rule lists together hold one entry per line that is neither empty nor a comment |
| Ignore.DirLineNeverFails | cmd/generate/parse/ignore.go:32-35 | a directory line is never glob-checked. It cannot make reading fail, and it adds nothing to the patterns |
| Ignore.BlankLineIsPattern | cmd/generate/parse/ignore.go:28 | lines are not trimmed: a line of spaces or tabs becomes a pattern rule, not a skipped line |
| Ignore.DirRuleShape | cmd/generate/parse/ignore.go:34 | a directory rule is the join of the root and the line with its trailing `/` removed |
| Ignore.DirRuleNoTrailingSlash | cmd/generate/parse/ignore.go:34 | every directory rule is non-empty and does not end in `/`, unless it is `/` itself |
| Ignore.BuiltPatternsWellFormed | cmd/generate/parse/ignore.go:38-43 | every pattern of a successfully built ignorer is well-formed |
| Ignore.NilSourceIgnoresNothing | cmd/generate/parse/ignore.go:17-19 | a nil source gives no rules, and no path is ignored |
| Ignore.Ignorer.Ignore | cmd/generate/parse/ignore.go:49-74 | whenever the Go loop ends, the result is `Ignored`: some directory rule is on the `Dir` chain of `s`, or the pattern loop answers true. The loop ends when `s` is relative, when there are no directory rules, or when the first one is an ancestor of `s` |
| Ignore.WalkFinds | cmd/generate/parse/ignore.go:51-60 | the inner walk ends for a relative path, and for an absolute path that has `dir` as an ancestor. It finds `dir` exactly when `dir` is one of the ancestors of `s` |
| Ignore.Ignorer.MatchPatterns | cmd/generate/parse/ignore.go:63-73 | the pattern loop computes `FirstMatch`: the first error gives false, the first match true, and no match false |
| Ignore.FirstMatchAny | cmd/generate/parse/ignore.go:63-73 | with well-formed patterns, the pattern loop answers whether some pattern matches the whole path |
| Ignore.PatternOrderIrrelevant | cmd/generate/parse/ignore.go:63-73 | with well-formed patterns, reordering them does not change the answer |
| Ignore.BuiltIgnorerMeaning | cmd/generate/parse/ignore.go:49-74 | for a built ignorer the query is existential: some directory rule is an ancestor of the path, or some pattern matches it |
| Ignore.FirstErrorHides | cmd/generate/parse/ignore.go:63-72 | when the first pattern that does not answer `false` reports an error, the query is false, whatever the later patterns would answer |
| Ignore.ErrorHidesLaterMatch | cmd/generate/parse/ignore.go:64-67 | a malformed pattern ahead of a matching one makes the query false. In the other order it is true |
| Ignore.DirRuleFires | cmd/generate/parse/ignore.go:50-61 | for a clean relative path, a directory rule `d` fires exactly when `d` followed by `/` begins `s`. The path itself never fires as its own directory rule |
| Ignore.WalkIsDirIter | cmd/generate/parse/ignore.go:52-56 | along the ancestor chain, the walk is `Dir` applied once per step |
| Ignore.WalkLength | cmd/generate/parse/ignore.go:52-56 | for a clean relative path, the walk reaches `"."` after exactly (number of `/`) + 1 steps, and not before |
| Ignore.Ignorer.IgnoreAnyPath | cmd/generate/parse/ignore.go:49-74 | with the walk also stopping at `/`, the query computes `Ignored` for every path, absolute ones included |
| Ignore.WalkFindsAny | cmd/generate/parse/ignore.go:51-60 | the walk that also stops at `/` ends for every path, and finds `dir` exactly when it is an ancestor |
| Paths.AbsoluteWalkNeverEnds | cmd/generate/parse/ignore.go:52-60 | from an absolute path, no number of `Dir` steps reaches `"."` |
| Paths.AncestorsOfClean | cmd/generate/parse/ignore.go:50-61 | the ancestors of a clean relative path are exactly the `d` for which `d` followed by `/` is a prefix of the path |
| Paths.AncestorCount | cmd/generate/parse/ignore.go:52-56 | a clean relative path has one ancestor per `/` in it |
| Paths.WalkStep | cmd/generate/parse/ignore.go:53-55 | `Dir` of the k-th point of the walk is the next ancestor. After the last ancestor of a relative path it is `"."` |
| Paths.AncestorMember | cmd/generate/parse/ignore.go:54 | no ancestor is `"."`, and `/` is an ancestor only as the last ancestor of an absolute path |
| Paths.DirOfRender | cmd/generate/parse/ignore.go:53 | `Dir` of a clean path with elements drops its last element |
| Paths.DirKeepsAbsolute | cmd/generate/parse/ignore.go:53 | `Dir` of an absolute path is absolute, so it is never `"."` |
| Paths.JoinTwo | cmd/generate/parse/ignore.go:34 | joining root and line is cleaning `root/line`, or the cleaned line when the root is empty |
| Paths.JoinDropsTrailingSlash | cmd/generate/parse/ignore.go:34 | joining a line with a trailing `/` gives the same rule as joining it without the `/` |
| Paths.CleanIdempotent | cmd/generate/parse/ignore.go:34 | cleaning a cleaned path changes nothing |
| Paths.CleanIsAbs | cmd/generate/parse/ignore.go:34 | cleaning keeps a path absolute or relative |
| Paths.CleanNoTrailingSlash | cmd/generate/parse/ignore.go:34 | a cleaned path is non-empty and ends in `/` only when it is `/` |
| Paths.CleanOfRender | cmd/generate/parse/ignore.go:34 | rendering clean elements gives a path that `Clean` leaves unchanged |
| Strings.JoinSplit | cmd/generate/parse/ignore.go:25 | joining the lines from `Split` with newlines gives back the text |
| Strings.SplitJoin | cmd/generate/parse/ignore.go:25 | splitting the join of newline-free lines gives back the lines |
| Strings.SplitCount | cmd/generate/parse/ignore.go:25 | `Split` gives one more line than the text has newlines |
| Glob.MatchErrorIffMalformed | cmd/generate/parse/ignore.go:39 | `filepath.Match` reports an error exactly when the pattern is outside the documented syntax (terms `*`, `?`, a class of one or more ranges, an escape, or a plain character), whatever the name |
| Glob.MatchErrorIndependent | cmd/generate/parse/ignore.go:39 | the construction-time check against `""` fails exactly when matching any name would fail |
| Glob.ValidateWellFormed | cmd/generate/parse/ignore.go:39 | the final scan of `Match`, chunk by chunk with `matchChunk`, reports an error exactly on patterns outside the documented syntax |
| Glob.WellFormedChunks | cmd/generate/parse/ignore.go:39 | a pattern follows the syntax exactly when its first chunk, as `scanChunk` cuts it, passes `matchChunk` and the rest of the pattern follows the syntax |
| Glob.MatchSimple | cmd/generate/parse/ignore.go:64 | on patterns of literals, `?` and `*`, `filepath.Match` decides the declarative `Matches` |
| Glob.GlobStar | cmd/generate/parse/ignore.go:64 | the pattern `*` matches a name exactly when the name has no `/` |
| Glob.SimpleWellFormed | cmd/generate/parse/ignore.go:39 | a pattern of literals, `?` and `*` is never rejected |

## Left out

- Reading the source (`ioutil.ReadAll`, lines 21-24) is input/output. The model takes the text as already read, so its read error is not modelled.
- `Glob.Match`: works on characters, where `filepath.Match` works on bytes. Go compares literals byte by byte, decodes one rune for `?` and for a class, and lets a star skip single bytes. So in Go a star can stop inside a multi-byte character, and `?` or a class then reads one continuation byte as `RuneError`. The model's star never stops inside a character. For example, Go's `Match("*??", "€")` is true (the name is 3 bytes), and the model's is false. The invalid-UTF-8 `ErrBadPattern` is not modelled either. `Glob.Match` and `Glob.MatchSimple` agree with Go on names of ASCII characters.
- Character classes (`[...]`, `^`, ranges) and `\` escapes have a declarative syntax (`WellFormed`) but no declarative matching meaning. What they match is modelled only as the library algorithm that runs them, so `Glob.MatchSimple` covers only literals, `?` and `*`.
- Windows paths (volume names, `\` separators) are not modelled. The model is the Unix `path/filepath`.
- Ignore.Ignorer.Ignore: requires that the Go loop ends. The loop does not end when `s` is absolute, there is a directory rule, and the first directory rule is not an ancestor of `s` (see Findings). A method that must terminate cannot model that case. `Paths.AbsoluteWalkNeverEnds` states what happens instead, and `Ignore.Ignorer.IgnoreAnyPath` gives the intended answer there.
- `filepath.Match` of Go releases before 1.16 is not modelled. No Go version is pinned among the modelled files. Those releases returned at the first mismatch, so `Match(p, "")` accepted some malformed patterns, such as `a[`. With them, the fail-open branch at lines 64-67 is reachable for an ignorer that was built.
- The template loader, the writer and the command-line wiring that call the engine are not part of this model.

## Findings

| source | as written | input that shows it | evidently intended | confidence | as-written member | corrected member |
|---|---|---|---|---|---|---|
| cmd/generate/parse/ignore.go:52-60 | the ancestor walk stops only at `"."`, but `filepath.Dir` of an absolute path never reaches `"."`: `Dir("/")` is `"/"` | `s = "/a"` with one directory rule `x`: the walk visits `/`, `/`, `/`, … forever | stop the walk at `/` as well, which leaves every answer for relative paths unchanged | high (proved on the model; not executed) | Paths.AbsoluteWalkNeverEnds | Ignore.Ignorer.IgnoreAnyPath |
