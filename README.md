# repolint checkers, modelled in Dafny

repolint lints a repository. It offers each file to a set of checkers, and
each checker either accepts the file or ignores it. Once every file has been
offered, each checker reports warnings about the files it accepted. This
project models the checkers in `checkers.go`:

- the shared `checkerBase`: the accepted files, `Reset`, `PushFile`,
  `acceptFile`, the temp-name list and the temp-to-original name replacer;
- the documentation-file filter (`README*`, `CONTRIBUTING*`, `TODO*`);
- the six checkers: misspelling, broken link, unwanted file, sloppy
  copyright, acronym, and variable typo.

Modules:

- `Text`: the pieces of Go's `strings` package, `unicode.IsSpace`, RE2's
  `\s` and `\w`, and `%d`, over Dafny strings. RE2's `\b` is
  `VarTypo.Boundary`.
- `Replacing`: `strings.Replacer`. At each position the earliest old string
  that matches wins. An empty old string inserts its new string before
  each character and at the end.
- `Repo`: the `repoFile` record.
- `Base`: `checkerBase`.
- One module per checker.

State is modelled as in the source:

- A `RepoFile` is a class. Its names are constants; its contents and its
  `require` flags are fields.
- A checker is a class. It holds the `CheckerBase` that Go embeds.
- `PushFile` changes the base's file list and the offered file's `require`
  flags.
- Each `CheckFiles` is a method with the source's loops. It is proved equal
  to a specification function of the snapshots `Entries(base.files)`. The
  lemmas prove what the warnings mean about those functions.

The two checkers that run an external program take the program's combined
output and whether it failed as parameters. The six unwanted-file patterns
and the documentation-file pattern are simple enough to be written out
directly as predicates. Each of the other regular expressions is replaced by
a dedicated matcher, and the matcher is proved equivalent to the expression
read directly:

- the sloppy-copyright alternation;
- the acronym alternation and its `FindAllString` scan;
- the variable-typo alternation and its `FindAllString` scan.

## Model

| member | source | states |
|---|---|---|
| Text.Split | checkers.go:69 | `strings.Split` on newlines yields at least one piece and no piece holds a newline |
| Text.JoinSplit | checkers.go:69 | joining the pieces with newlines gives the text back |
| Text.SplitJoin | checkers.go:69 | splitting the join of newline-free pieces gives the pieces back |
| Text.ContainsIff | checkers.go:106 | `strings.Contains` holds exactly when the substring starts at some position |
| Text.TrimLeft | checkers.go:110 | the result is a suffix; every character dropped is in the cutset; the first one kept is not |
| Text.TrimLeftPrefix | checkers.go:110 | trimming a cutset run off the front of `a + x` leaves exactly `x` when `x` starts outside the cutset |
| Text.DropLeading | checkers.go:112 | the leading run of characters that satisfy the predicate is removed, and nothing more |
| Text.DropTrailing | checkers.go:112 | the trailing run of characters that satisfy the predicate is removed, and nothing more |
| Text.TrimSpaceSurrounded | checkers.go:112 | `strings.TrimSpace` of white space, then a word, then white space is the word |
| Text.Decimal | checkers.go:250-251 | `%d` prints only digits, at least one, with no leading zero |
| Text.DecimalRoundTrip | checkers.go:250-251 | a printed line number reads back as the same number |
| Repo.RepoFile.constructor | checkers.go:17 | a new file record has the given names, no contents and no requirements |
| Repo.Entries | checkers.go:17 | one snapshot per accepted file, in order |
| Base.DocumentationFileIff | checkers.go:48-52 | a base name is a documentation file exactly when it starts with `README`, `CONTRIBUTING` or `TODO` |
| Base.DocumentationFileCaseSensitive | checkers.go:48-52 | the test is case-sensitive and applies to the base name only |
| Base.CheckerBase.constructor | checkers.go:16-18 | a new checker has accepted no file |
| Base.CheckerBase.Reset | checkers.go:20-22 | afterwards no file is accepted |
| Base.CheckerBase.PushFile | checkers.go:24-26 | the default push accepts the file at the end of the list |
| Base.CheckerBase.AcceptFile | checkers.go:28-30 | the file is appended and the earlier files keep their order |
| Base.CheckerBase.TempFilenames | checkers.go:32-38 | one temp name per accepted file, in order |
| Base.CheckerBase.FilenameReplacer | checkers.go:40-45 | one (temp name, original name) pair per accepted file, in order |
| Replacing.Lookup | checkers.go:45 | the pair chosen is the earliest whose old string matches here; none is chosen only when no pair matches |
| Replacing.ReplaceUnchanged | checkers.go:74 | a text in which no old string occurs comes out unchanged |
| Replacing.ReplaceLeftmost | checkers.go:74 | the leftmost occurrence is replaced, by the earliest pair that matches there, and replacing resumes after it |
| Replacing.FirstMatch | checkers.go:45 | the earliest matching non-empty old string is the one chosen |
| Replacing.EmptyKeyInterleaves | checkers.go:45 | an empty old string inserts its new string before each character and at the end |
| Replacing.OldStringCanRemain | checkers.go:74 | a replaced text can still contain an old string when a new string contains it |
| Misspell.NonEmpty | checkers.go:70-73 | every kept line is a non-empty line of the output, every non-empty line is kept, and no more lines come out than went in |
| Misspell.NonEmptyAppend | checkers.go:70-73 | the non-empty lines of `a + b` are those of `a`, then those of `b`, so order and repetitions are kept |
| Misspell.NonEmptyLine | checkers.go:71-73 | a single line is kept exactly when it is not empty |
| Misspell.ReplaceLines | checkers.go:70-75 | one warning per non-empty line, in order, each the replaced line |
| Misspell.MisspellWarnings | checkers.go:67-77 | no warning when the tool succeeds; otherwise one replaced warning per non-empty output line |
| Misspell.LineWithoutTempNameUnchanged | checkers.go:74 | an output line that mentions no temp name is reported unchanged |
| Misspell.LeadingTempNameReplaced | checkers.go:40-45 | with the replacer of all accepted files, a line that starts with a file's temp name reports that file's original name in its place, unless an earlier file's temp name also starts the line |
| Misspell.MisspellChecker.constructor | checkers.go:54 | a new checker has accepted no file |
| Misspell.MisspellChecker.PushFile | checkers.go:56-61 | a documentation file is accepted and needs a local copy; any other file is ignored and left unchanged |
| Misspell.MisspellChecker.Args | checkers.go:64-65 | the command line is `-error true` followed by the temp names in order |
| Misspell.MisspellChecker.CheckFiles | checkers.go:63-78 | the loop's warnings are `MisspellWarnings` of the output under the accepted files' replacer |
| BrokenLink.ParseLinks | checkers.go:97-125 | there are never more findings than ERROR lines |
| BrokenLink.ParseAt | checkers.go:98-112 | each kind of line steps the parse as the loop does: skip, change the file name, or consume the ERROR pair |
| BrokenLink.LinkWarnings | checkers.go:93-127 | a run of the tool that succeeds yields no warning |
| BrokenLink.FindingOrigin | checkers.go:106-124 | every finding's URL comes from some ERROR line, with the trimmed next line as its reason, and that reason is not suppressed |
| BrokenLink.OriginAfterPair | checkers.go:111-124 | a finding from after the first two lines also has an ERROR line of the whole report as its origin |
| BrokenLink.OriginInTail | checkers.go:99-108 | a finding from after the first line also has an ERROR line of the whole report as its origin |
| BrokenLink.NoSuppressedFinding | checkers.go:113-122 | a timeout or a local-file lookup never becomes a warning |
| BrokenLink.NoErrorLineNoWarning | checkers.go:106-108 | a report without a tab-indented ERROR line yields no warning |
| BrokenLink.HeaderStep | checkers.go:102-104 | a line not indented by a tab becomes the current file name, in replaced form |
| BrokenLink.ErrorPairStep | checkers.go:109-124 | an ERROR line consumes the next line as its reason, whatever that line looks like, and keeps the current file name |
| BrokenLink.ErrorLine | checkers.go:106-110 | `\tERROR <url>` is an ERROR line whose URL is `<url>` |
| BrokenLink.NotSuppressed | checkers.go:113-122 | a reason shorter than twelve characters other than "Timeout" is reported, since both suppressing phrases are longer |
| BrokenLink.UrlCutsetQuirk | checkers.go:110 | the cutset strips the characters E, R and O, not the word, so a URL that starts with them loses them |
| BrokenLink.AsWrittenAgrees | checkers.go:97-125 | where the loop as written does not panic it gives the corrected parse, and it panics only when the last line is an ERROR line |
| BrokenLink.AsWrittenPanics | checkers.go:111-112 | a report ending in an ERROR line makes the loop as written panic; the corrected parse reports nothing for it |
| BrokenLink.AppendFinding | checkers.go:124 | appending a finding adds its formatted warning at the end |
| BrokenLink.BrokenLinkChecker.constructor | checkers.go:80 | a new checker has accepted no file |
| BrokenLink.BrokenLinkChecker.PushFile | checkers.go:82-87 | a documentation file is accepted and needs a local copy; any other file is ignored and left unchanged |
| BrokenLink.BrokenLinkChecker.Args | checkers.go:90-91 | the command line is the 30-second timeout and the exclusions, then the temp names in order |
| BrokenLink.BrokenLinkChecker.CheckFiles | checkers.go:89-128 | the loop's warnings are `LinkWarnings` of the output under the accepted files' replacer |
| Unwanted.CollectStep | checkers.go:155-162 | one more element appends that element's warnings |
| Unwanted.CollectAppend | checkers.go:155-162 | gathering over two lists is gathering over each, in order |
| Unwanted.CollectPermutation | checkers.go:155-156 | gathering in another order gives the same warnings, up to order |
| Unwanted.CollectMembership | checkers.go:155-162 | a warning is gathered exactly when some element yields it |
| Unwanted.CollectOnce | checkers.go:155-162 | a warning that no element yields twice, and no two elements share, is gathered at most once |
| Unwanted.KindStep | checkers.go:156-161 | trying one more kind appends what it reports |
| Unwanted.FileWarningsUnfold | checkers.go:139-149 | a file's warnings are the six kinds' warnings in declaration order |
| Unwanted.KindOrderIrrelevant | checkers.go:156 | the order in which the pattern map is visited changes the warnings only in their order |
| Unwanted.LabelInjective | checkers.go:137-149 | different kinds have different names |
| Unwanted.WarningInjective | checkers.go:160 | different kinds give different warnings for the same file |
| Unwanted.KindWarningsOnce | checkers.go:156-161 | when no kind is tried twice, no warning is given twice |
| Unwanted.FileWarningsExactly | checkers.go:156-161 | a file gets each warning at most once, and gets it exactly when a kind whose pattern matches reports it |
| Unwanted.AtMostTwoKinds | checkers.go:139-149 | a base name matches at most two patterns |
| Unwanted.UnwantedWarningsMembership | checkers.go:155-163 | a warning is reported exactly when it is some accepted file's own warning |
| Unwanted.FileOrderIrrelevant | checkers.go:155 | the order of the files changes the warnings only in their order |
| Unwanted.MacSysExample | checkers.go:147 | `.DS_STORE` gets exactly the Mac OS warning |
| Unwanted.LockedSwapExample | checkers.go:139-145 | a lock file of a swap file gets both warnings |
| Unwanted.OrdinaryNameExample | checkers.go:139-149 | an ordinary name gets no warning |
| Unwanted.UnwantedFileChecker.constructor | checkers.go:135-152 | a new checker has accepted no file |
| Unwanted.UnwantedFileChecker.PushFile | checkers.go:24-26 | every file is accepted and nothing is requested of it |
| Unwanted.UnwantedFileChecker.CheckFiles | checkers.go:154-165 | the nested loop gives `UnwantedWarnings` of the accepted files |
| Unwanted.FileStep | checkers.go:155-163 | one more file appends its own warnings |
| Sloppy.SkipSpacesPrefix | checkers.go:174-176 | skipping `\s*` stops at the first character that is not white space |
| Sloppy.YearFullnameIff | checkers.go:174-176 | the deterministic matcher for `year,?\s*fullname` accepts exactly what the expression matches |
| Sloppy.YearFullnameWitness | checkers.go:174-176 | the matcher's choices are a match of the expression |
| Sloppy.YearFullnameFromWitness | checkers.go:174-176 | any match of the expression is found by the matcher |
| Sloppy.SpacedYearFullnameIff | checkers.go:175-176 | the same holds with a leading `\s*` |
| Sloppy.SloppyAtIff | checkers.go:173-179 | the matcher at one position accepts exactly what the case-insensitive alternation matches there |
| Sloppy.ContainsSloppyIff | checkers.go:195 | `MatchString` holds exactly when the alternation matches at some position |
| Sloppy.SloppyAtHasYear | checkers.go:173-179 | every notice contains `year` in some letter case |
| Sloppy.FilledInNotReported | checkers.go:195 | a text without `year` in any letter case is not reported |
| Sloppy.FoldPrefixAppend | checkers.go:179 | a word spelt in any letter case matches its lower-case literal |
| Sloppy.YearCommaFullname | checkers.go:174 | `year, fullname` in any letter case matches the tail of the alternatives |
| Sloppy.YearSpaceFullname | checkers.go:174 | `year fullname` in any letter case matches the tail of the alternatives |
| Sloppy.ParenNoticeAt | checkers.go:175 | `copyright (c) year, fullname` in any letter case is a notice |
| Sloppy.SignNoticeAt | checkers.go:176 | `copyright © year fullname` in any letter case is a notice |
| Sloppy.TemplateNoticeReported | checkers.go:175 | the template's `Copyright (c) year, fullname` is reported |
| Sloppy.UpperCaseNoticeReported | checkers.go:176-179 | `COPYRIGHT © YEAR FULLNAME` is reported |
| Sloppy.SloppyWarnings | checkers.go:193-201 | there are at most as many warnings as accepted files |
| Sloppy.SloppyWarningsAppend | checkers.go:194-199 | the warnings for `a + b` are those for `a`, then those for `b`, so they come in file order |
| Sloppy.SloppyWarningsOne | checkers.go:195-198 | one file gives one warning naming it when its text holds the notice, and none otherwise |
| Sloppy.SloppyWarningsMembership | checkers.go:194-198 | a warning names exactly the accepted files whose text holds the notice |
| Sloppy.SloppyCopyrightChecker.constructor | checkers.go:172-182 | a new checker has accepted no file |
| Sloppy.SloppyCopyrightChecker.PushFile | checkers.go:184-191 | exactly `LICENSE`, `LICENSE.md` and `LICENSE.txt` at the root are accepted and need their contents; others are ignored and left unchanged |
| Sloppy.SloppyCopyrightChecker.CheckFiles | checkers.go:193-201 | the loop gives `SloppyWarnings` of the accepted files |
| Acronym.KeysAgree | checkers.go:210-223 | the keys tried are exactly the map's keys |
| Acronym.AcronymKeysWellFormed | checkers.go:210-223 | the keys are non-empty lower-case words, and none is a prefix of another |
| Acronym.FirstKey | checkers.go:227-230 | the key chosen starts the text; when none is chosen, no key starts it |
| Acronym.KeyAt | checkers.go:227-230 | the key found at a position starts there; when none is found, no key starts there |
| Acronym.KeyAtIs | checkers.go:227-230 | any key that starts at a position is the one found there |
| Acronym.NoKeyAt | checkers.go:227 | no key starts at a character that is not a lower-case letter |
| Acronym.MatchAt | checkers.go:227 | a match found at a position ends after it and within the line |
| Acronym.MatchAtSound | checkers.go:227-230 | every match the matcher finds is one of the alternation's |
| Acronym.MatchAtComplete | checkers.go:227-230 | every match of the alternation at a position is the one the matcher finds |
| Acronym.MatchAtIff | checkers.go:227-230 | the matcher finds a match exactly where the alternation has one, with the same end |
| Acronym.FindAllSound | checkers.go:248-249 | every match found is a match of the alternation, and trims to a key |
| Acronym.TrimmedMatch | checkers.go:249 | trimming a match leaves its key |
| Acronym.FindAllEmptyIff | checkers.go:248 | the scan finds nothing exactly when no match starts at or after its start |
| Acronym.NoLowerCaseNoMatch | checkers.go:227 | a line without lower-case letters (an acronym already in capitals) gives no match |
| Acronym.NoSpaceNoMatch | checkers.go:227 | after the start of the line, a match needs white space before it |
| Acronym.SharedSpaceExample | checkers.go:248 | a space taken by one match cannot start the next, so `sql gui` reports only `sql` |
| Acronym.CapitalsExample | checkers.go:227 | `GUI` is not reported |
| Acronym.LongerWordExample | checkers.go:227 | a key inside a longer word such as `sqlite` is not reported |
| Acronym.UpperOf | checkers.go:213-222 | a string whose characters are the capitals of another's is its upper case |
| Acronym.ReplacementIsUpperCase | checkers.go:213-222 | every key is replaced by its own spelling in capitals |
| Acronym.FirstKeysUpper | checkers.go:213-217 | the first five keys are replaced by their capitals |
| Acronym.LastKeysUpper | checkers.go:218-222 | the last five keys are replaced by their capitals |
| Acronym.MapSeqStep | checkers.go:248-252 | one more element appends its image |
| Acronym.LinesWarningsSound | checkers.go:246-254 | every warning names a line of the file and a match of the alternation on that line, with the matched key and its acronym |
| Acronym.ScanReaches | checkers.go:248 | the non-overlapping scan reaches every match that no earlier match overlaps |
| Acronym.LinesWarningsComplete | checkers.go:246-254 | every key on a line delimited by the line's start or a space and by its end or a space is reported, with its line number and its capitals, unless an earlier match overlaps it |
| Acronym.AcronymChecker.constructor | checkers.go:209-235 | a new checker has accepted no file |
| Acronym.AcronymChecker.PushFile | checkers.go:237-242 | a documentation file is accepted and needs its contents; any other file is ignored and left unchanged |
| Acronym.AcronymChecker.CheckFiles | checkers.go:244-257 | the loop gives `AcronymWarnings` of the accepted files |
| Acronym.AcronymChecker.LinesWarningsOf | checkers.go:246-254 | the loop over a file's lines gives `LinesWarnings`, numbering lines from 1 |
| Acronym.AcronymChecker.MatchesWarnings | checkers.go:248-253 | the loop over a line's matches gives `MatchWarnings` |
| Acronym.MatchStep | checkers.go:248-253 | one more match appends its warning |
| Acronym.LineStep | checkers.go:247-254 | one more line appends its warnings |
| Acronym.FileStep | checkers.go:245-255 | one more file appends its warnings |
| VarTypo.TypoTableWellFormed | checkers.go:266-280 | the misspelt names are non-empty words, none listed twice |
| VarTypo.TypoNamesWords | checkers.go:266-280 | every misspelt name is a non-empty run of word characters |
| VarTypo.TypoNamesDistinct | checkers.go:266-280 | no misspelt name is listed twice |
| VarTypo.FirstAlt | checkers.go:285-291 | the alternative taken matches here, and no earlier entry's alternative does; none is taken only when none matches |
| VarTypo.FirstVar | checkers.go:285-291 | a match is a non-empty prefix starting with `$` |
| VarTypo.AltsExclusive | checkers.go:285-287 | two alternatives that match at the same place are for the same name and match the same text |
| VarTypo.BracedChar | checkers.go:287 | the characters of a matched `${name}` are the name's, then `}` |
| VarTypo.BracedSameLength | checkers.go:287 | two braced names that both match at the same place have the same length |
| VarTypo.AltUnique | checkers.go:285-291 | whichever entry's alternative matches is the one the alternation takes |
| VarTypo.FirstVarIff | checkers.go:285-291 | the alternation matches a text exactly when some entry's alternative matches it |
| VarTypo.FirstVarOrderIrrelevant | checkers.go:284 | the order in which the typo map is visited does not change what matches |
| VarTypo.MatchCarriesOver | checkers.go:284 | a match under one order of the entries is the match under any other |
| VarTypo.FindVarsOrderIrrelevant | checkers.go:284-309 | the order of the entries does not change the matches of a line |
| VarTypo.NoDollarNoVar | checkers.go:285-287 | nothing matches where there is no `$` |
| VarTypo.NoDollarInside | checkers.go:285-287 | a match holds no `$` after its first character |
| VarTypo.PositionsDisjoint | checkers.go:309 | matches never overlap |
| VarTypo.FoundSkip | checkers.go:309 | positions without a match add nothing |
| VarTypo.ScanFound | checkers.go:309 | the non-overlapping scan finds every match at every position, in order |
| VarTypo.FoundMembership | checkers.go:309 | a text is found exactly when it is the match at some position |
| VarTypo.FindVarsIff | checkers.go:309 | `FindAllString` finds a text exactly when the alternation matches it at some position of the line |
| VarTypo.SingleMatch | checkers.go:309 | a line whose only `$` starts a match yields exactly that match |
| VarTypo.GopathMatch | checkers.go:272-285 | `$GOPAHT` followed by `/` matches the `GOPAHT` entry |
| VarTypo.GopathExample | checkers.go:309 | `export PATH=$GOPAHT/bin` yields `$GOPAHT` |
| VarTypo.BracedMatch | checkers.go:279-287 | `${CLASPATH}` matches the `CLASPATH` entry |
| VarTypo.BracedExample | checkers.go:309 | the line `${CLASPATH}` yields itself |
| VarTypo.VarsMapLookup | checkers.go:282-289 | both of an entry's texts look up that entry's correction |
| VarTypo.MatchWarningsSound | checkers.go:309-313 | every warning for a line reports a match on it with that entry's correction |
| VarTypo.LinesWarningsSound | checkers.go:307-314 | every warning names a line of the file, an entry matched on it, and that entry's correction |
| VarTypo.MatchWarningsComplete | checkers.go:309-313 | every match on a line is reported with its entry's correction |
| VarTypo.LinesWarningsComplete | checkers.go:307-314 | every misspelling on every line is reported, with its line number and correction |
| VarTypo.VarTypoChecker.constructor | checkers.go:265-296 | a new checker has accepted no file, and its correction map holds exactly both texts of every entry |
| VarTypo.VarTypoChecker.PushFile | checkers.go:298-303 | a documentation file is accepted and needs its contents; any other file is ignored and left unchanged |
| VarTypo.VarTypoChecker.CheckFiles | checkers.go:305-317 | the loop gives `TypoWarnings` of the accepted files |
| VarTypo.VarTypoChecker.LinesWarningsOf | checkers.go:307-314 | the loop over a file's lines gives `LinesWarnings`, numbering lines from 1 |
| VarTypo.VarTypoChecker.MatchesWarnings | checkers.go:309-313 | the loop over a line's matches gives `MatchWarnings`, with corrections read from the map |
| VarTypo.MatchStep | checkers.go:309-313 | one more match appends its warning |
| VarTypo.LineStep | checkers.go:308-314 | one more line appends its warnings |
| VarTypo.FileStep | checkers.go:306-315 | one more file appends its warnings |

## Left out

- Running `misspell` and `liche` (`exec.Command`) is not modelled. Their combined output and whether they exited with an error are parameters of `CheckFiles`, and `Args` gives the command line.
- The `fileChecker` interface and the file provider that fills in `repoFile` are not part of this model. Files are offered by calling `PushFile`.
- Go's regular-expression engine is not modelled. The unwanted-file and documentation-file patterns are written out directly as predicates. The sloppy-copyright, acronym and variable-typo expressions are dedicated matchers proved equal to the expression read directly.
- The pattern source strings are not built as text. This covers the `parts` strings of the acronym and variable-typo checkers and the joined sloppy-copyright alternation; only what they match is modelled.
- Go map iteration order is unspecified. The unwanted-file model visits the kinds in declaration order, and `Unwanted.KindOrderIrrelevant` proves that any other order gives the same warnings up to order.
- The variable-typo table is an ordered list. `VarTypo.FindVarsOrderIrrelevant` proves the order does not change the matches.
- The acronym key order cannot change a match, because no key is a prefix of another (`Acronym.AcronymKeysWellFormed`).
- `(?i)` case folding and `Lower`/`Upper` cover ASCII letters only. Unicode folding, such as the Kelvin sign matching `k`, is not modelled.
- Strings are sequences of characters. Invalid UTF-8 in file contents or tool output is not modelled.
- `fmt.Sprintf` is modelled as concatenation, with `%d` as `Text.Decimal`.
- Slice capacity and the aliasing that `c.files[:0]` keeps in `Reset` are not modelled.
- `Replacing.OldStringCanRemain`: the replacer is applied once, as in the source. A temp name inside an original name is not replaced again.
- `VarTypo.VarTypoChecker.CheckFiles`: requires `Valid()`, meaning the correction map holds exactly the table's entries. The constructor establishes this and nothing else changes the map.
- The acronym checker is case-sensitive, because its pattern has no `(?i)`.
- `BrokenLink.BrokenLinkChecker.CheckFiles` follows the corrected parse. When the last line is an ERROR line, the loop stops instead of reading past the end (see Findings).

## Findings

| source | as written | input that shows it | evidently intended | confidence | as-written member | corrected member |
|---|---|---|---|---|---|---|
| checkers.go:111-112 | after an ERROR line, `i++` and then `lines[i]` are read without a bounds check | a failed run whose output is `a.md\n\tERROR x` (an ERROR line last, with no trailing newline) indexes past the end of `lines` and panics | an ERROR line with no reason line after it ends the parse and reports nothing | not executed | BrokenLink.AsWrittenPanics | BrokenLink.ParseLinks |
