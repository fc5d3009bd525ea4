# changelog-generator-regex, modelled in Dafny

changelog-generator-regex writes the next release into a `CHANGELOG.md`.
It does five things:

1. It reads the last released version from the changelog.
2. It asks whether to bump the major, minor or patch number.
3. It reads `git log` back to the last release.
4. It sorts the commit subjects into buckets by their commit type.
5. It renders a release block and splices it into the changelog at the "entry point" line
   `_---> Here is the next release entry point <---_`.

The repository holds two generations of this pipeline, and the model covers both.

- **The refactored helpers** are in `src/helpers/`:
  - `stringParsing.js`: the numeric version bump, log truncation, sorting by configured
    regex, the release block, the default header, and the version and indentation
    readers.
  - `markdown.js`: the markdown pieces.
  - `regularExpressions.js`: the three fixed regexes and the merge-line filter.
  - `date.js`: the two-digit date padding.
- **The stand-alone release scripts** are `gen_new_release.js` and `src/main.js`. They hold
  the same functions, with the same string and bump logic. `src/main.js` orders
  them differently, takes its constants from `src/values/STRINGS.js` and its
  prompts from `src/helpers/askUser.js`. A single model serves both. The table below cites
  `gen_new_release.js`. These are the matching lines of `src/main.js`:

  | script function | gen_new_release.js | src/main.js |
  |---|---|---|
  | `extractVersion` | 78-81 | 64-67 |
  | `getNegativeCommitRegexp` | 83-94 | 69-80 |
  | `getLastReleaseVersion` | 96-104 | 82-90 |
  | `getGitLogsFilterMerge` | 106-129 | 92-115 |
  | `getDefaultChangelog` | 131-143 | 117-129 |
  | `sortLogsPerCommitType` | 145-172 | 131-158 |
  | `appendCommitsToSection` | 174-182 | 160-168 |
  | `genReleaseContentWithSortedSections` | 184-213 | 170-199 |
  | `setCharAt` | 227-230 | 201-204 |
  | version bump `switch` | 232-266 | 16-50 |
  | entry-point guard | 355-360 | 285-290 |
  | splice `replace` | 380-383 | 310-313 |

The model is organised in modules, one per source file or concern:

| module | role |
|---|---|
| `Wrappers` | `Option` and `Result`. |
| `Text` | The JavaScript string operations the code relies on: `indexOf`, `split`, `join`, line terminators, and decimal digits. |
| `Values` | The constants of `STRING.js`, `STRINGS.js` and the scripts' heads. |
| `DateFormat` | `date.js`. |
| `SortedCommits` | The insertion-ordered object that maps commit types to buckets. |
| `Markdown` | `markdown.js`, plus the section renderers of both generations. |
| `RegularExpressions` | `regularExpressions.js`. |
| `StringParsing` | `stringParsing.js`. |
| `ScriptVersion` | The scripts' version reader and their character-position bump. |
| `ScriptLog` | The scripts' log cleaning and `[key]` classifier. |
| `ScriptRelease` | The scripts' default changelog, release block, guard and splice. |

Some notes on what the model does and does not represent:

- A JavaScript object keyed by commit type is a sequence of `Bucket`s. Assigning to a key
  that is already present overwrites that bucket where it stands. Assigning to a new key
  appends a bucket.
- User-supplied regular expressions are abstract:
  - A configured `type.regex` of the helpers is a `Pattern`: a predicate for "matches",
    plus the function that removes the first match.
  - The position of the first match of the stop pattern in the log is an input.
- The fixed patterns are concrete recognisers. These are `## [X.Y.Z]` (with one digit per
  component in the scripts), `"version": "X.Y.Z"`, the indentation pattern, `[key]` at a
  line start, the merge-line filter and the `"- ` stripping. They follow JavaScript's
  definition of a line terminator: `\n`, `\r`, U+2028 and U+2029.
- Loops over mutable state in the source are `method`s. Each is proved equal to a
  specification function, and the properties are proved about that function. The
  `method`s are:
  - `incrementVersion` and the scripts' bump;
  - the two sorters;
  - the string accumulators.

## Model

| member | source | states |
|---|---|---|
| `Text.IndexOf` | src/main.js:310-313 | The first occurrence of the searched text, none before it; none exactly when the text does not contain it. |
| `Text.FirstTerminator` | gen_new_release.js:127 | The first line terminator: no terminator before it; none when the text has no terminator. |
| `Text.JoinSplit` | src/helpers/stringParsing.js:21 | Splitting on a separator and joining on it gives back the text. |
| `Text.SplitJoin` | src/helpers/stringParsing.js:40 | Joining parts that do not contain the separator and splitting again gives back the parts. |
| `Text.ParseNatToString` | src/helpers/stringParsing.js:25 | A number's decimal text reads back as that number. |
| `DateFormat.TwoDigits` | src/helpers/date.js:4-5 | `("0" + n).slice(-2)` is exactly two digits. |
| `DateFormat.TwoDigitsValue` | src/helpers/date.js:4-5 | The two characters read back as `n mod 100`. |
| `DateFormat.TwoDigitsPadding` | src/helpers/date.js:4-5 | A value from 1 to 9 becomes "0" followed by its digit; a value from 10 to 99 is its own decimal text. |
| `DateFormat.TwoDigitsSmall` | src/helpers/date.js:4-5 | A value from 1 to 99 becomes two characters that read back as the value. |
| `DateFormat.TwoDigitsDate` | src/helpers/date.js:1-12 | The month (one-based) and the day are two digits each, reading back as their values modulo 100. The year is digits reading back as the year. |
| `DateFormat.CalendarDateParts` | src/helpers/date.js:1-12 | For a calendar date, the month is two digits reading as the zero-based month plus one. The day is two digits reading as the day. The year is the full year, neither padded nor cut. |
| `SortedCommits.KeyIndex` | src/helpers/stringParsing.js:93-96 | The position of a key in the ordered object: that key is there, and at no earlier position. |
| `SortedCommits.PutProperties` | src/helpers/stringParsing.js:93-96 | Storing a bucket keeps keys unique. An existing key is overwritten at its own position. A new key is appended. Every other bucket is unchanged. |
| `Markdown.DatedVersionMarkdown` | src/helpers/markdown.js:3-7 | The dated heading opens with `## [version]`. |
| `Markdown.SectionTitleMarkdown` | src/helpers/markdown.js:9-11 | The title is a level-three heading that opens with the key and ends with a line feed. |
| `Markdown.CommitsToMarkdown` | src/helpers/markdown.js:13-14 | One list item per commit. |
| `Markdown.ItemsSplit` | src/helpers/markdown.js:13-14 | The joined items split into lines: line i is "- " plus commit i, then one final empty line. |
| `Markdown.SectionTitleLines` | src/helpers/markdown.js:9-11 | The title splits into "### key: N" and ">_description_" followed by an empty line, where N reads back as the number of commits. |
| `Markdown.NonEmpty` | src/helpers/stringParsing.js:140 | Keeps only buckets that have commits. |
| `Markdown.Sections` | src/helpers/stringParsing.js:139-151 | The rendered sections are empty exactly when no bucket has a commit. |
| `Markdown.SectionsAppend` | src/helpers/stringParsing.js:139-151 | Rendering two runs of buckets renders each in turn. |
| `Markdown.SectionsSingle` | src/helpers/stringParsing.js:140-150 | One bucket renders as its own section. |
| `Markdown.SectionsSkipEmpty` | src/helpers/stringParsing.js:140 | Buckets without commits contribute nothing: rendering all of them equals rendering the non-empty ones. |
| `Markdown.SectionsSnoc` | src/helpers/stringParsing.js:139-151 | One more loop round appends that bucket's section. |
| `Markdown.SectionsStep` | gen_new_release.js:199-210 | One round of the scripts' loop: an empty bucket adds nothing, and a non-empty one adds its title and its items. |
| `Markdown.SectionsShowEach` | src/helpers/stringParsing.js:139-151 | Every bucket that has commits shows up as its title followed by all of its items. |
| `RegularExpressions.VersionParts` | src/helpers/regularExpressions.js:1 | Three digit runs joined with dots are a version, and they split back into those runs. |
| `RegularExpressions.VersionShape` | src/helpers/regularExpressions.js:1 | A version is its three dot-separated parts joined again. |
| `RegularExpressions.ShortVersionIsVersion` | gen_new_release.js:79 | A one-digit-per-component version is a version, with its parts at positions 0, 2 and 4. |
| `RegularExpressions.DigitRun` | src/helpers/regularExpressions.js:1 | `\d+` is greedy: the run is all digits and stops before a non-digit. |
| `RegularExpressions.LazyRunToQuote` | src/helpers/regularExpressions.js:5 | `(.+?)` before a quote is lazy. The match stops at the first quote after at least one character, with no line terminator in the run. |
| `RegularExpressions.MatchAt` | src/helpers/regularExpressions.js:1-5 | A match at a position captures a version for the version patterns, a one-digit version for the scripts' pattern, and for the indentation pattern a non-empty run without line terminators. |
| `RegularExpressions.Search` | src/helpers/regularExpressions.js:1-5 | The first position at or after the start where the pattern matches, with no match before it; none exactly when it matches nowhere. |
| `RegularExpressions.Match` | src/helpers/stringParsing.js:16-18 | `String.prototype.match` without `g`: none exactly when no position matches, and otherwise the capture at the leftmost matching position. |
| `RegularExpressions.MatchIsLeftmost` | src/helpers/stringParsing.js:16-18 | The capture at a position with no match before it is the result of `match`. |
| `RegularExpressions.ChangelogVersionReadBack` | src/helpers/regularExpressions.js:1 | A heading `## [v]` is matched at its position and captures exactly v. |
| `RegularExpressions.PackageVersionReadBack` | src/helpers/regularExpressions.js:3 | `"version": "v"` is matched at its position and captures exactly v. |
| `RegularExpressions.IndentationReadBack` | src/helpers/regularExpressions.js:5 | After `{` and a line feed, an indentation free of line terminators and quotes that is followed by a quote is captured exactly. |
| `RegularExpressions.DropMergeLines` | src/helpers/regularExpressions.js:9 | Removing merge lines never lengthens the log. |
| `RegularExpressions.DropMergeLinesStep` | src/helpers/regularExpressions.js:9 | One line ended by a line feed is dropped with its line feed exactly when it contains "Merge branch"; the rest is filtered the same way. |
| `RegularExpressions.DropMergeLinesNoMerge` | src/helpers/regularExpressions.js:9 | Text without "Merge branch" is unchanged. |
| `RegularExpressions.DropMergeLinesSingleLine` | src/helpers/regularExpressions.js:9 | Text without a line feed is unchanged, even when it contains "Merge branch". |
| `RegularExpressions.DropMergeLinesIdempotent` | src/helpers/regularExpressions.js:9 | Filtering twice is filtering once. |
| `RegularExpressions.FilterOutUselessCommits` | src/helpers/regularExpressions.js:7-10 | The list keeps its length. |
| `RegularExpressions.FilterOutUselessCommitsKeeps` | src/helpers/regularExpressions.js:7-10 | A commit without "Merge branch", or without a line feed, is unchanged. |
| `StringParsing.Incremented` | src/helpers/stringParsing.js:20-41 | The bump is undefined exactly for a selector other than major, minor or patch; otherwise it is a version. |
| `StringParsing.IncrementedNumbers` | src/helpers/stringParsing.js:20-41 | The numbers are compared as decimal numbers. Major gives (X+1).0.0, minor gives X.(Y+1).0 and patch gives X.Y.(Z+1). The result is strictly above the input. |
| `StringParsing.IncrementedCarries` | src/helpers/stringParsing.js:29-31 | "1.9.3" bumped on the minor number is "1.10.0". |
| `StringParsing.IncrementVersion` | src/helpers/stringParsing.js:20-41 | The in-place update of the three parts computes the bump above. |
| `StringParsing.GitCommits` | src/helpers/stringParsing.js:48-68 | The lines are, joined again, the log cut at the first stop match (or the whole log). No line holds a line feed. A match at 0 gives one empty line. |
| `StringParsing.GitCommitsLines` | src/helpers/stringParsing.js:67 | Lines free of line feeds, joined with line feeds, are split back into the same lines. |
| `StringParsing.MatchingMembers` | src/helpers/stringParsing.js:77-79 | The filter keeps exactly the commits that the type's regex matches. |
| `StringParsing.MatchingAppend` | src/helpers/stringParsing.js:77-79 | Filtering keeps order across concatenation. |
| `StringParsing.Stripped` | src/helpers/stringParsing.js:85-87 | One stripped commit per matched commit. |
| `StringParsing.Excluding` | src/helpers/stringParsing.js:81-83 | Exactly the still-untyped commits not among the matched ones. |
| `StringParsing.Unmatched` | src/helpers/stringParsing.js:72-83 | Exactly the commits that no configured type matches; all of them when nothing is configured. |
| `StringParsing.ExcludingMatched` | src/helpers/stringParsing.js:81-83 | Removing the matched commits from untyped ones equals dropping those the regex matches. |
| `StringParsing.MatchesAnyAppend` | src/helpers/stringParsing.js:74-83 | One more configured type matches a commit exactly when that type or an earlier one does. |
| `StringParsing.UnmatchedStep` | src/helpers/stringParsing.js:81-83 | One more loop round leaves the commits no type so far matches. |
| `StringParsing.NotMatchingAppend` | src/helpers/stringParsing.js:81-83 | The complement filter keeps order across concatenation. |
| `StringParsing.TypeBuckets` | src/helpers/stringParsing.js:74-91 | One bucket per configured type. |
| `StringParsing.UntypedStep` | src/helpers/stringParsing.js:81-83 | The loop's `untypedCommits` after round i are the commits none of the first i types matches. |
| `StringParsing.TypeBucketsStep` | src/helpers/stringParsing.js:89-90 | With unique names, each loop round appends the next type's bucket. |
| `StringParsing.PutUntyped` | src/helpers/stringParsing.js:93-96 | The untyped bucket follows the type buckets, or replaces a configured "untyped" in place. |
| `StringParsing.SortCommitsPerType` | src/helpers/stringParsing.js:70-99 | Keys are unique. Every configured type has a bucket in configuration order, with its description and its matched commits stripped, even when none match. The unmatched commits go unchanged under "untyped", after the type buckets or in place of a configured "untyped". |
| `StringParsing.EveryCommitSorted` | src/helpers/stringParsing.js:77-83 | No commit is lost. It is untyped exactly when no type matches. With no tie-break, it is in the bucket of every type that matches it. |
| `StringParsing.GenReleaseContent` | src/helpers/stringParsing.js:132-154 | The entry-point line, the dated heading, then a titled section for each bucket with commits, in key order. The old content plays no part. |
| `StringParsing.HeaderLines` | src/helpers/stringParsing.js:105-109 | One header line per configured type. |
| `StringParsing.DefaultChangelogHeader` | src/helpers/stringParsing.js:101-116 | The default text, one line per type in configuration order, then a blank line and the entry-point line, so it ends with and contains the entry point. |
| `StringParsing.LastReleaseVersion` | src/helpers/stringParsing.js:118-130 | The first `"version": "X.Y.Z"` capture, or "0.0.0"; always a version. |
| `StringParsing.LastReleaseVersionReadBack` | src/helpers/stringParsing.js:118-130 | A manifest whose first version field holds v reads back as v. |
| `StringParsing.LastReleaseVersionDefault` | src/helpers/stringParsing.js:129 | A manifest without a version field reads as "0.0.0". |
| `StringParsing.PackageJsonTabulationFormat` | src/helpers/stringParsing.js:156-168 | The captured indentation, or a tab; never empty and without line terminators. |
| `StringParsing.TabulationReadBack` | src/helpers/stringParsing.js:156-168 | An indentation followed by a quoted key is read back exactly. |
| `StringParsing.TabulationOfUnindented` | src/helpers/regularExpressions.js:5 | With the quote right after `{` and a line feed, the lazy capture runs to the next quote. It yields the quote and key rather than the default tab. |
| `ScriptVersion.SetCharAt` | gen_new_release.js:227-230 | An index at or past the end leaves the text unchanged. Otherwise the character there is replaced by the whole, possibly longer, replacement. |
| `ScriptVersion.NextDigitText` | gen_new_release.js:241 | The text of a digit plus one: the next digit, or "10" after 9. |
| `ScriptVersion.ScriptBumped` | gen_new_release.js:232-266 | For `d.d.d`: selector 1 gives (X+1).0.0, 2 gives X.(Y+1).0 and 3 gives X.Y.(Z+1) when no 9 is bumped. A major 9 gives "100" Y "0" Z, and a minor 9 gives X ".100" Z. Any other selector is undefined. |
| `ScriptVersion.MajorEdits` | gen_new_release.js:237-245 | The three character edits of a major bump give (X+1).0.0 without a 9. After a 9 they give "100" Y "0" Z. |
| `ScriptVersion.MinorEdits` | gen_new_release.js:246-253 | The two character edits of a minor bump give X.(Y+1).0 without a 9. After a 9 they give X ".100" Z. |
| `ScriptVersion.PatchEdits` | gen_new_release.js:254-260 | The patch edit gives X.Y followed by the text of Z+1. |
| `ScriptVersion.SetCharAtDigitsAndDots` | gen_new_release.js:227-230 | Editing a text of digits and dots with digits keeps it digits and dots. |
| `ScriptVersion.ScriptBumpedDigitsAndDots` | gen_new_release.js:232-266 | The bumped version, however corrupted, is made of digits and dots only. |
| `ScriptVersion.ComputeNewVersionNumber` | gen_new_release.js:232-266 | The step-by-step `setCharAt` updates compute that bump. |
| `ScriptVersion.ScriptBumpAgrees` | gen_new_release.js:232-266 | Without a 9 in the bumped major or minor place, the scripts' bump equals the helpers' numeric bump. |
| `ScriptVersion.ScriptBumpCorruptsMinorNine` | gen_new_release.js:246-253 | "1.9.3" minor gives "1.1003", which is not a version; the numeric bump gives "1.10.0". |
| `ScriptVersion.ScriptBumpCorruptsMajorNine` | gen_new_release.js:237-245 | "9.2.3" major gives "100203". |
| `ScriptVersion.ScriptLastReleaseVersion` | gen_new_release.js:96-104 | The first `## [d.d.d]` capture with one digit per part, or "0.0.0". |
| `ScriptVersion.ChangelogLastReleaseVersion` | src/helpers/regularExpressions.js:1 | The corrected reader: the first `## [X.Y.Z]` capture with digit runs, or "0.0.0"; always a version. |
| `ScriptVersion.ScriptLastReleaseVersionReadBack` | gen_new_release.js:78-81 | A changelog starting with `## [v]` reads back as v. |
| `ScriptVersion.ScriptLastReleaseVersionAt` | gen_new_release.js:78-81 | The first one-digit heading is the one read. |
| `ScriptVersion.ScriptRereadsOlderRelease` | gen_new_release.js:78-81 | After "1.2.9" is bumped to "1.2.10", the scripts' reader skips the new heading and reads "1.2.9" again. The corrected reader reads "1.2.10". |
| `ScriptVersion.PatchBumpFromNine` | gen_new_release.js:254-260 | Patch on "1.2.9" gives "1.2.10". |
| `ScriptVersion.ShortReadSkipsLongHeading` | gen_new_release.js:79 | `## [1.2.10]` does not match the one-digit pattern. |
| `ScriptVersion.LongReadFindsLongHeading` | src/helpers/regularExpressions.js:1 | `## [1.2.10]` matches the digit-run pattern. |
| `ScriptVersion.ChangelogLastReleaseVersionReadBack` | src/helpers/regularExpressions.js:1 | A changelog starting with `## [v]`, for any version v, reads back as v. |
| `ScriptLog.Lookaheads` | gen_new_release.js:86-90 | One lookahead `(?!\[key\])` per type, in order. |
| `ScriptLog.NegativeCommitPattern` | gen_new_release.js:83-94 | `^`, the lookaheads in configuration order, then `.*`. |
| `ScriptLog.NegativePatternExcludesEveryKey` | gen_new_release.js:83-94 | The pattern excludes every configured key. |
| `ScriptLog.TruncatedLog` | gen_new_release.js:112-123 | A prefix of the log: all of it without a stop match, and exactly the text before the match otherwise. |
| `ScriptLog.StripLineStart` | gen_new_release.js:127 | A leading `"- ` is removed, and nothing else. |
| `ScriptLog.StripEntryPrefixes` | gen_new_release.js:127 | Never lengthens the log. |
| `ScriptLog.UnquoteLineEnds` | gen_new_release.js:128 | Never lengthens the log. |
| `ScriptLog.CleanLog` | gen_new_release.js:125-128 | The three replacements never lengthen the log. |
| `ScriptLog.GitLogsFilterMerge` | gen_new_release.js:106-129 | The cleaned log is no longer than the log, and no longer than the part before the stop pattern's first match. |
| `ScriptLog.CleanFormattedLog` | gen_new_release.js:125-128 | On `git log` output in the scripts' format: merge entries vanish, every other entry but the last is its bare subject line, and the last entry keeps its closing quote. |
| `ScriptLog.CleanMergeStep` | gen_new_release.js:126 | A merge entry followed by a line feed vanishes, line feed and all. |
| `ScriptLog.CleanKeptStep` | gen_new_release.js:125-128 | Any other entry followed by a line feed becomes its bare subject line. |
| `ScriptLog.FormattedHasNoTerminator` | gen_new_release.js:13 | An entry free of line terminators stays so when formatted. |
| `ScriptLog.NoTerminatorKeptWhole` | gen_new_release.js:126 | The merge filter keeps text without a line terminator. |
| `ScriptLog.MergeFormatted` | gen_new_release.js:126 | A formatted entry contains "Merge branch" exactly when its subject does. |
| `ScriptLog.StripFormattedLine` | gen_new_release.js:127 | A formatted line loses only its leading `"- `. |
| `ScriptLog.StripFormattedLast` | gen_new_release.js:127 | The last formatted entry loses only its leading `"- `. |
| `ScriptLog.UnquoteLine` | gen_new_release.js:128 | A quote before a line feed is removed. |
| `ScriptLog.UnquoteNoLineFeed` | gen_new_release.js:128 | Text without a line terminator is unchanged. |
| `ScriptLog.Tagged` | gen_new_release.js:151-155 | At most one entry per line. |
| `ScriptLog.TaggedMembers` | gen_new_release.js:148-159 | A key's bucket holds exactly the lines that start with its tag, each with its first `[key] ` removed. |
| `ScriptLog.TaggedAppend` | gen_new_release.js:148-159 | The bucket keeps the order of the log: the lines of a first part are filed before those of the rest. |
| `ScriptLog.TaggedSingle` | gen_new_release.js:151-155 | A single line is filed, with its tag removed, exactly when it starts with the tag. |
| `ScriptLog.UntaggedLines` | gen_new_release.js:161-164 | Exactly the lines that start with no configured tag. |
| `ScriptLog.NonEmptyLines` | gen_new_release.js:164 | Exactly the non-empty lines. |
| `ScriptLog.TagBuckets` | gen_new_release.js:148-159 | One bucket per configured type. |
| `ScriptLog.LogBuckets` | gen_new_release.js:145-172 | One bucket per configured type, plus the untyped bucket unless a type is itself called "untyped". |
| `ScriptLog.TagBucketsStep` | gen_new_release.js:157-158 | With distinct keys, each loop round appends the next type's bucket. |
| `ScriptLog.SortLogsPerCommitType` | gen_new_release.js:145-172 | Fails, because `match` returns null and `.filter` throws, exactly when no line is untagged. Otherwise the result is the tagged buckets followed by the untyped one. |
| `ScriptLog.LogBucketsShape` | gen_new_release.js:145-172 | Keys are unique. Every type has its bucket, holding its tagged lines stripped of the first "[key] ". The non-empty untagged lines come last under "untyped", or in place of a configured "untyped". |
| `ScriptLog.TagEnd` | gen_new_release.js:149 | A tag of a plain key ends with "]" right after the key. |
| `ScriptLog.TagsDiffer` | gen_new_release.js:149 | A line tagged with one plain key is not tagged with another. |
| `ScriptLog.AtMostOneTag` | gen_new_release.js:149-164 | With distinct plain keys, a line carries at most one tag, and none exactly when it is untagged. |
| `ScriptLog.TotalTaggedCons` | gen_new_release.js:148-159 | Tags count line by line. |
| `ScriptLog.EveryLineSortedOnce` | gen_new_release.js:145-172 | With distinct plain keys, each line is filed exactly once: tagged lines plus untagged lines are all the lines. |
| `ScriptLog.TaggedLineFiled` | gen_new_release.js:151-155 | A tagged line lands, stripped of its first "[key] ", in that key's bucket. |
| `ScriptRelease.TypeLines` | gen_new_release.js:134-136 | One header line per configured type, in order. |
| `ScriptRelease.DefaultChangelog` | gen_new_release.js:131-143 | The default text, one line per type, a blank line and the entry-point line. It ends with that line, so a fresh changelog passes the guard. |
| `ScriptRelease.HasEntryPoint` | gen_new_release.js:355-360 | The guard passes exactly when `replace` finds an entry-point line to replace. |
| `ScriptRelease.AppendCommitsToSection` | gen_new_release.js:174-182 | The section part followed by one list item per commit, in order. |
| `ScriptRelease.ReleaseBlock` | gen_new_release.js:194-197 | The block begins with the entry-point line, directly followed by the new heading. |
| `ScriptRelease.GenReleaseContentWithSortedSections` | gen_new_release.js:184-213 | The loop builds the entry-point line, the dated heading, and for each bucket with commits its one-line title and items, in key order. |
| `ScriptRelease.SpliceAsWritten` | gen_new_release.js:380-383 | Without an entry point the changelog is unchanged. What it does with one is stated by the lemmas below. |
| `ScriptRelease.SpliceLiteral` | gen_new_release.js:380-383 | Without an entry point the changelog is unchanged. Otherwise exactly one entry-point line is traded for the block. |
| `ScriptRelease.Expand` | gen_new_release.js:380-383 | A replacement without `$` is inserted as it is. |
| `ScriptRelease.ExpandFromPlainPrefix` | gen_new_release.js:380-383 | A stretch of the replacement without `$` is copied as it is, ahead of the expansion of the rest. |
| `ScriptRelease.ExpandKeepsPlainOccurrence` | gen_new_release.js:380-383 | A text lying in the `$`-free start of the replacement is at the same place in the expansion. |
| `ScriptRelease.SplicedPlainOccurs` | gen_new_release.js:380-383 | A text lying in the `$`-free start of the block appears in the new changelog at the entry point's position plus its offset. |
| `ScriptRelease.FirstEntryPointKept` | gen_new_release.js:380-383 | A text that agrees with the changelog before its first entry point and has an entry point there has its first one there. |
| `ScriptRelease.SpliceAsWrittenKeepsEntryPoint` | gen_new_release.js:380-383 | For a block that opens with the entry-point line, the scripts' `replace` keeps the first entry point at its position and the text before it, and the new changelog ends with the text that followed it. |
| `ScriptRelease.SpliceAgreesWithoutDollar` | gen_new_release.js:380-383 | Without `$` in the block, the splice as written and the literal splice agree. |
| `ScriptRelease.SpliceCopiesTail` | gen_new_release.js:380-383 | A `$'` in the block is replaced by everything after the entry point, so that tail is written twice. The literal splice keeps the `$'`. |
| `ScriptRelease.ExpandAround` | gen_new_release.js:380-383 | `$'` expands to the text after the match. |
| `ScriptRelease.SpliceKeepsEntryPoint` | gen_new_release.js:380-383 | The entry point stays where it was, the text before it is kept, and the text after it ends the new changelog. Only the first entry point is replaced. |
| `ScriptRelease.ReleaseRun` | gen_new_release.js:343-387 | The run as the scripts take it, with their one-digit reader, character-edit bump and `replace`. A selector other than 1-3 cancels. A missing entry point stops the run. An empty or cancelled stop-pattern answer cancels. A log without untyped lines throws. Otherwise the run succeeds, and it keeps the first entry point where it was. |
| `ScriptRelease.GenerateRelease` | gen_new_release.js:343-387 | The run step by step computes that result. |
| `ScriptRelease.ReleaseRunWritesHeading` | gen_new_release.js:343-387 | A successful run keeps the text above the entry point and writes, right below the entry-point line, the heading of the version the character edits produced. |
| `ScriptRelease.ReleaseRunCorrected` | gen_new_release.js:343-387 | The run with the digit-run reader, the numeric bump and the literal splice. It has the same cancel, guard and throw cases, succeeds in every other case, and keeps the first entry point where it was. |
| `ScriptRelease.ReleaseRunAdvancesVersion` | gen_new_release.js:343-387 | After a successful corrected run, the next run reads back a version strictly above the one this run started from. |
| `ScriptRelease.NextRunReadsRelease` | gen_new_release.js:380-383 | With no heading above the entry point, the next run reads back exactly the version just written. |
| `ScriptRelease.SplicedBlockReadBack` | gen_new_release.js:380-383 | Any block that opens with the entry-point line and then the heading of v is read back as v once spliced in, if no heading sits above the entry point. |
| `ScriptRelease.HeadingReadBack` | src/helpers/regularExpressions.js:1 | The first heading is the one read. |
| `ScriptRelease.NoHeadingBeforeBlock` | gen_new_release.js:380-383 | Splicing adds no heading above the entry point. |
| `ScriptRelease.MarkerChars` | gen_new_release.js:15-16 | The entry-point line holds no "#", no "[" and no "$". |

## Left out

- The prompts are not modelled. That covers `askUser.js` and the `ask*` functions of the scripts. The bump selector is an input, and so is the position of the stop pattern's first match in the log. A cancelled file-name prompt ends the run before anything modelled happens. The stop-pattern prompt is reduced to whether a pattern was given (`patternGiven`); an empty or cancelled answer ends the run with `Cancelled`.
- File and process I/O is not modelled: reading and writing files, `fs.existsSync`, `spawnSync` of git, and the dynamic `require` of the configuration. The changelog text and the `git log` output are inputs. When the changelog file is missing, the run creates the default changelog first; that step is `ScriptRelease.DefaultChangelog`.
- Console output is not modelled. That covers `printers.js`, the `log*` helpers and the warning about a stop pattern that was not found.
- The clock is not modelled. `new Date()` is replaced by a `UtcDate` input.
- User-supplied regular expressions are not interpreted:
  - The helpers' `type.regex` is an abstract matcher with a strip function.
  - The stop pattern contributes only its first match position.
- `ScriptRelease.ReleaseRun`: a stop pattern that is not a valid regular expression makes `new RegExp` throw (gen_new_release.js:113-115). The run assumes a given pattern compiles, and models it only by the position of its first match.
- `ScriptLog.NegativeCommitPattern`: the pattern text is built, but it is never interpreted as a regular expression. Its effect on the untyped bucket is modelled directly by `ScriptLog.Untagged`, which means "the line starts with no `[key]`".
- `ScriptLog.SortLogsPerCommitType`: keys are read literally, as if they held no regex metacharacters. The key is interpolated into a `RegExp`, so a key such as `a.b` would also match `[axb]`. `ScriptLog.AtMostOneTag` and `ScriptLog.EveryLineSortedOnce` require such plain keys.
- `src/helpers/stringParsing.js:107`: `type.regex.toString()` in the default header is an input. It is the `text` field of the abstract pattern.
- `Number()` on text that is not digits (NaN) is not modelled. Neither are numbers beyond 2^53, which JavaScript no longer counts exactly. Versions are digit strings and numbers are unbounded.
- JavaScript's object key order for integer-like keys is not modelled, and neither is the special `__proto__` key. Buckets keep insertion order.
- `src/values/VERSION.js` is not part of this model. Its MAJOR/MINOR/PATCH constants are the `StringParsing.VersionType` values.
- `src/main.js` calls `askAutomaticDefaultChangelog` without importing it, so a missing changelog file would fail there. The model follows `gen_new_release.js` for that path.
- The configuration file the scripts write when none exists is not modelled (file I/O). Its text differs between the two scripts: `gen_new_release.js:20` writes `module.exports.defaultCommitTypes = {`, while `src/values/STRINGS.js:13`, used by `src/main.js`, writes `module.exports.defaultCommitTypes: {`, which is not valid JavaScript.
- Writing a manifest and STOP/IGNORE settings do not exist in this code, so there is nothing to model.
- Several cases are handled by the code in ways worth stating:
  - A commit that matches several types goes into each of their buckets. There is no first-match tie-break (`StringParsing.EveryCommitSorted`).
  - A changelog with several entry points is not rejected. Only the first one is replaced (`ScriptRelease.SpliceKeepsEntryPoint`, `ScriptRelease.SpliceAsWrittenKeepsEntryPoint`).
  - Empty lines are dropped only from the scripts' untyped bucket.
  - The indentation reader matches when a quote directly follows `{` and a line feed (`StringParsing.TabulationOfUnindented`).

## Findings

| source | as written | input that shows it | evidently intended | confidence | as-written member | corrected member |
|---|---|---|---|---|---|---|
| gen_new_release.js:380-383 | `replace` with a string replacement expands `$'`, `` $` ``, `$&` and `$$` found in the commit subjects | a commit subject containing `$'` | the release block inserted literally | not executed | `ScriptRelease.SpliceCopiesTail` | `ScriptRelease.SpliceKeepsEntryPoint` |
| gen_new_release.js:246-253 | the bump writes `Number(d) + 1` into one character position | "1.9.3" with selector 2 gives "1.1003"; "9.2.3" with selector 1 gives "100203" | "1.10.0" and "10.0.0", as `incrementVersion` computes | not executed | `ScriptVersion.ScriptBumpCorruptsMinorNine` | `StringParsing.IncrementedNumbers` |
| gen_new_release.js:78-81 | the version pattern allows one digit per component | a changelog whose newest heading is `## [1.2.10]` above `## [1.2.9]` reads back "1.2.9" | the digit-run pattern `\d+` of `regularExpressions.js` | not executed | `ScriptVersion.ScriptRereadsOlderRelease` | `ScriptRelease.ReleaseRunAdvancesVersion` |

The same three lines appear in `src/main.js` at 310-313, 30-37 and 64-67.
The as-written definitions are `ScriptRelease.SpliceAsWritten`, `ScriptVersion.ScriptBumped`
(with `ScriptVersion.ComputeNewVersionNumber`) and `ScriptVersion.ScriptLastReleaseVersion`.
The release run as the scripts take it, `ScriptRelease.ReleaseRun` with its method
`ScriptRelease.GenerateRelease`, is built from them. `ScriptRelease.ReleaseRunWritesHeading`
shows that it writes whatever heading the character edits produced, for example
`## [1.1003]` after `## [1.9.3]` with the minor selector. The corrected definitions are
`ScriptRelease.SpliceLiteral`, `StringParsing.Incremented` and
`ScriptVersion.ChangelogLastReleaseVersion`. The corrected run
`ScriptRelease.ReleaseRunCorrected` is built from them, and
`ScriptRelease.ReleaseRunAdvancesVersion` proves that each of its runs raises the version
the next run reads.
