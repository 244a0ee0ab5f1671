# A verified model of the two `analyzeCode` lint-and-fix passes

The repository holds two line-oriented lint-and-fix passes over JavaScript
source text, and this project models both in Dafny.

- **`analyzeCode` of `lib/analyzer.js`.** This is the canonical pass. It
  splits the code on line feeds and runs four detectors on each line, in a
  fixed order:
  - `console.log` logging, which reports but does not rewrite;
  - a `var <identifier>` declaration, rewritten to `let <identifier>`;
  - loose `==`, rewritten to `===`;
  - a missing statement terminator, fixed by appending `;`.

  It then collects the issues, joins the rewritten lines into `fixedCode`,
  counts the issue types into `stats`, and writes a pluralised `summary`.
  A non-string argument is refused with a `TypeError`.
- **`analyzeCode` of `server.js`.** This is the older variant, and the two
  are not reconciled. It reports on the lines as read, with looser tests:
  - a plain substring test for logging;
  - `\bvar\s+` for declarations;
  - `==` without `===` or `!=` for equality;
  - a stricter statement test for terminators.

  It also reports a column, a message and the trimmed line. It fixes the
  whole text in three passes that ignore the report:
  - every whole-word `var` becomes `let`;
  - every `X==Y` becomes `X===Y`;
  - a `;` is appended to each rewritten line that needs one.

Modules, one file each:

- `Wrappers`: `Option` and `Result`.
- `Text`: character classes, `split`/`join`, `trim`/`trimEnd`, and counting and deleting characters.
- `Decimal`: decimal numerals and reading them back.
- `Patterns`: the regular expressions, written as matchers at a position; the leftmost search; `indexOf`.
- `Replace`: `String.prototype.replace` with a template (the `$` patterns), the global loose-equality scan, and the global `var` rewrite.
- `Issues`: issue records, detector order, and type counts.
- `Summary`: both summary formats, and readers that recover the counts from them.
- `Analyzer`: `lib/analyzer.js`.
- `ServerAnalyzer`: `server.js`.

Regular expressions follow JavaScript:

- `\b` and `\w` use the ASCII word characters.
- `\s` and `trim` use the ECMAScript white-space and line-terminator set.
- A match is the leftmost one.
- A global replace is a left-to-right scan that consumes the characters it
  matched. So `a==b==c` becomes `a===b==c`.
- The string template of `replace` is expanded as ECMAScript's
  GetSubstitution does, for a pattern with one capture group.

The model follows the code. For example, the terminator test of `lib/analyzer.js` looks at the
trimmed *original* line (line 17), not at the rewritten one. The one
exception is the `var` rewrite of `lib/analyzer.js`, line 34. The model
keeps that rewrite as written in `Analyzer.ReplaceBindingAsWritten`, but
the analysis uses the corrected rewrite, `Analyzer.ReplaceBinding` (see
"Findings").

## Model

| member | source | states |
|---|---|---|
| `Analyzer.AnalyzeCode` | lib/analyzer.js:5-8 | A non-string argument is refused with `TypeError("Code must be a string")` and yields no result; a string is analysed. |
| `Analyzer.Analyze` | lib/analyzer.js:10-105 | `fixedCode` has as many lines as the code. Issue lines lie in 1..line count, and issues are ordered by line and detector. `total` is the number of issues; `errors`, `warnings` and `suggestions` are each the number of issues of that type. The summary is "No issues found." exactly when there are none. |
| `Analyzer.FixedLinePerLine` | lib/analyzer.js:14-97 | Line i of `fixedCode` is line i of the code as its own iteration (number i + 1) rewrote it, whatever the other lines hold. |
| `Analyzer.OutcomesAt` | lib/analyzer.js:12-16 | Iteration i of the loop sees line i of the split code under line number `first + i`, and nothing else. |
| `Analyzer.AnalyzeLine` | lib/analyzer.js:14-81 | The issues of one iteration carry its line number, come in detector order, and the rewritten line has no line feed. |
| `Analyzer.LineDetectors` | lib/analyzer.js:21-79 | Each detector emits exactly one issue when it fires and none otherwise, in the order logging, `var`, equality, terminator. Each firing condition is stated independently: whole-token `console.log` anywhere; `\bvar\s+<identifier>` anywhere; a loose-equality match in the line after the `var` rewrite; the terminator test on the trimmed original line. |
| `Analyzer.LineRecords` | lib/analyzer.js:21-79 | Each issue is its detector's record: type, category, severity and description. The `var` record names the identifier the leftmost declaration binds. |
| `Analyzer.VarNameLeftmost` | lib/analyzer.js:31-33 | The reported name is the one bound by the leftmost `var` match. |
| `Analyzer.VarRewrite` | lib/analyzer.js:31-34 | Only the leftmost declaration is rewritten. The keyword and its white space become `let `, and the name and the rest of the line are kept. |
| `Analyzer.ReplaceBindingAsWritten` | lib/analyzer.js:34 | The code as written keeps the text before the match and puts `let ` where the keyword was. The text after the match ends the line unchanged, and no line feed is added. |
| `Analyzer.ReplaceBinding` | lib/analyzer.js:34 | The corrected rewrite keeps the text before the match, puts `l` where the `v` was, and keeps everything from the name on. |
| `Analyzer.AsWrittenWithoutDollar` | lib/analyzer.js:34 | The code as written agrees with the corrected rewrite whenever the name holds no `$`. |
| `Analyzer.DollarNameRenamed` | lib/analyzer.js:34 | As written, a name `p$1` (p without `$`) is doubled in front: the line gets `let pp$1`, which differs from the corrected rewrite. |
| `Analyzer.DollarNameExample` | lib/analyzer.js:34 | `var a$1 = 2` comes out as `let aa$1 = 2` as written, and as `let a$1 = 2` in the corrected model. |
| `Analyzer.EqualityStep` | lib/analyzer.js:44-50 | The equality rewrite adds no line feed. |
| `Analyzer.Terminate` | lib/analyzer.js:71 | The terminated line is a prefix of the working line followed by `;`. Everything dropped is white space, and the last kept character is not white space. No line feed is added. |
| `Analyzer.TerminatedLine` | lib/analyzer.js:60-68 | A line that already ends in `;` never gets a terminator. |
| `Analyzer.AssembleOnlyLogging` | lib/analyzer.js:21-79 | Only the logging detector fired exactly when the other three stayed quiet. |
| `Analyzer.LineUnchangedIff` | lib/analyzer.js:14-81 | A line is left as it was exactly when only the logging detector fired on it. The logging detector never rewrites. |
| `Analyzer.FixedCodeUnchangedIff` | lib/analyzer.js:10-97 | `fixedCode` equals the code exactly when every issue is a logging issue. In particular, code with no issues comes back unchanged. |
| `Analyzer.Collect` | lib/analyzer.js:22-81 | The collected issues are ordered by line and detector, and their lines lie in the range of the lines seen. |
| `Analyzer.IssuesPerLine` | lib/analyzer.js:14-82 | The issues reported with line number i + 1 are exactly those line i of the split code yields on its own. |
| `Analyzer.SummaryReadsBack` | lib/analyzer.js:84-93 | The summary reads back as the error, warning and suggestion counts, each noun in the right number. |
| `Issues.Tally` | lib/analyzer.js:84-86 | `total` is the number of issues. `errors`, `warnings` and `suggestions` are each how often their type occurs among the issues, and they add up to `total`. |
| `Issues.CountOfMultiset` | lib/analyzer.js:84-86 | Filtering the issues by one type and taking the length gives that type's multiplicity among the issue types. |
| `Issues.CountsPartition` | lib/analyzer.js:84-86 | The error, warning and suggestion counts partition any list of issue types. |
| `Issues.InDetectorOrder` | lib/analyzer.js:21-79 | The issues of a line share its number and are ordered by detector. |
| `Issues.InDetectorOrderStages` | lib/analyzer.js:21-79 | Each detector that fires contributes exactly one issue, in detector order. |
| `Issues.InDetectorOrderMembers` | lib/analyzer.js:21-79 | Each reported issue is the finding of the detector its stage names. |
| `Summary.CanonicalSummary` | lib/analyzer.js:88-93 | The summary is "No issues found." exactly when all three counts are zero. |
| `Summary.CanonicalSummaryRoundTrip` | lib/analyzer.js:88-93 | The summary determines the three counts, each noun singular exactly when its count is 1. |
| `Summary.ServerSummary` | server.js:130-132 | The summary is "No issues found." exactly when there are no issues. |
| `Summary.ServerSummaryRoundTrip` | server.js:130-132 | The summary determines the whole stats record, with only the issue count pluralised. |
| `Decimal.ParseShow` | lib/analyzer.js:91 | A decimal numeral reads back as the number it shows. |
| `Text.Split` | lib/analyzer.js:12 | `split('\n')` gives one more piece than there are line feeds, and no piece holds one. |
| `Text.JoinSplit` | lib/analyzer.js:97 | Joining the pieces of a split gives back the text. |
| `Text.SplitJoin` | lib/analyzer.js:97 | Splitting a join of lines that hold no line feed gives back the lines. |
| `Text.TrimEnd` | lib/analyzer.js:71 | `replace(/\s+$/, '')` drops exactly the longest all-space suffix. |
| `Text.Trim` | lib/analyzer.js:17 | `trim()` is empty exactly when the line is all white space; otherwise it neither starts nor ends with white space. |
| `Text.TrimIsSlice` | lib/analyzer.js:17 | `trim()` is the slice of the line that starts right after its leading white space, and everything after that slice is white space. So it is the line with its leading and trailing white space removed. |
| `Text.TrimUnpadded` | lib/analyzer.js:17 | A line with no white space at either end is its own `trim()`. |
| `Text.TrimKeepsLast` | lib/analyzer.js:17 | A line not ending in white space keeps its last character under `trim()`. |
| `Patterns.FindFirst` | lib/analyzer.js:31 | The search returns the leftmost match, and none exists when it returns nothing. |
| `Patterns.OccursIff` | lib/analyzer.js:21 | `test` holds exactly when some position matches. |
| `Patterns.IndexOf` | server.js:29 | `indexOf` lies between -1 and the text's length. It is the first position of the string, or -1 exactly when there is none. |
| `Replace.SubstituteDrawnFrom` | lib/analyzer.js:34 | Every character a replacement template expands to comes from the template or the captures. |
| `Replace.Substitute` | lib/analyzer.js:34 | A template without `$` expands to itself, and a template whose first character is not `$` keeps that character first. |
| `Replace.FirstGroup` | lib/analyzer.js:34 | `$1` expands to the capture group. |
| `Replace.LooseEqualityAt` | lib/analyzer.js:3 | A loose-equality match ends in `==` followed by a character other than `=`. A 4-character match starts with a character other than `=` and `!`; under the per-line pattern it is also neither `<` nor `>`. A 3-character match can only be the `^` alternative of the per-line pattern, at offset 0. So the whole-text pattern never rewrites `==` at the start of a text. |
| `Replace.Strictify` | lib/analyzer.js:45-48 | The global rewrite adds one `=` per rewrite, and deleting every `=` from its output gives the input with every `=` deleted. It rewrites something exactly when the pattern matches somewhere, and the text is unchanged exactly when it rewrites nothing. |
| `Replace.StrictifyLeftmost` | lib/analyzer.js:45-48 | The scan goes to the leftmost match, copies the text before it, inserts `=` between the match's `==` and its last character, and resumes where that match ends; that adds one rewrite to the count of the rest. |
| `Replace.StrictifyNoMatch` | lib/analyzer.js:45-48 | With no match from a position on, the rest of the text is copied unchanged and no rewrite is counted. |
| `Replace.MatchEndsInEquals` | lib/analyzer.js:3 | Every match ends with `==` followed by one more character. |
| `Replace.StrictifyOnce` | lib/analyzer.js:45-48 | When the pattern matches only once, the output is the input with one `=` inserted right after the matched `==`, and one rewrite is counted. |
| `Replace.StrictifyConsumes` | lib/analyzer.js:3 | In `a==b==c` the second `==` starts inside the first match, so only the first is rewritten: the line becomes `a===b==c`. |
| `Replace.StrictifyLineStart` | lib/analyzer.js:3 | `==` at the start of a line is rewritten by the per-line pattern through its `^` alternative. The whole-text pattern of server.js:101 leaves it alone. |
| `Replace.StrictifyKeepsStrict` | lib/analyzer.js:3 | A strict `===` is left alone while a later loose `==` is rewritten: `a===b==c` becomes `a===b===c`. |
| `Replace.StrictifyComparison` | server.js:101 | Under either pattern, ` == ` between two `=`-free texts becomes ` === `, as in `if (a == b) {}`, with one rewrite counted. |
| `Replace.StrictifyAddsOneEqualsPerRewrite` | lib/analyzer.js:45-48 | Each rewrite counted by the scan adds exactly one `=` to the text. |
| `Replace.StrictifySingleEquals` | server.js:101 | A text with a single `=` holds no loose equality, so neither rewrite changes it. |
| `Replace.StrictifyCountIff` | lib/analyzer.js:45-48 | The scan counts a rewrite exactly when some position from its start matches. |
| `Replace.StrictifyKeepsOthers` | server.js:101 | Deleting `=` from the rewritten text gives the text with `=` deleted. |
| `Replace.ReplaceVarWords` | server.js:98 | Each character of the result is the `let` letter replacing a keyword letter, or the character that was there. |
| `Replace.LeadingKeyword` | server.js:98 | A text that opens with `var`, then a non-word character, and holds no other `v` has exactly that keyword turned into `let`. |
| `Replace.NoVarWordRemains` | server.js:98 | No whole-word `var` remains after the keyword pass. |
| `Replace.ReplaceVarWordsKeepsLineFeeds` | server.js:98 | The keyword pass keeps every line feed. |
| `ServerAnalyzer.ServerAnalyze` | server.js:11-145 | Issue lines lie in 1..line count, ordered by line and detector. `fixedCode` is `FixText` of the code, so it has as many lines as the code. `total` is the number of issues, and `errors`, `warnings` and `suggestions` are each the number of issues of that type. The summary is "No issues found." exactly when there are none. |
| `ServerAnalyzer.ServerLine` | server.js:19-94 | The records of one iteration carry its line number and come in detector order. |
| `ServerAnalyzer.ServerLineDetectors` | server.js:24-93 | Each detector emits exactly one record when it fires and none otherwise, in detector order. The conditions are: the substring `console.log`; `\bvar\s+`; `==` present with neither `===` nor `!=`; the terminator and statement tests on the trimmed line. |
| `ServerAnalyzer.LooseFiresIff` | server.js:55 | The equality test fires on `==` without `===` or `!=`; its `!==` clause is implied by the `!=` clause. |
| `ServerAnalyzer.ServerColumns` | server.js:24-93 | The column of a logging, `var` or equality record points at the first `console.log`, `var` or `==` substring, counting from 1. A terminator record's column is the line length. Each record carries its detector's message and the trimmed line. |
| `ServerAnalyzer.ServerRecords` | server.js:24-93 | Each record has its detector's type, category, severity and description. The `var` description names the label. |
| `ServerAnalyzer.VarLabelLeftmost` | server.js:39-40 | The label is the word after the leftmost `var` keyword followed by spaces and a word, or "variable" when there is none. |
| `ServerAnalyzer.Gather` | server.js:19-94 | The gathered records are ordered by line and detector, and their lines lie in the range of the lines seen. |
| `ServerAnalyzer.GatherOn` | server.js:19-94 | The gathered records that carry line number `n` are exactly the records the loop pushed for line `n`, in their order. |
| `ServerAnalyzer.ServerIssuesPerLine` | server.js:11-94 | The records reported for line `i + 1` are exactly what the four detectors give for line `i` on its own, whatever the other lines hold. |
| `ServerAnalyzer.Rewrite` | server.js:98-101 | The keyword and equality passes keep every line feed. |
| `ServerAnalyzer.FixText` | server.js:104-121 | `fixedCode` has the lines of the code. Line i is line i of the rewritten text, with `;` appended exactly when that rewritten line needs a terminator. |
| `ServerAnalyzer.TerminateLine` | server.js:104-121 | Terminating a rewritten line adds no line feed. |
| `ServerAnalyzer.FixTextSingleLine` | server.js:103-121 | Code without a line feed is fixed into its rewritten line, with `;` appended when that line needs it. |
| `ServerAnalyzer.TerminateLineIdempotent` | server.js:104-121 | A line that got its terminator needs no second one. |
| `ServerAnalyzer.KeywordPassIff` | server.js:98 | The keyword pass leaves a text unchanged exactly when it holds no whole-word `var`. |
| `ServerAnalyzer.TerminatePassIff` | server.js:104-121 | The terminator pass leaves the lines unchanged exactly when none needs a terminator. |
| `ServerAnalyzer.FixTextPasses` | server.js:96-121 | `fixedCode` equals the code exactly when none of the three passes changes anything. |
| `ServerAnalyzer.FixTextUnchangedIff` | server.js:96-121 | `fixedCode` equals the code exactly when the code has no whole-word `var`, no `X==Y` match, and no line that needs a terminator. |
| `ServerAnalyzer.TerminatorDivergence` | server.js:166 | On the line `var result = add(1, 2)` of the sample file, the report records no missing terminator, but the fix writes `let result = add(1, 2);`. The report tests the line as read, and the fix tests it after `var` became `let`. |
| `ServerAnalyzer.ServerSummaryReadsBack` | server.js:126-143 | The summary reads back as the stats record. |

## Findings

| source | as written | input that shows it | evidently intended | confidence | as-written member | corrected member |
|---|---|---|---|---|---|---|
| lib/analyzer.js:34 | `let ${variableName}` is passed to `replace` as a template string, so a `$1` or `$$` inside the identifier is expanded as a replacement pattern | `var a$1 = 2` becomes `let aa$1 = 2` | the identifier is kept verbatim: `let a$1 = 2` | high; follows from the ECMAScript definition of GetSubstitution, not executed | `Analyzer.DollarNameRenamed` (on `Analyzer.ReplaceBindingAsWritten`) | `Analyzer.ReplaceBinding`, with `Analyzer.VarRewrite` |

`Analyzer.AnalyzeLine` uses the corrected rewrite. By
`Analyzer.AsWrittenWithoutDollar`, it differs from the code only on
identifiers that hold `$`.

## Left out

- The Express application, routes and request logging of `server.js`, and the mock repository fetch and push, which draw PR numbers from `Math.random`. These are I/O plumbing around the pass.
- The Supabase functions, which delegate to a network model or the GitHub API, and the React components. None of them is part of the pass.
- `server.js` has no type guard. A non-string argument makes `split` throw, so `ServerAnalyzer.ServerAnalyze` takes a string.
- `AnalyzeCode` reduces a JavaScript value to what its type guard inspects, namely whether it is a string.
- Analyzer.Analyze: the four-line sample of `tests/analyzer.test.js` and its clean sample are not evaluated, so their expected counts (1 error, 2 warnings, 2 suggestions) and their unchanged clean code are not proved. Unfolding the analysis on a literal text of that size is beyond the proof budget. The general lemmas `Analyzer.LineDetectors` and `Analyzer.FixedCodeUnchangedIff` state the detector conditions and the unchanged-code condition those expectations follow from. The one sample line that is proved is `var result = add(1, 2)`, in `ServerAnalyzer.TerminatorDivergence`.
- Template expansion covers one capture group and no named groups, which is what the `var` pattern has. The loose-equality rewrites use a replacer function and a fixed template, so they are modelled directly.
- Text is a sequence of Dafny characters, which are Unicode scalar values. JavaScript strings are UTF-16 code units. The two agree on text inside the Basic Multilingual Plane. No normalisation is applied.
- ServerAnalyzer.ServerColumns: columns and `line.length` are counted in scalar values, not UTF-16 code units. A character outside the Basic Multilingual Plane counts once here but twice in JavaScript, so every column after one is smaller than the code reports. A lone surrogate, which a JavaScript string can hold, cannot be represented.
- Analyzer.AnalyzeLine: the analysis uses the corrected `var` rewrite. On a line whose declared name holds `$`, its fixed line differs from what the code writes (see "Findings"); `Analyzer.AsWrittenWithoutDollar` proves they agree otherwise.
