# ENV Roulette, modelled in Dafny

ENV Roulette is a small command-line checker for environment files. It looks
in the working directory for the first of `.env`, `.env.local`,
`.env.development` and `.env.production` that exists. It reads that file and
splits it on `'\n'`, then trims each line. Blank lines and `#` comments are
skipped. Every other line is matched against `/^([A-Z_][A-Z0-9_]*)=?(.*)$/`.
A line that matches becomes a variable, and three heuristic rules run on it:
empty value, a space in the value, and a weak secret. A line that does not
match becomes an "unparsable" issue. The report masks the values of keys that
contain `SECRET` or `KEY` and ends with a confidence score.

The model follows the single function `playEnvRoulette` in `env-roulette.js`,
split into its parts:

- `Locator` (locator.dfy): the candidate list. `FindEnvFile` is the `for`
  loop with `break`. Which files exist is a parameter.
- `Text` (text.dfy): `split('\n')`, `trim()` and `includes(...)`. The set of
  characters `trim` strips is written out as ECMAScript defines it.
- `LineSyntax` (line_syntax.dfy): the regular expression, both as the
  function `MatchLine` and as the set of all ways the pattern can match a
  line (`RegexSplit`). A lemma proves that `MatchLine` returns one of those
  ways with the longest key, and that it consumes `=` whenever the
  character after the key is one. That is the match the backtracking
  engine finds first. The engine's search itself is not modelled.
- `Entries`, `Analyzer` (analyzer.dfy): variables, issues (a tagged datatype
  instead of message strings) and the three rules.
- `Parser` (parser.dfy): each line is classified as skipped, an assignment
  or malformed. `Variables` and `Issues` define the results for a whole file
  line by line. `ParseEnv` is the `forEach` loop that pushes onto the two
  arrays, and it is proved equal to them.
- `Reporter` (reporter.dfy): the masked display value, the loop over the
  variables that shows them, and the confidence score.
- `Roulette` (roulette.dfy): the whole run, `PlayEnvRoulette`. It returns an
  `Outcome`: no file, a read error, or a report.
- `LineExamples` (examples_lines.dfy): single lines worked through the model,
  among them the permissive `FOO bar` and `FOO==x`.

Some behaviour of the code worth knowing:

- The pattern makes `=` optional on its own. So `FOO bar` gives key `FOO`
  and value `" bar"`, and `FOO==x` gives value `"=x"`. A trimmed line
  matches exactly when it starts with `[A-Z_]` and holds no line
  terminator. A line terminator here is CR, U+2028 or U+2029 inside the
  line, since `.` does not match these.
- `fs.existsSync` is also true for a directory. The model takes the set of
  names that exist.
- The display value is `********` whenever the key contains `SECRET` or
  `KEY`. It is also `********` when the value itself is that text, so
  seeing the mask does not imply a sensitive key.
  `Reporter.DisplayValueSpec` states the exact condition.

## Model

| member | source | states |
|---|---|---|
| `Locator.FindEnvFile` | env-roulette.js:15-31 | Returns None exactly when no candidate exists. Otherwise it returns the candidate at the first index that exists, with no earlier candidate existing. |
| `Locator.FirstPresentUnique` | env-roulette.js:19-24 | At most one index is "first present", so the candidates and the existing files fully determine the file found. |
| `Text.Split` | env-roulette.js:43 | Splitting yields at least one piece, and no piece contains the separator. |
| `Text.JoinSplit` | env-roulette.js:43 | Joining the pieces of a split with `'\n'` gives back the original content. |
| `Text.SplitJoin` | env-roulette.js:43 | Splitting a join gives back the pieces, when no piece contains `'\n'`. |
| `Text.LeadingWhite` | env-roulette.js:48 | The count is the length of the longest all-white prefix. |
| `Text.TrailingWhite` | env-roulette.js:48 | The count is the length of the longest all-white suffix. |
| `Text.Trim` | env-roulette.js:48 | The input is white characters, then the result, then white characters, and the result neither starts nor ends with a white character. |
| `Text.TrimIdempotent` | env-roulette.js:48 | Trimming twice is the same as trimming once. |
| `Text.ContainsIffOccurs` | env-roulette.js:66-69 | `includes(p)` holds exactly when `p` occurs at some position. |
| `Text.ContainsChar` | env-roulette.js:66 | `includes(' ')` holds exactly when the value contains a space character. |
| `LineSyntax.KeyLength` | env-roulette.js:54 | The greedy key group reaches the end of the longest run of `[A-Z0-9_]` at the front of the line. |
| `LineSyntax.MatchLine` | env-roulette.js:54-58 | The match fails exactly on an empty line, a first character outside `[A-Z_]`, or a line terminator anywhere. On success the key is the longest key-character prefix, and the value is the rest after at most one `=`, unchanged. |
| `LineSyntax.MatchLineIsFirstRegexMatch` | env-roulette.js:54-58 | When the match fails, the pattern has no way to match the line. Otherwise the result is one way to match, and it consumes `=` exactly when the character after its key is `=`. No way to match has a longer key. |
| `Analyzer.WarningsSpec` | env-roulette.js:62-71 | Each warning fires exactly on its own condition: empty value; a space in the value; a key containing `SECRET` with a value shorter than 10. Warnings come in rule order, at most three, each with the variable's line and key, never an unparsable issue. |
| `Analyzer.EmptyValueWarnings` | env-roulette.js:63-71 | An empty value gives the empty-value warning, plus the weak-secret warning for a secret key, and never the spaces warning. |
| `Parser.LineVariables` | env-roulette.js:56-60 | A line gives at most one variable, and it carries that line's number. |
| `Parser.LineIssues` | env-roulette.js:63-74 | Every issue a line raises carries that line's number. |
| `Parser.Classify` | env-roulette.js:48-74 | A line is skipped exactly when it is blank or a `#` comment once trimmed. Otherwise it is an assignment exactly when the pattern matches the trimmed line, carrying that match's key and value. It is malformed, with its trimmed text, exactly when the pattern fails. |
| `Parser.ParseEnv` | env-roulette.js:43-75 | The variables and issues the loop pushes are exactly `Variables` and `Issues` of the classified lines of the split content. |
| `Parser.EachKeptLineCountsOnce` | env-roulette.js:51-74 | Variables plus unparsable issues equal the number of lines that are not skipped. |
| `Parser.SignificantLinesAccounted` | env-roulette.js:47-74 | Variables plus unparsable issues equal the number of lines that are neither blank nor `#` comments once trimmed. |
| `Parser.VariablesInFileOrder` | env-roulette.js:47-60 | Every variable carries a line number between 1 and the number of lines, and is exactly what that line yields. Line numbers strictly increase along the variables. |
| `Parser.AssignmentLineKept` | env-roulette.js:56-60 | The variable an assignment line yields appears among the file's variables. |
| `Parser.IssuesOfLine` | env-roulette.js:47-74 | The issues numbered `n` are exactly, and in order, the issues line `n` raises on its own. Numbers outside the file have none. |
| `Parser.IssuesInLineOrder` | env-roulette.js:47-74 | Issue line numbers lie within the file and never decrease, so a line's issues all come before those of any later line. |
| `Parser.VariableOfLine` | env-roulette.js:56-60 | A line gives a variable under its number exactly when it is an assignment, and then exactly one, with its key and value. |
| `Parser.SkippedLineInFile` | env-roulette.js:48-51 | A blank or comment line contributes no issue and no variable. |
| `Parser.UnparsableLineInFile` | env-roulette.js:72-74 | A line that fails the pattern contributes exactly one unparsable issue, with its number and trimmed text, and no variable. |
| `Parser.AssignmentLineInFile` | env-roulette.js:54-71 | A line that fits the pattern contributes exactly one variable, with the matched key and value, and exactly that variable's warnings. |
| `Reporter.DisplayValueSpec` | env-roulette.js:80-82 | A sensitive key shows the 8-character mask whatever its value. Any other key shows its value verbatim. The shown text is the mask exactly when the key is sensitive or the value is the mask text. |
| `Reporter.MaskHidesValue` | env-roulette.js:80-82 | Two variables with the same sensitive key show the same text, whatever their values. |
| `Reporter.SensitiveKeyOccurrence` | env-roulette.js:80 | A key is sensitive exactly when `SECRET` or `KEY` occurs in it at some position. |
| `Reporter.WeakSecretIsMasked` | env-roulette.js:69-82 | Every variable flagged as a weak secret is masked in the report. |
| `Reporter.ShowValues` | env-roulette.js:79-84 | The loop gives one shown value per variable, in order, each being that variable's display value. That value is masked or verbatim, as `Reporter.DisplayValueSpec` states. |
| `Reporter.ConfidenceScore` | env-roulette.js:94-96 | The score lies in [10,100]. It is 100 exactly when there are no issues, `100 - 10n` for 1 to 9 issues, and 10 from 9 issues on. |
| `Reporter.ScoreNonIncreasing` | env-roulette.js:95 | More issues never raise the score. |
| `Reporter.ScoreIsFormula` | env-roulette.js:95 | The special case for zero issues agrees with `max(10, 100 - 10n)`. |
| `Roulette.PlayEnvRoulette` | env-roulette.js:10-97 | The run has no file exactly when no candidate exists. Otherwise it names the first existing candidate, and either reports a read error or returns the report on that file's content. |
| `Roulette.ReportSummary` | env-roulette.js:43-96 | In a report, variables plus unparsable issues equal the significant lines, and issues come in line order. The score is 100 exactly when there are no issues, and otherwise lies between 10 and 90. |
| `LineExamples.ThreeCharacterKey` | env-roulette.js:54-58 | A line with a three-character key and no line terminator matches with that key, and with the rest after at most one `=`. |
| `LineExamples.PlainAssignment` | env-roulette.js:54-58 | `FOO=bar` matches with key `FOO` and value `bar`. |
| `LineExamples.PlainAssignmentWarnings` | env-roulette.js:63-71 | `FOO=bar` raises no warning. |
| `LineExamples.SpaceInsteadOfEquals` | env-roulette.js:54-58 | `FOO bar` matches with key `FOO` and value `" bar"`. |
| `LineExamples.SpaceInsteadOfEqualsWarnings` | env-roulette.js:66-67 | That value raises the spaces warning only. |
| `LineExamples.DoubledEquals` | env-roulette.js:54-58 | `FOO==x` matches with value `=x`. |
| `LineExamples.ShortSecretIsWeak` | env-roulette.js:69-70 | `API_SECRET=abc` raises the weak-secret warning only. |
| `LineExamples.TenCharacterSecretIsNotWeak` | env-roulette.js:69 | A 10-character secret raises no warning. |
| `LineExamples.NotAnAssignment` | env-roulette.js:72-74 | `not a valid line !!` does not match. |
| `LineExamples.InteriorCarriageReturn` | env-roulette.js:54 | A carriage return inside a line makes the match fail. |

## Left out

- Console output is not modelled: the banner, the emoji message texts, their formatting and the printed counts (env-roulette.js:11-12, 22, 28-29, 38, 64-73, 78-97). Issues are a datatype and the report is a returned value.
- `fs.existsSync` and `fs.readFileSync` become parameters. `present` is the set of names that exist. `contents` maps each readable file to its text, and a found file missing from it is a read failure. The read error's message is not modelled.
- The CLI entry point and `module.exports` (env-roulette.js:100-105) are not modelled.
- String lengths are sequence lengths, not UTF-16 code units. A character outside the Basic Multilingual Plane counts once here and twice in JavaScript, so `Analyzer.WarningsSpec`'s `|value| < 10` differs from `value.length < 10` for such values. The regex runs without the `u` flag, so the match itself does not depend on this.
- Content is taken as already decoded text. UTF-8 decoding, including a byte-order mark, is not modelled. A leading U+FEFF is stripped by `trim` like any other white character.

