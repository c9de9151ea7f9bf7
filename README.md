# yamlenv in Dafny

A model of yamlenv, a small Node.js library that reads `KEY: value` lines
from an `env.yaml` file into `process.env` without overwriting variables that
are already set, plus its helper that reads `yamlenv_config_<name>=<value>`
overrides from command-line arguments.

The model has three parts, following the library's two source files:

- `parse` (module `LineParser`, file `line_parser.dfy`): the text is split on
  `\n`; each line is matched against `^\s*([\w.-]+)\s*:\s*(.*)?\s*$`; the value
  group is unescaped (backslash-n becomes a newline, only when the value both
  starts and ends with `"`), stripped of one leading and one trailing quote
  and trimmed; later lines overwrite earlier ones. The regular expression is
  modelled as a left-to-right scanner `MatchLine` (greedy runs of character
  classes, `Text.Span`) and proved against a declarative description of
  every way the pattern can match (`Shape`) and of the way a backtracking
  matcher reports (`Greedy`). `Parse` is the loop of the source, proved equal
  to the fold `ParseText`.
- `config` and its alias `load` (module `Environment`, file
  `environment.dfy`): option defaulting, the file read (a parameter
  `readFile`), parsing, and the no-overwrite merge into the process
  environment, which is the map field `vars` of the class `ProcessEnv`.
- `optionMatcher` (module `CliOptions`, file `cli_options.dfy`): the pattern
  `^yamlenv_config_(.+)=(.+)` with its backtracking made explicit (the name
  runs to the last `=` that leaves a non-empty value), folded over the
  arguments with later arguments winning.

Shared pieces: `Chars` (the character classes of JavaScript regular
expressions: `\s`, `\w`, line terminators), `Text` (scanning, `trim`,
`split('\n')` and its inverse `join`), `Entries` (the last-write-wins fold
that both `parse` and `optionMatcher` perform), `Wrappers` (`Option`).

Where the prose description of the library and the code disagree, the model
follows the code:

- The description says a line may end in optional trailing whitespace
  outside the value. In the code the greedy `(.*)` group takes those blanks
  (all but line terminators) into the value, so quote stripping sees them:
  `A: "x"  ` stores `x"`, not `x` (`LineParser.NormalizeBlankAfterClosingQuote`).
- A carriage return inside a line stops the `.` of the pattern; if anything
  but blanks follows it the line is not accepted at all
  (`LineParser.ExampleCarriageReturnInside`); at the end of a line it is a
  trailing blank (`LineParser.ParseLineCarriageReturnAtEnd`).
- Quote stripping applies to unquoted values as well: any single leading or
  trailing `'` or `"` is removed (`LineParser.StripQuotesInverse`).

## Model

| member | source | states |
|---|---|---|
| Text.SplitLines | lib/main.js:12 | the pieces of `split('\n')`: at least one piece, none holding a newline |
| Text.JoinSplit | lib/main.js:12 | joining the pieces with newlines gives back the text |
| Text.SplitJoin | lib/main.js:12 | splitting newline-free lines joined by newlines gives back the lines |
| Text.Trim | lib/main.js:24 | `trim()` leaves no blank at either end |
| Text.TrimKeeps | lib/main.js:24 | `trim()` only cuts ends: a character property of the text holds of the result, and every non-blank character is kept |
| Text.TrimWrapped | lib/main.js:24 | trimming blanks wrapped around text that has none at its ends gives that text back |
| Entries.Collect | lib/main.js:26 | every key of the built object was assigned with its value by some entry |
| Entries.Assign | lib/main.js:26 | `obj[key] = value` binds the key to the value and leaves every other key as it was; no entry, no change |
| Entries.CollectAppend | lib/main.js:26 | one more entry assigns over the object built so far |
| Entries.CollectHasKey | lib/main.js:26 | a key is present exactly when some entry assigns it |
| Entries.CollectLastWins | lib/main.js:26 | a key's value is the one of the last entry assigning it |
| Entries.CollectSkipsNone | lib/main.js:15 | an entry that assigns nothing can be removed without changing the object |
| LineParser.MatchLine | lib/main.js:13 | a reported match fits the pattern (`Shape`) and is the greedy one (`Greedy`) |
| LineParser.MatchLineComplete | lib/main.js:13 | whenever the pattern fits the line, a match is reported with the same key, and the greedy fit is exactly the one reported |
| LineParser.MatchLineKey | lib/main.js:13 | the scans for leading blanks, key and blanks before the colon stop where any fit of the pattern puts them |
| LineParser.MatchLineValue | lib/main.js:13 | after the colon the scans reach the end of the line, and stop where a greedy fit does |
| LineParser.Captures | lib/main.js:13-17 | a captured key is a non-empty run of word, dot and hyphen characters |
| LineParser.CapturesSingleLine | lib/main.js:13 | the captured value holds no line terminator |
| LineParser.Unescape | lib/main.js:21 | the replacement never lengthens the text, and leaves it unchanged when it does not shorten it |
| LineParser.UnescapeComplete | lib/main.js:21 | no backslash-n is left after the replacement, and a leading `n` is kept in place |
| LineParser.UnescapeEscape | lib/main.js:21 | the replacement undoes writing each newline as backslash-n, for backslash-free text |
| LineParser.UnescapeIdentity | lib/main.js:21 | text with no backslash-n is unchanged |
| LineParser.UnescapePlain | lib/main.js:21 | a backslash-free prefix passes through the replacement unchanged |
| LineParser.UnescapeQuotedNewline | lib/main.js:21 | a backslash-n between two backslash-free texts inside double quotes becomes a newline |
| LineParser.StripQuotes | lib/main.js:24 | at most two characters are removed; the exact behaviour (one quote off each end) is stated by StripQuotesInverse |
| LineParser.StripQuotesInverse | lib/main.js:24 | exactly the wrapping quotes are removed, whatever the value holds in between |
| LineParser.StripQuotesKeeps | lib/main.js:24 | stripping adds no line break and no backslash-n |
| LineParser.TrimKeepsNoEscapedNewline | lib/main.js:24 | trimming adds no line break and no backslash-n |
| LineParser.NoEscapedNewlineSlice | lib/main.js:24 | cutting the ends of a text adds no backslash-n |
| LineParser.NormalizeValue | lib/main.js:17-24 | the stored value is trimmed |
| LineParser.NormalizeValueLineBreaks | lib/main.js:20-24 | an unquoted single-line value stays single-line; a double-quoted one has no backslash-n left |
| LineParser.NormalizeWrapped | lib/main.js:17-24 | a value wrapped in quotes (or not) and trailing blanks comes back as it was |
| LineParser.NormalizeEmpty | lib/main.js:17 | a missing value group reads as the empty string and stays empty |
| LineParser.NormalizeEscapedNewline | lib/main.js:20-24 | `"a\nb"` is stored as a, a newline, b |
| LineParser.NormalizeBlankAfterClosingQuote | lib/main.js:13-24 | blanks after a closing quote keep that quote in the stored value |
| LineParser.QuotedNormalized | lib/main.js:24 | a value between two quotes is stored without them |
| LineParser.QuotedSingleLine | lib/main.js:13 | quoting a single-line value keeps it single-line and starting with no blank |
| LineParser.ParseLine | lib/main.js:13-26 | a line yields an entry exactly when the pattern matches, with the captured key, a well-formed key and a trimmed value |
| LineParser.ParseLineLineBreaks | lib/main.js:20-24 | a stored value holds a line break only when the captured value was double-quoted |
| LineParser.ParseLineMatches | lib/main.js:13-24 | a line of blanks, key, blanks, colon, blanks, value, blanks is accepted with that key; when the value starts with a non-blank and the trailing part is empty or starts with a line terminator, the stored value is the normalised value |
| LineParser.BlankLineIgnored | lib/main.js:13-15 | a blank line adds nothing |
| LineParser.NoColonIgnored | lib/main.js:13-15 | a line without a colon adds nothing |
| LineParser.NonKeyStartIgnored | lib/main.js:13-15 | a line whose first non-blank character cannot start a key (a `#` comment) adds nothing |
| LineParser.KeyWithoutColonIgnored | lib/main.js:13-15 | a key followed by something other than blanks and a colon adds nothing |
| LineParser.ParseLineEmptyValue | lib/main.js:17 | `KEY:` stores the empty string |
| LineParser.ParseLineQuoted | lib/main.js:24 | `KEY: "m"` and `KEY: 'm'` store m |
| LineParser.ParseLineCarriageReturnAtEnd | lib/main.js:12-13 | a carriage return ending a line changes nothing |
| LineParser.ExampleCarriageReturnInside | lib/main.js:13 | `A: x\ry` is not accepted |
| LineParser.LineEntries | lib/main.js:12-13 | each line's entry, in order, each with a well-formed key and trimmed value |
| LineParser.LineEntriesAppend | lib/main.js:12 | entries of concatenated line lists concatenate |
| LineParser.ParseLines | lib/main.js:12-30 | every key of the object is well-formed and every value trimmed |
| LineParser.CollectWellFormed | lib/main.js:26 | assigning entries with well-formed keys and trimmed values builds an object with only such keys and values |
| LineParser.Parse | lib/main.js:9-31 | the loop returns the object of `ParseText` |
| LineParser.ParseLinesStep | lib/main.js:26 | one more line assigns its entry over the object built so far |
| LineParser.ParseText | lib/main.js:9-31 | the object `parse` returns has only well-formed keys and trimmed values |
| LineParser.ParseTextEmpty | lib/main.js:9-31 | the empty text gives the empty object |
| LineParser.ParseLinesHasKey | lib/main.js:15-26 | a key is present exactly when some line is accepted with it |
| LineParser.ParseLinesLastWins | lib/main.js:26 | a key's value comes from the last line accepted with it |
| LineParser.ParseLinesSkipsIgnored | lib/main.js:15 | a line that is not accepted can be removed without changing the object |
| LineParser.ParseTextSkipsIgnoredLine | lib/main.js:12-15 | the same, stated on the text joined with newlines |
| Environment.EffectiveLocation | lib/main.js:41-47 | the given path is read when it is present and non-empty; otherwise the default location |
| Environment.EffectiveEncoding | lib/main.js:42-50 | the given encoding is used when present and non-empty; otherwise utf8 |
| Environment.Merge | lib/main.js:56-60 | variables already set keep their values; every other parsed variable is added; nothing else changes |
| Environment.MergeNothing | lib/main.js:56-60 | an empty parse leaves the environment as it was |
| Environment.MergeIdempotent | lib/main.js:56-60 | loading the same file twice changes nothing the second time |
| Environment.MergeFirstWins | lib/main.js:56-60 | loading two files in turn is loading their union in which the first file wins |
| Environment.MergeOneMore | lib/main.js:57-58 | one more key is added when not yet set, and ignored otherwise |
| Environment.ProcessEnv.Config | lib/main.js:40-66 | a failed read returns its error and leaves the environment unchanged; a successful one returns the parsed object and merges it without overwriting |
| Environment.ProcessEnv.SetMissing | lib/main.js:56-60 | the loop over the parsed keys, in any order, leaves the merged environment |
| Environment.ProcessEnv.Load | lib/main.js:68-69 | `load` has exactly the contract of `config` |
| CliOptions.MatchArg | lib/cli-options.js:1-5 | a matched name and a matched value are never empty |
| CliOptions.Split | lib/cli-options.js:1 | both groups of the split after the prefix are non-empty, as the two `.+` demand |
| CliOptions.MatchArgSound | lib/cli-options.js:1-5 | a match is the prefix, a single-line name, `=`, a single-line value with no `=` before its last character, then the end of the argument or a line terminator |
| CliOptions.SplitSound | lib/cli-options.js:1 | the split at the backtracking point gives single-line groups around the `=`, and the value holds no `=` before its last character |
| CliOptions.SplitComplete | lib/cli-options.js:1 | for text of the documented form, the scan stops after the value and backtracks to the `=` right after the name |
| CliOptions.SplitSame | lib/cli-options.js:1 | the split depends only on the characters before the first line terminator |
| CliOptions.MatchArgComplete | lib/cli-options.js:1-5 | every argument of that form is matched with that name and value |
| CliOptions.MatchArgStopsAtLineBreak | lib/cli-options.js:1 | text after a line terminator does not change the match |
| CliOptions.StopsAtLineBreakAfterPrefix | lib/cli-options.js:1 | the same, when the text is at least as long as the prefix |
| CliOptions.LineBreakInPrefix | lib/cli-options.js:1 | a line terminator inside the prefix's span prevents a match |
| CliOptions.LastIndexOfSame | lib/cli-options.js:1 | the backtracking point depends only on the characters it scans |
| CliOptions.UnprefixedUnmatched | lib/cli-options.js:1 | an argument without the prefix is not matched |
| CliOptions.ExampleSplitAtLastEquals | lib/cli-options.js:1 | `yamlenv_config_A=B=C` sets `A=B` to `C` |
| CliOptions.ArgEntries | lib/cli-options.js:4-5 | each argument's match, in order, and every matched name and value is non-empty and single-line |
| CliOptions.Overrides | lib/cli-options.js:3-12 | every name and every value set is non-empty and holds no line break |
| CliOptions.OptionMatcher | lib/cli-options.js:3-13 | the reduce returns the object of `Overrides` |
| CliOptions.OverridesEmpty | lib/cli-options.js:12 | no arguments give the empty object |
| CliOptions.OverridesHasKey | lib/cli-options.js:7-9 | a name is set exactly when some argument matches with it |
| CliOptions.OverridesLastWins | lib/cli-options.js:8 | a name's value comes from the last argument matching it |
| CliOptions.OverridesSkipsUnmatched | lib/cli-options.js:7 | an argument that does not match can be removed without changing the object |

## Left out

- Reading the file (`fs.readFileSync`) is the parameter `readFile`; decoding
  bytes with an encoding is part of it, so `parse` of a Buffer is `parse` of
  its decoded text.
- `path.resolve(process.cwd(), 'env.yaml')` is the opaque
  `Location.DefaultLocation`; the working directory is not modelled.
- The error caught by `config` is the opaque `IoError` the reader returns;
  the model's only failure is the read.
- Option values are strings or absent; JavaScript truthiness of other types
  (numbers, objects) is not modelled.
- `process.env` converts assigned values to strings; all values here are
  already strings. Object prototype keys (`__proto__`, `hasOwnProperty`
  shadowing) are not modelled: keys are plain map keys. In particular a file
  that sets `hasOwnProperty` (when it is not already set) replaces the method
  used by the merge loop at lib/main.js:57 with a string, so the next key
  throws a TypeError and `config` returns `{ error }` after a partial merge;
  `ProcessEnv.Config` instead merges every key and returns the parsed object.
- The order of `Object.keys` is not modelled: `SetMissing` takes the keys in
  any order, and its result does not depend on it.
- Non-string elements of the argument list of `optionMatcher` are not
  modelled.
