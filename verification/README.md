# lil-repl option parser and command history, in Dafny

lil-repl is a small Node.js REPL with a home-made command-line option parser, `command-less`. This project
models the parts of the two that carry logic. Each part is written as pure functions over immutable
sequences, and its properties are proved.

- **The option scanner** (`src/command-less.js`):
  - `getNextOption` classifies the head of the argument list as a short token (`-o`, `-abc`, `-o=val`) or a
    long token (`--name`, `--name=val`). It looks the option up, decides its value and consumes one or two
    tokens.
  - `parse` builds the `longs`, `shorts` and `parsing` lookup objects from the option table, and renders
    the help text first. It then repeats the scanner until no argument is left, and fills every option
    still `undefined` with its declared default.
  - The two regular expressions that recognise tokens are written out as a position automaton, in
    `TokenPattern`.
  - The ways the program ends without a result are values of `Scanner.ParseError`:
    - `UnknownOption` is the `process.exit(1)` at :197-200;
    - `UndefinedEntry` is a `TypeError` from indexing an undefined table entry;
    - `NoProgress` is a loop that would never end;
    - `MalformedToken` is the exit at :127-130, which is proved unreachable.
- **The help texts** (`src/command-less.js:28-75`): `helpPage` and `manPage`, in module `Help`. `Cli.Run`
  ties rendering and scanning together in the order `parse` uses.
- **Command history** (`src/index.js`):
  - the "command history compression" filter run at exit;
  - the merge of the session with the old history;
  - the text written to the history file;
  - `loadHistory`'s text-to-lines transform;
  - tab completion of the REPL's own commands (`customAutocomplete`).

Modules:

| module | file | contents |
|---|---|---|
| `Results` | results.dfy | `Option`, `Result` |
| `Text` | text.dfy | JavaScript string operations used by the source: `split`, `join`, `indexOf`, `charAt`, `slice`, `trim` blankness, ASCII case folding |
| `TokenPattern` | token_pattern.dfy | the token regular expressions of :102 and :149 |
| `Options` | options.dfy | values, the option table, the lookup objects `parse` builds |
| `Scanner` | scanner.dfy | `getNextOption`, the scan loop, `parse` |
| `ParseProperties` | parse_properties.dfy | what each token form does, for every table |
| `ParseExamples` | parse_examples.dfy | the same on the option table lil-repl declares |
| `Help` | help.dfy | `helpPage`, `manPage` |
| `Cli` | cli.dfy | `parse`'s help text plus its options |
| `History` | history.dfy | compression, save and load, completion |

Behaviour of the code that a reader might not expect, kept as written:

- **`-o=5` and `--flag=5`.** The format list in the comment at src/command-less.js:84-100 names `-o=val`.
  A one-character value after `=` matches neither regular expression, though, so these tokens are looked
  up whole and end in the unknown-option exit. See `TokenPattern.ShortOneCharValueRejected` and
  `ParseProperties.OneCharValueUnknown`.
- **The true/false test.** The comment at :139 reads "If the next token is a boolean value". The test
  `/^true|false$/i` accepts any word that starts with `true` or ends with `false`, ignoring case, and the
  accepted word is stored as a string, so `-d false` stores the truthy string `"false"`. See
  `Scanner.BoolWordShape`, `Scanner.BoolWordExamples` and `ParseExamples.DebugFalseIsAString`.
- **`--name` for a boolean.** A bare long boolean reads its default through `parsing[longs[op]]` (:185),
  which is keyed by the long name but indexed with the short name, so `--help` fails where `-h` works. See
  `ParseProperties.LongAlone` and `ParseExamples.LongHelpFails`.
- **Missing description.** `manPage` reads `description.indexOf` (:52) before its `typeof` guard (:56), so
  a package without a description makes `parse` throw in man style. See `Help.ManPage` and `Cli.Run`.
- **A value-taking option as the last token.** It gets `undefined`, which the default then replaces. The
  model keeps this pass-through rather than reporting a missing value.

## Model

| member | source | states |
|---|---|---|
| TokenPattern.ShortShape | src/command-less.js:102-130 | every token the short pattern accepts is `-` plus a letter, digit or dot, at least two characters long, and never accepted by the long pattern; so the `Don't recognize token format` exit cannot be reached |
| TokenPattern.BodyShape | src/command-less.js:102 | a token body both patterns accept is non-empty and starts and ends with a letter, digit or dot |
| TokenPattern.EqualsNeedsTwoMore | src/command-less.js:102 | every `=` inside an accepted body is followed by at least two more characters |
| TokenPattern.TailRunMatches | src/command-less.js:102 | any non-empty run of letters, digits and dots is an accepted body, so `-abc` and `--abc` are tokens |
| TokenPattern.ShortOneCharValueRejected | src/command-less.js:102 | `-o=5` (one-character key and one-character value) is accepted by neither pattern |
| TokenPattern.LongOneCharValueRejected | src/command-less.js:149 | `--name=5` (one-character value) is accepted by neither pattern |
| TokenPattern.ShortExamples | src/command-less.js:84-102 | `-o`, `-abc` and `-o=val` from the documented formats are accepted |
| TokenPattern.LongExamples | src/command-less.js:149 | `--help` and `--flag=55` are long tokens |
| TokenPattern.RejectedExamples | src/command-less.js:102 | `-`, `-_x`, `--` and a bare word are not tokens |
| Options.LongsOfTable | src/command-less.js:222-223 | `longs` has exactly the declared names, each mapped to its own short name |
| Options.EntriesOfTable | src/command-less.js:216 | `parsing` has exactly the declared names, each mapped to its own declaration |
| Options.ShortsOfTable | src/command-less.js:221-224 | `shorts` has a key exactly for each declared short name, mapped to the LAST option declaring it (no duplicate check) |
| Options.ShortsValuesDeclared | src/command-less.js:224 | every value of `shorts` is a declared long name |
| Options.ShortsExample | src/command-less.js:221-224 | of two options sharing a short name, the second owns it |
| Scanner.UndefinedNotBoolWord | src/command-less.js:138 | a missing next token is tested as the text `undefined`, which is not a true/false word |
| Scanner.BoolWordShape | src/command-less.js:138 | the true/false test passes every word that starts with `true` or ends with `false`, in either case, whatever else the word holds (the test at :178 is the same) |
| Scanner.BoolWordExamples | src/command-less.js:138 | `TRUEish`, `notfalse`, `True` and `FALSE` pass the test |
| Scanner.BoolWordRejected | src/command-less.js:138 | `xtrue`, `falsey`, `yes` and the empty word fail the test |
| Scanner.ShortValue | src/command-less.js:132-147 | a short option without `=` takes the next token as its value exactly when it is not a boolean or the next token passes the true/false test, and then one more token goes; otherwise it gets its negated default; failures are an undefined entry for its short name or the unknown-option exit |
| Scanner.LongValue | src/command-less.js:171-188 | a bare long option takes the next token exactly when the entry found through its short name is not a boolean or the token passes the true/false test, and two tokens go; otherwise one token goes and the value is the negated default of `parsing[longs[op]]`; failures are an undefined entry or the unknown-option exit |
| Scanner.NextOption | src/command-less.js:77-207 | a step yields only declared long names; it consumes a token or shortens the head token, unless neither pattern matched; it never ends in the malformed-token exit; an unknown-option exit names an op neither lookup object knows |
| Scanner.Scan | src/command-less.js:234-240 | every key the loop assigns is a declared long name |
| Scanner.Store | src/command-less.js:237 | storing the pairs adds exactly their keys to the object |
| Scanner.Parse | src/command-less.js:209-249 | succeeds exactly when the scan does, with the scan's error otherwise; the result has exactly the declared names; each holds the last value assigned to it, or its default when that is `undefined` or it was never assigned |
| Scanner.StoreLast | src/command-less.js:234-240 | after the loop each key holds the value of its last assignment; a later occurrence overrides an earlier one |
| Scanner.DeclaredKeys | src/command-less.js:237 | every key assigned in the loop is a property the options object declares |
| ParseProperties.SecondField | src/command-less.js:109-111 | after `split('=')`, field 0 is the text before the first `=` and field 1 the text up to the next `=` |
| ParseProperties.ShortEqualsForm | src/command-less.js:105-116 | `-k=val` looks up the character after `-` and takes the text between the first and second `=` as a string value; exactly one token goes |
| ParseProperties.LongEqualsForm | src/command-less.js:152-163 | `--name=val` looks up the text between `--` and the first `=`, takes the next field as value, one token goes |
| ParseProperties.CleanLookups | src/command-less.js:222-226 | in a table without name clashes, each lookup object sends option `i`'s names to what one expects |
| ParseProperties.CombinedBareBoolean | src/command-less.js:117-146 | `-abc` with `a` a boolean not followed by a true/false word yields `a`'s long name with its negated default, and rewrites the head to `-bc`, one character shorter, consuming nothing |
| ParseProperties.CombinedTakesNextToken | src/command-less.js:117-136 | `-abc` with `a` taking a value yields the next token as value, but the rewritten `-bc` is the token removed, so the value token stays at the head |
| ParseProperties.ShortAlone | src/command-less.js:122-147 | `-x` takes the next token and two tokens go for a non-boolean (or a boolean followed by a true/false word); otherwise the negated default and one token |
| ParseProperties.LongAlone | src/command-less.js:164-188 | `--name` takes the next token and two go for a non-boolean; a bare boolean fails on the undefined entry `parsing[short]` |
| ParseProperties.OneCharValueUnknown | src/command-less.js:197-200 | `-o=5` is looked up whole and ends in the unknown-option exit |
| ParseProperties.LongOneCharValueUnknown | src/command-less.js:197-200 | `--name=5` is looked up whole and ends in the unknown-option exit |
| ParseProperties.UnknownShortAborts | src/command-less.js:102-200 | a short token for an undeclared character never yields a value |
| ParseProperties.UnknownLongAborts | src/command-less.js:164-200 | a long token for an undeclared name never yields a value |
| ParseProperties.DeclaredWordNeverEnds | src/command-less.js:191-240 | a bare word equal to a declared name matches neither pattern, consumes nothing, and the loop never ends |
| ParseProperties.TrailingShortGetsDefault | src/command-less.js:242-246 | a value-taking `-x` as the last token reads `undefined`, so the option keeps its default |
| ParseProperties.SingleStep | src/command-less.js:234-246 | one step that consumes all arguments sets that option and leaves every other at its default |
| ParseProperties.ScanOneBoolean | src/command-less.js:122-147 | `-c` of a boolean with nothing after it scans to its negated default alone |
| ParseProperties.ScanTwoBooleans | src/command-less.js:117-147 | `-bc` of two booleans scans to both negated defaults, in order |
| ParseProperties.CombinedScan | src/command-less.js:117-146 | `-abc` of three booleans is scanned as `a`, then `-bc`, then `-c`, each with its negated default |
| ParseProperties.CombinedBooleans | src/command-less.js:117-146 | after `-abc` of three booleans, all three hold their negated defaults and every other option its default |
| ParseExamples.LilReplClean | src/index.js:26-36 | no two lil-repl options share a long or a short name |
| ParseExamples.DsuDeclarations | src/index.js:27-35 | the names, types and defaults of the lil-repl options used below |
| ParseExamples.ShortHelp | src/command-less.js:122-146 | `-h` turns `help` on and consumes the token |
| ParseExamples.LongHelpFails | src/command-less.js:185 | `--help` reads `parsing['h']` and fails |
| ParseExamples.DebugFalseIsAString | src/command-less.js:138-141 | `-d false` stores the truthy string `"false"` |
| ParseExamples.LimitWithEqualsUnknown | src/command-less.js:197-200 | `-l=5` ends in the unknown-option exit |
| ParseExamples.BareNameNeverEnds | src/command-less.js:234-240 | the word `debug` on the command line makes `parse` loop forever |
| ParseExamples.CombinedLilReplFlags | src/command-less.js:117-146 | `-dsu` switches on debug, saveAllCommands and uniqueCommands and leaves historyLimit and compressHistory at their defaults |
| Help.DecimalRoundTrip | src/command-less.js:42 | a number's decimal text reads back as the number |
| Help.ShownNumber | src/command-less.js:42 | an integer default is shown as its decimal digits, led by a minus sign exactly when negative, and that text reads back as the number |
| Help.Decimal | src/command-less.js:42 | the digits are non-empty, all decimal, with no leading zero |
| Help.Shown | src/command-less.js:42 | a string default is shown as itself; any other default as a non-empty text that starts with a minus sign exactly when it is a negative number, a number's text being digits after that |
| Help.HelpLines | src/command-less.js:31-44 | one help row per option, in declaration order |
| Help.HelpLine | src/command-less.js:32-43 | a help row starts with `short | long` and a tab, and ends with a tab, the description and `(default is …)` showing the default |
| Help.HelpPage | src/command-less.js:28-49 | the help page starts with the `Usage` line naming the program and ends with a newline |
| Help.HelpPageLines | src/command-less.js:28-49 | split at newlines, the help page is the four header lines, then exactly one line per option in order, then nothing |
| Help.HelpPageAppend | src/command-less.js:31-44 | declaring one more option appends exactly its row and changes nothing before it |
| Help.HelpLineTabs | src/command-less.js:33-37 | a row has two tabs, one more when the long name is under 12 characters, one more when the type is under 5 |
| Help.ShortDescription | src/command-less.js:52-56 | the NAME summary is the description through its first `.`, which is its only `.`, or the whole description when it has none |
| Help.ManLines | src/command-less.js:61-70 | one tab-indented man row per option, in declaration order |
| Help.ManPage | src/command-less.js:51-75 | fails exactly when the package has no description |
| Help.ManPageBlocks | src/command-less.js:51-75 | split at newlines, the man page gives back exactly its lines, when no field holds a newline |
| Help.ManPageLayout | src/command-less.js:51-75 | the man page's lines hold the NAME line with the short description, one line per option in order, and an AUTHOR line that reads `N/A` without an author |
| Help.ManPageAppend | src/command-less.js:61-72 | declaring one more option inserts its row just before the closing lines and changes nothing else |
| Cli.Run | src/command-less.js:209-219 | a man-style parser whose package lacks a description fails whatever the arguments; otherwise the outcome is `parse`'s, with the declared names as keys |
| Text.Split | src/index.js:202 | `split` gives one more piece than there are separators, none containing the separator |
| Text.JoinSplit | src/index.js:124 | joining the pieces of a split gives the text back |
| Text.SplitJoin | src/index.js:124 | splitting a join of separator-free pieces gives the pieces back |
| Text.SplitTerminated | src/index.js:124 | splitting newline-terminated lines gives the lines and a final empty piece |
| Text.SplitBeforeLast | src/index.js:202 | the text after the last separator is the last piece, and the text before it splits as it would alone |
| Text.IndexOf | src/command-less.js:52 | `-1` exactly when the character is absent, else its first position |
| History.Filter | src/index.js:106-120 | the filter never grows the list, and keeps a first line that differs from the marker |
| History.Compress | src/index.js:106-120 | compression never grows the list and always keeps the first line |
| History.CompressIsPick | src/index.js:106-120 | the filter keeps exactly the lines `Kept` describes (the first, and each line that does not repeat a kept predecessor), in order |
| History.DroppedIsRepeat | src/index.js:108-119 | a dropped line repeats the line right before it, which was kept, so two neighbours are never both dropped |
| History.PickHalf | src/index.js:108-119 | at least `ceil(n/2)` of `n` lines are kept |
| History.CompressSubMultiset | src/index.js:106-120 | the output is a sub-multiset of the input: compression only removes lines |
| History.CompressHalf | src/index.js:106-120 | the output is at least half as long as the input |
| History.CompressUnchanged | src/index.js:106-120 | the output equals the input exactly when no two neighbouring lines are equal |
| History.CompressRun | src/index.js:106-120 | a run of `n` equal lines becomes `ceil(n/2)` copies |
| History.CompressNotIdempotent | src/index.js:106-120 | `['ls','ls','ls']` compresses to `['ls','ls']` and then to `['ls']` |
| History.NonBlank | src/index.js:203 | the kept lines are exactly those not blank after trimming, untrimmed |
| History.NonBlankConcat | src/index.js:203 | the blank-line filter works line by line: filtering a concatenation filters each part in place, so survivors keep their order and their number of copies |
| History.Reverse | src/index.js:204 | line `i` of the result is line `n-1-i` of the input |
| History.ReverseConcat | src/index.js:204 | reversing a concatenation reverses each part and swaps them |
| History.LoadHistory | src/index.js:195-213 | a missing file gives no lines; otherwise every line is non-blank and newline-free, and the lines are, as a set, the file's non-blank pieces |
| History.LoadOneLine | src/index.js:201-204 | a one-line file loads as that line, or as nothing when it is blank |
| History.LoadAppendLine | src/index.js:201-204 | appending a line to the file puts it first in the loaded history, unless it is blank, and leaves the rest as it loaded before; with `LoadOneLine` this fixes the order and the copies of every loaded line |
| History.LoadWritten | src/index.js:124 | loading `data.join('\n') + '\n'` gives `data` reversed when no entry is blank or holds a newline |
| History.SaveHistory | src/index.js:87-125 | nothing is written exactly when the session ran no command; the written text ends in a newline |
| History.SaveThenLoad | src/index.js:87-125 | the next start loads the compressed merge of session and old history, reversed |
| History.Hits | src/index.js:190 | a command is a hit exactly when `line` is its prefix |
| History.HitsConcat | src/index.js:190 | hits keep the commands' order |
| History.HitsAll | src/index.js:190 | when every command matches, the hits are all the commands |
| History.Complete | src/index.js:189-193 | the completions are the hits, in the commands' order, when there are any, otherwise all commands, paired with `line` |
| History.CompleteExamples | src/index.js:189-193 | with `clear` and `exit`: an empty line offers both, `c` offers `clear`, `x` falls back to both |

## Left out

- `src/lil-debug.js` and `src/customDebug.js` are coloured, timed logging. They are not part of this model.
- REPL plumbing in `src/index.js` is not modelled: `repl.start`, event wiring, the `server.history` pushes,
  terminal cursor calls and the help/version early exit.
- `customEval` is not modelled, because it calls JavaScript `eval`.
- File I/O is replaced by values:
  - the history file's presence and text are an `Option<string>` argument;
  - the written file is the returned text.
- `process.argv`, `process.exit` and `console` are replaced by the argument list and `ParseError` values.
  The diagnostic messages are not modelled.
- `path.basename` and the `Object.assign` package defaults: the package name is given already defaulted.
- `util.format` is modelled as concatenation. Numeric defaults are integers (`Options.Num` is unbounded);
  floating-point defaults and `NaN` are not modelled.
- Help.Shown: the digit form matches JavaScript only for safe integers (magnitude below 2^53). JavaScript
  cannot hold larger integers exactly, and prints a magnitude of 1e21 or more in exponent form (`1e+21`).
- Help.ShownNumber: the round trip is stated for every integer; it describes the source only for safe
  integers, for the reason above.
- An `author` that is an object rather than a string is not modelled.
- Inherited `Object.prototype` properties are not modelled. In JavaScript, `shorts['constructor']` is
  defined on every object, so such names behave as always present.
- The order of `Object.keys` is not modelled. JavaScript lists integer-like property names first; the model
  keeps declaration order for all names.
- String lengths count characters, not UTF-16 code units.
- Option rows with fewer than four fields are not modelled: every declared option has a default.
- Scanner.Parse: requires distinct long names. This is a property of any JavaScript object literal, not a
  restriction of the source.
- Scanner.NextOption: requires a non-empty argument list. That is the loop condition under which the source
  calls it.
- Help.ManPage: requires that no type tag contains `%`. The source splices the type into `util.format`'s
  format string, where a `%` would be read as a directive.
- History.SaveThenLoad: stated only for sessions whose lines are non-blank and newline-free. `customEval`
  stores trimmed, non-empty commands.
- ParseExamples.CombinedLilReplFlags: states the `-dsu` result through the table's entries rather than
  the literal option names; `ParseExamples.DsuDeclarations` gives the names.
