# mkchoice in Dafny

`mkchoice` is a small terminal list picker. It prints a prompt and a list of
choices and highlights one of them. The user moves the highlight with the arrow
keys or `j`/`k`, confirms with space or enter, and cancels with Esc, `q` or Ctrl-C.
The chosen text is printed. This project models:

- the selection engine `Chooser` of `src/lib.rs`:
  - construction, selection by text, rendering of the option list;
  - the key loop of `present` and its result;
  - the row counts `str_height`, `choice_height` and `height`;
- the command line of `src/main.rs`:
  - `Args::parse`, the flag and choice parser, together with the decimal index parser it calls;
  - `Args::into_chooser`, which fills in the default prompt, inserts the stdin lines, clamps the index and looks up the selection.

The terminal is replaced by plain values:
- The keys are a finite sequence of `Navigation.Key` values.
- The output is a trace of `Render.Piece` values: text, plus symbolic markers for the colour, cursor-up and clear escapes.
- The terminal width is a parameter `w > 0`.
- The display width of a string is an abstract function `dw`.

Modules:
- `wrappers.dfy`: `Option` and `Result`.
- `geometry.dfy`: Rust's `str::lines` and the row counts.
- `navigation.dfy`: one key as a step on the highlighted index, and the fold over a key sequence.
- `render.dfy`: the text `choice_str` builds, and a reader that parses it back.
- `selector.dfy`: the `Chooser` class and the output of a whole session.
- `decimal.dfy`: `usize::from_str_radix(s, 10)` on a 64-bit target.
- `cli.dfy`: `Args`, the parser and `into_chooser`.

Each method that changes state is proved against a specification function, and the properties are proved about that function:
- `Chooser.KeyLoop` against `Navigation.Run` and `Selector.Redraws`, and `Chooser.Present` against `Selector.Session`, with the row counts as written or corrected;
- `Cli.Parse` against `Cli.Parsed`;
- `Chooser.ChoiceStr` against `Render.Frame`.

## Model

| member | source | states |
|---|---|---|
| Selector.Chooser.constructor | src/lib.rs:23-30 | a new chooser vanishes, has the prompt "Choose one:", holds the given options and highlights index 0 |
| Selector.FirstMatch | src/lib.rs:33-41 | the result is the first index holding the value, and it is absent exactly when no choice equals the value |
| Selector.Chooser.SetChoice | src/lib.rs:33-41 | returns true iff some choice equals the value; then the highlight is the first such index; otherwise the highlight is unchanged |
| Selector.Chooser.ChoiceStr | src/lib.rs:84-94 | the loop builds exactly the frame `Render.Frame` of the choices with the current one highlighted |
| Render.Frame | src/lib.rs:84-94 | a frame holds only text and colour markers, never a cursor movement or a clear |
| Render.UnframeFrame | src/lib.rs:84-94 | reading a frame back gives, in order, every choice and whether it is highlighted |
| Render.UnframeLine | src/lib.rs:87-91 | the line of one option reads back as that option and whether it is highlighted, after whatever was written before it |
| Render.FrameHighlightsCur | src/lib.rs:86-92 | line i of the frame shows choice i, highlighted iff i is the current index |
| Navigation.Step | src/lib.rs:57-75 | one key keeps the highlighted index within the list |
| Navigation.StepMovesOneRow | src/lib.rs:57-68 | the index changes only on Up/`k` when above the first choice (the index decreases by one), or on Down/`j` when above the last (the index increases by one); only the confirm and cancel keys end the loop |
| Navigation.Run | src/lib.rs:55-77 | the whole key loop keeps the highlighted index within the list |
| Navigation.RunAppend | src/lib.rs:55-77 | reading keys in two batches is reading them in one; keys after the loop ends are never read |
| Navigation.ConfirmIsFinal | src/lib.rs:69-72 | space or enter ends the loop with the index highlighted at that moment |
| Navigation.CancelIsFinal | src/lib.rs:73 | Esc, `q` or Ctrl-C ends the loop with no result, whatever the index |
| Navigation.IgnoredKeysChangeNothing | src/lib.rs:74 | any other key leaves the index unchanged |
| Navigation.UpsStopAtTop | src/lib.rs:57-62 | k Up presses move up k rows but never past the first choice |
| Navigation.DownsStopAtBottom | src/lib.rs:63-68 | k Down presses move down k rows but never past the last choice |
| Navigation.ScenarioDownDownEnter | src/lib.rs:63-72 | three choices from index 0 with Down, Down, Enter confirm index 2 |
| Navigation.ScenarioUpsClampAtTop | src/lib.rs:57-72 | three choices from index 2 with Up three times and Enter confirm index 0 |
| Navigation.ScenarioSingleChoice | src/lib.rs:57-72 | with a single choice Up and Down do nothing and Enter confirms index 0 |
| Selector.Chooser.HandleKey | src/lib.rs:56-75 | one pass of the loop moves the highlight as `Step` says and redraws only when it moved, moving up `choice_height` rows with `LineCount` (the corrected count with `WrittenRows`); it reports confirmation with the index, or cancellation |
| Selector.Chooser.KeyLoop | src/lib.rs:54-76 | the loop ends on the index `Run` gives and yields it exactly when the keys confirm; it writes exactly `Redraws`, one rewind and frame per move, each rewind moving up `choice_height` rows with `LineCount` |
| Selector.Redraws | src/lib.rs:55-76 | nothing is redrawn only when the highlight ends on the index it started from |
| Selector.KeyAdvances | src/lib.rs:55-75 | one key either ends the loop with everything written, or leaves the rest of the keys to finish the same run and the same output |
| Selector.Chooser.Present | src/lib.rs:42-82 | the result is `(i, choices[i])` when the keys confirm at index i and nothing otherwise; a confirmed choice is removed from the list; the output is exactly the session trace (prompt, first frame, one rewind and frame per move, then the erase when vanishing); with `LineCount` the rewinds move up `choice_height()` rows and the erase `height()` rows, as written |
| Selector.Session | src/lib.rs:44-80 | the output opens with the prompt line and, with vanish, closes with the rewind and clear |
| Selector.RedrawsRewindWholeList | src/lib.rs:57-68 | every redraw moves up by the same count, whatever index is highlighted; `KeyLoop` passes `choice_height` as written with `LineCount` |
| Selector.LastFrameShowsFinalIndex | src/lib.rs:52-76 | the last frame written highlights the index the loop ended on |
| Selector.VanishRewindsWrittenText | src/lib.rs:78-80 | with vanish the session ends by moving up over every row of the prompt and options as written, then clearing: always with `WrittenRows`, and with `height()` as written when no piece is empty or ends in a line feed; without vanish nothing follows the frames |
| Selector.CountsAgree | src/lib.rs:96-111 | when no piece is empty or ends in a line feed, `choice_height` and `height` as written equal the corrected counts, so the two sessions are the same |
| Selector.EmptyOptionRedrawsLow | src/lib.rs:63-67 | options `["", "b"]`, then Down: as written the redraw moves up 1 row where 2 were written; the corrected count moves up 2 |
| Geometry.Lines | src/lib.rs:115 | `str::lines` yields lines without line feeds, and none at all only for the empty string |
| Geometry.LinesOfLfTerminated | src/lib.rs:115 | the lines of text written with a line feed after each line are those lines |
| Geometry.LinesOfCrlfTerminated | src/lib.rs:115 | the lines of text written with CR LF after each line are those lines |
| Geometry.LinesOfPrefixLine | src/lib.rs:115 | a line feed after an unterminated last line adds no line |
| Geometry.LinesConcat | src/lib.rs:115 | splitting text cut right after a line feed splits each part |
| Geometry.RowsOf | src/lib.rs:115 | every line takes at least one row |
| Geometry.RowsOfExact | src/lib.rs:115 | lines take one row each exactly when none is as wide as the terminal |
| Geometry.StrHeight | src/lib.rs:114-116 | the empty string takes no rows; other text takes at least one row per line |
| Geometry.ChoiceHeight | src/lib.rs:106-111 | as written, `choice_height` is 0 exactly when every choice is empty: an empty choice counts no rows |
| Geometry.Height | src/lib.rs:98-105 | as written, `height` is 0 exactly when the prompt and every choice are empty |
| Geometry.StrHeightExact | src/lib.rs:114-116 | `str_height` is the number of lines exactly when no line wraps |
| Geometry.StrHeightConcat | src/lib.rs:114-116 | the heights of text cut after a line feed add up |
| Geometry.ChoiceHeightAgrees | src/lib.rs:106-111 | `choice_height` equals the rows the written option list takes when no choice is empty or ends in a line feed |
| Geometry.HeightAgrees | src/lib.rs:96-105 | `height` equals the rows of the prompt and options as written under the same condition |
| Geometry.BlockRows | src/lib.rs:96-97 | a line-terminated piece of text takes at least one row |
| Geometry.FrameRows | src/lib.rs:106-111 | the option list takes at least one row per choice |
| Geometry.BlockRowsVersusStrHeight | src/lib.rs:114-116 | a piece followed by a line break takes `str_height` rows, plus one when the piece is empty or ends in a line feed |
| Geometry.TotalRowsIsWrittenText | src/lib.rs:96-105 | the corrected count is the `str_height` of the prompt and options written one per line |
| Geometry.FrameRowsIsWrittenText | src/lib.rs:106-111 | the corrected count for the options is the `str_height` of the options written one per line |
| Geometry.EmptyOptionUndercounted | src/lib.rs:114-116 | for the options `["", "b"]`, `choice_height` counts 1 row where 2 are written |
| Decimal.Digits | src/main.rs:103 | a successful read means all digits, read as their decimal value, at most `usize::MAX` |
| Decimal.ParseUsize | src/main.rs:101-105 | the empty string is an `Empty` error; any value read is at most `usize::MAX` |
| Decimal.DigitsOfValue | src/main.rs:103 | a digit string reads as its value when that fits in `usize`, else as an overflow |
| Decimal.DigitsOk | src/main.rs:103 | reading succeeds iff the string is all digits and its value fits in `usize` |
| Decimal.ParseDecimal | src/main.rs:103 | every `usize` printed in decimal parses back to itself |
| Decimal.ParseLetters | src/main.rs:182-186 | "abc" is an invalid-digit error |
| Cli.Consume | src/main.rs:88-133 | one argument advances the parse; it adds no choice except a plain argument or the literal rest after `--`; it sets the stdin index only on `-`; it fails only on an index flag |
| Cli.ParseArg | src/main.rs:88-133 | the imperative `match` on one argument computes exactly `Consume` |
| Cli.Parsed | src/main.rs:76-142 | an empty list of choices means standard input, at index 0; the parse fails exactly when the scan does |
| Cli.ScanAppendsChoices | src/main.rs:87-135 | choices are only appended: those collected before stay, in order, at the front |
| Cli.Parse | src/main.rs:76-142 | the `while let` loop, the literal tail after `--` and the empty-choices rule compute exactly `Parsed` |
| Cli.ConsumeHelp | src/main.rs:89 | `-h`/`--help` sets the help flag and nothing else |
| Cli.ConsumeVanish | src/main.rs:90 | `-v`/`--vanish` sets the vanish flag and nothing else |
| Cli.ConsumePrompt | src/main.rs:91-95 | `-p`/`--prompt` takes the next argument as the prompt, replacing any earlier one |
| Cli.ConsumeSelection | src/main.rs:96-100 | `-s`/`--selection` takes the next argument as the selection |
| Cli.ConsumeIndex | src/main.rs:101-105 | `-n`/`--index` takes the next argument's decimal value as the index, and fails with the number parser's error when it rejects that argument |
| Cli.ConsumeValueFlagAtEnd | src/main.rs:91-105 | a value flag with nothing after it ends the parse and leaves its field unchanged |
| Cli.ConsumeDash | src/main.rs:106 | `-` records where the lines of standard input go |
| Cli.ConsumePromptPrefix | src/main.rs:107-114 | `-p=text`/`--prompt=text` sets the prompt to the text after `=` |
| Cli.ConsumeSelectionPrefix | src/main.rs:115-122 | `-s=text`/`--selection=text` sets the selection to the text after `=` |
| Cli.ConsumeIndexPrefix | src/main.rs:123-130 | `-n=digits`/`--index=digits` sets the index to the number after `=`, and fails with the number parser's error when it rejects that text |
| Cli.ConsumeDoubleDash | src/main.rs:131-135 | `--` ends flag parsing, and every later argument is a literal choice |
| Cli.ConsumePlain | src/main.rs:132 | an argument no arm claims is appended as a choice |
| Cli.NoDashIsPlain | src/main.rs:88-132 | an argument not starting with `-` is never a flag |
| Cli.ConsumeKeepsPrompt | src/main.rs:88-133 | an argument that is none of the four prompt spellings leaves the prompt as it was |
| Cli.ScanKeepsPrompt | src/main.rs:87-135 | a scan over arguments none of which sets the prompt leaves the prompt as it was |
| Cli.LaterPromptWins | src/main.rs:91-114 | for any arguments and whatever was read before, the last argument that sets the prompt gives the prompt, in any of its four spellings |
| Cli.ScanKeepsStdinIndex | src/main.rs:87-135 | a scan over arguments with no `-` among them leaves the stdin index as it was |
| Cli.LaterDashWins | src/main.rs:106 | for any arguments and whatever was read before, the last `-` gives the stdin index |
| Cli.IndexErrorStopsScan | src/main.rs:101-130 | an index flag, in any of its four spellings, whose value the number parser rejects ends the parse with that error, whatever was read before |
| Cli.BadIndexFailsParse | src/main.rs:101-105 | after plain arguments, `-n`/`--index` with a rejected value makes the whole parse fail with that error, whatever follows |
| Cli.ScanPlainPrefix | src/main.rs:132 | plain arguments are pushed as choices, in order, and the scan reads on after them |
| Cli.ParseUnitTest | src/main.rs:168-180 | the arguments of `test_arg_parse` parse to the expected record, stdin index 2 included |
| Cli.IndexParseErrorUnitTest | src/main.rs:182-186 | `--index abc` fails with the error `from_str_radix("abc", 10)` gives |
| Cli.ChoicesAreArguments | src/main.rs:76-142 | every parsed choice is one of the arguments |
| Cli.PlainArgumentsAreChoices | src/main.rs:132-139 | without flags the arguments are the choices in order; with no arguments standard input is read |
| Cli.LiteralsAfterDoubleDash | src/main.rs:131-135 | plain arguments, `--`, then anything at all: the choices are the plain arguments followed by everything after the `--` |
| Cli.StdinIndexIsArgPosition | src/main.rs:106 | as written, the stdin index is the argument position of a `-`, or 0 when there are no choices |
| Cli.ChoicePositionFits | src/main.rs:150-153 | with `-` recording the number of choices before it, the stdin index never passes the end of the choices |
| Cli.StdinPastChoices | src/main.rs:106 | `-p x a -` records index 3 as written but has one choice; counting choices records 1 |
| Cli.Gathered | src/main.rs:150-153 | the chooser's choices are the parsed choices and, when a `-` was given, the lines of standard input, nothing else, with the counts adding up |
| Cli.Splice | src/main.rs:152 | the inserted lines sit at the index, with the choices before and after it unchanged and in order |
| Cli.ClampAsWritten | src/main.rs:155 | `min(index, len)` is a valid index exactly when the index already was one, and is `len` otherwise |
| Cli.IndexPastEnd | src/main.rs:154-156 | `-n 5 a` parses to index 5 with one choice; the clamp as written gives 1, past the end; the corrected clamp gives 0 |
| Cli.ClampIndex | src/main.rs:154-156 | the corrected clamp keeps a valid index and maps any other to the last choice |
| Cli.StartChoice | src/main.rs:154-159 | the first highlight is the first choice equal to the selection; without a match it is the clamped index, or 0 when no index was given; it is at most the length, and only the clamp as written (`ToLength`) reaches the length of a non-empty list |
| Cli.IntoChooser | src/main.rs:143-161 | the chooser keeps the vanish flag; the prompt defaults to "Choose one:"; the stdin lines are spliced in at the stdin index; the highlight is `StartChoice` with the chosen clamp, `min(index, len)` with `ToLength`, and a valid index of a non-empty list with `ToLastChoice` |
| Cli.UsageExample | src/main.rs:37-49 | the usage text's example shows `1 2 3` right after `a` with `master` highlighted; counting choices gives exactly that list, and argument positions do not |

## Left out

- `main` (src/main.rs:9-63): the usage text, `std::env::args`, `println!` and `process::exit` are process glue. Only the usage example is used, as evidence.
- Terminal plumbing in `present`: opening the tty, raw mode, reading and decoding key events, and the `write!` calls' I/O errors. Keys are a finite sequence; when they run out, the loop ends with no result, as it does at the end of the key stream.
- The debug `eprintln!` calls in `present`, `height` and `choice_height`.
- `terminal_size` is a parameter `w > 0`, read once. A resize during a session is not modelled.
- `unicode_width`: display width is an abstract function `dw`.
- termion's escape bytes are symbolic markers.
- Geometry.StrHeight: the `u16` arithmetic is not modelled. The count is an unbounded `nat`, so the truncating `width() as u16` and a `u16` sum that could overflow are left out.
- The row counts ignore the two columns of `"> "` and `"  "` that precede each choice. The source ignores them too.
- Geometry.Lines: models `str::lines` as `split_terminator('\n')` with one trailing `\r` dropped from every line. Current Rust keeps a lone `\r` at the end of a final line without a line feed.
- Reading standard input in `into_chooser` is left out. Its lines arrive as a sequence, and I/O errors are left out.
- Selector.Chooser.Present requires a non-empty list and a valid highlighted index:
  - on an empty list, Down computes `len() - 1` (src/lib.rs:64), which underflows;
  - with the index past the end, confirming removes past the end (src/lib.rs:81).
- Navigation.Step: requires a non-empty list everywhere. The source needs it only for Down.
- Cli.IntoChooser requires the stdin index to be at most the number of choices. `Vec::splice` panics otherwise.
- Cli.Parse: the parameter `mark` selects where `-` records the stdin position. `ArgPosition` is the source as written; `ChoicePosition` is the corrected behaviour (see Findings).
- Cli.IntoChooser: the parameter `clamp` selects the clamp of an index past the end. `ToLength` is `min(index, len)` as written; `ToLastChoice` is the corrected clamp (see Findings). A chooser built with `ToLength` whose index equals the length is outside what `Present` accepts.
- Selector.Chooser.Present: the parameter `count` selects how the cursor moves are counted. `LineCount` is `choice_height()` and `height()` as written; `WrittenRows` counts the rows actually written (see Findings).
- Selector.VanishRewindsWrittenText: with `LineCount`, the erase covers the written rows only when no piece is empty or ends in a line feed; `Selector.EmptyOptionRedrawsLow` shows the undercount otherwise.

## Findings

| source | as written | input that shows it | evidently intended | confidence | as-written member | corrected member |
|---|---|---|---|---|---|---|
| src/main.rs:155 | the start index is clamped to `min(index, len)` | `mkchoice -n 5 a`, then Enter: the highlight sits at 1 in a one-choice list, and `choices.remove(1)` (src/lib.rs:81) panics | clamp to the last choice, `len - 1`: the smallest change that keeps the highlight on a real choice | high, not executed | Cli.IndexPastEnd | Cli.ClampIndex |
| src/main.rs:106 | `-` records its position among all arguments | `mkchoice -p x a -` records 3 with one choice, so `splice(3..3, …)` panics; as written, the usage example's command (src/main.rs:37-49) inserts the stdin lines after `-p`, while the list the example prints shows them after `a` | the number of choices collected before the `-` | medium (the unit test at src/main.rs:177 pins the argument position), not executed | Cli.StdinPastChoices | Cli.ChoicePositionFits |
| src/lib.rs:114-116 | `str_height` counts the lines of a choice, so `""` counts 0 rows and `"a\n"` counts 1 | options `["", "b"]` on a wide terminal, then Down: two rows were written, but the cursor moves up one row, so the redraw starts one row too low | the rows of the text as written, each choice followed by a line break (the comment at src/lib.rs:96-97) | high, not executed | Geometry.EmptyOptionUndercounted | Geometry.TotalRowsIsWrittenText |

Each operation these findings touch takes a parameter that selects the code as written or the corrected behaviour:
- `Cli.Parse` takes `mark`; `Cli.ChoicePositionFits` is what meets `IntoChooser`'s requirement on the stdin index.
- `Cli.IntoChooser` takes `clamp`; `ToLastChoice` clamps with `Cli.ClampIndex`.
- `Selector.Chooser.Present` takes `count`; `WrittenRows` rewinds by `Geometry.FrameRows` and erases `Geometry.TotalRows`, and `Selector.CountsAgree` shows the two agree whenever no piece is empty or ends in a line feed.
