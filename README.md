# A verified model of a command-line to-do list and its date phrases

The repository is a small Ruby to-do list. `todo.rb` is the command-line
script. It has four modes: display, add, change the deadline, and mark
done. `lib/todo.rb` holds the task-list helpers. `parser.rb` turns English
date phrases such as "in 2 weeks", "3 days from next friday" or
"tomorrow" into dates. It does this with a tokenizer (`TimeLex`) and an
LALR grammar (`TimeParse`).

This project models that core in Dafny and proves what it promises.

- `text.dfy` (module `Text`): strings as character sequences. It covers
  ASCII case folding, digit runs and decimal rendering (`Integer#to_s`).
- `time_lex.dfy` holds two modules.
  - `TimeLex` writes each token pattern of `parser.rb` as a matcher that
    returns the length of its match. Patterns are tried in declaration
    order and the first match wins, as rly does. Each token's value is
    computed by the token's action.
  - `TimeLexFacts` holds what is proved about that tokenizer.
- `time_parse.dfy` holds two modules.
  - `TimeParse` is the grammar as a deterministic recursive descent over
    the token sequence. Its values are computed bottom-up, as the rule
    actions do.
  - `TimeGrammar` is the grammar as a relation between token sequences
    and values, one production at a time. It proves that the descent
    computes exactly that relation and that the relation is unambiguous.
- `time_phrases.dfy` (module `TimePhrases`) holds what the rules compute
  for whole phrases.
- `tasks.dfy` (module `TodoLib`) models `lib/todo.rb`: the constants, the
  in-place sort, `limit_to_show`, `diff_to_text`, `choose_color_by_diff`
  and `count_urgent`.
- `todo_script.dfy` (module `TodoScript`) models `todo.rb`:
  - `r_to_date` and the colour classes of `date_colorize`;
  - the row filter of `print_task`;
  - the display loop;
  - the stored list as a class whose add, change and done methods edit it
    in place.

Conventions used throughout:

- Dates are integer day ordinals, so `Date ± Integer` is integer
  arithmetic.
- Times are integer seconds since the epoch.
- The clock (`Date.today`, `Time.now`) is a parameter.
- Ruby's date library is passed in as a `Calendar`:
  - `Date.parse` of a DATE, MONTHDAY or WEEKDAY lexeme is
    `Calendar.parseDate`. It returns `None` where Ruby raises
    "invalid date".
  - `Date#next_month` is `Calendar.nextMonth`.
- An undated task sorts under the key 2099-02-03T04:05:06+07:00, which is
  4073749506 seconds since the epoch.
- Ruby's `(x / y).to_i` on a Float truncates toward zero. It is written
  out as `TruncDiv`, because Dafny's `/` floors.

## Model

| member | source | states |
|---|---|---|
| TimeLex.DateLength | parser.rb:25 | a DATE matches if and only if one or two digits are followed by "/" or "-" and a digit; the match is the day digits, the separator, one or two month digits and an optional year made of a separator and two or four digits |
| TimeLex.MonthDayLength | parser.rb:34 | a MONTHDAY matches if and only if one or two digits are followed by "th", "nd" or "st" in any case, and the match is those digits and the two letters |
| TimeLex.WeekdayLength | parser.rb:52 | WEEKDAY matches if and only if some prefix of at least four characters of the run of word characters ends in "day" in any case, and the match is the longest such prefix, as the greedy `\w+` backs off |
| TimeLex.ToLength | parser.rb:67 | TO matches if and only if the input starts with "to" in any case and the next character is not a "d" of either case; the match is two characters |
| TimeLex.ENumberLength | parser.rb:71 | ENUMBER matches if and only if one of "the", "a" followed by a space, "one" to "ten" begins the input in any case; the match is the first of these alternatives, in the pattern's order, that does |
| TimeLex.FirstMatch | parser.rb:11-71 | the chosen pattern matches with a non-empty match of the reported length, and every pattern declared before it fails there; there is no match if and only if no pattern matches |
| TimeLex.NumeralCase | parser.rb:72-97 | the `case` on an English numeral gives a value from 0 to 10; ENumberValues shows that no ENUMBER lexeme gets 0 |
| TimeLex.MakeToken | parser.rb:11-99 | the token has the kind of its pattern; DATE, MONTHDAY and WEEKDAY carry `Date.parse` of the lexeme and fail, naming the lexeme, exactly when it is no date; NUMBER carries the digits' value and ENUMBER the value of the `case` |
| TimeLex.Scan | parser.rb:7-100 | a scanned token consumes at least one and at most the remaining characters; the lexical error at this point happens exactly when no pattern matches, and any other failure is an invalid date |
| TimeLex.Lex | parser.rb:7-100 | a tokenized phrase has no more tokens than characters; a failure is a lexical error or an invalid date; LexFailsIff states when it fails |
| TimeLexFacts.LexFailsWhereReached | parser.rb:7-100 | once the tokenizer gets to a non-blank place where scanning fails (no pattern matches, or `Date.parse` rejects the lexeme), the whole phrase fails with that error: nothing is skipped and no partial token list is kept |
| TimeLexFacts.LexFailsIff | parser.rb:7-100 | the tokenization fails if and only if it gets to a place where scanning fails |
| TimeLexFacts.LexInvalidDate | parser.rb:25-56 | a DATE, MONTHDAY or WEEKDAY lexeme that `Date.parse` rejects aborts the tokenization with that lexeme |
| TimeLexFacts.LexErrorInside | parser.rb:7-100 | a lexical error points at a part of the phrase that starts at a non-blank character where no pattern matches |
| TimeLex.FailsBeforeAll | parser.rb:11-71 | "every pattern declared before position i fails" holds exactly when each of those patterns, taken one by one, has no match |
| TimeLexFacts.FirstMatchNoneIff | parser.rb:11-71 | the tokenizer finds no pattern at a position if and only if every one of the sixteen patterns fails there |
| TimeLexFacts.FirstMatchOf | parser.rb:11-71 | a pattern that matches where every pattern declared before it fails is the one chosen, with its own match length |
| TimeLexFacts.ScanDay | parser.rb:11-14 | "day" or "days" in any letter case is one DAY token carrying 1, consuming the plural "s" when there is one |
| TimeLexFacts.ScanWeek | parser.rb:15-18 | "week" or "weeks" in any letter case is one WEEK token carrying 7 |
| TimeLexFacts.ScanMonth | parser.rb:19-22 | "month" or "months" in any letter case is one MONTH token carrying 30 |
| TimeLexFacts.ScanDate | parser.rb:25-28 | a DATE lexeme such as "12/25" or "1-2-2016" is one DATE token dated by `Date.parse` of the whole lexeme, since no earlier pattern starts with a digit; an invalid date aborts the scan with that lexeme |
| TimeLexFacts.ScanNext | parser.rb:31 | "next" in any case is one NEXT token of four characters |
| TimeLexFacts.ScanMonthDay | parser.rb:34-37 | a one- or two-digit day with "th", "nd" or "st" is a single MONTHDAY token (DATE needs a separator, NUMBER comes later), dated by `Date.parse` of the whole lexeme; an invalid date aborts the scan with that lexeme |
| TimeLexFacts.ScanYesterday | parser.rb:39-42 | "yesterday" in any case is one YESTERDAY token dated today - 1 |
| TimeLexFacts.ScanToday | parser.rb:43-46 | "today" in any case is one TODAY token dated today, because it is tried before TO |
| TimeLexFacts.ScanTomorrow | parser.rb:47-50 | "tomorrow" in any case is one TOMORROW token dated today + 1, because it is tried before TO |
| TimeLexFacts.ScanWeekday | parser.rb:52-56 | a word ending in "day" that begins with no digit and with none of the keywords declared earlier is one WEEKDAY token, its lexeme the longest "day"-ending prefix, dated by `Date.parse` of that lexeme; an invalid date aborts the scan with the lexeme |
| TimeLexFacts.ScanTo | parser.rb:67 | a scanned TO token is exactly the two letters "to", and the phrase there never begins with "today" or "tomorrow" |
| TimeLexFacts.FirstMatchTo | parser.rb:43-50 | when TO is the first pattern to match, its match is two characters long and the input starts with neither "today" nor "tomorrow" |
| TimeLexFacts.ScanNumber | parser.rb:59-62 | a run of digits that ends the phrase or is followed by a blank is one NUMBER token carrying the decimal value of those digits |
| TimeLexFacts.NumberIsNotDate | parser.rb:25 | a digit run followed by a blank or the end is never a DATE |
| TimeLexFacts.NumberIsNotMonthDay | parser.rb:34 | a digit run followed by a blank or the end is never a MONTHDAY |
| TimeLexFacts.NumberIsNotWeekday | parser.rb:52 | a digit run followed by a blank or the end is never a WEEKDAY, because no run of digits ends in "day" |
| TimeLexFacts.ScanIn | parser.rb:65 | "in" in any case, followed by a blank, is one IN token of two characters |
| TimeLexFacts.ScanFrom | parser.rb:66 | "from" in any case, as a whole word, is one FROM token of four characters, not a WEEKDAY |
| TimeLexFacts.ScanAfter | parser.rb:68 | "after" in any case, as a whole word, is one AFTER token of five characters, not a WEEKDAY |
| TimeLexFacts.ScanENumber | parser.rb:71-99 | each of the twelve numerals as a whole word ("a" only before a space) is one ENUMBER token carrying its number: 1 for "the", "a" and "one", 2 to 10 for "two" to "ten" |
| TimeLexFacts.ENumberValues | parser.rb:71-99 | every ENUMBER lexeme gets a value from 1 to 10, so the `case` never falls through to nil |
| TimeLexFacts.NumeralsOneToThree | parser.rb:72-82 | "the", "a" and "one" are 1, "two" is 2, "three" is 3 |
| TimeLexFacts.NumeralsFourToSix | parser.rb:83-88 | "four", "five" and "six" are 4, 5 and 6 |
| TimeLexFacts.NumeralSeven | parser.rb:89-90 | "seven" is 7 |
| TimeLexFacts.NumeralEight | parser.rb:91-92 | "eight" is 8 |
| TimeLexFacts.NumeralsNineToTen | parser.rb:93-96 | "nine" is 9 and "ten" is 10 |
| TimeLexFacts.LexWellValued | parser.rb:11-99 | every token of a successful tokenization carries the value its action stores: 1, 7 or 30 for units, today and today ± 1 for the relative days, a non-negative count, an English count from 1 to 10 |
| TimeLexFacts.LexSkipsBlanks | parser.rb:8 | spaces, tabs and newlines in front of a phrase do not change its tokens |
| TimeLexFacts.LexStray | parser.rb:7-100 | a non-blank place where no pattern matches, in particular a character no pattern can consume, stops the tokenizer with a lexical error at that point |
| TimeLexFacts.StrayUnmatched | parser.rb:7-100 | no pattern matches at a character that no pattern can consume |
| TimeLexFacts.FrobnicateUnmatched | parser.rb:11-100 | no pattern matches at a phrase that begins with "frobnicate" and has no "y" |
| TimeLexFacts.StartChar | parser.rb:11-71 | each pattern matches only at a character it can begin with, in either case |
| TimeParse.ParsePeriod | parser.rb:136-146 | a parsed `timeperiod` ends after its first token and within the tokens; a failure is a grammar error at its first or second token, never past the end |
| TimeParse.ParsePoint | parser.rb:120-134 | a parsed `timepoint` ends after its first token and within the tokens; a failure is a grammar error at its first or second token, never past the end |
| TimeParse.ParseTime | parser.rb:104-118 | a failed `time` is a grammar error at a position inside the token sequence or at its end |
| TimeParse.Parse | parser.rb:7-146 | a phrase that fails to tokenize fails with that error; a grammar error comes only from a phrase that tokenizes, at a position within its tokens |
| TimeGrammar.ParseTimeSound | parser.rb:104-146 | every value the parser returns is derived by one of the `time` productions |
| TimeGrammar.ParseTimeComplete | parser.rb:104-146 | every value the productions derive is the one the parser returns |
| TimeGrammar.ParseTimeIffDerives | parser.rb:104-146 | the parser returns v if and only if the grammar derives v |
| TimeGrammar.DerivesUnique | parser.rb:104-146 | the grammar is unambiguous: a token sequence derives at most one value |
| TimeGrammar.ParsePeriodExact | parser.rb:136-146 | the period parser consumes exactly one `timeperiod` and returns its value |
| TimeGrammar.ParsePointExact | parser.rb:120-134 | the point parser consumes exactly one `timepoint` and returns its value |
| TimePhrases.BareUnitPeriod | parser.rb:136-142 | a bare unit is a period of its multiplier: 1, 7 or 30 days |
| TimePhrases.CountedPeriod | parser.rb:144-146 | a NUMBER or ENUMBER in front of a unit multiplies the unit's days |
| TimePhrases.FrobnicatePhrases | parser.rb:7-100 | "frobnicate" and "frobnicate tomorrow" both fail with a lexical error at their first character |
| TimePhrases.TomorrowFrobnicatePhrase | parser.rb:7-100 | "tomorrow frobnicate" fails with a lexical error at "frobnicate": the TOMORROW token before it does not rescue the phrase |
| TimePhrases.InvalidDatePhrase | parser.rb:25-28 | "30/2" fails with an invalid-date error when `Date.parse` rejects it |
| TimePhrases.WeeksTokens | parser.rb:15-18 | "N weeks", in any case, tokenizes to NUMBER(N) and WEEK(7); CountedPeriod then gives the period N * 7 days |
| TimePhrases.LexCount | parser.rb:59-62 | a count in digits, a blank and a unit word tokenize to a NUMBER carrying the count and the unit token |
| TimePhrases.PeriodAloneFails | parser.rb:104-118 | a period with no connector and no point is not a `time`: the grammar error is at the end of the input |
| TimePhrases.OffsetPhrases | parser.rb:108-114 | "P from T" and "P after T" are T + P; "P to T" is T - P |
| TimePhrases.FromToSymmetric | parser.rb:108-114 | for the same period and point, the "from" and "to" results sum to twice T and differ by twice P |
| TimePhrases.InPhrase | parser.rb:116-118 | "IN P" is today + P |
| TimePhrases.InPeriodPhrase | parser.rb:116-118 | "in", a blank and a period phrase parse to today plus the period |
| TimePhrases.NextPhrases | parser.rb:128-134 | "next WEEKDAY" is the weekday's date + 7; "next MONTHDAY" is the month-day's date moved to the next month |
| TimePhrases.YesterdayPhrase | parser.rb:39-42 | the phrase "yesterday", followed only by blanks, parses to today - 1 |
| TimePhrases.TodayPhrase | parser.rb:43-46 | the phrase "today" parses to today |
| TimePhrases.TomorrowPhrase | parser.rb:47-50 | the phrase "tomorrow" parses to today + 1 |
| TodoLib.SortTasklist | lib/todo.rb:20-30 | the array ends up ordered by due date, with undated tasks keyed at the 2099 sentinel, and it is a permutation of what it held |
| TodoLib.InsertDown | lib/todo.rb:22 | one insertion pass extends the sorted prefix by one element and keeps the multiset |
| TodoLib.SortedKeysUnique | lib/todo.rb:22-29 | any two sorted arrangements of the same tasks agree on the due key at every position, so an unstable sort changes only the order of tasks with equal keys |
| TodoLib.UndatedAfterEarlier | lib/todo.rb:23-27 | in a sorted list, an undated task comes after every task due before the sentinel |
| TodoLib.Key | lib/todo.rb:22-28 | the sort key: the due time, or the 2099 sentinel for an undated task; its ordering consequences are SortTasklist and UndatedAfterEarlier |
| TodoLib.DueSoon | lib/todo.rb:55-56 | the shortlist block: a date less than `NORMAL_THRESHOLD` seconds ahead; Shortlist, ShortlistComplete and LimitToShowDueSoon are stated with it |
| TodoLib.LimitToShow | lib/todo.rb:50-52 | with `showall` the list is returned unchanged |
| TodoLib.LimitToShowShape | lib/todo.rb:54-59 | without `showall` the view is either a prefix of at most five tasks or only tasks due soon, and it holds at least four tasks unless the list is shorter |
| TodoLib.LimitToShowFallback | lib/todo.rb:58 | with fewer than `TASKLIST_LENGTH` (4) tasks due soon the view is `tasklist[0..4]`, the first five tasks or the whole list if shorter; otherwise it is exactly the tasks due soon |
| TodoLib.LimitToShowDueSoon | lib/todo.rb:54-59 | when at least four tasks are due soon, a task is shown if and only if it has a date within `NORMAL_THRESHOLD` |
| TodoLib.Shortlist | lib/todo.rb:54-57 | the selection holds only tasks of the list that have a date within `NORMAL_THRESHOLD` |
| TodoLib.ShortlistComplete | lib/todo.rb:54-57 | every task due soon is selected |
| TodoLib.ShortlistAppend | lib/todo.rb:54-57 | selection preserves order: selecting from a concatenation selects from each part in turn |
| TodoLib.TruncDiv | lib/todo.rb:65-66 | `.to_i` of the quotient truncates toward zero, for either sign |
| TodoLib.Counted | lib/todo.rb:68-70 | the unit takes the plural "s" if and only if the count is above 1, so a count of 0 or 1 reads "0 minute" or "1 day" |
| TodoLib.DiffToText | lib/todo.rb:63-84 | the text is either "past due" or "due in " followed by at least one more character |
| TodoLib.DiffToTextPastDue | lib/todo.rb:63-84 | the text is "past due" exactly for durations up to zero |
| TodoLib.DiffToTextDays | lib/todo.rb:71-73 | at `URGENT_DAYS` days or more, the text is only "due in N days" |
| TodoLib.DiffToTextOneDay | lib/todo.rb:74-77 | between one and two days: one day, then the whole hours beyond it when there is at least one |
| TodoLib.DiffToTextHours | lib/todo.rb:79-80 | under a day: the whole hours (1 to 23) and the minutes beyond them (0 to 59) |
| TodoLib.DiffToTextMinutes | lib/todo.rb:82 | under an hour: the whole minutes, from 0 to 59 |
| TodoLib.DiffToTextUnderMinute | lib/todo.rb:67-82 | less than a minute ahead reads "due in 0 minute": zero whole minutes, in the singular |
| TodoLib.ChooseColorByDiff | lib/todo.rb:86-94 | green if and only if the duration exceeds 5 days, red if and only if it is at most 2 days, yellow in between |
| TodoLib.ColorMonotone | lib/todo.rb:86-94 | more time left never gives a more pressing colour |
| TodoLib.Urgent | lib/todo.rb:124 | the `count_urgent` block: a date at most `URGENT_THRESHOLD` seconds ahead; UrgentIsRed shows these are exactly the red tasks |
| TodoLib.CountUrgent | lib/todo.rb:123-125 | the count lies between 0 and the list length |
| TodoLib.CountUrgentAppend | lib/todo.rb:123-125 | the count of a concatenation is the sum of the counts |
| TodoLib.CountUrgentExtremes | lib/todo.rb:123-125 | the count is 0 if and only if no task is dated within `URGENT_THRESHOLD`; it is the full length if and only if all are |
| TodoLib.UrgentIsRed | lib/todo.rb:86-94 | a dated task is counted as urgent if and only if its colour is red |
| TodoLib.CountUrgentWithinShortlist | lib/todo.rb:123-125 | urgent tasks are due soon, so they never outnumber the shortlist |
| TodoScript.RToDate | todo.rb:31-40 | the text `r_to_date` builds; RToDatePrefix, RToDateFuture, RToDateFar and RToDatePast state what it reads for every duration |
| TodoScript.RToDatePrefix | todo.rb:33 | the text begins with "past due " for durations up to zero and with "due in " otherwise |
| TodoScript.RToDateFuture | todo.rb:31-40 | ahead of time: whole days when there is at least one; under three days, the remaining whole hours when there is at least one; a space only when both appear |
| TodoScript.RToDateFar | todo.rb:34-38 | three days or more ahead: only whole days, no hours |
| TodoScript.RToDatePast | todo.rb:31-40 | overdue: the same parts as the absolute duration, each negative, and the hours are always shown when non-zero |
| TodoScript.DateColor | todo.rb:42-52 | red if and only if under 3 days, green if and only if over 7 days, otherwise yellow |
| TodoScript.DateColorMonotone | todo.rb:45-51 | more time left never gives a more pressing colour |
| TodoScript.RowOf | todo.rb:54-62 | a row carries its index and the task text, and it has a due part if and only if the task has a date; RowOfDated states what that part is |
| TodoScript.RowOfDated | todo.rb:42-58 | a dated task's due part is the `r_to_date` text of due - now, red exactly when due - now is under 3 days, green exactly when it is over 7 days, and it begins with "past due " exactly when the due time has come |
| TodoScript.RToDatePastDue | todo.rb:33 | the text begins with "past due " if and only if the duration is at most zero |
| TodoScript.PrintsRow | todo.rb:67-72 | the two `when` conditions of `print_task`; PrintsRowIff reduces them to one |
| TodoScript.PrintsRowIff | todo.rb:66-73 | a row is printed if and only if the task is dated within 5 days or its index is below 5 |
| TodoScript.DisplayRows | todo.rb:81-85 | the display loop's counter walk prints exactly the rows of the shown tasks, in list order |
| TodoScript.ShownRows | todo.rb:81-85 | the printed rows are never more than the tasks, and every row's index lies inside the list |
| TodoScript.ShownRowsSound | todo.rb:81-85 | each printed row is the row of a shown task at its index, and the indices strictly increase |
| TodoScript.ShownRowsComplete | todo.rb:81-85 | every shown task has its row among the printed ones |
| TodoScript.ShownRowsFirstFive | todo.rb:68-71 | the first five tasks are always printed, at the front and in order |
| TodoScript.FirstFiveCount | todo.rb:68-71 | a list of at most five tasks prints one row per task |
| TodoScript.ShowAllRows | todo.rb:83 | with `showall` every task is printed, in order |
| TodoScript.TaskList.Add | todo.rb:90-101 | the new task is added, and the stored list is sorted by due date with undated tasks at the sentinel and is a permutation of the old list plus the new task |
| TodoScript.ResolveIndex | todo.rb:116 | an index resolves if and only if it lies between -n and n - 1; a negative index counts from the end |
| TodoScript.TaskList.Change | todo.rb:116 | only the deadline of the indexed entry changes; its text and every other entry stay as they were |
| TodoScript.Unlisted | todo.rb:131 | the unlisted indices, in increasing order, are exactly the in-range indices that `done` does not list |
| TodoScript.Survivors | todo.rb:131 | `delete_if` never keeps more entries than the list has; SurvivorsAreUnlisted states which ones it keeps |
| TodoScript.TaskList.MarkDone | todo.rb:131 | done mode keeps exactly the entries whose index is not listed |
| TodoScript.SurvivorsAreUnlisted | todo.rb:131 | the kept entries are the entries at the unlisted indices, in their original order |
| TodoScript.SurvivorsNoneListed | todo.rb:131 | when `done` lists no index of the list, nothing is removed |

## Left out

- File storage is not modelled. This covers `Marshal` load and dump, `File.write` and `File.open` (todo.rb:28-29 and lib/todo.rb:17-18, 32-48); it is I/O.
- Command-line parsing with Trollop (todo.rb:7-14) is a library wrapper. The mode and its options are method arguments instead.
- Rendering is not modelled: `colorize`, the powerline arrows of `lib/draw_arrow.rb`, `puts`, and lib/todo.rb's `print_task`, `print_tasklist` and `display_tasklist` beyond the values they print. `RowOf` keeps a line's content (index, text, duration text, colour) but not its characters.
- `Chronic.parse` (todo.rb:89, 111) is a foreign library. A new deadline reaches `Add` and `Change` already parsed.
- `Date.parse`, `Date#next_month` and the clock are supplied functions and parameters. The model does not check which lexemes Ruby accepts as dates.
- The `Time#to_date` patch (todo.rb:16-20) is rational arithmetic over Date internals.
- `TIMEZONE` (todo.rb:24) is never used by the code.
- The rly LALR engine is not modelled, including its table construction, error recovery and token positions.
  - The grammar is a recursive descent that accepts the same language with the same values.
  - When a phrase has both a lexical error and a grammar error, the model reports the lexical one; rly pulls tokens lazily and could report the grammar error first.
- Case-insensitive matching folds ASCII letters only. Ruby's `/i` also folds a few non-ASCII characters, such as the Kelvin sign.
- Durations are whole seconds. Ruby's `Time` differences are Floats, and fractional seconds are not modelled.
- The second `when /two/i` arm of the ENUMBER action (parser.rb:79-80) cannot be reached and is left out.
- TimePhrases.WeeksTokens: there is no single lemma from the string "in N weeks" to the date. It follows by combining WeeksTokens, InPeriodPhrase and CountedPeriod.
- TodoScript.TaskList.Change: for an index outside the list Ruby raises before anything is written. The model instead returns `false` and leaves the list unchanged.
- TodoLib.SortTasklist: Ruby's `sort_by!` is not stable, so the contract promises only a sorted permutation, not a particular order among tasks with equal keys. SortedKeysUnique shows that every such order agrees on the keys.
- The add, change and done modes also print the list afterwards. That is the same loop as `DisplayRows` and is not repeated.
