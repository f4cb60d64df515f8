# Expense tracker command line, modelled in Dafny

The program is a one-file Ruby script (`v0.01.rb`) that records expenses in a
PostgreSQL table and lists them. One run takes a command word and up to three
more arguments:

- no command, or `help` in any letter case: print the banner
  `An expense recording system`, after which `puts HELP` raises a `NameError`
  that nothing rescues, because the constant `HELP` is never defined; the run
  ends with that uncaught exception;
- `list` in any case: print one line per stored expense;
- `add` in any case: validate `cost item [date]` and, when nothing is wrong,
  insert the expense, dated today when no date is given;
- anything else: print `Sorry, <command> is not valid`, echoing the command
  exactly as typed.

This project models that decision logic as pure functions over immutable
data. The database, standard output and the clock are not modelled. The rows
the listing query returns and today's date are parameters. Each effect of a
run is a value of `Cli.Effect`.

Modules, one per part of the script:

- `Options`: an optional argument (Ruby's `nil`) and `ARGV[i]`.
- `Text`: `downcase` (ASCII letters only), `rjust` and `Array#join`.
- `Split`: `String#split` with a one-character separator other than a blank
  (the script only splits on `'-'`). Trailing empty
  fields are dropped, so `""` splits into no fields at all.
- `Numeral`: `String#to_f`, read as an exact decimal. Only its sign matters
  to the script, because it only tests `cost.to_f > 0.0`.
- `Commands`: the `if`/`elsif` dispatch on the first argument.
- `Expenses`: `validate_add` and the decision half of `add_expense`.
- `Display`: the line format of `display_list`.
- `Cli`: one whole run.

The model follows the code where the code does something unexpected:

- The `You must specify an AMOUNT` branch cannot be reached. A missing cost
  reads as `0.0` and fails the amount check first.
- For a date that is valid text, the date is refused only when the call to
  `Date.valid_date?` raises an `ArgumentError` (or a `NameError`), which is
  what the `rescue` on line 43 catches. `ArgumentError` comes from the number of arguments: the call takes
  three or four, so a date whose `'-'`-separated parts number fewer than three
  or more than four is refused. The boolean the call returns is thrown away.
  The script calls `Date.valid_date?` and has the message
  `The date you have entered is invalid.`, so it evidently meant to refuse
  impossible dates. But because the boolean is discarded, `2023-02-30` and
  `aa-bb-cc` both pass validation and are handed to the insert, while `""` and
  `2023-02` are refused. The model follows the code.
- A month or day whose integer value lies outside the C `int` range makes the
  call raise `RangeError` instead. That is not rescued, so the run aborts with
  no insert. The model does not cover this case (see "Left out").

## Model

| member | source | states |
|---|---|---|
| Options.Arg | v0.01.rb:53 | A missing positional argument is `None`, and a present one is passed through unchanged. |
| Text.Downcase | v0.01.rb:65-69 | Lower-casing keeps the length and maps every character through the ASCII lower-case mapping. |
| Text.DowncaseEqualsIff | v0.01.rb:65-69 | Comparing `downcase` with a lower-case command word is exactly case-insensitive equality with that word, in both directions. |
| Text.RJust | v0.01.rb:16-18 | `rjust(w)` has length equal to the larger of `w` and the length of `s`, and ends with `s`. Everything before `s` is blanks, so it never truncates. |
| Text.TrimStartRJust | v0.01.rb:16-18 | Trimming leading blanks undoes right-justification for any field that does not itself start with a blank. |
| Text.Join | v0.01.rb:21 | `join(sep)` is as long as all the parts together plus one separator between each adjacent pair, which fixes its length. The contents of the four-column join at line 21 are stated by `Text.JoinFour`. |
| Text.JoinEnds | v0.01.rb:21 | A join of a non-empty list starts with its first part and ends with its last part. |
| Text.JoinFour | v0.01.rb:19-21 | Joining four columns spells them out with the separator between each pair. |
| Split.Fields | v0.01.rb:42 | Cutting at every separator gives at least one field, and no field contains the separator. |
| Split.FieldsJoin | v0.01.rb:42 | The raw fields of a split, joined back with the separator, give the original string. |
| Split.FieldsCount | v0.01.rb:42 | There is one raw field more than there are separators in the string. |
| Split.DropTrailingEmpty | v0.01.rb:42 | The result is the prefix of the raw fields that ends in a non-empty field, and every dropped field is empty. |
| Split.RubySplit | v0.01.rb:42 | `split('-')` gives the raw fields with exactly the trailing empty ones removed: a prefix of them, none containing the separator, whose last field, if any, is non-empty, and every field after it is empty. The empty string gives no fields. |
| Split.ThreeFields | v0.01.rb:42 | `a-b-d` with separator-free parts and a non-empty `d` splits into exactly `[a, b, d]`. |
| Split.TwoFields | v0.01.rb:42 | `a-b` with separator-free parts and a non-empty `b` splits into exactly `[a, b]`. |
| Split.SplitEmpty | v0.01.rb:42 | The empty string splits into no fields. |
| Split.ThreePartExamples | v0.01.rb:42 | `2023-02-30` and `aa-bb-cc` each split into three parts. |
| Split.TwoPartExample | v0.01.rb:42 | `2023-02` splits into two parts. |
| Numeral.LeadingDigits | v0.01.rb:33 | The digits read are all decimal digits. They are empty exactly when the text does not start with a digit, and reading stops where no further digit follows. |
| Numeral.LeadingDigitsRest | v0.01.rb:33 | What is left after the digits is a suffix of the input, and it does not start with `_` and a digit when something was consumed. |
| Numeral.LeadingDigitsGroups | v0.01.rb:33 | The consumed prefix is digit groups: each `_` in it stands between two digits. |
| Numeral.LeadingDigitsDropped | v0.01.rb:33 | The digits read are the consumed prefix with its underscores removed. |
| Numeral.LeadingDigitsSpec | v0.01.rb:33 | All of the above together: the input is the consumed digit groups followed by the rest, the value read is those groups without `_`, and reading could not have gone further. |
| Numeral.LeadingDigitsUnderscore | v0.01.rb:33 | `d_ddd` followed by text that does not continue the number is read as the digits `dddd`. |
| Numeral.UnderscoreAmountAccepted | v0.01.rb:33 | The cost `0_5` reads as 5 and passes the amount check. |
| Numeral.LeadingDigitsExact | v0.01.rb:33 | A run of digits followed by text that neither continues it nor joins it with `_` is read back exactly, and the following text is left over. |
| Numeral.ToF | v0.01.rb:33 | `to_f` yields a decimal made of digits with no more fraction digits than digits. It is negative exactly when, after leading white space, the text starts with `-`. |
| Numeral.ToFRender | v0.01.rb:33 | `to_f` inverts plain decimal notation: a decimal written as `-ddd.ddd`, or without sign or point, reads back as the same decimal. |
| Numeral.ArgToF | v0.01.rb:33 | `nil.to_f` is zero. |
| Numeral.DigitsValuePositive | v0.01.rb:33 | A digit string denotes a positive number exactly when one of its digits is not `0`. |
| Numeral.PositiveIff | v0.01.rb:33 | A decimal is greater than `0.0` exactly when it has no minus sign and has a non-zero digit. |
| Numeral.AmountPositive | v0.01.rb:33 | `cost.to_f > 0.0` fails for a missing cost, and holds exactly when the reading has no minus sign and a non-zero digit. |
| Numeral.MissingAmountRejected | v0.01.rb:33 | A missing cost fails the amount check. |
| Numeral.MinusRejected | v0.01.rb:33 | A cost written with a leading minus sign fails the amount check. |
| Numeral.NonNumericRejected | v0.01.rb:33 | A cost that does not start with white space, a sign, a digit or a point reads as zero and fails. |
| Numeral.NonzeroLeadAccepted | v0.01.rb:33 | A cost that starts with a digit from 1 to 9 passes the amount check, whatever follows it. |
| Commands.Dispatch | v0.01.rb:65-73 | Help is chosen for a missing command or any case variant of `help`. List and add are chosen for case variants of their words. Anything else gives `Sorry, <command> is not valid` with the command unchanged. Each condition is an if-and-only-if, so exactly one branch is taken. |
| Commands.CaseVariantsExamples | v0.01.rb:65-70 | `HELP`, `List` and `aDd` select help, list and add. |
| Commands.UnknownCommandExample | v0.01.rb:71-72 | `Foo` gives `Sorry, Foo is not valid`, not lower-cased. |
| Expenses.ValidDateRaises | v0.01.rb:42-43 | `Date.valid_date?` with three arguments does not raise. With four it raises exactly when the fourth argument is refused. With any other count it raises `ArgumentError`. |
| Expenses.DateRefused | v0.01.rb:40-44 | The empty date, and any date with fewer than two dashes, is refused. |
| Expenses.ValidateAdd | v0.01.rb:32-51 | No error implies that the cost and the memo are present and the amount is positive. Every error is one of the amount, memo or date messages. |
| Expenses.AmountCheckedFirst | v0.01.rb:33 | The result is the invalid-amount message exactly when the cost is missing or not positive, whatever the memo and date are. |
| Expenses.AmountMissingUnreachable | v0.01.rb:33-37 | The `You must specify an AMOUNT` message is never returned. |
| Expenses.MemoCheckedBeforeDate | v0.01.rb:38-39 | With a valid amount and no memo, the memo message is returned even when a date is given. |
| Expenses.NoDatePasses | v0.01.rb:48-49 | A valid amount and a memo without a date give no error. |
| Expenses.ThreePartDatePasses | v0.01.rb:40-47 | A date typed as three dash-free parts joined by dashes, the last non-empty, gives no error, whether or not it is a real calendar date. |
| Expenses.WrongPartCountRefused | v0.01.rb:40-44 | A date with fewer than three parts, or more than four, gives the invalid-date message. |
| Expenses.ValidateAddOkIff | v0.01.rb:32-51 | Validation succeeds exactly when the amount is positive, a memo is given, and the date is absent or has three parts (four when the date library accepts the fourth). |
| Expenses.ImpossibleDatePasses | v0.01.rb:40-47 | `2023-02-30` passes validation. |
| Expenses.NonNumericDatePasses | v0.01.rb:40-47 | `aa-bb-cc` passes validation. |
| Expenses.ShortDatesRefused | v0.01.rb:41-44 | `""` and `2023-02` give the invalid-date message. |
| Expenses.AddExpense | v0.01.rb:53-62 | An insert is issued exactly when validation reports no error. Its amount and memo are the arguments unchanged, with a positive amount. Its date is the given one or else today. Otherwise the validation message is the outcome. |
| Expenses.AddGivenDateKept | v0.01.rb:56-58 | A valid add with a three-part date inserts exactly that date, not today's. |
| Display.FormatRow | v0.01.rb:16-21 | A listing line is `rjust(id,3)`, `rjust(created_on,10)`, `rjust(amount,12)` and the memo, concatenated with the separator `Display.Separator` (blank, bar, blank) between each pair. |
| Display.ColumnsAligned | v0.01.rb:16-21 | For fields that fit their widths, the separators sit at columns 3, 16 and 31, the line is 34 characters longer than the memo, and the memo starts at column 34. |
| Display.ParseFormatRoundTrip | v0.01.rb:16-21 | Reading a formatted line back by its fixed columns recovers the row, for fields that fit their widths. |
| Display.Listing | v0.01.rb:15-22 | N rows give exactly N lines, and line `i` formats row `i`. |
| Display.ListingAppend | v0.01.rb:15-22 | The listing keeps the order of rows: listing two batches equals listing each one in turn. |
| Display.DisplayList | v0.01.rb:15-22 | The row-by-row loop produces exactly the listing. |
| Cli.Run | v0.01.rb:65-73 | A run with no arguments shows help. Help, list and add are each chosen exactly for case variants of their words, and anything else is echoed in the not-valid line. The listing has one line per row, in row order. A rejected add carries one of the three reachable messages. An insert uses the second and third arguments with a positive amount, and the fourth argument or else today. |
| Cli.AddWithoutDateUsesToday | v0.01.rb:53-58 | `add <cost> <item>` with a positive cost inserts that cost and item with today's date. |
| Cli.BadAmountNeverInserts | v0.01.rb:53-60 | An add whose cost fails the amount check is rejected with the invalid-amount message and inserts nothing. |

## Left out

- The PostgreSQL connection, the `SELECT` and `INSERT` statements and their execution are not modelled, because they are external I/O. The listing takes the rows the query returns, already ordered by id. The insert is the value `Insert(cost, item, date)`, with its parameters in placeholder order.
- Standard output is not modelled. Results are values. A rejected add prints its message and then `puts @help`. `@help` is never assigned, so that prints an empty line, and the model keeps only the message.
- The help output (`display_help`) is only the value `ShowHelp`. It prints a fixed banner and then ends the run with an uncaught `NameError`, because `HELP` is never defined. Neither the output nor the exception is modelled. This includes a run with no arguments.
- `Date.today` is the `today` parameter.
- `Date.valid_date?` is not modelled beyond whether it raises `ArgumentError`. Its boolean result is discarded, so for parts that fit a C `int` only their number matters, and `to_i` is not modelled. Whether a four-part date makes the call raise depends on how the date library treats its optional calendar-reform argument. It is the parameter `startRaises`.
- Expenses.ValidateAdd: does not model the `RangeError` that the date library raises for a month or day part outside the C `int` range. That error is not rescued, so `add 5 lunch 2023-3000000000-01` aborts the run with no insert, while the model returns `Ok` and inserts. Modelling it would need the integer conversion and an abort outcome, both of which belong to the date library rather than the script.
- Numeral.ToF: reads the number as an exact decimal, ignoring an exponent part, float rounding and the C library's limits. The known differences from Ruby's `to_f` are these:
  - a float that would underflow to zero (such as `1e-400`, which Ruby reads as `0.0` and the model as positive);
  - signed hexadecimal forms such as `+0x10`, which the model reads as their leading `0`;
  - a number longer than about 60 characters followed by other text: Ruby copies it into a fixed-size buffer and drops the digits beyond it, so `0.` followed by 70 zeros, `1` and `x` reads as `0.0` in Ruby and fails the amount check, while the model reads it as positive.
- Arguments are modelled as sequences of Unicode characters, so an argument that is not a valid byte sequence in the locale's encoding cannot be expressed. The script treats such arguments differently in two ways. A command like that makes `@command.downcase` on line 65 raise an `ArgumentError` that nothing rescues, so the run aborts without the `Sorry, … is not valid` line. A date like that makes `split('-')` on line 42 raise an `ArgumentError`, which line 43 rescues, so the date is refused even when it has three parts.
- Text.Downcase: lower-cases ASCII letters only. Ruby's `downcase` also folds non-ASCII letters.
- NULL columns in the listing are not modelled. Every column is text.
