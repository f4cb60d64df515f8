/**
 The script as a whole: read the arguments, dispatch, and produce what one
 run does. The database rows and today's date come in as parameters.
 */
module Cli {
  import opened Options
  import opened Text
  import opened Numeral
  import opened Commands
  import opened Expenses
  import opened Display

  /** What one run of the program does. */
  datatype Effect =
      // `display_help`: the banner is printed, then `puts HELP` raises an
      // uncaught `NameError` because `HELP` is never defined, ending the run.
    | ShowHelp
    | ShowList(lines: seq<string>)
    | AddAttempt(outcome: AddOutcome)
    | Complain(line: string)

  /** One run with arguments `argv`; `rows` is what the listing query returns, ordered by id. */
  function Run(argv: seq<string>, today: string, rows: seq<Row>, startRaises: bool): (e: Effect)
    ensures |argv| == 0 ==> e == ShowHelp
    ensures e.ShowHelp? <==> |argv| == 0 || SameIgnoringCase(argv[0], "help")
    ensures e.ShowList? <==> |argv| >= 1 && SameIgnoringCase(argv[0], "list")
    ensures e.ShowList? ==> |e.lines| == |rows| && forall i :: 0 <= i < |rows| ==> e.lines[i] == FormatRow(rows[i])
    ensures e.AddAttempt? <==> |argv| >= 1 && SameIgnoringCase(argv[0], "add")
    ensures e.Complain? <==>
              |argv| >= 1 && !SameIgnoringCase(argv[0], "help")
              && !SameIgnoringCase(argv[0], "list") && !SameIgnoringCase(argv[0], "add")
    ensures e.Complain? ==> e.line == "Sorry, " + argv[0] + " is not valid"
    ensures e.AddAttempt? ==>
              (e.outcome.Insert? <==> ValidateAdd(Arg(argv, 1), Arg(argv, 2), Arg(argv, 3), startRaises) == Ok)
    ensures e.AddAttempt? && e.outcome.Reject? ==>
              ValidateAdd(Arg(argv, 1), Arg(argv, 2), Arg(argv, 3), startRaises) == Err(e.outcome.msg)
    ensures e.AddAttempt? && e.outcome.Reject? ==> e.outcome.msg in {AmountInvalid, MemoMissing, DateInvalid}
    ensures e.AddAttempt? && e.outcome.Insert? ==>
              && |argv| >= 3
              && e.outcome.cost == argv[1] && AmountPositive(Some(argv[1]))
              && e.outcome.item == argv[2]
              && e.outcome.date == (if |argv| >= 4 then argv[3] else today)
  {
    match Dispatch(Arg(argv, 0))
    case Help => ShowHelp
    case List => ShowList(Listing(rows))
    case Add => AddAttempt(AddExpense(Arg(argv, 1), Arg(argv, 2), Arg(argv, 3), today, startRaises))
    case NotValid(line) => Complain(line)
  }

  /** `add 12.50 lunch` inserts the amount and memo with today's date. */
  lemma AddWithoutDateUsesToday(command: string, cost: string, item: string, today: string, rows: seq<Row>, startRaises: bool)
    requires SameIgnoringCase(command, "add")
    requires AmountPositive(Some(cost))
    ensures Run([command, cost, item], today, rows, startRaises) == AddAttempt(Insert(cost, item, today))
  {
    assert Arg([command, cost, item], 3) == None;
  }

  /** An add whose amount fails the check never inserts, however many arguments follow. */
  lemma BadAmountNeverInserts(argv: seq<string>, today: string, rows: seq<Row>, startRaises: bool)
    requires |argv| >= 1 && SameIgnoringCase(argv[0], "add")
    requires !AmountPositive(Arg(argv, 1))
    ensures Run(argv, today, rows, startRaises) == AddAttempt(Reject(AmountInvalid))
  {
  }
}
