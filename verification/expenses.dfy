/** The add path: `validate_add` and the decision half of `add_expense`. */
module Expenses {
  import opened Options
  import opened Numeral
  import opened Split

  const AmountInvalid := "Please enter a valid amount"
  const AmountMissing := "You must specify an AMOUNT\n\n"
  const MemoMissing := "You must specify a MEMO\n\n"
  const DateInvalid := "The date you have entered is invalid."

  /** What `validate_add` returns: `false` (no error) or an error message. */
  datatype Validation = Ok | Err(msg: string)

  /**
   Whether `Date.valid_date?` raises `ArgumentError` when called with `argc`
   arguments. It takes a year, a month, a day and an optional calendar-reform
   start, so any other count raises; with three it returns a boolean. Whether a
   fourth argument read from the date string makes it raise is left to the
   date library and given as `startRaises`.
   */
  function ValidDateRaises(argc: nat, startRaises: bool): (raises: bool)
    ensures argc == 3 ==> !raises
    ensures argc == 4 ==> (raises <==> startRaises)
    ensures argc != 3 && argc != 4 ==> raises
  {
    argc < 3 || argc > 4 || (argc == 4 && startRaises)
  }

  /**
   Whether a supplied date is refused: the call on its `'-'`-separated parts
   raises. The empty string, and any date with fewer than two dashes, gives
   too few arguments.
   */
  function DateRefused(date: string, startRaises: bool): (refused: bool)
    ensures date == "" ==> refused
    ensures multiset(date)['-'] < 2 ==> refused
  {
    FieldsCount(date, '-');
    ValidDateRaises(|RubySplit(date, '-')|, startRaises)
  }

  /** `validate_add(cost:, item:, date:)`, check by check in the order `validate_add` makes them. */
  function ValidateAdd(cost: Option<string>, item: Option<string>, date: Option<string>, startRaises: bool): (v: Validation)
    ensures v.Ok? ==> cost.Some? && item.Some? && AmountPositive(cost)
    ensures v.Err? ==> v.msg in {AmountInvalid, MemoMissing, DateInvalid}
  {
    if !AmountPositive(cost) then Err(AmountInvalid)
    else if cost.None? then Err(AmountMissing)
    else if item.None? then Err(MemoMissing)
    else if date.Some? then
      if DateRefused(date.value, startRaises) then Err(DateInvalid) else Ok
    else Ok
  }

  /** The amount check comes first: a missing, zero, negative or non-numeric cost is refused whatever else is given. */
  lemma AmountCheckedFirst(cost: Option<string>, item: Option<string>, date: Option<string>, startRaises: bool)
    ensures ValidateAdd(cost, item, date, startRaises) == Err(AmountInvalid) <==> !AmountPositive(cost)
  {
  }

  /** The "specify an AMOUNT" branch is dead: a missing cost already fails the amount check. */
  lemma AmountMissingUnreachable(cost: Option<string>, item: Option<string>, date: Option<string>, startRaises: bool)
    ensures ValidateAdd(cost, item, date, startRaises) != Err(AmountMissing)
  {
  }

  /** With a valid amount, a missing memo is reported even when a date is also given. */
  lemma MemoCheckedBeforeDate(cost: Option<string>, date: Option<string>, startRaises: bool)
    requires AmountPositive(cost)
    ensures ValidateAdd(cost, None, date, startRaises) == Err(MemoMissing)
  {
  }

  /** A valid amount and a memo without a date pass validation. */
  lemma NoDatePasses(cost: Option<string>, item: string, startRaises: bool)
    requires AmountPositive(cost)
    ensures ValidateAdd(cost, Some(item), None, startRaises) == Ok
  {
  }

  /**
   A date typed as three dash-free parts joined by dashes passes, whether or
   not those parts form a real calendar date: the boolean `Date.valid_date?`
   returns is discarded.
   */
  lemma ThreePartDatePasses(cost: Option<string>, item: string, year: string, month: string, day: string, startRaises: bool)
    requires AmountPositive(cost)
    requires '-' !in year && '-' !in month && '-' !in day && day != ""
    ensures ValidateAdd(cost, Some(item), Some(year + "-" + month + "-" + day), startRaises) == Ok
  {
    ThreeFields(year, month, day, '-');
  }

  /** A date with fewer than three parts, or more than four, is reported as invalid. */
  lemma WrongPartCountRefused(cost: Option<string>, item: string, date: string, startRaises: bool)
    requires AmountPositive(cost)
    requires |RubySplit(date, '-')| < 3 || |RubySplit(date, '-')| > 4
    ensures ValidateAdd(cost, Some(item), Some(date), startRaises) == Err(DateInvalid)
  {
  }

  /** Validation succeeds exactly for a positive amount, a memo, and either no date or one the date call accepts. */
  lemma ValidateAddOkIff(cost: Option<string>, item: Option<string>, date: Option<string>, startRaises: bool)
    ensures ValidateAdd(cost, item, date, startRaises) == Ok <==>
              AmountPositive(cost) && item.Some? &&
              (date.None? || (var n := |RubySplit(date.value, '-')|; n == 3 || (n == 4 && !startRaises)))
  {
  }

  /** The calendar-impossible `2023-02-30` passes validation. */
  lemma ImpossibleDatePasses(cost: Option<string>, item: string, startRaises: bool)
    requires AmountPositive(cost)
    ensures ValidateAdd(cost, Some(item), Some("2023-02-30"), startRaises) == Ok
  {
    ThreePartExamples();
  }

  /** The non-numeric `aa-bb-cc` passes validation: its parts read as zeros without raising. */
  lemma NonNumericDatePasses(cost: Option<string>, item: string, startRaises: bool)
    requires AmountPositive(cost)
    ensures ValidateAdd(cost, Some(item), Some("aa-bb-cc"), startRaises) == Ok
  {
    ThreePartExamples();
  }

  /** An empty date and the two-part `2023-02` are reported as invalid. */
  lemma ShortDatesRefused(cost: Option<string>, item: string, startRaises: bool)
    requires AmountPositive(cost)
    ensures ValidateAdd(cost, Some(item), Some(""), startRaises) == Err(DateInvalid)
    ensures ValidateAdd(cost, Some(item), Some("2023-02"), startRaises) == Err(DateInvalid)
  {
    SplitEmpty('-');
    TwoPartExample();
  }

  /** What `add_expense` does: issue the insert with its three parameters, or print the error. */
  datatype AddOutcome =
    | Insert(cost: string, item: string, date: string)
    | Reject(msg: string)

  /** `add_expense`, with `Date.today.to_s` given as `today`. */
  function AddExpense(cost: Option<string>, item: Option<string>, date: Option<string>, today: string, startRaises: bool): (o: AddOutcome)
    ensures o.Insert? <==> ValidateAdd(cost, item, date, startRaises) == Ok
    ensures o.Insert? ==> cost == Some(o.cost) && item == Some(o.item) && AmountPositive(Some(o.cost))
    ensures o.Insert? ==> o.date == date.GetOr(today)
    ensures o.Reject? ==> ValidateAdd(cost, item, date, startRaises) == Err(o.msg)
  {
    match ValidateAdd(cost, item, date, startRaises)
    case Ok => Insert(cost.value, item.value, if date.Some? then date.value else today)
    case Err(msg) => Reject(msg)
  }

  /** A valid add with a three-part date inserts exactly that date, not today's. */
  lemma AddGivenDateKept(cost: Option<string>, item: string, year: string, month: string, day: string, today: string, startRaises: bool)
    requires AmountPositive(cost)
    requires '-' !in year && '-' !in month && '-' !in day && day != ""
    ensures AddExpense(cost, Some(item), Some(year + "-" + month + "-" + day), today, startRaises) ==
              Insert(cost.value, item, year + "-" + month + "-" + day)
  {
    ThreePartDatePasses(cost, item, year, month, day, startRaises);
  }
}
