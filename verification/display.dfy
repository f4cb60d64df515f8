/** `display_list`: one formatted line per expense row, in the order the rows arrive. */
module Display {
  import opened Text

  /** One row of the `expenses` table, each column as the text the database driver returns. */
  datatype Row = Row(id: string, createdOn: string, amount: string, memo: string)

  const Separator := " | "

  /**
   One listing line: id, date and amount right-justified to 3, 10 and 12
   columns, the memo as is, with `" | "` between each pair.
   */
  function FormatRow(r: Row): (line: string)
    ensures line ==
              RJust(r.id, 3) + " | " + RJust(r.createdOn, 10) + " | " + RJust(r.amount, 12) + " | " + r.memo
  {
    JoinFour(RJust(r.id, 3), RJust(r.createdOn, 10), RJust(r.amount, 12), r.memo, Separator);
    Join([RJust(r.id, 3), RJust(r.createdOn, 10), RJust(r.amount, 12), r.memo], Separator)
  }

  /** The padded columns fit their widths and do not begin with a blank of their own. */
  predicate Fits(r: Row) {
    && |r.id| <= 3 && |r.createdOn| <= 10 && |r.amount| <= 12
    && (r.id == [] || r.id[0] != ' ')
    && (r.createdOn == [] || r.createdOn[0] != ' ')
    && (r.amount == [] || r.amount[0] != ' ')
  }

  /** Reads a line back by its fixed columns: id in 0-2, date in 6-15, amount in 19-30, memo from 34 on. */
  function ParseRow(line: string): Row
    requires |line| >= 34
  {
    Row(TrimStart(line[..3]), TrimStart(line[6..16]), TrimStart(line[19..31]), line[34..])
  }

  /** Where the pieces of a line sit when the three padded columns have widths 3, 10 and 12. */
  lemma FixedColumns(a: string, b: string, c: string, memo: string)
    requires |a| == 3 && |b| == 10 && |c| == 12
    ensures var line := a + Separator + b + Separator + c + Separator + memo;
      && |line| == 34 + |memo|
      && line[..3] == a && line[3..6] == Separator
      && line[6..16] == b && line[16..19] == Separator
      && line[19..31] == c && line[31..34] == Separator
      && line[34..] == memo
  {
    var p1 := a + Separator;
    var p2 := p1 + b + Separator;
    var p3 := p2 + c + Separator;
    var line := p3 + memo;
    assert line == a + Separator + b + Separator + c + Separator + memo;
    assert |p1| == 6 && |p2| == 19 && |p3| == 34;
    assert line[..34] == p3;
    assert line[34..] == memo;
    assert p3[..19] == p2 && p3[19..31] == c && p3[31..34] == Separator;
    assert p2[..6] == p1 && p2[6..16] == b && p2[16..19] == Separator;
    assert p1[..3] == a && p1[3..6] == Separator;
  }

  /**
   Rows whose columns fit come out aligned: the separators sit at the same
   columns on every line and the memo starts at column 34.
   */
  lemma ColumnsAligned(r: Row)
    requires Fits(r)
    ensures |FormatRow(r)| == 34 + |r.memo|
    ensures FormatRow(r)[3..6] == Separator && FormatRow(r)[16..19] == Separator && FormatRow(r)[31..34] == Separator
    ensures FormatRow(r)[34..] == r.memo
  {
    FixedColumns(RJust(r.id, 3), RJust(r.createdOn, 10), RJust(r.amount, 12), r.memo);
  }

  /** Formatting a fitting row and reading the line back by columns gives the row again. */
  lemma ParseFormatRoundTrip(r: Row)
    requires Fits(r)
    ensures |FormatRow(r)| >= 34 && ParseRow(FormatRow(r)) == r
  {
    var a, b, c := RJust(r.id, 3), RJust(r.createdOn, 10), RJust(r.amount, 12);
    FixedColumns(a, b, c, r.memo);
    TrimStartRJust(r.id, 3);
    TrimStartRJust(r.createdOn, 10);
    TrimStartRJust(r.amount, 12);
  }

  /** The listing: N rows give exactly N lines, line `i` formatting row `i`. */
  function Listing(rows: seq<Row>): (lines: seq<string>)
    ensures |lines| == |rows|
    ensures forall i :: 0 <= i < |rows| ==> lines[i] == FormatRow(rows[i])
  {
    if rows == [] then [] else [FormatRow(rows[0])] + Listing(rows[1..])
  }

  /** Listing preserves order: the listing of two batches is the two listings one after the other. */
  lemma ListingAppend(a: seq<Row>, b: seq<Row>)
    ensures Listing(a + b) == Listing(a) + Listing(b)
  {
  }

  /** The `each` loop of `display_list`, emitting one line per row. */
  method DisplayList(rows: seq<Row>) returns (lines: seq<string>)
    ensures lines == Listing(rows)
  {
    lines := [];
    var k := 0;
    while k < |rows|
      invariant 0 <= k <= |rows|
      invariant |lines| == k
      invariant forall i :: 0 <= i < k ==> lines[i] == FormatRow(rows[i])
    {
      lines := lines + [FormatRow(rows[k])];
      k := k + 1;
    }
  }
}
