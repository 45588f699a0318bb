/** The month calendar of the XML calendar helper: the week-by-week matrix of
    day numbers, the month arithmetic used for navigation, and the `month`
    element written into a document.

    `calendar.monthrange(year, month)` is a library call: its two results, the
    weekday of the first day (`day1`) and the number of days (`ndays`), are
    parameters here. */
module Calendar {
  import opened Wrappers
  import opened Strings
  import opened Dom

  // ---------------------------------------------------------------------------
  // monthcalendar
  // ---------------------------------------------------------------------------

  /** The counter value of the first cell: `(firstweekday - day1 + 6) % 7 - 5`.
      Python's `%` by a positive divisor never gives a negative result, like
      Dafny's. */
  function Start(day1: int, firstweekday: int): (s: int)
    ensures -5 <= s <= 1
  {
    (firstweekday - day1 + 6) % 7 - 5
  }

  /** The value of the cell that the counter reaches after `j` cells. */
  function Cell(start: int, ndays: int, j: int): int
  {
    if 1 <= start + j <= ndays then start + j else 0
  }

  /** How many times the `while day <= ndays` loop runs. */
  function RowCount(start: int, ndays: int): nat
  {
    if ndays < start then 0 else (ndays - start) / 7 + 1
  }

  function Row(start: int, ndays: int, r: nat): seq<int>
  {
    seq(7, i requires 0 <= i < 7 => Cell(start, ndays, 7 * r + i))
  }

  /** The matrix `monthcalendar` returns, row by row. */
  function MonthMatrix(day1: int, ndays: int, firstweekday: int): seq<seq<int>>
  {
    var start := Start(day1, firstweekday);
    seq(RowCount(start, ndays), r requires 0 <= r < RowCount(start, ndays) => Row(start, ndays, r))
  }

  /** `monthcalendar(year, month, firstweekday)`: rows of seven cells, filled
      by a counter that starts before day 1 so that the first week lines up. */
  method MonthCalendar(day1: int, ndays: int, firstweekday: int) returns (rows: seq<seq<int>>)
    ensures rows == MonthMatrix(day1, ndays, firstweekday)
  {
    var start := Start(day1, firstweekday);
    rows := [];
    var day := start;
    while day <= ndays
      invariant day == start + 7 * |rows|
      invariant |rows| <= RowCount(start, ndays)
      invariant day <= ndays ==> |rows| < RowCount(start, ndays)
      invariant day > ndays ==> |rows| == RowCount(start, ndays)
      invariant forall r :: 0 <= r < |rows| ==> rows[r] == Row(start, ndays, r)
      decreases ndays - day
    {
      var row := [0, 0, 0, 0, 0, 0, 0];
      for i := 0 to 7
        invariant |row| == 7
        invariant day == start + 7 * |rows| + i
        invariant forall j :: 0 <= j < i ==> row[j] == Cell(start, ndays, 7 * |rows| + j)
        invariant forall j :: i <= j < 7 ==> row[j] == 0
      {
        if 1 <= day <= ndays {
          row := row[i := day];
        }
        day := day + 1;
      }
      rows := rows + [row];
    }
  }

  /** Reading one cell of the matrix. */
  lemma MatrixCell(day1: int, ndays: int, firstweekday: int, r: nat, i: nat)
    requires r < |MonthMatrix(day1, ndays, firstweekday)| && i < 7
    ensures |MonthMatrix(day1, ndays, firstweekday)[r]| == 7
    ensures MonthMatrix(day1, ndays, firstweekday)[r][i] == Cell(Start(day1, firstweekday), ndays, 7 * r + i)
  {
    var start := Start(day1, firstweekday);
    assert MonthMatrix(day1, ndays, firstweekday)[r] == Row(start, ndays, r);
  }

  /** Every row has seven cells; a cell holds a day of the month or 0, and a
      day sits at the cell the counter reaches it, so the days appear in
      increasing row-major order. */
  lemma MonthCells(day1: int, ndays: int, firstweekday: int)
    ensures var m := MonthMatrix(day1, ndays, firstweekday);
            forall r, i :: 0 <= r < |m| && 0 <= i < |m[r]| ==>
              |m[r]| == 7 && (m[r][i] == 0 || (1 <= m[r][i] <= ndays && m[r][i] == Start(day1, firstweekday) + 7 * r + i))
  {
    var m := MonthMatrix(day1, ndays, firstweekday);
    forall r, i | 0 <= r < |m| && 0 <= i < |m[r]|
      ensures |m[r]| == 7 && (m[r][i] == 0 || (1 <= m[r][i] <= ndays && m[r][i] == Start(day1, firstweekday) + 7 * r + i))
    {
      MatrixCell(day1, ndays, firstweekday, r, 0);
      MatrixCell(day1, ndays, firstweekday, r, i);
    }
  }

  /** Each day `1..ndays` appears, at row `(d - start) / 7`, column
      `(d - start) % 7`. */
  lemma EveryDayAppears(day1: int, ndays: int, firstweekday: int, d: int)
    requires 1 <= d <= ndays
    ensures var m := MonthMatrix(day1, ndays, firstweekday);
            var j := d - Start(day1, firstweekday);
            0 <= j / 7 < |m| && m[j / 7][j % 7] == d
  {
    var start := Start(day1, firstweekday);
    var j := d - start;
    assert j / 7 <= (ndays - start) / 7;
    assert 7 * (j / 7) + j % 7 == j;
    MatrixCell(day1, ndays, firstweekday, j / 7, j % 7);
  }

  /** No day appears twice, and of two cells holding days the earlier one in
      row-major order holds the smaller day. */
  lemma DaysOnceInOrder(day1: int, ndays: int, firstweekday: int, r: nat, i: nat, r': nat, i': nat)
    requires var m := MonthMatrix(day1, ndays, firstweekday);
             r < |m| && i < 7 && r' < |m| && i' < 7 && m[r][i] != 0 && m[r'][i'] != 0
    ensures var m := MonthMatrix(day1, ndays, firstweekday);
            && (m[r][i] == m[r'][i'] ==> r == r' && i == i')
            && (7 * r + i < 7 * r' + i' ==> m[r][i] < m[r'][i'])
  {
    MatrixCell(day1, ndays, firstweekday, r, i);
    MatrixCell(day1, ndays, firstweekday, r', i');
  }

  /** The start counter lies in `[-5, 1]`, so with at least one day, day 1 is
      in the first row; and no row is all zeros. */
  lemma NoEmptyRow(day1: int, ndays: int, firstweekday: int, r: nat)
    requires ndays >= 1 && r < |MonthMatrix(day1, ndays, firstweekday)|
    ensures 1 in MonthMatrix(day1, ndays, firstweekday)[0]
    ensures exists i :: 0 <= i < 7 && MonthMatrix(day1, ndays, firstweekday)[r][i] != 0
  {
    var start := Start(day1, firstweekday);
    var m := MonthMatrix(day1, ndays, firstweekday);
    MatrixCell(day1, ndays, firstweekday, 0, 1 - start);
    assert start + 7 * r <= ndays;
    if start + 7 * r >= 1 {
      MatrixCell(day1, ndays, firstweekday, r, 0);
    } else {
      MatrixCell(day1, ndays, firstweekday, r, 1 - start - 7 * r);
    }
  }

  // ---------------------------------------------------------------------------
  // month arithmetic
  // ---------------------------------------------------------------------------

  /** `get_previous_year_and_month(year, month)`: one month back, counting
      months as `12 * year + month`. */
  function PreviousMonth(year: int, month: int): (r: (int, int))
    ensures 12 * r.0 + r.1 == 12 * year + month - 1
    ensures 1 <= month <= 12 ==> 1 <= r.1 <= 12
  {
    if month - 1 == 0 then (year - 1, 12) else (year, month - 1)
  }

  /** `get_next_year_and_month(year, month)`: one month on. */
  function NextMonth(year: int, month: int): (r: (int, int))
    ensures 12 * r.0 + r.1 == 12 * year + month + 1
    ensures 1 <= month <= 12 ==> 1 <= r.1 <= 12
  {
    if month + 1 == 13 then (year + 1, 1) else (year, month + 1)
  }

  /** For a real month the two helpers stay within `1..12`, move by exactly one
      month, and undo each other. */
  lemma MonthsInverse(year: int, month: int)
    requires 1 <= month <= 12
    ensures var (yp, mp) := PreviousMonth(year, month);
            1 <= mp <= 12 && 12 * yp + mp == 12 * year + month - 1 && NextMonth(yp, mp) == (year, month)
    ensures var (yn, mn) := NextMonth(year, month);
            1 <= mn <= 12 && 12 * yn + mn == 12 * year + month + 1 && PreviousMonth(yn, mn) == (year, month)
  {
  }

  // ---------------------------------------------------------------------------
  // printf-style numbers
  // ---------------------------------------------------------------------------

  function Zeros(n: nat): (z: string)
    ensures |z| == n && forall k :: 0 <= k < n ==> z[k] == '0'
  {
    seq(n, _ => '0')
  }

  /** `"%0wd" % n`: at least `w` characters, padded with zeros after the sign. */
  function FormatInt(n: int, w: int): (s: string)
    ensures |s| >= w && |s| >= 1
    ensures n < 0 <==> s[0] == '-'
    ensures n >= 0 ==> AllDigits(s)
  {
    var digits := NatToString(if n < 0 then -n else n);
    var width := if n < 0 then w - 1 else w;
    var padded := if |digits| < width then Zeros(width - |digits|) + digits else digits;
    if n < 0 then "-" + padded else padded
  }

  /** `"%04d%02d%02d" % (year, month, day)`. */
  function DateText(year: int, month: int, day: int): (s: string)
    ensures |s| >= 8
    ensures year >= 0 && month >= 0 && day >= 0 ==> AllDigits(s)
  {
    FormatInt(year, 4) + FormatInt(month, 2) + FormatInt(day, 2)
  }

  function Pow10(k: nat): nat
  {
    if k == 0 then 1 else 10 * Pow10(k - 1)
  }

  lemma {:induction false} NatToStringLength(n: nat, k: nat)
    requires 1 <= k && n < Pow10(k)
    ensures |NatToString(n)| <= k
    decreases k
  {
    if n >= 10 {
      assert k >= 2;
      NatToStringLength(n / 10, k - 1);
    }
  }

  lemma {:induction false} DigitsValueZeros(z: string, s: string)
    requires AllDigits(s) && forall k :: 0 <= k < |z| ==> z[k] == '0'
    ensures AllDigits(z + s) && DigitsValue(z + s) == DigitsValue(s)
    decreases |z| + |s|
  {
    if s == [] {
      assert z + s == z;
      if z != [] {
        DigitsValueZeros(z[..|z| - 1], []);
        assert z[..|z| - 1] + [] == z[..|z| - 1];
      }
    } else {
      assert (z + s)[..|z + s| - 1] == z + s[..|s| - 1];
      DigitsValueZeros(z, s[..|s| - 1]);
    }
  }

  /** A zero-padded non-negative number reads back as itself. */
  lemma FormatIntReadsBack(n: nat, w: nat)
    requires 1 <= w && n < Pow10(w)
    ensures |FormatInt(n, w)| == w && ParseInt(FormatInt(n, w)) == Some(n)
  {
    var digits := NatToString(n);
    NatToStringLength(n, w);
    DigitsOfNat(n);
    var z := Zeros(w - |digits|);
    FormatIntPadded(n, w);
    DigitsValueZeros(z, digits);
    ParseDigits(z + digits);
  }

  /** A non-negative number no wider than `w` is its digits after zeros. */
  lemma FormatIntPadded(n: nat, w: nat)
    requires |NatToString(n)| <= w
    ensures FormatInt(n, w) == Zeros(w - |NatToString(n)|) + NatToString(n)
  {
    if |NatToString(n)| == w {
      assert Zeros(0) + NatToString(n) == NatToString(n);
    }
  }

  /** The three parts of a concatenation are its slices. */
  lemma ConcatSlices(a: string, b: string, c: string)
    ensures var s := a + b + c;
            s[..|a|] == a && s[|a|..|a| + |b|] == b && s[|a| + |b|..] == c
  {
  }

  /** The `date` attribute is eight digits from which year, month and day read
      back, for four-digit years. */
  lemma DateReadsBack(year: nat, month: nat, day: nat)
    requires year <= 9999 && month <= 99 && day <= 99
    ensures var s := DateText(year, month, day);
            |s| == 8 && ParseInt(s[..4]) == Some(year as int)
            && ParseInt(s[4..6]) == Some(month as int) && ParseInt(s[6..]) == Some(day as int)
  {
    FormatIntReadsBack(year, 4);
    FormatIntReadsBack(month, 2);
    FormatIntReadsBack(day, 2);
    ConcatSlices(FormatInt(year, 4), FormatInt(month, 2), FormatInt(day, 2));
  }

  // ---------------------------------------------------------------------------
  // write_month_to_document
  // ---------------------------------------------------------------------------

  /** A `day` element: day numbers other than 0 carry `date` and `number`. */
  function DayElement(year: int, month: int, number: int): Node
  {
    Element("day",
            if number != 0 then map["date" := DateText(year, month, number), "number" := IntToString(number)]
            else map[],
            [])
  }

  function WeekElement(year: int, month: int, numbers: seq<int>): Node
  {
    Element("week", map[], seq(|numbers|, i requires 0 <= i < |numbers| => DayElement(year, month, numbers[i])))
  }

  /** The navigation attributes of the `month` element. */
  function MonthAttributes(year: int, month: int): map<string, string>
  {
    var (yp, mp) := PreviousMonth(year, month);
    var (yn, mn) := NextMonth(year, month);
    map["number" := IntToString(month), "year" := IntToString(year),
        "number-previous" := IntToString(mp), "year-previous" := IntToString(yp),
        "number-next" := IntToString(mn), "year-next" := IntToString(yn)]
  }

  function MonthElement(year: int, month: int, weeks: seq<seq<int>>): Node
  {
    Element("month", MonthAttributes(year, month),
            seq(|weeks|, k requires 0 <= k < |weeks| => WeekElement(year, month, weeks[k])))
  }

  /** The inner loop of `write_month_to_document`: one `day` per number of
      the week. */
  method WriteWeek(year: int, month: int, numbers: seq<int>) returns (week: Node)
    ensures week == WeekElement(year, month, numbers)
  {
    var dayNodes: seq<Node> := [];
    for i := 0 to |numbers|
      invariant |dayNodes| == i
      invariant forall j :: 0 <= j < i ==> dayNodes[j] == DayElement(year, month, numbers[j])
    {
      var attrs: map<string, string> := map[];
      if numbers[i] != 0 {
        attrs := attrs["date" := DateText(year, month, numbers[i])];
        attrs := attrs["number" := IntToString(numbers[i])];
      }
      dayNodes := dayNodes + [Element("day", attrs, [])];
    }
    week := Element("week", map[], dayNodes);
  }

  /** `write_month_to_document(doc, root, year, month)`: one `week` per row of
      the month's matrix and one `day` per cell, under a new `month` element
      appended to the children of `root`. */
  method WriteMonthToDocument(t: Node, root: Address, year: int, month: int, day1: int, ndays: int)
    returns (r: Node, monthAt: Address)
    requires IsContainer(t, root)
    ensures r.Document? == t.Document?
    ensures r == AppendAt(t, root, [MonthElement(year, month, MonthMatrix(day1, ndays, 0))])
    ensures monthAt == root + [|NodeAt(t, root).children|] && ValidAddress(r, monthAt)
    ensures NodeAt(r, monthAt) == MonthElement(year, month, MonthMatrix(day1, ndays, 0))
  {
    var weeks := MonthCalendar(day1, ndays, 0);
    var weekNodes: seq<Node> := [];
    for k := 0 to |weeks|
      invariant |weekNodes| == k
      invariant forall j :: 0 <= j < k ==> weekNodes[j] == WeekElement(year, month, weeks[j])
    {
      var weekNode := WriteWeek(year, month, weeks[k]);
      weekNodes := weekNodes + [weekNode];
    }
    var monthNode := Element("month", MonthAttributes(year, month), weekNodes);
    assert monthNode == MonthElement(year, month, weeks);
    r := AppendAt(t, root, [monthNode]);
    monthAt := root + [|NodeAt(t, root).children|];
    LookupChild(r, root, |NodeAt(t, root).children|);
  }

  /** The navigation attributes name the month before and after. */
  lemma MonthNavigation(year: int, month: int)
    ensures MonthAttributes(year, month)["number-previous"] == IntToString(PreviousMonth(year, month).1)
    ensures MonthAttributes(year, month)["year-next"] == IntToString(NextMonth(year, month).0)
  {
  }

  /** A `day` element carries a number and a date exactly when its number is
      not 0. */
  lemma DayElementShape(year: int, month: int, number: int)
    ensures var day := DayElement(year, month, number);
            && day.Element? && day.name == "day" && day.children == []
            && (number == 0 <==> day.attrs == map[])
            && (number != 0 ==>
                  day.attrs["number"] == IntToString(number)
                  && day.attrs["date"] == DateText(year, month, number))
  {
    if number != 0 {
      assert "date" in DayElement(year, month, number).attrs;
    }
  }

  /** The written `month` element: its navigation attributes name the month
      before and after, it has a `week` per row and seven `day`s per week, and
      exactly the days of the month carry a number and a date. */
  lemma MonthElementShape(year: int, month: int, day1: int, ndays: int)
    ensures var m := MonthMatrix(day1, ndays, 0);
            var e := MonthElement(year, month, m);
            && e.attrs["number-previous"] == IntToString(PreviousMonth(year, month).1)
            && e.attrs["year-next"] == IntToString(NextMonth(year, month).0)
            && |e.children| == |m|
            && (forall k :: 0 <= k < |m| ==>
                  e.children[k].Element? && e.children[k].name == "week" && |e.children[k].children| == 7)
            && (forall k, i :: 0 <= k < |m| && 0 <= i < 7 ==>
                  var day := e.children[k].children[i];
                  && day.Element? && day.name == "day" && day.children == []
                  && (m[k][i] == 0 <==> day.attrs == map[])
                  && (m[k][i] != 0 ==>
                        day.attrs["number"] == IntToString(m[k][i])
                        && day.attrs["date"] == DateText(year, month, m[k][i])))
  {
    var m := MonthMatrix(day1, ndays, 0);
    var e := MonthElement(year, month, m);
    MonthCells(day1, ndays, 0);
    MonthNavigation(year, month);
    forall k, i | 0 <= k < |m| && 0 <= i < 7
      ensures var day := e.children[k].children[i];
              && day.Element? && day.name == "day" && day.children == []
              && (m[k][i] == 0 <==> day.attrs == map[])
              && (m[k][i] != 0 ==>
                    day.attrs["number"] == IntToString(m[k][i])
                    && day.attrs["date"] == DateText(year, month, m[k][i]))
    {
      assert e.children[k].children[i] == DayElement(year, month, m[k][i]);
      DayElementShape(year, month, m[k][i]);
    }
  }
}
