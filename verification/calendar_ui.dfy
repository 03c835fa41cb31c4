/**
 The logic of `CalendarUI`: moving between months, and laying a month out
 as a 6-by-7 grid of day cells (Monday first), each listing at most three
 shows of that day and a "+N more" line for the rest. Widgets, colours,
 hover effects and the highlighting of today are outside the model.
 */
module CalendarUi {
  import opened Options
  import opened Strings
  import opened Dates
  import opened Lists
  import opened ShowProcessor

  // ---------------------------------------------------------------------------
  // Month navigation

  /** The month a calendar shows. */
  datatype YearMonth = YearMonth(year: int, month: int)

  predicate ValidYearMonth(ym: YearMonth) {
    ym.year >= 1 && 1 <= ym.month <= 12
  }

  /** Months since January of year 0: consecutive months have consecutive indices. */
  function MonthIndex(ym: YearMonth): int {
    ym.year * 12 + ym.month - 1
  }

  function MonthOf(d: Date): YearMonth {
    YearMonth(d.year, d.month)
  }

  /** `next_month`, on the month shown. */
  function NextMonth(ym: YearMonth): (r: YearMonth)
    requires ValidYearMonth(ym)
    ensures ValidYearMonth(r)
    ensures MonthIndex(r) == MonthIndex(ym) + 1
  {
    if ym.month == 12 then YearMonth(ym.year + 1, 1) else YearMonth(ym.year, ym.month + 1)
  }

  /** `prev_month`, on the month shown; None before January of year 1, where `datetime` ends. */
  function PrevMonth(ym: YearMonth): (r: Option<YearMonth>)
    requires ValidYearMonth(ym)
    ensures r.None? <==> ym == YearMonth(1, 1)
    ensures r.Some? ==> ValidYearMonth(r.value) && MonthIndex(r.value) == MonthIndex(ym) - 1
  {
    if ym.month == 1 then (if ym.year == 1 then None else Some(YearMonth(ym.year - 1, 12)))
    else Some(YearMonth(ym.year, ym.month - 1))
  }

  /** Going forward then back, or back then forward, returns to the same month. */
  lemma NavigationRoundTrip(ym: YearMonth)
    requires ValidYearMonth(ym)
    ensures PrevMonth(NextMonth(ym)) == Some(ym)
    ensures PrevMonth(ym).Some? ==> NextMonth(PrevMonth(ym).value) == ym
  {
  }

  /**
   `next_month` as written: `datetime.replace` keeps the day of the month, and
   raises ValueError (None here) when that day does not exist in the target
   month.
   */
  function NextMonthAsWritten(d: Date): (r: Option<Date>)
    requires ValidDate(d)
    ensures r.None? <==> d.day > DaysInMonth(NextMonth(MonthOf(d)).year, NextMonth(MonthOf(d)).month)
    ensures r.Some? ==> MonthOf(r.value) == NextMonth(MonthOf(d)) && r.value.day == d.day
  {
    var target := if d.month == 12 then Date(d.year + 1, 1, d.day) else Date(d.year, d.month + 1, d.day);
    if ValidDate(target) then Some(target) else None
  }

  /** `prev_month` as written, with the same `datetime.replace` behaviour. */
  function PrevMonthAsWritten(d: Date): (r: Option<Date>)
    requires ValidDate(d)
    ensures PrevMonth(MonthOf(d)).None? ==> r.None?
    ensures PrevMonth(MonthOf(d)).Some? ==>
              (r.None? <==> d.day > DaysInMonth(PrevMonth(MonthOf(d)).value.year, PrevMonth(MonthOf(d)).value.month))
    ensures r.Some? ==> Some(MonthOf(r.value)) == PrevMonth(MonthOf(d)) && r.value.day == d.day
  {
    var target := if d.month == 1 then Date(d.year - 1, 12, d.day) else Date(d.year, d.month - 1, d.day);
    if ValidDate(target) then Some(target) else None
  }

  /** From January 31st the "next month" button fails: February has no 31st. */
  lemma NextMonthFailsOnJanuary31()
    ensures NextMonthAsWritten(Date(2025, 1, 31)) == None
  {
  }

  /** From March 31st the "previous month" button fails the same way. */
  lemma PrevMonthFailsOnMarch31()
    ensures PrevMonthAsWritten(Date(2025, 3, 31)) == None
  {
  }

  /** Where the written navigation succeeds, it agrees with month navigation. */
  lemma AsWrittenAgreesWhenItSucceeds(d: Date)
    requires ValidDate(d)
    ensures NextMonthAsWritten(d).Some? ==> MonthOf(NextMonthAsWritten(d).value) == NextMonth(MonthOf(d))
    ensures PrevMonthAsWritten(d).Some? ==> Some(MonthOf(PrevMonthAsWritten(d).value)) == PrevMonth(MonthOf(d))
    ensures d.day <= 28 ==> NextMonthAsWritten(d).Some?
    ensures d.day <= 28 && MonthOf(d) != YearMonth(1, 1) ==> PrevMonthAsWritten(d).Some?
  {
  }

  // ---------------------------------------------------------------------------
  // Grid layout

  const Rows: nat := 6
  const Columns: nat := 7
  const GridSize: nat := 42

  /** One cell of the grid, row-major: either empty or a day of the month. */
  datatype Cell = Blank | Day(day: nat)

  /** The intended grid: day `d` sits at position `firstWeekday + d - 1`. */
  function ExpectedCell(firstWeekday: nat, numDays: nat, k: nat): Cell {
    if firstWeekday <= k < firstWeekday + numDays then Day(k - firstWeekday + 1) else Blank
  }

  function Min(a: int, b: int): int {
    if a <= b then a else b
  }

  function Max(a: int, b: int): int {
    if a >= b then a else b
  }

  /**
   The fill loop of `update_calendar`: walks the 6 rows and 7 columns,
   skipping the columns of the first row before the month's first weekday
   and stopping a row once every day is placed.
   */
  method FillGrid(firstWeekday: nat, numDays: nat) returns (cells: seq<Cell>)
    requires firstWeekday < Columns
    ensures |cells| == GridSize
    ensures forall k :: 0 <= k < GridSize ==> cells[k] == ExpectedCell(firstWeekday, numDays, k)
  {
    cells := seq(GridSize, k => Blank);
    var day := 1;
    var row := 0;
    while row < Rows
      invariant 0 <= row <= Rows
      invariant |cells| == GridSize
      invariant day == 1 + Min(numDays, Max(0, Columns * row - firstWeekday))
      invariant forall k :: 0 <= k < GridSize ==>
                  cells[k] == if k < Columns * row then ExpectedCell(firstWeekday, numDays, k) else Blank
    {
      var col := 0;
      while col < Columns
        invariant 0 <= col <= Columns
        invariant |cells| == GridSize
        invariant day == 1 + Min(numDays, Max(0, Columns * row + col - firstWeekday))
        invariant forall k :: 0 <= k < GridSize ==>
                    cells[k] == if k < Columns * row + col then ExpectedCell(firstWeekday, numDays, k) else Blank
      {
        if day > numDays {
          break;
        }
        if row == 0 && col < firstWeekday {
          col := col + 1;
          continue;
        }
        cells := cells[Columns * row + col := Day(day)];
        day := day + 1;
        col := col + 1;
      }
      row := row + 1;
    }
  }

  /** `first_day.weekday()` and `monthrange(...)[1]` for a month. */
  function FirstWeekday(ym: YearMonth): (w: nat)
    requires ValidYearMonth(ym)
    ensures w < 7
  {
    Weekday(Date(ym.year, ym.month, 1))
  }

  /** Every day of a month fits the grid, in the column of its weekday and the row of its week. */
  lemma DayPlacement(ym: YearMonth, d: int)
    requires ValidYearMonth(ym) && 1 <= d <= DaysInMonth(ym.year, ym.month)
    ensures var k := FirstWeekday(ym) + d - 1;
            && k < GridSize
            && ExpectedCell(FirstWeekday(ym), DaysInMonth(ym.year, ym.month), k) == Day(d)
            && k % Columns == Weekday(Date(ym.year, ym.month, d))
  {
    var first := Date(ym.year, ym.month, 1);
    var date := Date(ym.year, ym.month, d);
    var k := FirstWeekday(ym) + d - 1;
    assert DayOfDate(date) == DayOfDate(first) + d - 1;
    var q := DayOfDate(first) / 7;
    assert DayOfDate(first) == 7 * q + FirstWeekday(ym);
    assert DayOfDate(date) == 7 * q + k;
    SevenfoldShift(q, k);
  }

  lemma SevenfoldShift(q: nat, k: nat)
    ensures (7 * q + k) % 7 == k % 7
  {
  }

  // ---------------------------------------------------------------------------
  // Shows in a cell

  /** `get_shows_for_date`: the shows whose date string is the date's. */
  function ShowsForDate(shows: seq<Show>, d: Date): (r: seq<Show>)
    requires ValidDate(d)
    ensures forall s :: s in r <==> s in shows && s.date == DateString(d)
    ensures forall s :: multiset(r)[s] == if s.date == DateString(d) then multiset(shows)[s] else 0
  {
    Filter(shows, (s: Show) => s.date == DateString(d))
  }

  /** A show whose date is a date string is listed on the day that string names. */
  lemma ShownOnItsDay(shows: seq<Show>, s: Show)
    requires s in shows && IsDateString(s.date)
    ensures s in ShowsForDate(shows, ParseDateString(s.date).value)
  {
  }

  /** Every processed record with a known date is listed on the calendar day of that date. */
  lemma ProcessedShowOnCalendar(posts: seq<Post>, nicknames: map<string, string>, env: Services, s: Show)
    requires s in ProcessPosts(posts, nicknames, env) && s.date != Unknown
    ensures IsDateString(s.date)
    ensures s in ShowsForDate(ProcessPosts(posts, nicknames, env), ParseDateString(s.date).value)
  {
    var i :| 0 <= i < |posts| && ProcessPost(posts[i], nicknames, env) == Some(s);
    ProcessedDateReadable(posts[i], nicknames, env);
    ShownOnItsDay(ProcessPosts(posts, nicknames, env), s);
  }

  /** A show without a known date is on no day of the calendar. */
  lemma UnknownDateNeverShown(shows: seq<Show>, d: Date, s: Show)
    requires ValidDate(d) && s.date == Unknown
    ensures s !in ShowsForDate(shows, d)
  {
    DateStringIsNotUnknown(d);
  }

  /** No show appears on two different days. */
  lemma ShownOnOneDayOnly(shows: seq<Show>, d: Date, e: Date, s: Show)
    requires ValidDate(d) && ValidDate(e)
    requires s in ShowsForDate(shows, d) && s in ShowsForDate(shows, e)
    ensures d == e
  {
    DateStringInjective(d, e);
  }

  /** Shows fetched together are listed in the order they came, batch after batch. */
  lemma ShowsForDateAppend(a: seq<Show>, b: seq<Show>, d: Date)
    requires ValidDate(d)
    ensures ShowsForDate(a + b, d) == ShowsForDate(a, d) + ShowsForDate(b, d)
  {
    FilterAppend(a, b, (s: Show) => s.date == DateString(d));
  }

  /** Most characters of a name or a time that a cell shows. */
  const NameWidth: nat := 18
  const TimeWidth: nat := 5
  /** Most show lines a cell lists before summarising the rest. */
  const ShowsPerCell: nat := 3

  /** Whether a show's time is displayed: it is non-empty and not the placeholder. */
  predicate ShowsTime(s: Show) {
    |s.time| > 0 && s.time != Unknown
  }

  /** The text of one show's line in a cell: a bullet and the name cut to 18 characters, then ` @ ` and the time cut to 5 characters when the time is known. */
  function ShowLabel(s: Show): (r: string)
    ensures 2 + |Take(s.displayName, NameWidth)| <= |r| <= 2 + NameWidth + 3 + TimeWidth
    ensures r[..2] == "• " && r[2..2 + |Take(s.displayName, NameWidth)|] == Take(s.displayName, NameWidth)
    ensures ShowsTime(s) <==> |r| > 2 + |Take(s.displayName, NameWidth)|
    ensures ShowsTime(s) ==> |r| == 2 + |Take(s.displayName, NameWidth)| + 3 + |Take(s.time, TimeWidth)|
    ensures ShowsTime(s) ==> r[2 + |Take(s.displayName, NameWidth)|..2 + |Take(s.displayName, NameWidth)| + 3] == " @ "
    ensures ShowsTime(s) ==> r[|r| - |Take(s.time, TimeWidth)|..] == Take(s.time, TimeWidth)
  {
    var base := "• " + Take(s.displayName, NameWidth);
    if ShowsTime(s) then base + " @ " + Take(s.time, TimeWidth) else base
  }

  /** The `+N more` line for the shows beyond the first three. */
  function MoreLabel(hidden: nat): string {
    "+" + NatToString(hidden) + " more"
  }

  /** The number a `+N more` line announces. */
  function AnnouncedCount(line: string): nat
    requires |line| >= 6 && AllDigits(line[1..|line| - 5])
  {
    DigitsValue(line[1..|line| - 5])
  }

  /** The lines listed in one day's cell. */
  function CellLabels(shows: seq<Show>): (r: seq<string>)
    ensures |r| == Min(|shows|, ShowsPerCell + 1)
    ensures forall i :: 0 <= i < Min(|shows|, ShowsPerCell) ==> r[i] == ShowLabel(shows[i])
    ensures |shows| > ShowsPerCell ==> r[ShowsPerCell] == MoreLabel(|shows| - ShowsPerCell)
  {
    var shown := if |shows| <= ShowsPerCell then shows else shows[..ShowsPerCell];
    var lines := seq(|shown|, i requires 0 <= i < |shown| => ShowLabel(shown[i]));
    if |shows| > ShowsPerCell then lines + [MoreLabel(|shows| - ShowsPerCell)] else lines
  }

  /** No show is lost: the lines listed plus the count announced by `+N more` add up to all the shows of the day. */
  lemma CellAccountsForEveryShow(shows: seq<Show>)
    ensures var r := CellLabels(shows);
            |shows| <= ShowsPerCell ==> |r| == |shows|
    ensures var r := CellLabels(shows);
            |shows| > ShowsPerCell ==>
              var more := r[ShowsPerCell];
              && |more| >= 6 && AllDigits(more[1..|more| - 5])
              && ShowsPerCell + AnnouncedCount(more) == |shows|
  {
    if |shows| > ShowsPerCell {
      var n := |shows| - ShowsPerCell;
      var more := MoreLabel(n);
      assert more[1..|more| - 5] == NatToString(n);
      NatToStringValue(n);
    }
  }

  // ---------------------------------------------------------------------------
  // The whole month

  /** What one grid cell displays. */
  datatype CellView = Empty | DayCell(day: nat, lines: seq<string>)

  /** The cell view for a grid cell of a month. */
  function ViewOf(ym: YearMonth, shows: seq<Show>, c: Cell): CellView
    requires ValidYearMonth(ym)
  {
    match c
    case Blank => Empty
    case Day(d) =>
      if 1 <= d <= DaysInMonth(ym.year, ym.month)
      then DayCell(d, CellLabels(ShowsForDate(shows, Date(ym.year, ym.month, d))))
      else Empty
  }

  /**
   Day `d` of the month is shown at grid position first weekday + d - 1, in the
   column of its weekday, with the cell lines for that day's shows.
   */
  predicate DayInPlace(ym: YearMonth, shows: seq<Show>, view: seq<CellView>, d: int)
    requires ValidYearMonth(ym) && 1 <= d <= DaysInMonth(ym.year, ym.month)
  {
    var k := FirstWeekday(ym) + d - 1;
    && k < |view|
    && view[k] == DayCell(d, CellLabels(ShowsForDate(shows, Date(ym.year, ym.month, d))))
    && k % Columns == Weekday(Date(ym.year, ym.month, d))
  }

  /** In a view built cell by cell from the month's grid, day `d` sits in its weekday's column with its lines. */
  lemma DayInView(ym: YearMonth, shows: seq<Show>, view: seq<CellView>, d: int)
    requires ValidYearMonth(ym) && |view| == GridSize
    requires forall k :: 0 <= k < GridSize ==>
               view[k] == ViewOf(ym, shows, ExpectedCell(FirstWeekday(ym), DaysInMonth(ym.year, ym.month), k))
    requires 1 <= d <= DaysInMonth(ym.year, ym.month)
    ensures DayInPlace(ym, shows, view, d)
  {
    DayPlacement(ym, d);
    var k := FirstWeekday(ym) + d - 1;
    assert view[k] == ViewOf(ym, shows, Day(d));
  }

  /** A view built cell by cell from the month's grid has every day in place and nothing else. */
  lemma MonthLayout(ym: YearMonth, shows: seq<Show>, view: seq<CellView>)
    requires ValidYearMonth(ym) && |view| == GridSize
    requires forall k :: 0 <= k < GridSize ==>
               view[k] == ViewOf(ym, shows, ExpectedCell(FirstWeekday(ym), DaysInMonth(ym.year, ym.month), k))
    ensures forall d :: 1 <= d <= DaysInMonth(ym.year, ym.month) ==> DayInPlace(ym, shows, view, d)
    ensures forall k :: 0 <= k < GridSize && (k < FirstWeekday(ym) || k >= FirstWeekday(ym) + DaysInMonth(ym.year, ym.month)) ==>
              view[k] == Empty
  {
    forall d | 1 <= d <= DaysInMonth(ym.year, ym.month)
      ensures DayInPlace(ym, shows, view, d)
    {
      DayInView(ym, shows, view, d);
    }
  }

  /**
   `update_calendar` for the month shown: every day of the month appears once,
   in its weekday's column, with the lines for its shows; all other cells are
   empty.
   */
  method RenderMonth(ym: YearMonth, shows: seq<Show>) returns (view: seq<CellView>)
    requires ValidYearMonth(ym)
    ensures |view| == GridSize
    ensures forall d :: 1 <= d <= DaysInMonth(ym.year, ym.month) ==> DayInPlace(ym, shows, view, d)
    ensures forall k :: 0 <= k < GridSize && (k < FirstWeekday(ym) || k >= FirstWeekday(ym) + DaysInMonth(ym.year, ym.month)) ==>
              view[k] == Empty
  {
    var fw := FirstWeekday(ym);
    var nd := DaysInMonth(ym.year, ym.month);
    var cells := FillGrid(fw, nd);
    view := seq(GridSize, k requires 0 <= k < GridSize => ViewOf(ym, shows, cells[k]));
    MonthLayout(ym, shows, view);
  }
}
