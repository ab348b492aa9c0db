/**
 The revenue trend of paxalia/revenue.py: month arithmetic, month bounds and the trailing months of
 paid invoices. Dates are those of the proleptic Gregorian calendar in the years 1 to 9999, the
 range of Python's `date`; amounts are real numbers.
 */
module RevenueCalendar {
  import opened Prelude

  const MIN_YEAR := 1
  const MAX_YEAR := 9999

  datatype YearMonth = YearMonth(year: int, month: int)

  datatype Date = Date(year: int, month: int, day: int)

  type Day = d: Date | IsDate(d) witness Date(1, 1, 1)

  datatype Span = Span(first: Date, last: Date)

  predicate IsLeap(y: int) {
    y % 4 == 0 && (y % 100 != 0 || y % 400 == 0)
  }

  function DaysInMonth(y: int, m: int): (n: nat) {
    if m == 2 then (if IsLeap(y) then 29 else 28)
    else if m == 4 || m == 6 || m == 9 || m == 11 then 30
    else 31
  }

  predicate IsDate(d: Date) {
    && MIN_YEAR <= d.year <= MAX_YEAR
    && 1 <= d.month <= 12
    && 1 <= d.day <= DaysInMonth(d.year, d.month)
  }

  function MonthOf(d: Date): (ym: YearMonth) {
    YearMonth(d.year, d.month)
  }

  /** Comparison of dates: by year, then month, then day. */
  predicate NotAfter(a: Date, b: Date) {
    a.year < b.year || (a.year == b.year && (a.month < b.month || (a.month == b.month && a.day <= b.day)))
  }

  // ----- Day numbers --------------------------------------------------------

  function DaysInYear(y: int): (n: nat) {
    if IsLeap(y) then 366 else 365
  }

  /** The days in all earlier years. */
  function DaysBeforeYear(y: int): (n: nat) {
    if y <= MIN_YEAR then 0 else DaysBeforeYear(y - 1) + DaysInYear(y - 1)
  }

  function DaysBeforeMonth(y: int, m: nat): (n: nat) {
    if m <= 1 then 0 else DaysBeforeMonth(y, m - 1) + DaysInMonth(y, m - 1)
  }

  /** The day number of a date; 1 January of year 1 is day 1. */
  function Ordinal(d: Date): (n: int)
    requires d.month >= 0
  {
    DaysBeforeYear(d.year) + DaysBeforeMonth(d.year, d.month) + d.day
  }

  lemma YearLength(y: int)
    ensures DaysBeforeMonth(y, 13) == DaysInYear(y)
  {
    var leap := if IsLeap(y) then 1 else 0;
    assert DaysBeforeMonth(y, 2) == 31;
    assert DaysBeforeMonth(y, 4) == 90 + leap;
    assert DaysBeforeMonth(y, 5) == 120 + leap;
    assert DaysBeforeMonth(y, 7) == 181 + leap;
    assert DaysBeforeMonth(y, 9) == 243 + leap;
    assert DaysBeforeMonth(y, 11) == 304 + leap;
  }

  lemma QuotientStep(y: int, d: int)
    requires d > 1
    ensures y / d == (y - 1) / d + if y % d == 0 then 1 else 0
  {
    var q, r := y / d, y % d;
    assert y == d * q + r;
    if r == 0 {
      assert d * (q - 1) == d * q - d;
      DivUnique(y - 1, d, q - 1, d - 1);
    } else {
      DivUnique(y - 1, d, q, r - 1);
    }
  }

  lemma DividesFurther(y: int, d: int, e: int)
    requires d > 0 && e > 0 && d * e > 0 && y % (d * e) == 0
    ensures y % d == 0
  {
    var q := y / (d * e);
    assert y == d * e * q == d * (e * q);
    DivUnique(y, d, e * q, 0);
  }

  lemma LeapRule(y: int)
    ensures DaysInYear(y) ==
            365 + (if y % 4 == 0 then 1 else 0) - (if y % 100 == 0 then 1 else 0) + (if y % 400 == 0 then 1 else 0)
  {
    if y % 400 == 0 {
      DividesFurther(y, 100, 4);
    }
    if y % 100 == 0 {
      DividesFurther(y, 4, 25);
    }
  }

  function ClosedForm(y: int): (n: int) {
    365 * (y - 1) + (y - 1) / 4 - (y - 1) / 100 + (y - 1) / 400
  }

  lemma ClosedStep(y: int)
    ensures ClosedForm(y + 1) == ClosedForm(y) + DaysInYear(y)
  {
    LeapRule(y);
    QuotientStep(y, 4);
    QuotientStep(y, 100);
    QuotientStep(y, 400);
  }

  /**
   The days before a year in closed form: 365 a year, and one more for each fourth year, but not for
   each hundredth, but for each four hundredth.
   */
  lemma {:induction false} DaysBeforeYearMeaning(y: int)
    requires y >= MIN_YEAR
    ensures DaysBeforeYear(y) == 365 * (y - 1) + (y - 1) / 4 - (y - 1) / 100 + (y - 1) / 400
  {
    if y == MIN_YEAR {
    } else {
      DaysBeforeYearMeaning(y - 1);
      ClosedStep(y - 1);
    }
  }

  lemma {:induction false} MonthsBefore(y: int, m: nat, n: nat)
    requires 1 <= m < n
    ensures DaysBeforeMonth(y, m) + DaysInMonth(y, m) <= DaysBeforeMonth(y, n)
    decreases n
  {
    if m < n - 1 {
      MonthsBefore(y, m, n - 1);
    }
  }

  lemma {:induction false} YearsBefore(y: int, z: int)
    requires MIN_YEAR <= y < z
    ensures DaysBeforeYear(y + 1) <= DaysBeforeYear(z)
    decreases z - y
  {
    if y + 1 == z {
    } else {
      YearsBefore(y, z - 1);
    }
  }

  /** A date is within its year. */
  lemma WithinYear(d: Date)
    requires IsDate(d)
    ensures DaysBeforeYear(d.year) < Ordinal(d) <= DaysBeforeYear(d.year + 1)
  {
    YearLength(d.year);
    MonthsBefore(d.year, d.month, 13);
  }

  /** Day numbers order the dates exactly as year, month and day do, so they also tell dates apart. */
  lemma OrdinalOrder(a: Date, b: Date)
    requires IsDate(a) && IsDate(b)
    ensures NotAfter(a, b) <==> Ordinal(a) <= Ordinal(b)
    ensures a == b <==> Ordinal(a) == Ordinal(b)
  {
    if a != b {
      if NotAfter(a, b) {
        OrdinalGrows(a, b);
      } else {
        OrdinalGrows(b, a);
      }
    }
  }

  lemma OrdinalGrows(a: Date, b: Date)
    requires IsDate(a) && IsDate(b) && NotAfter(a, b) && a != b
    ensures Ordinal(a) < Ordinal(b)
  {
    WithinYear(a);
    WithinYear(b);
    if a.year < b.year {
      YearsBefore(a.year, b.year);
    } else if a.month < b.month {
      MonthsBefore(a.year, a.month, b.month);
    }
  }

  // ----- Months -------------------------------------------------------------

  predicate IsMonth(ym: YearMonth) {
    1 <= ym.month <= 12
  }

  /** The month's place in the sequence of all months. */
  function Index(ym: YearMonth): (k: int) {
    ym.year * 12 + (ym.month - 1)
  }

  function ShiftMonth(ym: YearMonth, delta: int): (r: YearMonth) {
    var index := ym.year * 12 + (ym.month - 1) + delta;
    YearMonth(index / 12, index % 12 + 1)
  }

  /** Shifting acts on the months as the integers act on themselves: it adds up, zero does nothing, and
      each shift is undone by its opposite. It is the only shift that moves the place by `delta`. */
  lemma ShiftActs(ym: YearMonth, a: int, b: int)
    requires IsMonth(ym)
    ensures IsMonth(ShiftMonth(ym, a))
    ensures ShiftMonth(ym, 0) == ym
    ensures ShiftMonth(ShiftMonth(ym, a), b) == ShiftMonth(ym, a + b)
    ensures ShiftMonth(ShiftMonth(ym, a), -a) == ym
    ensures forall other :: IsMonth(other) ==> (other == ShiftMonth(ym, a) <==> Index(other) == Index(ym) + a)
  {
  }

  lemma ShiftPlace(ym: YearMonth, delta: int)
    ensures IsMonth(ShiftMonth(ym, delta)) && Index(ShiftMonth(ym, delta)) == Index(ym) + delta
  {
  }

  lemma NewYear(y: int)
    requires y > MIN_YEAR
    ensures Ordinal(Date(y - 1, 12, 31)) + 1 == Ordinal(Date(y, 1, 1))
  {
    YearLength(y - 1);
  }

  /** `date - timedelta(days=1)`. */
  function DayBefore(d: Date): (e: Date)
    requires IsDate(d) && d != Date(MIN_YEAR, 1, 1)
    ensures IsDate(e)
  {
    if d.day > 1 then d.(day := d.day - 1)
    else if d.month > 1 then Date(d.year, d.month - 1, DaysInMonth(d.year, d.month - 1))
    else Date(d.year - 1, 12, 31)
  }

  lemma MonthStart(y: int, m: nat)
    requires m > 1
    ensures Ordinal(Date(y, m - 1, DaysInMonth(y, m - 1))) + 1 == Ordinal(Date(y, m, 1))
  {
    assert DaysBeforeMonth(y, m) == DaysBeforeMonth(y, m - 1) + DaysInMonth(y, m - 1);
  }

  lemma DayBeforeIsOneLess(d: Date)
    requires IsDate(d) && d != Date(MIN_YEAR, 1, 1)
    ensures Ordinal(DayBefore(d)) == Ordinal(d) - 1
  {
    if d.day > 1 {
    } else if d.month > 1 {
      MonthStart(d.year, d.month);
    } else {
      NewYear(d.year);
    }
  }

  /** The first and the last day of a month; `None` where `date` rejects the year or the month. */
  function MonthBounds(ym: YearMonth): (r: Option<Span>)
    ensures r.Some? <==> 1 <= ym.year <= 9999 && 1 <= ym.month <= 12
    ensures r.Some? ==> IsDate(r.value.first) && IsDate(r.value.last)
  {
    if !(MIN_YEAR <= ym.year <= MAX_YEAR && 1 <= ym.month <= 12) then None
    else
      var first := Date(ym.year, ym.month, 1);
      var last := if ym.month == 12 then Date(ym.year, 12, 31)
                  else DayBefore(Date(ym.year, ym.month + 1, 1));
      Some(Span(first, last))
  }

  /** The last days of the months. */
  lemma LastDays(y: int, m: int)
    requires MonthBounds(YearMonth(y, m)).Some?
    ensures MonthBounds(YearMonth(y, m)).value.first == Date(y, m, 1)
    ensures MonthBounds(YearMonth(y, m)).value.last ==
            Date(y, m, if m == 2 && y % 4 == 0 && (y % 100 != 0 || y % 400 == 0) then 29
                       else [31, 28, 31, 30, 31, 30, 31, 31, 30, 31, 30, 31][m - 1])
  {
  }

  predicate Inside(d: Date, span: Span) {
    NotAfter(span.first, d) && NotAfter(d, span.last)
  }

  /** The bounds of a month enclose exactly the dates of that month. */
  lemma BoundsMeaning(ym: YearMonth, d: Date)
    requires MonthBounds(ym).Some? && IsDate(d)
    ensures Inside(d, MonthBounds(ym).value) <==> MonthOf(d) == ym
  {
  }

  /** The day after the last day of a month is the first day of the next, in the next year after December. */
  lemma AfterLastDay(ym: YearMonth)
    requires MonthBounds(ym).Some?
    ensures Ordinal(MonthBounds(ym).value.last) + 1 ==
            Ordinal(if ym.month == 12 then Date(ym.year + 1, 1, 1) else Date(ym.year, ym.month + 1, 1))
  {
    var last := MonthBounds(ym).value.last;
    if ym.month == 12 {
      assert last == Date(ym.year, 12, 31);
      NewYear(ym.year + 1);
    } else {
      assert last == DayBefore(Date(ym.year, ym.month + 1, 1));
      DayBeforeIsOneLess(Date(ym.year, ym.month + 1, 1));
    }
  }

  lemma NextPlace(ym: YearMonth, next: YearMonth)
    requires IsMonth(ym) && IsMonth(next) && Index(next) == Index(ym) + 1
    ensures next == if ym.month == 12 then YearMonth(ym.year + 1, 1) else YearMonth(ym.year, ym.month + 1)
  {
  }

  lemma MonthsMeet(ym: YearMonth, next: YearMonth)
    requires MonthBounds(ym).Some? && MonthBounds(next).Some? && Index(next) == Index(ym) + 1
    ensures Ordinal(MonthBounds(ym).value.last) + 1 == Ordinal(MonthBounds(next).value.first)
  {
    AfterLastDay(ym);
    NextPlace(ym, next);
    var start := if ym.month == 12 then Date(ym.year + 1, 1, 1) else Date(ym.year, ym.month + 1, 1);
    assert MonthBounds(next).value.first == start;
  }

  /** No gap and no overlap: a month's last day is the day before the next month's first. */
  lemma MonthsTile(ym: YearMonth)
    requires MonthBounds(ym).Some? && MonthBounds(ShiftMonth(ym, 1)).Some?
    ensures Ordinal(MonthBounds(ym).value.last) + 1 == Ordinal(MonthBounds(ShiftMonth(ym, 1)).value.first)
  {
    ShiftPlace(ym, 1);
    MonthsMeet(ym, ShiftMonth(ym, 1));
  }

  /** A day lies within the bounds of the month `i` months back exactly if `i` is its distance in months. */
  lemma OneMonthEach(today: Day, d: Day, i: int)
    requires MonthBounds(ShiftMonth(MonthOf(today), 0 - i)).Some?
    ensures Inside(d, MonthBounds(ShiftMonth(MonthOf(today), 0 - i)).value)
            <==> i == Index(MonthOf(today)) - Index(MonthOf(d))
  {
  }

  // ----- The trend ----------------------------------------------------------

  datatype Invoice = Invoice(date: Day, amount: real, paid: bool)

  /** The labels are months; how they are printed is not modelled. */
  datatype Trend = Trend(labels: seq<YearMonth>, values: seq<real>, currentMonthRevenue: real, projectedArr: real)

  function Earlier(a: Date, b: Date): (d: Date) {
    if NotAfter(a, b) then a else b
  }

  /** The paid amounts among the first `n` invoices dated within the span. */
  function PaidWithin(invoices: seq<Invoice>, span: Span, n: nat): (t: real)
    requires n <= |invoices|
  {
    if n == 0 then 0.0
    else
      PaidWithin(invoices, span, n - 1)
      + if invoices[n - 1].paid && Inside(invoices[n - 1].date, span) then invoices[n - 1].amount else 0.0
  }

  /** The paid amounts among the first `n` invoices of one month, dated no later than today. */
  function PaidInMonth(invoices: seq<Invoice>, ym: YearMonth, today: Date, n: nat): (t: real)
    requires n <= |invoices|
  {
    if n == 0 then 0.0
    else
      var invoice := invoices[n - 1];
      PaidInMonth(invoices, ym, today, n - 1)
      + if invoice.paid && MonthOf(invoice.date) == ym && NotAfter(invoice.date, today) then invoice.amount else 0.0
  }

  lemma {:induction false} PaidFrame(invoices: seq<Invoice>, invoice: Invoice, ym: YearMonth, today: Date, n: nat)
    requires n <= |invoices|
    ensures PaidInMonth(invoices + [invoice], ym, today, n) == PaidInMonth(invoices, ym, today, n)
  {
    if n == 0 {
    } else {
      PaidFrame(invoices, invoice, ym, today, n - 1);
    }
  }

  /** One more invoice adds its amount to its own month if it is paid and not later than today, and to no other. */
  lemma OneMoreInvoice(invoices: seq<Invoice>, invoice: Invoice, ym: YearMonth, today: Day, n: nat)
    requires n == |invoices|
    ensures PaidInMonth(invoices + [invoice], ym, today, n + 1) ==
            PaidInMonth(invoices, ym, today, n)
            + if invoice.paid && invoice.date.year == ym.year && invoice.date.month == ym.month
                 && Ordinal(invoice.date) <= Ordinal(today) then invoice.amount else 0.0
  {
    PaidFrame(invoices, invoice, ym, today, n);
    OrdinalOrder(invoice.date, today);
  }

  function Sum(values: seq<real>): (t: real) {
    if values == [] then 0.0 else Sum(values[..|values| - 1]) + values[|values| - 1]
  }

  lemma SumSnoc(values: seq<real>, v: real)
    ensures Sum(values + [v]) == Sum(values) + v
  {
  }

  lemma {:induction false} WithinIsMonth(invoices: seq<Invoice>, ym: YearMonth, today: Day, n: nat)
    requires n <= |invoices| && MonthBounds(ym).Some?
    ensures var span := MonthBounds(ym).value;
            PaidWithin(invoices, Span(span.first, Earlier(span.last, today)), n) == PaidInMonth(invoices, ym, today, n)
  {
    if n == 0 {
    } else {
      WithinIsMonth(invoices, ym, today, n - 1);
      BoundsMeaning(ym, invoices[n - 1].date);
    }
  }

  /** Two spans that meet add up to one. */
  lemma {:induction false} SpansAddUp(invoices: seq<Invoice>, first: Day, last: Day, next: Day, end: Day, n: nat)
    requires n <= |invoices|
    requires Ordinal(last) + 1 == Ordinal(next) && Ordinal(first) <= Ordinal(next) && Ordinal(last) <= Ordinal(end)
    ensures PaidWithin(invoices, Span(first, last), n) + PaidWithin(invoices, Span(next, end), n)
            == PaidWithin(invoices, Span(first, end), n)
  {
    if n == 0 {
    } else {
      SpansAddUp(invoices, first, last, next, end, n - 1);
      var d := invoices[n - 1].date;
      OrdinalOrder(first, d);
      OrdinalOrder(d, last);
      OrdinalOrder(next, d);
      OrdinalOrder(d, end);
    }
  }

  /** `ym` is the month `i` months before today's. */
  predicate IsBack(today: Day, i: int, ym: YearMonth) {
    IsMonth(ym) && Index(ym) == Index(MonthOf(today)) - i
  }

  /** Whether and where the month `i` months back lies; only the current month is cut off at today. */
  lemma MonthsBack(today: Day, i: nat, ym: YearMonth)
    requires IsBack(today, i, ym)
    ensures MonthBounds(ym).Some? <==> Index(ym) >= 12 * MIN_YEAR
    ensures MonthBounds(ym).Some? ==>
              var span := MonthBounds(ym).value;
              && NotAfter(span.first, today)
              && Earlier(span.last, today) == if i == 0 then today else span.last
    ensures i == 0 ==> ym == MonthOf(today)
  {
  }

  /** A later month begins and ends no earlier. */
  lemma MonthsInOrder(a: YearMonth, b: YearMonth)
    requires MonthBounds(a).Some? && MonthBounds(b).Some? && Index(a) <= Index(b)
    ensures NotAfter(MonthBounds(a).value.first, MonthBounds(b).value.first)
    ensures NotAfter(MonthBounds(a).value.last, MonthBounds(b).value.last)
  {
  }

  /** What was paid from the first day of month `oldest` until the end of month `ym`, or until today. */
  function Collected(invoices: seq<Invoice>, today: Day, oldest: YearMonth, ym: YearMonth): (t: real)
    requires MonthBounds(oldest).Some? && MonthBounds(ym).Some?
  {
    PaidWithin(invoices, Span(MonthBounds(oldest).value.first, Earlier(MonthBounds(ym).value.last, today)), |invoices|)
  }

  /** Extending the months collected so far by the next one. */
  lemma NextMonth(invoices: seq<Invoice>, today: Day, oldest: YearMonth, latest: YearMonth, next: YearMonth)
    requires MonthBounds(oldest).Some? && MonthBounds(latest).Some? && MonthBounds(next).Some?
    requires Index(oldest) <= Index(latest) && Index(next) == Index(latest) + 1 <= Index(MonthOf(today))
    ensures Collected(invoices, today, oldest, latest) + Collected(invoices, today, next, next)
            == Collected(invoices, today, oldest, next)
  {
    MonthsInOrder(oldest, next);
    MonthsInOrder(latest, next);
    MonthsMeet(latest, next);
    var i := Index(MonthOf(today)) - Index(next);
    MonthsBack(today, i, next);
    MonthsBack(today, i + 1, latest);
    var first := MonthBounds(oldest).value.first;
    var last := MonthBounds(latest).value.last;
    var month := MonthBounds(next).value;
    OrdinalOrder(first, month.first);
    OrdinalOrder(last, Earlier(month.last, today));
    SpansAddUp(invoices, first, last, month.first, Earlier(month.last, today), |invoices|);
  }

  /** Each label is the next month in turn, the last of `n` being today's, and each value what that month paid. */
  ghost predicate MonthByMonth(invoices: seq<Invoice>, today: Day, n: int, labels: seq<YearMonth>, values: seq<real>) {
    && |values| == |labels|
    && forall j :: 0 <= j < |labels| ==>
         && IsBack(today, n - 1 - j, labels[j])
         && values[j] == PaidInMonth(invoices, labels[j], today, |invoices|)
  }

  ghost predicate Together(invoices: seq<Invoice>, today: Day, labels: seq<YearMonth>, values: seq<real>) {
    labels != [] ==>
      && MonthBounds(labels[0]).Some?
      && MonthBounds(labels[|labels| - 1]).Some?
      && Sum(values) == Collected(invoices, today, labels[0], labels[|labels| - 1])
  }

  lemma TogetherNext(invoices: seq<Invoice>, today: Day, n: int, labels: seq<YearMonth>, values: seq<real>, ym: YearMonth)
    requires MonthByMonth(invoices, today, n, labels, values) && Together(invoices, today, labels, values)
    requires |labels| < n && IsBack(today, n - 1 - |labels|, ym) && MonthBounds(ym).Some?
    ensures Together(invoices, today, labels + [ym], values + [Collected(invoices, today, ym, ym)])
  {
    SumSnoc(values, Collected(invoices, today, ym, ym));
    if labels != [] {
      NextMonth(invoices, today, labels[0], labels[|labels| - 1], ym);
    }
  }

  /**
   The trailing `numMonths` months, oldest first. It fails exactly if the oldest month would lie
   before year 1; asked for no months, it returns none.
   */
  method MonthlyRevenueTrend(invoices: seq<Invoice>, today: Day, numMonths: int) returns (r: Option<Trend>)
    ensures r.None? <==> numMonths > 0 && Index(MonthOf(today)) - (numMonths - 1) < 12 * MIN_YEAR
    ensures r.Some? ==>
              && |r.value.labels| == Max(0, numMonths)
              && MonthByMonth(invoices, today, numMonths, r.value.labels, r.value.values)
    // Every paid invoice from the first day of the oldest month through today counts in exactly one value.
    ensures r.Some? && numMonths > 0 ==>
              && MonthBounds(r.value.labels[0]).Some?
              && Sum(r.value.values)
                 == PaidWithin(invoices, Span(MonthBounds(r.value.labels[0]).value.first, today), |invoices|)
    ensures r.Some? && numMonths <= 0 ==> r.value == Trend([], [], 0.0, 0.0)
    ensures r.Some? && numMonths > 0 ==>
              && r.value.currentMonthRevenue == PaidInMonth(invoices, MonthOf(today), today, |invoices|)
              && r.value.projectedArr == 12.0 * r.value.currentMonthRevenue
  {
    var labels: seq<YearMonth>, values: seq<real> := [], [];
    var i := numMonths - 1;
    while i >= 0
      invariant i < numMonths && (numMonths > 0 ==> i >= -1) && (numMonths <= 0 ==> i == numMonths - 1)
      invariant |labels| == numMonths - 1 - i
      invariant MonthByMonth(invoices, today, numMonths, labels, values)
      invariant Together(invoices, today, labels, values)
      invariant labels != [] ==> Index(MonthOf(today)) - (numMonths - 1) >= 12 * MIN_YEAR
      decreases i
    {
      var ym := ShiftMonth(MonthOf(today), 0 - i);
      ShiftPlace(MonthOf(today), 0 - i);
      MonthsBack(today, i, ym);
      var bounds := MonthBounds(ym);
      if bounds.None? {
        return None;
      }
      var end := Earlier(bounds.value.last, today);
      var total := PaidWithin(invoices, Span(bounds.value.first, end), |invoices|);
      WithinIsMonth(invoices, ym, today, |invoices|);
      TogetherNext(invoices, today, numMonths, labels, values, ym);
      labels := labels + [ym];
      values := values + [total];
      i := i - 1;
    }
    if labels != [] {
      MonthsBack(today, 0, labels[|labels| - 1]);
    }
    var current := if values != [] then values[|values| - 1] else 0.0;
    r := Some(Trend(labels, values, current, current * 12.0));
  }
}
