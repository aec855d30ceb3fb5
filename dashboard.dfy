/** The dashboard's order statistics (frontend/src/lib/api-service.ts): monthly revenue and
    expense buckets over a six-month window, per-day order counts for the activity chart,
    and the trend and margin percentages of the summary cards. The clock and the locale are
    inputs: the current month, today's weekday, and each order's month and weekday. */
module Dashboard {
  import opened Records

  /** `new Date().getMonth()`: 0 for January up to 11 for December. */
  type MonthIndex = m: int | 0 <= m < 12

  /** `getDay()`: 0 for Sunday up to 6 for Saturday. */
  type Weekday = d: int | 0 <= d < 7

  /** The calendar facts the statistics read from an order's `created` timestamp. */
  datatype Stamp = Stamp(month: MonthIndex, weekday: Weekday)

  /** An order: its `type`, `Number(total)`, and `created` (None when it is not a valid date). */
  datatype Order = Order(kind: string, total: real, created: Option<Stamp>)

  const SalesKind := "sales"
  const PurchaseKind := "purchase"

  const MonthNames: seq<string> :=
    ["Jan", "Feb", "Mar", "Apr", "May", "Jun", "Jul", "Aug", "Sep", "Oct", "Nov", "Dec"]

  /** `toLocaleDateString('en-US', { weekday: 'short' })`, indexed by `getDay()`. */
  const WeekdayNames: seq<string> := ["Sun", "Mon", "Tue", "Wed", "Thu", "Fri", "Sat"]

  /** What `toLocaleDateString` yields for an invalid date. */
  const InvalidDate := "Invalid Date"

  /** The message of the RangeError thrown by `new Array(n)` for a negative `n`. */
  const InvalidArrayLength := "Invalid array length"

  // ---------------------------------------------------------------- revenue by month

  /** The month index of entry k of the six-month window ending at `current`. */
  function WindowMonth(current: MonthIndex, k: int): MonthIndex
  {
    (current - 5 + k + 12) % 12
  }

  /** The month names of the window, oldest first. */
  function RevenueWindow(current: MonthIndex): seq<string>
  {
    seq(6, k requires 0 <= k < 6 => MonthNames[WindowMonth(current, k)])
  }

  /** `monthNames[new Date(order.created).getMonth()]`; an invalid date has no month name. */
  function MonthOf(o: Order): Option<string>
  {
    match o.created
    case None => None
    case Some(st) => Some(MonthNames[st.month])
  }

  /** What one order adds to the bucket of `kind` orders for month `name`. */
  function Contribution(o: Order, kind: string, name: string): real
  {
    if o.kind == kind && MonthOf(o) == Some(name) then o.total else 0.0
  }

  /** The sum of the totals of the `kind` orders of month `name` (of any year). */
  function MonthTotal(orders: seq<Order>, kind: string, name: string): real
  {
    if |orders| == 0 then 0.0
    else MonthTotal(orders[..|orders| - 1], kind, name) + Contribution(orders[|orders| - 1], kind, name)
  }

  /** The sum of the totals of the `kind` orders whose month is one of `names`. */
  function WindowTotal(orders: seq<Order>, kind: string, names: seq<string>): real
  {
    if |orders| == 0 then 0.0
    else
      var o := orders[|orders| - 1];
      WindowTotal(orders[..|orders| - 1], kind, names)
        + (if o.kind == kind && MonthOf(o).Some? && MonthOf(o).value in names then o.total else 0.0)
  }

  datatype MonthlyData = MonthlyData(categories: seq<string>, revenue: seq<real>, expenses: seq<real>)

  /** `processOrdersForRevenue`: the window's month names and, per month, the summed totals
      of its sales orders (revenue) and of its purchase orders (expenses). */
  method ProcessOrdersForRevenue(orders: seq<Order>, current: MonthIndex) returns (r: MonthlyData)
    ensures r.categories == RevenueWindow(current)
    ensures |r.revenue| == 6 && |r.expenses| == 6
    ensures forall k :: 0 <= k < 6 ==>
      r.revenue[k] == MonthTotal(orders, SalesKind, r.categories[k])
      && r.expenses[k] == MonthTotal(orders, PurchaseKind, r.categories[k])
  {
    var months: seq<string> := [];
    var i := 5;
    while i >= 0
      invariant -1 <= i <= 5 && |months| == 5 - i
      invariant forall k :: 0 <= k < |months| ==> months[k] == MonthNames[WindowMonth(current, k)]
    {
      months := months + [MonthNames[(current - i + 12) % 12]];
      i := i - 1;
    }
    assert months == RevenueWindow(current);

    var revenueByMonth: map<string, real> := map[];
    var expensesByMonth: map<string, real> := map[];
    for k := 0 to |months|
      invariant forall m :: m in months[..k] ==> m in revenueByMonth && revenueByMonth[m] == 0.0
      invariant forall m :: m in months[..k] ==> m in expensesByMonth && expensesByMonth[m] == 0.0
    {
      assert months[..k + 1] == months[..k] + [months[k]];
      revenueByMonth := revenueByMonth[months[k] := 0.0];
      expensesByMonth := expensesByMonth[months[k] := 0.0];
    }
    assert months[..|months|] == months;

    for j := 0 to |orders|
      invariant forall m :: m in months ==>
        m in revenueByMonth && revenueByMonth[m] == MonthTotal(orders[..j], SalesKind, m)
      invariant forall m :: m in months ==>
        m in expensesByMonth && expensesByMonth[m] == MonthTotal(orders[..j], PurchaseKind, m)
    {
      var o := orders[j];
      MonthTotalStep(orders, j);
      match o.created {
        case None =>
        case Some(st) =>
          var month := MonthNames[st.month];
          if month in months {
            if o.kind == SalesKind {
              revenueByMonth := revenueByMonth[month := revenueByMonth[month] + o.total];
            } else if o.kind == PurchaseKind {
              expensesByMonth := expensesByMonth[month := expensesByMonth[month] + o.total];
            }
          }
      }
    }
    assert orders[..|orders|] == orders;

    r := MonthlyData(months,
      seq(6, k requires 0 <= k < 6 => revenueByMonth[months[k]]),
      seq(6, k requires 0 <= k < 6 => expensesByMonth[months[k]]));
  }

  /** One more order adds its total to the bucket of its own type and month and changes no
      other bucket. */
  lemma MonthTotalStep(orders: seq<Order>, j: int)
    requires 0 <= j < |orders|
    ensures forall kind, name ::
      (MonthTotal(orders[..j + 1], kind, name)
        == MonthTotal(orders[..j], kind, name) + Contribution(orders[j], kind, name))
  {
    assert orders[..j + 1][..j] == orders[..j];
  }

  /** The window is made of six different month names and ends at the current month. */
  lemma RevenueWindowDistinct(current: MonthIndex)
    ensures Distinct(RevenueWindow(current))
    ensures RevenueWindow(current)[5] == MonthNames[current]
  {
    var w := RevenueWindow(current);
    forall a, b | 0 <= a < b < 6 ensures w[a] != w[b] {
      WindowMonthsDistinct(current, a, b);
      MonthNamesDistinct(WindowMonth(current, a), WindowMonth(current, b));
    }
  }

  lemma WindowMonthsDistinct(current: MonthIndex, a: int, b: int)
    requires 0 <= a < b < 6
    ensures WindowMonth(current, a) != WindowMonth(current, b)
  {
    var x, y := current - 5 + a + 12, current - 5 + b + 12;
    assert x % 12 == (if x >= 12 then x - 12 else x);
    assert y % 12 == (if y >= 12 then y - 12 else y);
  }

  lemma MonthNamesDistinct(a: MonthIndex, b: MonthIndex)
    requires a != b
    ensures MonthNames[a] != MonthNames[b]
  {
  }

  /** The buckets of `names`, added up. */
  function BucketSum(orders: seq<Order>, kind: string, names: seq<string>): real
  {
    if |names| == 0 then 0.0
    else MonthTotal(orders, kind, names[0]) + BucketSum(orders, kind, names[1..])
  }

  function Sum(s: seq<real>): real
  {
    if |s| == 0 then 0.0 else s[0] + Sum(s[1..])
  }

  /** Revenue and expenses conserve money: the buckets add up to the totals of the orders
      of the window's months, each order counted once. */
  lemma RevenueConserved(orders: seq<Order>, current: MonthIndex, r: MonthlyData)
    requires r.categories == RevenueWindow(current) && |r.revenue| == 6 && |r.expenses| == 6
    requires forall k :: 0 <= k < 6 ==>
      r.revenue[k] == MonthTotal(orders, SalesKind, r.categories[k])
      && r.expenses[k] == MonthTotal(orders, PurchaseKind, r.categories[k])
    ensures Sum(r.revenue) == WindowTotal(orders, SalesKind, r.categories)
    ensures Sum(r.expenses) == WindowTotal(orders, PurchaseKind, r.categories)
  {
    RevenueWindowDistinct(current);
    SumIsBucketSum(orders, SalesKind, r.categories, r.revenue);
    SumIsBucketSum(orders, PurchaseKind, r.categories, r.expenses);
    BucketsConserveTotal(orders, SalesKind, r.categories);
    BucketsConserveTotal(orders, PurchaseKind, r.categories);
  }

  lemma {:induction false} SumIsBucketSum(orders: seq<Order>, kind: string, names: seq<string>, s: seq<real>)
    requires |s| == |names|
    requires forall k :: 0 <= k < |s| ==> s[k] == MonthTotal(orders, kind, names[k])
    ensures Sum(s) == BucketSum(orders, kind, names)
  {
    if |s| > 0 {
      SumIsBucketSum(orders, kind, names[1..], s[1..]);
    }
  }

  /** With distinct month names, every order lands in at most one bucket: the buckets add
      up to the totals of the orders of those months. */
  lemma {:induction false} BucketsConserveTotal(orders: seq<Order>, kind: string, names: seq<string>)
    requires Distinct(names)
    ensures BucketSum(orders, kind, names) == WindowTotal(orders, kind, names)
    decreases |orders|
  {
    if |orders| == 0 {
      BucketSumNoOrders(kind, names);
    } else {
      var init, o := orders[..|orders| - 1], orders[|orders| - 1];
      BucketsConserveTotal(init, kind, names);
      BucketSumSnoc(orders, kind, names);
      ContributionsDistinct(o, kind, names);
    }
  }

  lemma {:induction false} BucketSumNoOrders(kind: string, names: seq<string>)
    ensures BucketSum([], kind, names) == 0.0
  {
    if |names| > 0 {
      BucketSumNoOrders(kind, names[1..]);
    }
  }

  /** What one order adds to each bucket of `names`, added up. */
  function Contributions(o: Order, kind: string, names: seq<string>): real
  {
    if |names| == 0 then 0.0 else Contribution(o, kind, names[0]) + Contributions(o, kind, names[1..])
  }

  lemma {:induction false} BucketSumSnoc(orders: seq<Order>, kind: string, names: seq<string>)
    requires |orders| > 0
    ensures BucketSum(orders, kind, names)
      == BucketSum(orders[..|orders| - 1], kind, names) + Contributions(orders[|orders| - 1], kind, names)
  {
    if |names| > 0 {
      BucketSumSnoc(orders, kind, names[1..]);
    }
  }

  lemma {:induction false} ContributionsDistinct(o: Order, kind: string, names: seq<string>)
    requires Distinct(names)
    ensures Contributions(o, kind, names)
      == if o.kind == kind && MonthOf(o).Some? && MonthOf(o).value in names then o.total else 0.0
  {
    if |names| > 0 {
      assert Distinct(names[1..]) by {
        forall a, b | 0 <= a < b < |names[1..]| ensures names[1..][a] != names[1..][b] {
          assert names[1..][a] == names[a + 1] && names[1..][b] == names[b + 1];
        }
      }
      ContributionsDistinct(o, kind, names[1..]);
      if MonthOf(o) == Some(names[0]) {
        assert names[0] !in names[1..] by {
          forall k | 0 <= k < |names[1..]| ensures names[1..][k] != names[0] {
            assert names[1..][k] == names[k + 1];
          }
        }
      }
      assert forall m :: m in names <==> m == names[0] || m in names[1..] by {
        assert names == [names[0]] + names[1..];
      }
    }
  }

  // ---------------------------------------------------------------- orders per day

  /** `date.toLocaleDateString('en-US', { weekday: 'short' })` of an order's `created`. */
  function DayName(created: Option<Stamp>): string
  {
    match created
    case None => InvalidDate
    case Some(st) => WeekdayNames[st.weekday]
  }

  /** The short weekday names of the last `days` days, oldest first, ending today. */
  function DayWindow(today: Weekday, days: nat): seq<string>
  {
    seq(days, k requires 0 <= k < days => WeekdayNames[(today - (days - 1 - k)) % 7])
  }

  /** The slot `daysArray.indexOf(dayName)` an order is counted in, if any. */
  function SlotOf(o: Order, window: seq<string>): Option<nat>
  {
    IndexOf(window, DayName(o.created))
  }

  /** How many of the orders are counted in slot k. */
  function SlotCount(orders: seq<Order>, window: seq<string>, k: int): nat
  {
    if |orders| == 0 then 0
    else SlotCount(orders[..|orders| - 1], window, k) + (if SlotOf(orders[|orders| - 1], window) == Some(k) then 1 else 0)
  }

  function SlotCounts(orders: seq<Order>, window: seq<string>): seq<nat>
  {
    seq(|window|, k requires 0 <= k < |window| => SlotCount(orders, window, k))
  }

  /** How many of the orders have a weekday name found in the window. */
  function Matched(orders: seq<Order>, window: seq<string>): nat
  {
    if |orders| == 0 then 0
    else Matched(orders[..|orders| - 1], window) + (if DayName(orders[|orders| - 1].created) in window then 1 else 0)
  }

  datatype DailyData = DailyData(categories: seq<string>, sales: seq<nat>, purchases: seq<nat>)

  /** Adds one to slot `indexOf(dayName)` of `counts` for every order whose weekday is found. */
  method Tally(counts: array<nat>, orders: seq<Order>, window: seq<string>)
    requires counts.Length == |window|
    modifies counts
    ensures forall k :: 0 <= k < counts.Length ==> counts[k] == old(counts[k]) + SlotCount(orders, window, k)
  {
    for j := 0 to |orders|
      invariant forall k :: 0 <= k < counts.Length ==> counts[k] == old(counts[k]) + SlotCount(orders[..j], window, k)
    {
      assert orders[..j + 1][..j] == orders[..j];
      var index := IndexOf(window, DayName(orders[j].created));
      if index.Some? {
        counts[index.value] := counts[index.value] + 1;
      }
    }
    assert orders[..|orders|] == orders;
  }

  /** `processOrdersForChart`: per day of the window, how many sales and purchase orders fall
      on its weekday name (the first day of the window with that name takes the order). A
      negative `days` makes `new Array(days)` throw. */
  method ProcessOrdersForChart(salesOrders: seq<Order>, purchaseOrders: seq<Order>, days: int, today: Weekday)
    returns (r: Result<DailyData>)
    ensures days < 0 <==> r.Err?
    ensures r.Err? ==> r.message == InvalidArrayLength
    ensures r.Ok? ==>
      var window := DayWindow(today, days);
      r.value == DailyData(window, SlotCounts(salesOrders, window), SlotCounts(purchaseOrders, window))
  {
    var daysArray: seq<string> := [];
    var i := days - 1;
    while i >= 0
      invariant days >= 0 ==> -1 <= i < days && |daysArray| == days - 1 - i
      invariant days < 0 ==> daysArray == []
      invariant forall k :: 0 <= k < |daysArray| ==> daysArray[k] == WeekdayNames[(today - (days - 1 - k)) % 7]
    {
      daysArray := daysArray + [WeekdayNames[(today - i) % 7]];
      i := i - 1;
    }
    if days < 0 {
      return Err(InvalidArrayLength);
    }
    assert daysArray == DayWindow(today, days);

    var salesData := new nat[days](_ => 0);
    var purchaseData := new nat[days](_ => 0);
    Tally(salesData, salesOrders, daysArray);
    Tally(purchaseData, purchaseOrders, daysArray);
    r := Ok(DailyData(daysArray, salesData[..], purchaseData[..]));
  }

  function CountSum(s: seq<nat>): nat
  {
    if |s| == 0 then 0 else CountSum(s[..|s| - 1]) + s[|s| - 1]
  }

  /** The first n slots added up. */
  function SlotSum(orders: seq<Order>, window: seq<string>, n: nat): nat
  {
    if n == 0 then 0 else SlotSum(orders, window, n - 1) + SlotCount(orders, window, n - 1)
  }

  /** Every order whose weekday is found in the window is counted exactly once: the slots add
      up to the number of such orders. */
  lemma DayCountsConserved(orders: seq<Order>, window: seq<string>)
    ensures CountSum(SlotCounts(orders, window)) == Matched(orders, window)
  {
    var counts := SlotCounts(orders, window);
    CountSumIsSlotSum(orders, window, |window|);
    assert counts[..|window|] == counts;
    SlotSumIsMatched(orders, window);
  }

  lemma {:induction false} CountSumIsSlotSum(orders: seq<Order>, window: seq<string>, n: nat)
    requires n <= |window|
    ensures CountSum(SlotCounts(orders, window)[..n]) == SlotSum(orders, window, n)
  {
    if n > 0 {
      var counts := SlotCounts(orders, window);
      assert counts[..n][..n - 1] == counts[..n - 1];
      CountSumIsSlotSum(orders, window, n - 1);
    }
  }

  lemma {:induction false} SlotSumIsMatched(orders: seq<Order>, window: seq<string>)
    ensures SlotSum(orders, window, |window|) == Matched(orders, window)
    decreases |orders|
  {
    if |orders| == 0 {
      SlotSumNoOrders(window, |window|);
    } else {
      SlotSumIsMatched(orders[..|orders| - 1], window);
      SlotSumSnoc(orders, window, |window|);
    }
  }

  lemma {:induction false} SlotSumNoOrders(window: seq<string>, n: nat)
    ensures SlotSum([], window, n) == 0
  {
    if n > 0 {
      SlotSumNoOrders(window, n - 1);
    }
  }

  /** The last order adds one to the first n slots exactly when its slot is among them. */
  lemma {:induction false} SlotSumSnoc(orders: seq<Order>, window: seq<string>, n: nat)
    requires |orders| > 0
    ensures var o := orders[|orders| - 1];
      SlotSum(orders, window, n) == SlotSum(orders[..|orders| - 1], window, n)
        + (if SlotOf(o, window).Some? && SlotOf(o, window).value < n then 1 else 0)
  {
    if n > 0 {
      SlotSumSnoc(orders, window, n - 1);
    }
  }

  /** Day k of the window has the weekday of day k - 7. */
  lemma DayWindowWeekly(today: Weekday, days: nat, k: int)
    requires 7 <= k < days
    ensures DayWindow(today, days)[k] == DayWindow(today, days)[k - 7]
  {
    var y := today - (days - 1 - k);
    assert (y - 7) % 7 == y % 7;
  }

  /** When the window is longer than a week, the days after the first seven stay at 0: every
      order goes to the first day with its weekday name. */
  lemma {:induction false} NoCountsAfterFirstWeek(orders: seq<Order>, today: Weekday, days: nat, k: int)
    requires 7 <= k < days
    ensures SlotCount(orders, DayWindow(today, days), k) == 0
  {
    if |orders| > 0 {
      NoCountsAfterFirstWeek(orders[..|orders| - 1], today, days, k);
      var window := DayWindow(today, days);
      DayWindowWeekly(today, days, k);
      assert window[k - 7] == window[k] && window[k - 7] in window[..k];
    }
  }

  /** A window of at least a week names every weekday, so every order with a valid date is
      counted and only invalid dates are dropped. */
  lemma WeekCoversEveryDay(today: Weekday, days: nat, d: Weekday)
    requires days >= 7
    ensures WeekdayNames[d] in DayWindow(today, days)
  {
    var k := days - 1 - (today - d) % 7;
    assert DayWindow(today, days)[k] == WeekdayNames[(today - (today - d) % 7) % 7];
    assert (today - (today - d) % 7) % 7 == d;
  }

  // ---------------------------------------------------------------- summary statistics

  /** `.filter((order) => order.type === kind).reduce((sum, order) => sum + Number(order.total), 0)`. */
  function KindTotal(orders: seq<Order>, kind: string): real
  {
    if |orders| == 0 then 0.0
    else
      var o := orders[|orders| - 1];
      KindTotal(orders[..|orders| - 1], kind) + (if o.kind == kind then o.total else 0.0)
  }

  /** The percentage change from `previous` to `current`; 0 when `previous` is not positive. */
  function Trend(current: real, previous: real): (t: real)
    ensures previous <= 0.0 ==> t == 0.0
    ensures previous > 0.0 ==> previous + previous * t / 100.0 == current
    ensures previous > 0.0 ==> (t > 0.0 <==> current > previous) && (t < 0.0 <==> current < previous)
  {
    if previous > 0.0 then (current - previous) / previous * 100.0 else 0.0
  }

  /** Profit as a percentage of revenue; 0 when there is no positive revenue. */
  function ProfitMargin(revenue: real, expenses: real): (m: real)
    ensures revenue <= 0.0 ==> m == 0.0
    ensures revenue > 0.0 ==> m * revenue / 100.0 == revenue - expenses
    ensures revenue > 0.0 && expenses >= 0.0 ==> m <= 100.0
    ensures revenue > 0.0 ==> (m >= 0.0 <==> expenses <= revenue)
  {
    if revenue > 0.0 then (revenue - expenses) / revenue * 100.0 else 0.0
  }

  datatype Stat = Stat(value: real, trend: real)

  datatype Summary = Summary(revenue: Stat, orders: Stat, products: Stat, profitMargin: Stat)

  /** The object `getSummaryStats` builds from the fetched order lists and counts. */
  function SummaryStats(currentMonth: seq<Order>, previousMonth: seq<Order>, productCount: nat,
                        thisWeekCount: nat, lastWeekCount: nat): Summary
  {
    var revenue := KindTotal(currentMonth, SalesKind);
    var previousRevenue := KindTotal(previousMonth, SalesKind);
    var expenses := KindTotal(currentMonth, PurchaseKind);
    Summary(
      Stat(revenue, Trend(revenue, previousRevenue)),
      Stat(thisWeekCount as real, Trend(thisWeekCount as real, lastWeekCount as real)),
      Stat(productCount as real, 0.0),
      Stat(ProfitMargin(revenue, expenses), 0.0))
  }

  /** The summary's trends fall back to 0 when their baseline is missing: no previous sales,
      no orders last week, no revenue this month. */
  lemma SummaryGuards(currentMonth: seq<Order>, previousMonth: seq<Order>, productCount: nat,
                      thisWeekCount: nat, lastWeekCount: nat)
    ensures var s := SummaryStats(currentMonth, previousMonth, productCount, thisWeekCount, lastWeekCount);
      && (KindTotal(previousMonth, SalesKind) <= 0.0 ==> s.revenue.trend == 0.0)
      && (lastWeekCount == 0 ==> s.orders.trend == 0.0)
      && (lastWeekCount > 0 ==> s.orders.trend * lastWeekCount as real == (thisWeekCount as real - lastWeekCount as real) * 100.0)
      && (KindTotal(currentMonth, SalesKind) <= 0.0 ==> s.profitMargin.value == 0.0)
      && s.products.trend == 0.0 && s.profitMargin.trend == 0.0
  {
  }
}
