/**
 * One row of the order dataset and the date-range selection that every
 * analysis view applies to it first.
 */
module Orders {
  import opened Wrappers
  import opened Seqs
  import opened Grouping
  import opened Calendar

  /**
   * An order row: payment line of an order, with the purchase moment and,
   * for delivered orders, the moment it reached the customer (seconds).
   */
  datatype Order = Order(
    customerId: string,
    orderId: string,
    purchaseTs: int,
    deliveredTs: Option<int>,
    paymentType: string,
    paymentValue: real)

  function CustomerOf(o: Order): string { o.customerId }
  function OrderIdOf(o: Order): string { o.orderId }
  function PaymentOf(o: Order): real { o.paymentValue }
  function PurchaseMonth(o: Order): YearMonth { MonthOf(o.purchaseTs) }
  function PurchaseWeekday(o: Order): int { Weekday(o.purchaseTs) }

  /** Python's string order: lexicographic by code point, a proper prefix first. */
  predicate LexLess(a: string, b: string) {
    if |a| == 0 then |b| > 0
    else if |b| == 0 then false
    else a[0] < b[0] || (a[0] == b[0] && LexLess(a[1..], b[1..]))
  }

  lemma {:induction false} LexIrreflexive(a: string)
    ensures !LexLess(a, a)
  {
    if |a| > 0 {
      LexIrreflexive(a[1..]);
    }
  }

  lemma {:induction false} LexTransitive(a: string, b: string, c: string)
    requires LexLess(a, b) && LexLess(b, c)
    ensures LexLess(a, c)
  {
    if |a| > 0 && a[0] == b[0] && b[0] == c[0] {
      LexTransitive(a[1..], b[1..], c[1..]);
    }
  }

  lemma {:induction false} LexTotal(a: string, b: string)
    requires a != b
    ensures LexLess(a, b) || LexLess(b, a)
  {
    if |a| > 0 && |b| > 0 && a[0] == b[0] {
      assert a == [a[0]] + a[1..] && b == [b[0]] + b[1..];
      LexTotal(a[1..], b[1..]);
    }
  }

  /** Customer and order identifiers sort as pandas sorts group keys. */
  lemma LexLessIsStrictTotalOrder()
    ensures StrictTotalOrder(LexLess)
  {
    forall a ensures !LexLess(a, a) {
      LexIrreflexive(a);
    }
    forall a, b, c | LexLess(a, b) && LexLess(b, c) ensures LexLess(a, c) {
      LexTransitive(a, b, c);
    }
    forall a, b | a != b ensures LexLess(a, b) || LexLess(b, a) {
      LexTotal(a, b);
    }
  }

  /** Months sort chronologically. */
  lemma MonthBeforeIsStrictTotalOrder()
    ensures StrictTotalOrder(MonthBefore)
  {
  }

  /** The row mask `start <= order_purchase_timestamp <= end`. */
  predicate InWindow(o: Order, startTs: int, endTs: int) {
    startTs <= o.purchaseTs <= endTs
  }

  /**
   * The date-range filter: exactly the rows purchased between the two
   * moments, both ends included, each as often as in the input, in the
   * input's order. The delivery moment plays no part.
   */
  function InRange(rows: seq<Order>, startTs: int, endTs: int): (r: seq<Order>)
    ensures forall o :: multiset(r)[o] == if InWindow(o, startTs, endTs) then multiset(rows)[o] else 0
    ensures forall o :: o in r <==> o in rows && InWindow(o, startTs, endTs)
    ensures IsSubsequence(r, rows)
  {
    var p := o => InWindow(o, startTs, endTs);
    FilterIsSubsequence(rows, p);
    Filter(rows, p)
  }

  /** Filtering an already filtered table by the same range changes nothing. */
  lemma InRangeIdempotent(rows: seq<Order>, startTs: int, endTs: int)
    ensures InRange(InRange(rows, startTs, endTs), startTs, endTs) == InRange(rows, startTs, endTs)
  {
    FilterIdempotent(rows, o => InWindow(o, startTs, endTs));
  }

  /** The moments a selected pair of calendar dates stands for: midnight of the first, the last second of the second. */
  function SelectedRange(startDay: int, endDay: int): (range: (int, int))
    ensures DayOf(range.0) == startDay && DayOf(range.1) == endDay
    ensures DayOf(range.1 + 1) == endDay + 1
  {
    DayBoundaries(startDay);
    DayBoundaries(endDay);
    (StartOfDay(startDay), EndOfDay(endDay))
  }

  /**
   * With the selected dates widened to whole days, a row is kept exactly
   * when its purchase falls on one of the selected days, the last included.
   */
  lemma SelectedRangeIsWholeDays(o: Order, startDay: int, endDay: int)
    ensures var range := SelectedRange(startDay, endDay);
            InWindow(o, range.0, range.1) <==> startDay <= DayOf(o.purchaseTs) <= endDay
  {
    var d := DayOf(o.purchaseTs);
    DayBoundaries(d);
    DayBoundaries(startDay);
    DayBoundaries(endDay);
    if d < startDay {
      assert EndOfDay(d) < StartOfDay(startDay);
    }
    if d > endDay {
      assert EndOfDay(endDay) < StartOfDay(d);
    }
  }

  /** The rows the dashboard shows for a pair of selected dates. */
  function SelectRows(rows: seq<Order>, startDay: int, endDay: int): (r: seq<Order>)
    ensures forall o :: o in r <==> o in rows && startDay <= DayOf(o.purchaseTs) <= endDay
    ensures forall o :: multiset(r)[o] == if startDay <= DayOf(o.purchaseTs) <= endDay then multiset(rows)[o] else 0
    ensures IsSubsequence(r, rows)
  {
    var range := SelectedRange(startDay, endDay);
    assert forall o :: InWindow(o, range.0, range.1) <==> startDay <= DayOf(o.purchaseTs) <= endDay by {
      forall o ensures InWindow(o, range.0, range.1) <==> startDay <= DayOf(o.purchaseTs) <= endDay {
        SelectedRangeIsWholeDays(o, startDay, endDay);
      }
    }
    InRange(rows, range.0, range.1)
  }
}
