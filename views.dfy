/**
 * The two per-row derivations the dashboard's views make from the rows of
 * the selected range: delivery times in whole days (for delivered rows
 * only, cleaned of outliers) and the number of rows per weekday, Monday
 * to Sunday.
 */
module Views {
  import opened Wrappers
  import opened Seqs
  import opened Grouping
  import opened Calendar
  import opened Orders
  import opened Outliers

  predicate IsDelivered(o: Order) {
    o.deliveredTs.Some?
  }

  /** `dropna(subset=["order_delivered_customer_date"])`: the rows with a delivery moment, in order. */
  function Delivered(rows: seq<Order>): (r: seq<Order>)
    ensures forall i :: 0 <= i < |r| ==> IsDelivered(r[i])
    ensures forall o :: o in r <==> o in rows && IsDelivered(o)
    ensures forall o :: multiset(r)[o] == if IsDelivered(o) then multiset(rows)[o] else 0
    ensures IsSubsequence(r, rows)
  {
    FilterIsSubsequence(rows, IsDelivered);
    Filter(rows, IsDelivered)
  }

  /** A delivered row with its `delivery_time_days` column. */
  datatype Shipment = Shipment(order: Order, deliveryDays: int)

  /** Whole days from purchase to delivery, rounded down (`.dt.days`). */
  function DeliveryDays(o: Order): int
    requires IsDelivered(o)
  {
    DaysBetween(o.purchaseTs, o.deliveredTs.value)
  }

  /**
   * The delivered rows, each with its delivery time: the whole days `n` with
   * `n` days not longer than the time from purchase to delivery and `n + 1`
   * days longer.
   */
  function DeliveryTimes(rows: seq<Order>): (r: seq<Shipment>)
    ensures |r| == |Delivered(rows)|
    ensures forall i :: 0 <= i < |r| ==> r[i].order == Delivered(rows)[i]
    ensures forall i :: 0 <= i < |r| ==>
              var o := r[i].order;
              && IsDelivered(o)
              && r[i].deliveryDays * SECONDS_PER_DAY <= o.deliveredTs.value - o.purchaseTs
              && o.deliveredTs.value - o.purchaseTs < (r[i].deliveryDays + 1) * SECONDS_PER_DAY
  {
    var d := Delivered(rows);
    seq(|d|, i requires 0 <= i < |d| => Shipment(d[i], DeliveryDays(d[i])))
  }

  /**
   * A delivery time is never negative when the delivery is not before the
   * purchase, and is 0 exactly when it came less than a day after it.
   */
  lemma DeliveryDaysSign(rows: seq<Order>, i: nat)
    requires i < |DeliveryTimes(rows)|
    ensures var s := DeliveryTimes(rows)[i];
            s.order.purchaseTs <= s.order.deliveredTs.value ==>
              && s.deliveryDays >= 0
              && (s.deliveryDays == 0 <==> s.order.deliveredTs.value - s.order.purchaseTs < SECONDS_PER_DAY)
  {
  }

  function DaysColumn(s: Shipment): real {
    s.deliveryDays as real
  }

  /**
   * `remove_outliers(delivered_orders, 'delivery_time_days')`: the delivered
   * rows whose delivery time lies inside the IQR fences of all delivery
   * times, in order.
   */
  function CleanDeliveryTimes(rows: seq<Order>): (r: seq<Shipment>)
    ensures IsSubsequence(r, DeliveryTimes(rows))
    ensures forall s :: s in r <==>
              s in DeliveryTimes(rows) && InsideFences(DaysColumn(s), IqrFences(Column(DeliveryTimes(rows), DaysColumn)))
    ensures forall s :: multiset(r)[s] ==
              if InsideFences(DaysColumn(s), IqrFences(Column(DeliveryTimes(rows), DaysColumn)))
              then multiset(DeliveryTimes(rows))[s] else 0
  {
    RemoveOutliers(DeliveryTimes(rows), DaysColumn)
  }

  /** Every delivery time kept belongs to a delivered row of the input. */
  lemma CleanTimesAreDelivered(rows: seq<Order>)
    ensures forall s :: s in CleanDeliveryTimes(rows) ==> s.order in rows && IsDelivered(s.order)
  {
    var times := DeliveryTimes(rows);
    forall s | s in times ensures s.order in rows && IsDelivered(s.order) {
      var i :| 0 <= i < |times| && times[i] == s;
      assert Delivered(rows)[i] in Delivered(rows);
    }
  }

  /** `Series.dt.day_name()` of the purchase moment. */
  function PurchaseDayName(o: Order): string {
    DAY_NAMES[PurchaseWeekday(o)]
  }

  /** One entry of `value_counts().reindex(...)`: the rows with key `k`, or nothing (NaN) if there are none. */
  function CountOf<T(!new), K(==)>(rows: seq<T>, key: T -> K, k: K): (c: Option<nat>)
    ensures c.None? <==> forall i :: 0 <= i < |rows| ==> key(rows[i]) != k
    ensures c.Some? ==> c.value == |Where(rows, key, k)|
  {
    NoneWhenAbsent(rows, key, k);
    var n := |Where(rows, key, k)|;
    if n == 0 then None else Some(n)
  }

  lemma NoneWhenAbsent<T(!new), K>(rows: seq<T>, key: T -> K, k: K)
    ensures |Where(rows, key, k)| == 0 <==> forall i :: 0 <= i < |rows| ==> key(rows[i]) != k
  {
    if |Where(rows, key, k)| == 0 {
      forall i | 0 <= i < |rows| ensures key(rows[i]) != k {
        assert key(rows[i]) in KeySet(rows, key);
      }
    }
  }

  /** `value_counts().reindex(keys)`: the entries of the listed keys, in the listed order. */
  function Reindexed<T(!new), K(==)>(rows: seq<T>, key: T -> K, keys: seq<K>): (r: seq<Option<nat>>)
    ensures |r| == |keys|
    ensures forall k :: 0 <= k < |keys| ==> r[k] == CountOf(rows, key, keys[k])
  {
    if |keys| == 0 then [] else [CountOf(rows, key, keys[0])] + Reindexed(rows, key, keys[1..])
  }

  /** The sum of the present entries, NaN skipped as `Series.sum()` does (naturals, where `SumOf` sums reals). */
  function PresentTotal(cs: seq<Option<nat>>): nat {
    if |cs| == 0 then 0 else (if cs[0].Some? then cs[0].value else 0) + PresentTotal(cs[1..])
  }

  lemma {:induction false} ReindexedTotal<T(!new), K>(rows: seq<T>, key: T -> K, keys: seq<K>)
    ensures PresentTotal(Reindexed(rows, key, keys)) == CountAcross(rows, key, keys)
  {
    if |keys| > 0 {
      ReindexedTotal(rows, key, keys[1..]);
    }
  }

  /** When every row's key is listed once, the present entries add up to the number of rows. */
  lemma ReindexedCoversAll<T(!new), K>(rows: seq<T>, key: T -> K, keys: seq<K>)
    requires Distinct(keys)
    requires forall i :: 0 <= i < |rows| ==> key(rows[i]) in keys
    ensures PresentTotal(Reindexed(rows, key, keys)) == |rows|
  {
    ReindexedTotal(rows, key, keys);
    GroupSizesPartition(rows, key, keys);
  }

  /**
   * The weekday bar chart's values, Monday to Sunday: each day's entry is
   * absent exactly when no row was purchased on that weekday, and otherwise
   * counts the rows purchased on it.
   */
  function WeekdayCounts(rows: seq<Order>): (r: seq<Option<nat>>)
    ensures |r| == 7
    ensures forall w :: 0 <= w < 7 ==>
              && (r[w].None? <==> forall i :: 0 <= i < |rows| ==> PurchaseWeekday(rows[i]) != w)
              && (r[w].Some? ==> r[w].value == |Where(rows, PurchaseDayName, DAY_NAMES[w])|)
    ensures forall w :: 0 <= w < 7 ==> r[w].Some? ==> r[w].value == |Where(rows, PurchaseWeekday, w)|
  {
    var r := Reindexed(rows, PurchaseDayName, DAY_NAMES);
    forall w | 0 <= w < 7
      ensures r[w].None? <==> forall i :: 0 <= i < |rows| ==> PurchaseWeekday(rows[i]) != w
    {
      forall i | 0 <= i < |rows|
        ensures PurchaseDayName(rows[i]) == DAY_NAMES[w] <==> PurchaseWeekday(rows[i]) == w
      {
        DayNamesDistinct();
      }
    }
    forall w | 0 <= w < 7
      ensures |Where(rows, PurchaseDayName, DAY_NAMES[w])| == |Where(rows, PurchaseWeekday, w)|
    {
      SameDayGroup(rows, w);
    }
    r
  }

  /** The rows with a weekday's name are the rows on that weekday. */
  lemma SameDayGroup(rows: seq<Order>, w: int)
    requires 0 <= w < 7
    ensures |Where(rows, PurchaseDayName, DAY_NAMES[w])| == |Where(rows, PurchaseWeekday, w)|
  {
    var byName, byNumber := Where(rows, PurchaseDayName, DAY_NAMES[w]), Where(rows, PurchaseWeekday, w);
    forall o ensures multiset(byName)[o] == multiset(byNumber)[o] {
      DayNameOf(PurchaseWeekday(o), w);
    }
    assert multiset(byName) == multiset(byNumber);
    assert |multiset(byName)| == |byName|;
  }

  /** Two weekdays have the same name exactly when they are the same day. */
  lemma DayNameOf(v: int, w: int)
    requires 0 <= v < 7 && 0 <= w < 7
    ensures DAY_NAMES[v] == DAY_NAMES[w] <==> v == w
  {
    DayNamesDistinct();
  }

  lemma DayNamesDistinct()
    ensures Distinct(DAY_NAMES)
  {
  }

  /** Every row is counted under exactly one weekday: the bars add up to the number of rows. */
  lemma WeekdayCountsTotal(rows: seq<Order>)
    ensures PresentTotal(WeekdayCounts(rows)) == |rows|
  {
    DayNamesDistinct();
    ReindexedCoversAll(rows, PurchaseDayName, DAY_NAMES);
  }
}
