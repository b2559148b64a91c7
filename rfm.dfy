/**
 * `calculate_rfm`: Recency, Frequency and Monetary value per customer over
 * the rows purchased in the selected range, measured from the range's end.
 */
module Rfm {
  import opened Seqs
  import opened Grouping
  import opened Calendar
  import opened Orders

  /** One row of the RFM table. */
  datatype RfmRecord = RfmRecord(customerId: string, recency: int, frequency: nat, monetary: real)

  /** The latest purchase moment among the rows (`x.max()`). */
  function LatestPurchase(g: seq<Order>): (t: int)
    requires |g| > 0
    ensures forall i :: 0 <= i < |g| ==> g[i].purchaseTs <= t
    ensures exists i :: 0 <= i < |g| && g[i].purchaseTs == t
  {
    if |g| == 1 then g[0].purchaseTs
    else
      var rest := LatestPurchase(g[1..]);
      if g[0].purchaseTs >= rest then g[0].purchaseTs else rest
  }

  /** The RFM row of customer `c`, whose rows are among `filtered`. */
  function CustomerRfm(filtered: seq<Order>, c: string, referenceTs: int): RfmRecord
    requires c in KeySet(filtered, CustomerOf)
  {
    var g := Where(filtered, CustomerOf, c);
    RfmRecord(c, DaysBetween(LatestPurchase(g), referenceTs), |g|, SumOf(g, PaymentOf))
  }

  /** The RFM rows of the customers `ids`, in that order. */
  function RfmRows(filtered: seq<Order>, ids: seq<string>, referenceTs: int): (r: seq<RfmRecord>)
    requires forall c :: c in ids ==> c in KeySet(filtered, CustomerOf)
    ensures |r| == |ids|
    ensures forall i :: 0 <= i < |ids| ==> r[i] == CustomerRfm(filtered, ids[i], referenceTs)
    ensures forall i :: 0 <= i < |ids| ==> r[i].customerId == ids[i]
  {
    if |ids| == 0 then []
    else [CustomerRfm(filtered, ids[0], referenceTs)] + RfmRows(filtered, ids[1..], referenceTs)
  }

  /** The customers' rows among the rows purchased between the two moments. */
  function CustomerRows(rows: seq<Order>, startTs: int, endTs: int, c: string): seq<Order> {
    Where(InRange(rows, startTs, endTs), CustomerOf, c)
  }

  /**
   * `calculate_rfm(df, start, end)`: one row per customer with a purchase in
   * the range, in ascending customer-id order, and no other rows.
   */
  function CalculateRfm(rows: seq<Order>, startTs: int, endTs: int): (r: seq<RfmRecord>)
    ensures forall i, j :: 0 <= i < j < |r| ==> LexLess(r[i].customerId, r[j].customerId)
    ensures forall c :: c in KeySet(InRange(rows, startTs, endTs), CustomerOf) <==>
                        exists i :: 0 <= i < |r| && r[i].customerId == c
    ensures |r| == |KeySet(InRange(rows, startTs, endTs), CustomerOf)|
  {
    var filtered := InRange(rows, startTs, endTs);
    GroupedRowsListCustomers(filtered, endTs);
    LexLessIsStrictTotalOrder();
    RfmRows(filtered, GroupKeys(filtered, CustomerOf, LexLess), endTs)
  }

  lemma GroupedRowsListCustomers(filtered: seq<Order>, referenceTs: int)
    ensures StrictTotalOrder(LexLess)
    ensures var r := RfmRows(filtered, GroupKeys(filtered, CustomerOf, LexLess), referenceTs);
            && (forall i, j :: 0 <= i < j < |r| ==> LexLess(r[i].customerId, r[j].customerId))
            && (forall c :: c in KeySet(filtered, CustomerOf) <==> exists i :: 0 <= i < |r| && r[i].customerId == c)
            && |r| == |KeySet(filtered, CustomerOf)|
  {
    LexLessIsStrictTotalOrder();
    var ids := GroupKeys(filtered, CustomerOf, LexLess);
    RowsFollowIds(filtered, ids, referenceTs);
  }

  lemma RowsFollowIds(filtered: seq<Order>, ids: seq<string>, referenceTs: int)
    requires forall c :: c in ids ==> c in KeySet(filtered, CustomerOf)
    ensures var r := RfmRows(filtered, ids, referenceTs);
            && (forall i, j :: 0 <= i < j < |r| ==> r[i].customerId == ids[i] && r[j].customerId == ids[j])
            && (forall c :: c in ids <==> exists i :: 0 <= i < |r| && r[i].customerId == c)
  {
    var r := RfmRows(filtered, ids, referenceTs);
    forall c | c in ids ensures exists i :: 0 <= i < |r| && r[i].customerId == c {
      var i :| 0 <= i < |ids| && ids[i] == c;
      assert r[i].customerId == c;
    }
  }

  /**
   * Each RFM row: Frequency is the number of the customer's rows in the
   * range (at least 1), Monetary the sum of their payment values, and
   * Recency the whole days from the customer's latest purchase in the range
   * to the range's end, never negative.
   */
  lemma RfmRecordMeaning(rows: seq<Order>, startTs: int, endTs: int, i: nat)
    requires i < |CalculateRfm(rows, startTs, endTs)|
    ensures var rec := CalculateRfm(rows, startTs, endTs)[i];
            var g := CustomerRows(rows, startTs, endTs, rec.customerId);
            && |g| > 0
            && rec.frequency == |g|
            && rec.monetary == SumOf(g, PaymentOf)
            && rec.recency == DaysBetween(LatestPurchase(g), endTs)
            && rec.recency >= 0
  {
    LexLessIsStrictTotalOrder();
    var filtered := InRange(rows, startTs, endTs);
    var ids := GroupKeys(filtered, CustomerOf, LexLess);
    assert CalculateRfm(rows, startTs, endTs)[i] == CustomerRfm(filtered, ids[i], endTs);
    LatestIsInRange(rows, startTs, endTs, ids[i]);
  }

  /** A customer's latest purchase in the range is not after the range's end. */
  lemma LatestIsInRange(rows: seq<Order>, startTs: int, endTs: int, c: string)
    requires |CustomerRows(rows, startTs, endTs, c)| > 0
    ensures LatestPurchase(CustomerRows(rows, startTs, endTs, c)) <= endTs
  {
    var g := CustomerRows(rows, startTs, endTs, c);
    var i :| 0 <= i < |g| && g[i].purchaseTs == LatestPurchase(g);
    assert g[i] in InRange(rows, startTs, endTs);
  }

  /** Total Frequency over the listed RFM rows (a sum of naturals, where `SumOf` sums reals). */
  function TotalFrequency(r: seq<RfmRecord>): nat {
    if |r| == 0 then 0 else r[0].frequency + TotalFrequency(r[1..])
  }

  /** Total Monetary over the listed RFM rows. */
  function TotalMonetary(r: seq<RfmRecord>): real {
    SumOf(r, MonetaryOf)
  }

  function MonetaryOf(rec: RfmRecord): real { rec.monetary }

  lemma {:induction false} RfmRowsTotals(filtered: seq<Order>, ids: seq<string>, referenceTs: int)
    requires forall c :: c in ids ==> c in KeySet(filtered, CustomerOf)
    ensures TotalFrequency(RfmRows(filtered, ids, referenceTs)) == CountAcross(filtered, CustomerOf, ids)
    ensures TotalMonetary(RfmRows(filtered, ids, referenceTs)) == SumAcross(filtered, CustomerOf, ids, PaymentOf)
  {
    if |ids| > 0 {
      RfmRowsTotals(filtered, ids[1..], referenceTs);
    }
  }

  /**
   * Frequency counts rows, so the Frequencies add up to the number of rows
   * in the range, and the Monetary values add up to the range's total payment.
   */
  lemma RfmTotals(rows: seq<Order>, startTs: int, endTs: int)
    ensures TotalFrequency(CalculateRfm(rows, startTs, endTs)) == |InRange(rows, startTs, endTs)|
    ensures TotalMonetary(CalculateRfm(rows, startTs, endTs)) == SumOf(InRange(rows, startTs, endTs), PaymentOf)
  {
    LexLessIsStrictTotalOrder();
    TotalsOverCustomers(InRange(rows, startTs, endTs), endTs);
  }

  lemma TotalsOverCustomers(filtered: seq<Order>, referenceTs: int)
    requires StrictTotalOrder(LexLess)
    ensures var r := RfmRows(filtered, GroupKeys(filtered, CustomerOf, LexLess), referenceTs);
            && TotalFrequency(r) == |filtered|
            && TotalMonetary(r) == SumOf(filtered, PaymentOf)
  {
    var ids := GroupKeys(filtered, CustomerOf, LexLess);
    SortedIsDistinct(ids, LexLess);
    forall i | 0 <= i < |filtered| ensures CustomerOf(filtered[i]) in ids {
      assert CustomerOf(filtered[i]) in KeySet(filtered, CustomerOf);
    }
    RfmRowsTotals(filtered, ids, referenceTs);
    GroupSizesPartition(filtered, CustomerOf, ids);
    GroupSumsPartition(filtered, CustomerOf, ids, PaymentOf);
  }

  lemma CustomerPaymentsNonNegative(rows: seq<Order>, startTs: int, endTs: int, c: string)
    requires forall i :: 0 <= i < |rows| ==> rows[i].paymentValue >= 0.0
    ensures SumOf(CustomerRows(rows, startTs, endTs, c), PaymentOf) >= 0.0
  {
    var filtered := InRange(rows, startTs, endTs);
    var g := CustomerRows(rows, startTs, endTs, c);
    forall k | 0 <= k < |g| ensures PaymentOf(g[k]) >= 0.0 {
      assert g[k] in filtered;
      assert g[k] in rows;
    }
    SumOfNonNegative(g, PaymentOf);
  }

  /** With non-negative payment values every Monetary value is non-negative. */
  lemma MonetaryNonNegative(rows: seq<Order>, startTs: int, endTs: int)
    requires forall i :: 0 <= i < |rows| ==> rows[i].paymentValue >= 0.0
    ensures forall rec :: rec in CalculateRfm(rows, startTs, endTs) ==> rec.monetary >= 0.0
  {
    var r := CalculateRfm(rows, startTs, endTs);
    forall i | 0 <= i < |r| ensures r[i].monetary >= 0.0 {
      RfmRecordMeaning(rows, startTs, endTs, i);
      CustomerPaymentsNonNegative(rows, startTs, endTs, r[i].customerId);
    }
  }

  /**
   * Frequency counts a customer's rows, not distinct orders: it is at least
   * the number of distinct order ids among those rows, and equal to it
   * exactly when no order of the customer has several payment rows.
   */
  lemma FrequencyCountsPaymentRows(rows: seq<Order>, startTs: int, endTs: int, i: nat)
    requires i < |CalculateRfm(rows, startTs, endTs)|
    ensures var rec := CalculateRfm(rows, startTs, endTs)[i];
            var g := CustomerRows(rows, startTs, endTs, rec.customerId);
            && rec.frequency >= |KeySet(g, OrderIdOf)|
            && (rec.frequency == |KeySet(g, OrderIdOf)| <==>
                forall a, b :: 0 <= a < b < |g| ==> g[a].orderId != g[b].orderId)
  {
    var rec := CalculateRfm(rows, startTs, endTs)[i];
    RfmRecordMeaning(rows, startTs, endTs, i);
    DistinctCountBound(CustomerRows(rows, startTs, endTs, rec.customerId), OrderIdOf);
  }

  /**
   * For the dates selected on the dashboard (the end widened to the last
   * second of the end date), Recency is the number of calendar days from the
   * customer's latest purchase day to the end date: 0 for a purchase on the
   * end date itself.
   */
  lemma RecencyInCalendarDays(rows: seq<Order>, startDay: int, endDay: int, i: nat)
    requires i < |CalculateRfm(rows, SelectedRange(startDay, endDay).0, SelectedRange(startDay, endDay).1)|
    ensures var range := SelectedRange(startDay, endDay);
            var rec := CalculateRfm(rows, range.0, range.1)[i];
            var latest := LatestPurchase(CustomerRows(rows, range.0, range.1, rec.customerId));
            && rec.recency == endDay - DayOf(latest)
            && (rec.recency == 0 <==> DayOf(latest) == endDay)
  {
    var range := SelectedRange(startDay, endDay);
    var rec := CalculateRfm(rows, range.0, range.1)[i];
    RfmRecordMeaning(rows, range.0, range.1, i);
    var latest := LatestPurchase(CustomerRows(rows, range.0, range.1, rec.customerId));
    LatestIsInRange(rows, range.0, range.1, rec.customerId);
    assert range.1 == EndOfDay(endDay);
    DaysBackFromEndOfDay(latest, endDay);
  }
}
