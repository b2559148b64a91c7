# E-commerce dashboard analytics, modelled in Dafny

The dashboard in `dashboard/dashboard.py` reads a table of order payment rows
and shows views over the rows whose purchase moment falls within a date
range chosen in the sidebar. This project models the computations behind
those views as pure Dafny functions over a sequence of `Order` records, and
proves what each computation delivers:

- **Date-range selection.** The sidebar's end date is widened to the last
  second of that day. Only rows with `start <= purchase <= end` are kept, in
  their original order (`Orders`).
- **`remove_outliers`.** The quartiles are computed by linear interpolation.
  Only rows whose value lies between `Q1 - 1.5 IQR` and `Q3 + 1.5 IQR` are
  kept (`Outliers`).
- **`calculate_rfm`.** Rows are grouped by customer in ascending customer-id
  order. Each customer gets a Recency in whole days back from the range's
  end, a Frequency (the customer's row count) and a Monetary value (the sum
  of payments) (`Rfm`).
- **`analyze_monthly_trends`.** Rows are grouped by calendar month in
  chronological order. Each month gets its number of distinct order ids and
  its revenue. The month-over-month `pct_change` columns are added
  afterwards (`MonthlyTrends`).
- **Delivery-time and weekday views.** Delivery days are computed for
  delivered rows only, then cleaned of outliers. Rows are counted per
  weekday, Monday to Sunday (`Views`).

Supporting modules:

- `Calendar`: seconds, days, weekdays and the civil calendar month.
- `Grouping`: pandas' sorted `groupby`, `nunique`, and partition identities.
- `Seqs`: boolean-mask selection and sums.
- `Wrappers`: `Option`.

How pandas values are represented:

- **Timestamps** are whole seconds since 1970-01-01 on a timezone-naive
  calendar.
- **`Timedelta.days`** is floor division by 86400.
- **Payment values and quantiles** are exact reals.
- **NaN** results, such as the quartiles of an empty column or the missing
  entries of a reindex, are written as `None` or `Absent`.

A start date after the end date is not rejected as an invalid range. The
code simply filters with it, so no rows are selected. An empty selection is
not reported as a separate "no data" condition either: it yields empty
tables and an empty outlier-free column. The model follows the code in both.

## Model

| member | source | states |
|---|---|---|
| `Seqs.Filter` | dashboard/dashboard.py:26 | a boolean-mask selection keeps exactly the rows satisfying the mask, each as often as in the input |
| `Seqs.FilterIdempotent` | dashboard/dashboard.py:26 | applying the same mask twice selects what applying it once does |
| `Seqs.SumOf` | dashboard/dashboard.py:46 | `Series.sum()` of a column: the sum of the column's values over the rows; `SumOfAppend` splits it over concatenated rows and `SumOfNonNegative` keeps it non-negative |
| `Orders.InRange` | dashboard/dashboard.py:100-101 | the range filter keeps exactly the rows with `start <= purchase <= end`, each as often as in the input, in input order (a subsequence); the delivery moment plays no part |
| `Orders.InRangeIdempotent` | dashboard/dashboard.py:32-33 | filtering an already filtered table with the same bounds changes nothing |
| `Orders.SelectedRange` | dashboard/dashboard.py:96-97 | the start moment is on the start date, the widened end moment is on the end date, and the second after it is on the next day |
| `Orders.SelectedRangeIsWholeDays` | dashboard/dashboard.py:96-101 | with the widened end, a row is kept exactly when its purchase day lies between the two selected dates, both included |
| `Orders.SelectRows` | dashboard/dashboard.py:99-101 | the dashboard's `filtered_df` holds exactly the input rows purchased on a selected day, each as often as in the input, in input order (a subsequence) |
| `Orders.LexLess` | dashboard/dashboard.py:43 | Python's order on the `customer_id` strings that `groupby` sorts by: lexicographic by code point, a proper prefix first; `LexLessIsStrictTotalOrder` proves it a strict total order |
| `Orders.LexLessIsStrictTotalOrder` | dashboard/dashboard.py:43 | customer ids are ordered as Python orders strings, a strict total order, so `groupby` lists each id once in ascending order |
| `Orders.MonthBeforeIsStrictTotalOrder` | dashboard/dashboard.py:57 | monthly periods are ordered chronologically, a strict total order |
| `Calendar.DayOf` | dashboard/dashboard.py:96 | the day of a moment is the day whose midnight is not after it and whose last second is not before it |
| `Calendar.DayBoundaries` | dashboard/dashboard.py:97 | midnight and the last second of a day fall on that day, and one second later is the next day |
| `Calendar.DaysBetween` | dashboard/dashboard.py:44 | `Timedelta.days` is the largest whole number of days not longer than the span, also for negative spans |
| `Calendar.DaysBackFromEndOfDay` | dashboard/dashboard.py:97 | from the last second of a day, the whole days back to an earlier moment are the calendar days between them, never negative |
| `Calendar.Weekday` | dashboard/dashboard.py:146 | a weekday number is one of 0 (Monday) to 6 (Sunday) |
| `Calendar.WeekdayAdvances` | dashboard/dashboard.py:146 | one day later is the next weekday, Sunday wrapping to Monday |
| `Calendar.WeekdayExample` | dashboard/dashboard.py:146 | 2021-01-01 is a Friday |
| `Calendar.LastDayOfJanuaryExample` | dashboard/dashboard.py:57 | 2021-01-31 lies in period 2021-01 |
| `Calendar.FirstDayOfFebruaryExample` | dashboard/dashboard.py:57 | 2021-02-01 lies in period 2021-02 |
| `Calendar.LeapDayExample` | dashboard/dashboard.py:57 | 2020-02-29 lies in period 2020-02 |
| `Calendar.NewYearsEveExample` | dashboard/dashboard.py:57 | 2017-12-31 lies in period 2017-12 |
| `Calendar.NewYearExample` | dashboard/dashboard.py:57 | 2018-01-01 lies in period 2018-01 |
| `Calendar.CivilMonth` | dashboard/dashboard.py:57 | the (year, month) of a day number by the days-to-civil conversion over 400-year eras; `CivilMonthRange` puts its month in 1..12, `CivilMonthMonotone` keeps it in step with time, and the five example lemmas fix it on month and year boundaries and a leap day |
| `Calendar.MonthOf` | dashboard/dashboard.py:57 | `dt.to_period("M")` of a timestamp: the month of the day it falls on; `MonthOfMonotone` shows a later moment never has an earlier period |
| `Calendar.YearOfEraBounds` | dashboard/dashboard.py:57 | every day of a 400-year era falls in one of its 400 years, on or after that year's March 1 and within its 365 or 366 days |
| `Calendar.CivilMonthRange` | dashboard/dashboard.py:57 | every day falls in a month numbered 1 to 12 |
| `Calendar.CivilMonthMonotone` | dashboard/dashboard.py:57 | a later day never falls in an earlier month |
| `Calendar.MonthOfMonotone` | dashboard/dashboard.py:57 | a later moment never falls in an earlier monthly period |
| `Grouping.Where` | dashboard/dashboard.py:43 | a group holds exactly the rows with its key, each as often as in the input, and is non-empty exactly when some row has that key |
| `Grouping.GroupKeys` | dashboard/dashboard.py:43 | `groupby` lists exactly the keys present, each once, in ascending order |
| `Grouping.GroupSizesPartition` | dashboard/dashboard.py:45 | over a list of distinct keys covering every row, the group sizes add up to the number of rows |
| `Grouping.GroupSumsPartition` | dashboard/dashboard.py:46 | over a list of distinct keys covering every row, the group sums add up to the total sum |
| `Grouping.DistinctCountBound` | dashboard/dashboard.py:63 | `nunique` is at most the number of rows, and equals it exactly when no two rows share a value |
| `Outliers.SortValues` | dashboard/dashboard.py:17-18 | values are put in ascending order without losing or adding any |
| `Outliers.SortedUnique` | dashboard/dashboard.py:17-18 | there is only one ascending arrangement of a multiset of values |
| `Outliers.Rank` | dashboard/dashboard.py:17-18 | the lower neighbour of the interpolation position `(n-1)q` is the whole part of that position, a valid index |
| `Outliers.Weight` | dashboard/dashboard.py:17-18 | the interpolation weight is the fractional part of the position `(n-1)q`: added to `Rank` it gives the position, and it lies in [0, 1) |
| `Outliers.QuantileOfSorted` | dashboard/dashboard.py:17-18 | on ascending values, linear interpolation between the value at the whole part of the position `(n-1)q` and the next one, by its fractional part; `QuantileOfSortedBetween` bounds it by those two values |
| `Outliers.InterpolateBetween` | dashboard/dashboard.py:17-18 | linear interpolation between two ordered values lies between them |
| `Outliers.QuantileOfSortedBetween` | dashboard/dashboard.py:17-18 | a quantile lies between the two sorted values next to its position |
| `Outliers.Quantile` | dashboard/dashboard.py:17-18 | pandas' default `Series.quantile(q)`: the interpolated quantile of the values in ascending order; its properties are `QuantileWithinValues`, `QuantileMonotone`, `QuantileEndpoints`, `QuantileIgnoresOrder` and `QuantileOfConstant` |
| `Outliers.Q1` | dashboard/dashboard.py:17 | the 0.25 quantile of the column; `QuantileMonotone` gives `Q1 <= Q3` |
| `Outliers.Q3` | dashboard/dashboard.py:18 | the 0.75 quantile of the column |
| `Outliers.QuantileWithinValues` | dashboard/dashboard.py:17-18 | a quantile is bounded below and above by values of the column |
| `Outliers.QuantileMonotone` | dashboard/dashboard.py:17-18 | a smaller fraction gives a quantile that is not larger, so Q1 <= Q3 |
| `Outliers.QuantileEndpoints` | dashboard/dashboard.py:17-18 | the 0 quantile is the smallest value and the 1 quantile the largest: each is a value of the column, below or above all others |
| `Outliers.QuantileIgnoresOrder` | dashboard/dashboard.py:17-18 | the quantile depends only on the values, not on the row order |
| `Outliers.QuantileOfConstant` | dashboard/dashboard.py:17-18 | every quantile of a constant column is that constant |
| `Outliers.IqrFences` | dashboard/dashboard.py:17-23 | an empty column has no fences (NaN); otherwise `lower <= Q1 <= Q3 <= upper`, the fences are four IQRs apart and stand equally far beyond the two quartiles |
| `Outliers.RemoveOutliers` | dashboard/dashboard.py:16-28 | the kept rows are exactly the input rows whose value lies within the fences, each as often as in the input and in input order; an empty input gives an empty result |
| `Outliers.MiddleHalfKept` | dashboard/dashboard.py:22-26 | every row whose value lies between Q1 and Q3 is kept |
| `Outliers.ConstantColumnKeepsAll` | dashboard/dashboard.py:17-26 | when all values are equal, both fences are that value and every row is kept |
| `Rfm.LatestPurchase` | dashboard/dashboard.py:44 | `x.max()` is a purchase moment of the group that no other purchase in it exceeds |
| `Rfm.RfmRows` | dashboard/dashboard.py:43-47 | one RFM row per listed customer, in the listed order |
| `Rfm.CustomerRfm` | dashboard/dashboard.py:43-46 | the `agg` record of one customer: Recency from the latest purchase, Frequency the row count, Monetary the payment sum of the customer's rows; `RfmRecordMeaning` states these of each `calculate_rfm` row |
| `Rfm.CalculateRfm` | dashboard/dashboard.py:30-49 | exactly one record per customer with a purchase in the range, in ascending customer-id order, and no other records |
| `Rfm.RfmRecordMeaning` | dashboard/dashboard.py:43-47 | Frequency is the customer's row count in the range (at least 1), Monetary the sum of those rows' payments, and Recency the whole days from their latest purchase to the range end, never negative |
| `Rfm.LatestIsInRange` | dashboard/dashboard.py:32-33 | a customer's latest purchase in the range is not after the range end |
| `Rfm.RfmTotals` | dashboard/dashboard.py:45-46 | the Frequencies add up to the number of rows in the range, and the Monetary values add up to the range's total payment |
| `Rfm.MonetaryNonNegative` | dashboard/dashboard.py:46 | with non-negative payment values, every Monetary value is non-negative |
| `Rfm.FrequencyCountsPaymentRows` | dashboard/dashboard.py:45 | Frequency counts rows, not orders: it is at least the customer's number of distinct order ids, and equal to it exactly when no order has several rows |
| `Rfm.RecencyInCalendarDays` | dashboard/dashboard.py:40-44 | for the dashboard's widened end date, Recency is the number of calendar days from the latest purchase day to the end date, and 0 exactly for a purchase on the end date |
| `MonthlyTrends.MonthStats` | dashboard/dashboard.py:60-66 | one statistics row per listed month, in the listed order, each combining that month's distinct order count and revenue |
| `MonthlyTrends.MonthStat` | dashboard/dashboard.py:60-63 | one month's `nunique` of order ids and `sum` of payments over its rows; `MonthlyStatMeaning` bounds the order count by the row count and ties it to repeated order ids |
| `MonthlyTrends.AnalyzeMonthlyTrends` | dashboard/dashboard.py:51-74 | exactly one row per calendar month with a purchase in the range, in chronological order, and no other rows |
| `MonthlyTrends.MonthlyRowsChronological` | dashboard/dashboard.py:57-60 | every row of the range in an earlier listed month was purchased before every row in a later listed month |
| `MonthlyTrends.MonthlyStatMeaning` | dashboard/dashboard.py:57-66 | `total_orders` is the number of distinct order ids among the month's rows in the range, at least 1 and at most the row count, equal to it exactly when no order id repeats; `total_revenue` is the sum of their payments |
| `MonthlyTrends.MonthlyRevenueTotal` | dashboard/dashboard.py:60 | the months' revenues add up to the range's total payment |
| `MonthlyTrends.MonthsHaveOrders` | dashboard/dashboard.py:63 | every month listed has at least one order |
| `MonthlyTrends.ChangeFrom` | dashboard/dashboard.py:336-337 | against a non-zero previous value the change is a finite percentage; against 0 it is absent (NaN) exactly when the current value is 0 too, and infinite otherwise |
| `MonthlyTrends.PctChange` | dashboard/dashboard.py:336-337 | the first entry has no change, and every later entry is the change from its predecessor |
| `MonthlyTrends.ChangeFromInverse` | dashboard/dashboard.py:336-337 | a finite change is `(cur - prev) / prev * 100`, and applying it to the previous value gives back the current one |
| `MonthlyTrends.ChangeSignFollowsGrowth` | dashboard/dashboard.py:336 | from a positive previous value, the change is positive exactly when the value grew, and 0 exactly when it stayed the same |
| `MonthlyTrends.RevenueChangeExample` | dashboard/dashboard.py:336 | revenue 1000 followed by 1500 shows no change, then a 50 percent change |
| `MonthlyTrends.Revenues` | dashboard/dashboard.py:336 | the `total_revenue` column, month by month |
| `MonthlyTrends.OrderCounts` | dashboard/dashboard.py:337 | the `total_orders` column, month by month |
| `MonthlyTrends.WithPctChanges` | dashboard/dashboard.py:336-337 | each month keeps its statistics; the first month has no changes; every later month's two changes are taken against the previous month |
| `MonthlyTrends.TrendTableChanges` | dashboard/dashboard.py:336-337 | when every month has orders, every later month's order change is finite and equals the relative change against the previous month in percent |
| `Views.Delivered` | dashboard/dashboard.py:125 | exactly the rows with a delivery moment, each as often as in the input, in input order |
| `Views.DeliveryDays` | dashboard/dashboard.py:128 | `.dt.days` of delivery minus purchase: the whole days rounded down; `DeliveryTimes` and `DeliveryDaysSign` state its bounds and sign |
| `Views.DeliveryTimes` | dashboard/dashboard.py:125-128 | one entry per delivered row, in order, whose day count is the whole days from purchase to delivery, rounded down |
| `Views.DeliveryDaysSign` | dashboard/dashboard.py:128 | a delivery not before its purchase takes a non-negative number of days, and 0 exactly when it took less than a day |
| `Views.CleanDeliveryTimes` | dashboard/dashboard.py:131 | the delivery times kept are exactly those within the IQR fences of all delivery times, each as often as among all delivery times, in order |
| `Views.CleanTimesAreDelivered` | dashboard/dashboard.py:125-131 | every delivery time kept belongs to a delivered row of the input |
| `Views.PurchaseDayName` | dashboard/dashboard.py:146 | `dt.day_name()` of the purchase: the name of its weekday, Monday first; `WeekdayCounts` shows the rows of a day name are the rows of that weekday |
| `Views.CountOf` | dashboard/dashboard.py:150 | a reindexed count is absent exactly when no row has the key, and otherwise is the number of rows with that key |
| `Views.Reindexed` | dashboard/dashboard.py:150 | one count per listed key, in the listed order |
| `Views.ReindexedCoversAll` | dashboard/dashboard.py:150 | when every row's key is listed once, the present counts add up to the number of rows |
| `Views.WeekdayCounts` | dashboard/dashboard.py:146-150 | seven entries, Monday to Sunday; a day's entry is absent exactly when no row was purchased on that weekday, and otherwise is both the number of rows with that day name and the number of rows purchased on that weekday |
| `Views.WeekdayCountsTotal` | dashboard/dashboard.py:146-150 | the weekday counts add up to the number of rows |

## Left out

- Loading the CSV file and parsing its timestamps (dashboard/dashboard.py:9-14) are file I/O and a foreign parser. The model takes typed `Order` records with timestamps in whole seconds. Pandas' nanosecond resolution is not modelled.
- All Streamlit widgets, texts, metrics and tables, and all matplotlib/seaborn plots (dashboard/dashboard.py:76-356 apart from the computations above) are presentation without stateable behaviour.
- Means and rounding (133, 162, 190-194, 300, 355) are floating-point presentation values. These are the average delivery time, the average payment per payment type, the RFM metric means, the revenue per order and `.round(2)`.
- The top-5 sorts and `idxmax` lookups (202-204, 343-350) are presentation-only pandas tie-breaking.
- The payment-type `value_counts()` (112): its counts are what `Views.CountOf` computes, but its order by descending count is a pandas sort with unspecified tie order, so it is not modelled.
- The period's string form `order_month_str` (69) is display text.
- The `payment_value` column check (36-37) and the `is not None` guards (186, 296) always hold on the dashboard's data and have no other effect.
- Floating-point arithmetic is modelled with exact reals. Float64 rounding of sums, quantiles and percentage changes is not captured. Neither are NaN payment values: the model has none.
- `pct_change`'s forward fill of missing values is not modelled. The revenue and order columns it is applied to never hold NaN.
- `Calendar.CivilMonth`: its month range and its order are proved for every day (`CivilMonthRange`, `CivilMonthMonotone`). That its (year, month) is the proleptic Gregorian date's is checked only on the five boundary days in the table, not for every day.
