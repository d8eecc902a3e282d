# Game analytics dashboard: the analytics core in Dafny

The dashboard loads a table of players once, then narrows it through four
sidebar select boxes (game genre, difficulty, device, location). Every page
computes its figures from that filtered view. This project models that
computation on plain sequences of player records:

- `records.dfy`: the player row, column sums, percentages and means.
- `filter.dfy`: the filter chain, once as the step-by-step narrowing the page runs
  (`Filter.ApplyFilters`, built from `Filter.Narrow`) and once as a pure
  specification (`Filter.FilteredView`). It covers the wildcard "Tümü" and the
  location bucket "Diğer", meaning every location outside the top ten.
- `locations.dfy`: the top ten locations that the location select box offers.
- `retention.dfy`: the daily retention curve, unsplit or split by device, game genre
  or engagement level.
- `keys.dfy`: sorted distinct integer keys, the order grouped and pivoted tables
  list their keys in.
- `cohort.dfy`: the weekly cohort heatmap.
  - Each row gets a Monday-to-Sunday signup week and a cohort age in weeks.
  - Rows with a negative age are dropped.
  - Distinct players are counted per (week, age) cell and per week.
  - Each cell is normalised by its week's cohort size, and the table is cut to twenty
    age columns.

  The method `Cohort.BuildCohortTable` runs the dashboard's steps. The function
  `Cohort.CohortRetention` is their specification.
- `kpi.dfy`: the headline figures.
  - The revenue page: conversion, ARPPU, and ARPU, which is also shown as LTV.
  - The achievement completion rate.
  - Three divisions the dashboard does without a guard: overview ARPU, overview
    retention and the guild share.
- `segmentation.dfy`: the segmentation page's minimum-size guard and its
  "Segment 1" to "Segment 4" labels.

Dates are day numbers, with day 0 = 1970-01-01. A missing (empty) date is `None`. Spend is an exact `real`, so no floating-point rounding enters the model.
The three unguarded divisions produce NaN rather than raising an error on an empty
view. They are modelled with a `Ratio` value that is `NotANumber` exactly on the
empty view.

## Model

| member | source | states |
|---|---|---|
| Filter.Narrow | app.py:97 | One narrowing step keeps exactly the rows that pass the mask, in order. |
| Filter.ApplyFilters | app.py:95-106 | Starting from the whole dataset, it narrows once per non-wildcard box, in the order genre, difficulty, device, location. The result is the view of the specification `FilteredView`. |
| Filter.FilteredViewCounts | app.py:96-106 | A row is in the view as often as in the dataset when it passes every non-wildcard selection, and not at all otherwise. So every kept row matches and every dropped row fails at least one selection. |
| Filter.FilteredViewIsSubsequence | app.py:95-106 | The view is an order-preserving subsequence of the dataset. |
| Filter.FilterIdempotent | app.py:95-106 | Applying the same selection to the view again changes nothing. |
| Filter.AllWildcardIsIdentity | app.py:95-106 | With every box on "Tümü", the view is the dataset itself. |
| Filter.LocationSelection | app.py:102-106 | "Diğer" keeps exactly the rows whose location is not a top location. Any other location keeps exactly the rows at that location. |
| Filter.OtherBucketEmptyWithFewLocations | app.py:90-104 | With the top list computed from the full dataset and at most ten distinct locations, the "Diğer" view is empty whatever the other boxes say. |
| Filter.OtherBucketHidesOtherLocation | app.py:91 | When the location value "Diğer" is itself a top location, choosing it selects the bucket, and that never holds a row at that location. |
| Locations.TopLocations | app.py:90 | At most ten locations, with no repeats. Each is some row's location, and counts do not increase along the list. |
| Locations.TopLocationsDominate | app.py:90 | A present location left out of the list means the list is full. The left-out location is no more frequent than any listed one. |
| Retention.RetentionPercent | app.py:223-224 | A group's point is 100 × active rows / group size, and lies in [0, 100]. |
| Retention.DailyRetention | app.py:227-228 | There is one point per distinct day, in ascending day order. Every row's day has a point, and every point's day has a row. Each point is 100 × active / size of that day's rows, in [0, 100]. |
| Retention.SegmentedRetention | app.py:222-224 | There is a key for exactly the (segment value, day) pairs some row has, and every value is in [0, 100]. |
| Retention.SegmentCurveIsFilteredCurve | app.py:222-228 | The split curve for segment value s has the same days and the same percentages as the unsplit curve of the rows with value s. |
| Cohort.WeekIndex | app.py:633 | Day d lies in the Monday-to-Sunday week the result names. |
| Cohort.CohortAge | app.py:637 | A missing date on either side gives -1. Otherwise the last-active date lies in the week that starts `age` weeks after the signup week's Monday. A last-active date on or after the signup date gives a non-negative age. |
| Cohort.CellOf | app.py:633-640 | A row has a cell exactly when its age is non-negative. The cell is (signup week, age). |
| Cohort.SameWeekIsAgeZero | app.py:637 | Two dates in the same week give cohort age 0. |
| Cohort.AgeCountsWeekBoundaries | app.py:637 | The age counts week boundaries crossed: it is the whole weeks elapsed or one more. A Sunday signup last seen on Monday has age 1. |
| Cohort.MissingDateIsDropped | app.py:637-640 | A missing date gives age -1, and such a row changes nothing in the kept rows. |
| Cohort.DropNegativeAges | app.py:640 | The loop keeps exactly the rows with non-negative age, in order. |
| Cohort.OnlyNonNegativeAgesCount | app.py:640-643 | A cell holds exactly the ids of rows of that signup week with that non-negative age. |
| Cohort.CollectCohorts | app.py:643 | The loop collects, for exactly the non-empty cells and weeks, their distinct player ids. It also returns the week and age columns. |
| Cohort.CellPercent | app.py:656 | A cell is 100 × distinct players in the cell / cohort size of its week. It lies in [0, 100], and is 0 exactly when the cell is absent. |
| Cohort.PivotCell | app.py:656 | An absent (week, age) pair reads 0. A present one is 100 × its distinct players / the week's cohort size, and lies in [0, 100] when the cell's players belong to that cohort. |
| Cohort.CohortRetention | app.py:643-668 | There is no table exactly when no row survives the age filter. Otherwise:<br>- the table is well shaped;<br>- the weeks and ages are strictly increasing;<br>- there are at most 20 age columns;<br>- every cohort size is positive;<br>- every cell is in [0, 100]. |
| Cohort.CohortTableMeaning | app.py:643-668 | Each size is its week's count of distinct players. Each cell is 100 × the cell's distinct players / size, and is 0 exactly when the cell is empty. The rows are exactly the sorted distinct signup weeks of the kept rows, and the columns are the first twenty of the sorted ages present. |
| Cohort.CohortRowAddsUp | app.py:643-652 | With unique player ids, a week's raw counts over all ages add up to its cohort size. The twenty shown columns hold no more than that. |
| Cohort.BuildCohortTable | app.py:626-668 | The pipeline as the page runs it (filter, collect, pivot, divide, cap) yields exactly the table `CohortRetention` specifies. |
| Kpi.Conversion | app.py:296-299 | 0 on an empty view. Otherwise 100 × paying / total, in [0, 100]. |
| Kpi.ConversionExtremes | app.py:292-299 | Conversion is 0 exactly when nobody paid. On a non-empty view it is 100 exactly when everybody paid. |
| Kpi.Arppu | app.py:301-304 | 0 when nobody paid. Otherwise ARPPU × paying count = the paying rows' total spend. |
| Kpi.Arpu | app.py:306-312 | 0 on an empty view. Otherwise ARPU × total = total spend. The same value is shown as LTV. |
| Kpi.ArpuIsConversionTimesArppu | app.py:296-312 | When non-payers spent nothing, ARPU = conversion / 100 × ARPPU. |
| Kpi.ArpuAtMostArppu | app.py:301-312 | With non-negative spend and non-payers spending nothing, 0 ≤ ARPU ≤ ARPPU. |
| Kpi.AchievementCompletion | app.py:777-788 | 0 on an empty view. Otherwise completion × (n × 50) = 100 × unlocked sum. |
| Kpi.AverageAchievements | app.py:782-786 | 0 on an empty view. Otherwise the mean × n = unlocked sum. |
| Kpi.CompletionIsAverageShare | app.py:779-784 | Completion is the mean count as a percentage of the maximum of 50. |
| Kpi.AchievementCompletionRange | app.py:777-788 | With every count in [0, 50], completion is in [0, 100]. It is 0 exactly when nobody unlocked anything. |
| Kpi.OverviewArpu | app.py:156-157 | Not a number exactly on the empty view. Otherwise it equals the revenue page's ARPU. |
| Kpi.OverviewRetention | app.py:173 | Not a number exactly on the empty view. Otherwise 100 × active / total, in [0, 100]. |
| Kpi.GuildShare | app.py:543-544 | Not a number exactly on the empty view. Otherwise 100 × guild members / total, in [0, 100]. |
| Segmentation.Segment | app.py:716-733 | The page refuses exactly when fewer than 4 rows remain. Otherwise there is one label per row, and row k's label is the name "Segment " followed by its cluster number + 1. |
| Segmentation.Labels | app.py:733 | A row has a label exactly when its cluster number is in 0..3, and the label is that cluster's name. |
| Segmentation.ClusterNames | app.py:732 | The name table has keys 0..k-1, and key i maps to "Segment " followed by i + 1. |
| Segmentation.SegmentNamesDistinct | app.py:732 | Different cluster numbers get different names. |
| Segmentation.LabelsSeparateClusters | app.py:732-733 | Two labelled rows share a label exactly when they share a cluster. |
| Segmentation.DecimalRoundTrip | app.py:732 | Reading back the printed numeral of n gives n. |

## Left out

- The Streamlit layout, widgets, page routing, metric display and every chart. These are UI only. The selected values and the segment column are parameters.
- Loading the CSV and exporting the filtered table. This is file I/O. The dataset is a parameter, already parsed.
- K-means clustering and feature scaling (app.py:711-726) and the NaN fill of the feature matrix (app.py:714). This is library numerics with random restarts. The cluster number of each row is an input to `Segmentation.Segment`: one number in 0..3 per row, as the clustering returns for four clusters.
- Median LTV (app.py:309), the maximum achievement count (app.py:783) and the means and maxima of FPS, crashes, friends and play time on the other pages. These are library reductions with nothing to state beyond what they compute.
- generate_data.py is not part of this model. It is a random fixture generator.
- A/B testing and named segments such as "High Value". No code for either exists.
- Locations.TopLocations: equally frequent locations are ordered by first occurrence in the dataset. pandas `value_counts` does not promise a tie order, so which of several equally frequent locations makes the tenth place may differ.
- Retention.DailyRetention and Retention.SegmentedRetention: the split curve is a map keyed by (segment value, day), not a table in groupby row order. The order is presentation only.
- Cohort.CohortRetention: the signup week is modelled by its week index, not the string pandas prints for the period. The two are in one-to-one correspondence and sort the same way.
- Cohort.BuildCohortTable: the sort by player id and signup date before the cohort steps (app.py:626) is not modelled. It does not change any count.
- The try/except around the cohort section is not modelled. No error path of the modelled steps raises.
- Kpi.OverviewArpu, Kpi.OverviewRetention and Kpi.GuildShare: the NaN a numpy division by zero produces is modelled as `NotANumber`. How the page then prints it is not modelled.
- Cohort.CohortRowAddsUp and Kpi.AchievementCompletionRange assume unique player ids and counts in [0, 50] respectively. The dashboard relies on its generated data for these and does not check them.

## Notes

The bucket label "Diğer" is also one of the location values in the generated data.
Once that location is among the ten most frequent, picking "Diğer" in the select box
gives the bucket of other locations, and its own rows cannot be selected on their
own. `Filter.OtherBucketHidesOtherLocation` states this.

The top list is computed from the full dataset. When the dataset has at most ten
distinct locations, every location is a top one. Then "Diğer" selects nothing at all
(`Filter.OtherBucketEmptyWithFewLocations`). The generated data has nine locations, so
the bucket is always empty there.
