/** The weekly cohort page: each player's signup week and cohort age in weeks,
    distinct players per (signup week, age), and each count as a percentage of
    its signup week's cohort. */
module Cohort {
  import opened Records
  import Keys

  /** The heatmap shows at most this many age columns. */
  const MaxWeeksShown: nat := 20

  /** The Monday that starts week `w`. Day 0, 1970-01-01, is a Thursday, so week 0
      runs from Monday 1969-12-29 (day -3) to Sunday 1970-01-04 (day 3). */
  function MondayOf(w: int): int
  {
    7 * w - 3
  }

  /** The Monday-to-Sunday week holding day `d` (a weekly period in pandas). */
  function WeekIndex(d: int): (w: int)
    ensures MondayOf(w) <= d < MondayOf(w) + 7
  {
    (d + 3) / 7
  }

  /** `CohortAgeWeeks`: last-active week minus signup week, or -1 when either date is missing. */
  function CohortAge(r: Player): (age: int)
    ensures r.signupDate.None? || r.lastActiveDate.None? ==> age == -1
    ensures r.signupDate.Some? && r.lastActiveDate.Some? ==>
      var monday := MondayOf(WeekIndex(r.signupDate.value)) + 7 * age;
      monday <= r.lastActiveDate.value < monday + 7
    ensures r.signupDate.Some? && r.lastActiveDate.Some? && r.signupDate.value <= r.lastActiveDate.value ==> age >= 0
  {
    match (r.signupDate, r.lastActiveDate)
    case (Some(s), Some(l)) => WeekIndex(l) - WeekIndex(s)
    case _ => -1
  }

  /** The (signup week, age) cell a row is counted in, or `None` for a row the
      cohort page drops because its age is negative. */
  function CellOf(r: Player): (cell: Option<(int, int)>)
    ensures cell.Some? <==> CohortAge(r) >= 0
    ensures cell.Some? ==> r.signupDate.Some? && cell.value == (WeekIndex(r.signupDate.value), CohortAge(r))
  {
    match (r.signupDate, r.lastActiveDate)
    case (Some(s), Some(l)) =>
      if WeekIndex(l) - WeekIndex(s) >= 0 then Some((WeekIndex(s), WeekIndex(l) - WeekIndex(s))) else None
    case _ => None
  }

  /** The rows kept for the cohort page (`CohortAgeWeeks >= 0`), in order. */
  function Cohorted(view: seq<Player>): (kept: seq<Player>)
    ensures forall k :: 0 <= k < |kept| ==> kept[k] in view && CohortAge(kept[k]) >= 0
  {
    if view == [] then []
    else
      var rest := Cohorted(view[..|view| - 1]);
      if CohortAge(view[|view| - 1]) >= 0 then rest + [view[|view| - 1]] else rest
  }

  /** Distinct player ids counted in cell (w, a). */
  function CellIds(s: seq<Player>, w: int, a: int): set<int>
  {
    if s == [] then {}
    else CellIds(s[..|s| - 1], w, a) + (if CellOf(s[|s| - 1]) == Some((w, a)) then {s[|s| - 1].playerId} else {})
  }

  /** Distinct player ids of signup week `w`: the cohort of that week. */
  function WeekIds(s: seq<Player>, w: int): set<int>
  {
    if s == [] then {}
    else
      var c := CellOf(s[|s| - 1]);
      WeekIds(s[..|s| - 1], w) + (if c.Some? && c.value.0 == w then {s[|s| - 1].playerId} else {})
  }

  /** The signup weeks of the counted rows, in row order. */
  function WeekColumn(s: seq<Player>): seq<int>
  {
    if s == [] then []
    else
      var c := CellOf(s[|s| - 1]);
      WeekColumn(s[..|s| - 1]) + (if c.Some? then [c.value.0] else [])
  }

  /** The cohort ages of the counted rows, in row order. */
  function AgeColumn(s: seq<Player>): seq<int>
  {
    if s == [] then []
    else
      var c := CellOf(s[|s| - 1]);
      AgeColumn(s[..|s| - 1]) + (if c.Some? then [c.value.1] else [])
  }

  /** The columns that are displayed: the first twenty of the sorted ages. */
  function Shown(ages: seq<int>): (shown: seq<int>)
    ensures |shown| == if |ages| > MaxWeeksShown then MaxWeeksShown else |ages|
    ensures shown == ages[..|shown|]
    ensures |ages| <= MaxWeeksShown ==> shown == ages
  {
    if |ages| > MaxWeeksShown then ages[..MaxWeeksShown] else ages
  }

  /** What the cohort page shows: nothing when no row survives the age filter, else the
      signup weeks (rows, ascending), the displayed ages (columns, ascending), each
      week's cohort size and the retention percentages. */
  datatype CohortTable =
    | NoCohorts
    | Table(weeks: seq<int>, ages: seq<int>, sizes: seq<nat>, retention: seq<seq<real>>)

  predicate WellShaped(t: CohortTable)
    requires t.Table?
  {
    && |t.sizes| == |t.weeks|
    && |t.retention| == |t.weeks|
    && (forall i :: 0 <= i < |t.weeks| ==> |t.retention[i]| == |t.ages|)
  }

  lemma {:induction false} IdsOfWeek(s: seq<Player>, w: int, id: int)
    requires id in WeekIds(s, w)
    ensures exists k :: 0 <= k < |s| && s[k].playerId == id && CellOf(s[k]).Some? && CellOf(s[k]).value.0 == w
  {
    var init := s[..|s| - 1];
    if id in WeekIds(init, w) {
      IdsOfWeek(init, w, id);
      var k :| 0 <= k < |init| && init[k].playerId == id && CellOf(init[k]).Some? && CellOf(init[k]).value.0 == w;
      assert s[k] == init[k];
    }
  }

  lemma {:induction false} WeekOfRowCounted(s: seq<Player>, k: nat)
    requires k < |s| && CellOf(s[k]).Some?
    ensures s[k].playerId in WeekIds(s, CellOf(s[k]).value.0)
  {
    if k < |s| - 1 {
      var init := s[..|s| - 1];
      assert init[k] == s[k];
      WeekOfRowCounted(init, k);
    }
  }

  lemma {:induction false} WeekColumnCounted(s: seq<Player>, w: int)
    requires w in WeekColumn(s)
    ensures WeekIds(s, w) != {}
  {
    var init := s[..|s| - 1];
    if w in WeekColumn(init) {
      WeekColumnCounted(init, w);
    }
  }

  lemma {:induction false} CellWithinCohort(s: seq<Player>, w: int, a: int)
    ensures CellIds(s, w, a) <= WeekIds(s, w)
  {
    if s != [] {
      CellWithinCohort(s[..|s| - 1], w, a);
    }
  }

  lemma WeeksHaveCohorts(s: seq<Player>, weeks: seq<int>)
    requires forall w :: w in weeks ==> w in WeekColumn(s)
    ensures forall w :: w in weeks ==> |WeekIds(s, w)| > 0
  {
    forall w | w in weeks ensures |WeekIds(s, w)| > 0 {
      WeekColumnCounted(s, w);
    }
  }

  /** Cell (w, a) as a percentage of week `w`'s cohort; an empty cell, which the
      pivot leaves missing and the page fills with 0, gives exactly 0. */
  function CellPercent(kept: seq<Player>, w: int, a: int): (pct: real)
    requires WeekIds(kept, w) != {}
    ensures 0.0 <= pct <= 100.0
    ensures pct == Percent(|CellIds(kept, w, a)| as real, |WeekIds(kept, w)| as real)
    ensures pct == 0.0 <==> CellIds(kept, w, a) == {}
  {
    var cell, size := |CellIds(kept, w, a)|, |WeekIds(kept, w)|;
    CellWithinCohort(kept, w, a);
    SubsetCardinality(CellIds(kept, w, a), WeekIds(kept, w));
    assert cell == 0 <==> CellIds(kept, w, a) == {};
    Percent(cell as real, size as real)
  }

  lemma SubsetCardinality(a: set<int>, b: set<int>)
    requires a <= b
    ensures |a| <= |b|
  {
    assert b == a + (b - a);
  }

  /** The cohort size of every week. */
  function CohortSizes(kept: seq<Player>, weeks: seq<int>): (sizes: seq<nat>)
    requires forall w :: w in weeks ==> |WeekIds(kept, w)| > 0
    ensures |sizes| == |weeks|
    ensures forall k :: 0 <= k < |weeks| ==> sizes[k] == |WeekIds(kept, weeks[k])| > 0
  {
    seq(|weeks|, k requires 0 <= k < |weeks| => |WeekIds(kept, weeks[k])|)
  }

  /** The retention percentages of week `w`, one per age column. */
  function RetentionRow(kept: seq<Player>, w: int, ages: seq<int>): (row: seq<real>)
    requires WeekIds(kept, w) != {}
    ensures |row| == |ages|
    ensures forall m :: 0 <= m < |ages| ==> row[m] == CellPercent(kept, w, ages[m])
  {
    seq(|ages|, m requires 0 <= m < |ages| => CellPercent(kept, w, ages[m]))
  }

  /** The retention percentages, one row per week. */
  function RetentionRows(kept: seq<Player>, weeks: seq<int>, ages: seq<int>): (rows: seq<seq<real>>)
    requires forall w :: w in weeks ==> |WeekIds(kept, w)| > 0
    ensures |rows| == |weeks|
    ensures forall k :: 0 <= k < |weeks| ==> rows[k] == RetentionRow(kept, weeks[k], ages)
  {
    seq(|weeks|, k requires 0 <= k < |weeks| => RetentionRow(kept, weeks[k], ages))
  }

  /** The cohort page as the specification of the computation: the same table the
      pandas pipeline builds, stated with distinct-id sets. */
  function CohortRetention(view: seq<Player>): (t: CohortTable)
    ensures t.NoCohorts? <==> Cohorted(view) == []
    ensures t.Table? ==> WellShaped(t)
    ensures t.Table? ==> |t.ages| <= MaxWeeksShown && Keys.StrictlyIncreasing(t.ages) && Keys.StrictlyIncreasing(t.weeks)
    ensures t.Table? ==> forall i :: 0 <= i < |t.weeks| ==> t.sizes[i] > 0
    ensures t.Table? ==> forall i, j :: 0 <= i < |t.weeks| && 0 <= j < |t.ages| ==> 0.0 <= t.retention[i][j] <= 100.0
  {
    var kept := Cohorted(view);
    if kept == [] then NoCohorts
    else
      var weeks := Keys.SortedDistinct(WeekColumn(kept));
      var ages := Shown(Keys.SortedDistinct(AgeColumn(kept)));
      WeeksHaveCohorts(kept, weeks);
      var sizes := CohortSizes(kept, weeks);
      var rows := RetentionRows(kept, weeks, ages);
      Table(weeks, ages, sizes, rows)
  }

  // ---------------------------------------------------------------------
  // Cohort age in calendar weeks

  /** Two dates in the same Monday-to-Sunday week give age 0. */
  lemma SameWeekIsAgeZero(r: Player, w: int)
    requires r.signupDate.Some? && r.lastActiveDate.Some?
    requires MondayOf(w) <= r.signupDate.value < MondayOf(w) + 7
    requires MondayOf(w) <= r.lastActiveDate.value < MondayOf(w) + 7
    ensures CohortAge(r) == 0
  {
    var s, l := r.signupDate.value, r.lastActiveDate.value;
    WeekOfDay(s, w);
    WeekOfDay(l, w);
  }

  /** A day lies in exactly one week. */
  lemma WeekOfDay(d: int, w: int)
    requires MondayOf(w) <= d < MondayOf(w) + 7
    ensures WeekIndex(d) == w
  {
  }

  /** The age counts week boundaries crossed, not elapsed days divided by seven: it is
      the whole weeks elapsed or one more. A Sunday signup last seen the next day, a
      Monday, has age 1 after one day. */
  lemma AgeCountsWeekBoundaries(r: Player)
    requires r.signupDate.Some? && r.lastActiveDate.Some?
    requires r.signupDate.value <= r.lastActiveDate.value
    ensures var elapsed := r.lastActiveDate.value - r.signupDate.value;
            elapsed / 7 <= CohortAge(r) <= elapsed / 7 + 1
    ensures r.signupDate.value == 3 && r.lastActiveDate.value == 4 ==> CohortAge(r) == 1
  {
    var s, l := r.signupDate.value, r.lastActiveDate.value;
    var ws, wl := WeekIndex(s), WeekIndex(l);
    var e := l - s;
    assert 7 * (e / 7) <= e < 7 * (e / 7) + 7;
    assert MondayOf(ws) <= s < MondayOf(ws) + 7;
    assert MondayOf(wl) <= l < MondayOf(wl) + 7;
    assert 7 * (wl - ws) - 6 <= e <= 7 * (wl - ws) + 6;
  }

  /** A row with a missing date gets age -1 and is dropped. */
  lemma MissingDateIsDropped(r: Player)
    requires r.signupDate.None? || r.lastActiveDate.None?
    ensures CohortAge(r) == -1
    ensures forall s :: Cohorted(s + [r]) == Cohorted(s)
  {
    forall s ensures Cohorted(s + [r]) == Cohorted(s) {
      assert (s + [r])[..|s|] == s;
    }
  }

  // ---------------------------------------------------------------------
  // Which rows are counted

  lemma {:induction false} CohortedMembers(view: seq<Player>, x: Player)
    ensures x in Cohorted(view) <==> x in view && CohortAge(x) >= 0
  {
    if view != [] {
      CohortedMembers(view[..|view| - 1], x);
      assert view == view[..|view| - 1] + [view[|view| - 1]];
    }
  }

  lemma {:induction false} CellIdsAreRowIds(s: seq<Player>, w: int, a: int)
    ensures CellIds(s, w, a) == set x | x in s && CellOf(x) == Some((w, a)) :: x.playerId
  {
    if s != [] {
      var init, r := s[..|s| - 1], s[|s| - 1];
      CellIdsAreRowIds(init, w, a);
      assert s == init + [r];
      assert forall x :: x in s <==> x in init || x == r;
    }
  }

  /** Rows with a negative cohort age contribute to no cell and to no cohort size:
      a cell holds exactly the ids of the view's rows whose signup week and
      non-negative age are those of the cell. */
  lemma OnlyNonNegativeAgesCount(view: seq<Player>, w: int, a: int)
    ensures CellIds(Cohorted(view), w, a) ==
            set x | x in view && CohortAge(x) >= 0 && CohortAge(x) == a
                    && x.signupDate.Some? && WeekIndex(x.signupDate.value) == w :: x.playerId
  {
    var kept := Cohorted(view);
    CellIdsAreRowIds(kept, w, a);
    forall x ensures x in kept <==> x in view && CohortAge(x) >= 0 {
      CohortedMembers(view, x);
    }
  }

  // ---------------------------------------------------------------------
  // Row totals

  /** All ids of the rows. */
  function Ids(s: seq<Player>): set<int>
  {
    if s == [] then {} else Ids(s[..|s| - 1]) + {s[|s| - 1].playerId}
  }

  /** No player id occurs twice. */
  predicate DistinctIds(s: seq<Player>)
  {
    s == [] || (DistinctIds(s[..|s| - 1]) && s[|s| - 1].playerId !in Ids(s[..|s| - 1]))
  }

  /** Rows counted in cell (w, a). */
  function CellRows(s: seq<Player>, w: int, a: int): nat
  {
    if s == [] then 0
    else CellRows(s[..|s| - 1], w, a) + (if CellOf(s[|s| - 1]) == Some((w, a)) then 1 else 0)
  }

  /** Rows counted in week `w`. */
  function WeekRows(s: seq<Player>, w: int): nat
  {
    if s == [] then 0
    else
      var c := CellOf(s[|s| - 1]);
      WeekRows(s[..|s| - 1], w) + (if c.Some? && c.value.0 == w then 1 else 0)
  }

  /** The raw counts of week `w` summed over the age columns `ages`. */
  function RawRowTotal(s: seq<Player>, w: int, ages: seq<int>): nat
  {
    if ages == [] then 0 else RawRowTotal(s, w, ages[..|ages| - 1]) + |CellIds(s, w, ages[|ages| - 1])|
  }

  function RowRows(s: seq<Player>, w: int, ages: seq<int>): nat
  {
    if ages == [] then 0 else RowRows(s, w, ages[..|ages| - 1]) + CellRows(s, w, ages[|ages| - 1])
  }

  lemma {:induction false} IdsCover(s: seq<Player>, w: int, a: int)
    ensures CellIds(s, w, a) <= Ids(s) && WeekIds(s, w) <= Ids(s)
  {
    if s != [] {
      IdsCover(s[..|s| - 1], w, a);
    }
  }

  lemma {:induction false} UniqueIdsCount(s: seq<Player>, w: int, a: int)
    requires DistinctIds(s)
    ensures |CellIds(s, w, a)| == CellRows(s, w, a)
    ensures |WeekIds(s, w)| == WeekRows(s, w)
  {
    if s != [] {
      var init := s[..|s| - 1];
      UniqueIdsCount(init, w, a);
      IdsCover(init, w, a);
    }
  }

  lemma {:induction false} RowRowsStep(s: seq<Player>, w: int, ages: seq<int>)
    requires s != [] && Keys.StrictlyIncreasing(ages)
    ensures var c := CellOf(s[|s| - 1]);
            RowRows(s, w, ages) == RowRows(s[..|s| - 1], w, ages)
                                   + (if c.Some? && c.value.0 == w && c.value.1 in ages then 1 else 0)
  {
    if ages != [] {
      var front := ages[..|ages| - 1];
      assert Keys.StrictlyIncreasing(front);
      RowRowsStep(s, w, front);
      assert forall x :: x in ages <==> x in front || x == ages[|ages| - 1];
      assert ages[|ages| - 1] !in front;
    }
  }

  lemma {:induction false} RowRowsTotal(s: seq<Player>, w: int, ages: seq<int>)
    requires Keys.StrictlyIncreasing(ages)
    requires forall a :: a in AgeColumn(s) ==> a in ages
    ensures RowRows(s, w, ages) == WeekRows(s, w)
  {
    if s != [] {
      var init := s[..|s| - 1];
      var c := CellOf(s[|s| - 1]);
      assert AgeColumn(s) == AgeColumn(init) + (if c.Some? then [c.value.1] else []);
      assert c.Some? ==> c.value.1 in AgeColumn(s);
      RowRowsTotal(init, w, ages);
      RowRowsStep(s, w, ages);
    } else {
      NoRowsNoCounts(w, ages);
    }
  }

  lemma {:induction false} NoRowsNoCounts(w: int, ages: seq<int>)
    ensures RowRows([], w, ages) == 0
  {
    if ages != [] {
      NoRowsNoCounts(w, ages[..|ages| - 1]);
    }
  }

  lemma {:induction false} RawRowTotalUnique(s: seq<Player>, w: int, ages: seq<int>)
    requires DistinctIds(s)
    ensures RawRowTotal(s, w, ages) == RowRows(s, w, ages)
  {
    if ages != [] {
      RawRowTotalUnique(s, w, ages[..|ages| - 1]);
      UniqueIdsCount(s, w, ages[|ages| - 1]);
    }
  }

  lemma {:induction false} CohortedKeepsDistinctIds(view: seq<Player>)
    requires DistinctIds(view)
    ensures DistinctIds(Cohorted(view)) && Ids(Cohorted(view)) <= Ids(view)
  {
    if view != [] {
      CohortedKeepsDistinctIds(view[..|view| - 1]);
    }
  }

  /** With unique player ids, the raw counts of a signup week over all age columns add
      up to the week's cohort size; the twenty displayed columns hold no more than that. */
  lemma CohortRowAddsUp(view: seq<Player>, w: int)
    requires DistinctIds(view)
    ensures var kept := Cohorted(view);
            var ages := Keys.SortedDistinct(AgeColumn(kept));
            && RawRowTotal(kept, w, ages) == |WeekIds(kept, w)|
            && RawRowTotal(kept, w, Shown(ages)) <= |WeekIds(kept, w)|
  {
    var kept := Cohorted(view);
    var ages := Keys.SortedDistinct(AgeColumn(kept));
    CohortedKeepsDistinctIds(view);
    RawRowTotalUnique(kept, w, ages);
    RowRowsTotal(kept, w, ages);
    UniqueIdsCount(kept, w, 0);
    RawRowTotalPrefix(kept, w, ages, |Shown(ages)|);
  }

  lemma {:induction false} RawRowTotalPrefix(s: seq<Player>, w: int, ages: seq<int>, n: nat)
    requires n <= |ages|
    ensures RawRowTotal(s, w, ages[..n]) <= RawRowTotal(s, w, ages)
    decreases |ages|
  {
    if n < |ages| {
      var front := ages[..|ages| - 1];
      assert ages[..n] == front[..n];
      RawRowTotalPrefix(s, w, front, n);
    } else {
      assert ages[..n] == ages;
    }
  }

  // ---------------------------------------------------------------------
  // The table

  /** Every cell of the table is its distinct-player count as a share of the week's
      cohort size, and 0 exactly when no player of that week reached that age; the rows
      are the signup weeks of the counted rows and the columns the first twenty of their
      sorted ages. */
  lemma CohortTableMeaning(view: seq<Player>, i: nat, j: nat)
    requires CohortRetention(view).Table?
    requires i < |CohortRetention(view).weeks| && j < |CohortRetention(view).ages|
    ensures var t, kept := CohortRetention(view), Cohorted(view);
            && t.sizes[i] == |WeekIds(kept, t.weeks[i])|
            && t.retention[i][j] == Percent(|CellIds(kept, t.weeks[i], t.ages[j])| as real, t.sizes[i] as real)
            && (t.retention[i][j] == 0.0 <==> CellIds(kept, t.weeks[i], t.ages[j]) == {})
            && t.weeks[i] in WeekColumn(kept)
            && t.weeks == Keys.SortedDistinct(WeekColumn(kept))
            && t.ages == Shown(Keys.SortedDistinct(AgeColumn(kept)))
  {
    var t, kept := CohortRetention(view), Cohorted(view);
    var weeks := Keys.SortedDistinct(WeekColumn(kept));
    assert t.weeks == weeks;
    var w, a := t.weeks[i], t.ages[j];
    assert w in weeks;
    WeekColumnCounted(kept, w);
    WeeksHaveCohorts(kept, weeks);
    assert t.retention == RetentionRows(kept, weeks, t.ages);
    assert t.sizes == CohortSizes(kept, weeks);
    var pct := CellPercent(kept, w, a);
    assert t.retention[i][j] == pct;
  }

  lemma {:induction false} CellOfRowCounted(s: seq<Player>, k: nat)
    requires k < |s| && CellOf(s[k]).Some?
    ensures s[k].playerId in CellIds(s, CellOf(s[k]).value.0, CellOf(s[k]).value.1)
  {
    if k < |s| - 1 {
      var init := s[..|s| - 1];
      assert init[k] == s[k];
      CellOfRowCounted(init, k);
    }
  }

  /** `df_cohort[df_cohort['CohortAgeWeeks'] >= 0]`. */
  method DropNegativeAges(view: seq<Player>) returns (kept: seq<Player>)
    ensures kept == Cohorted(view)
  {
    kept := [];
    var i := 0;
    while i < |view|
      invariant 0 <= i <= |view|
      invariant kept == Cohorted(view[..i])
    {
      assert view[..i + 1][..i] == view[..i];
      if CohortAge(view[i]) >= 0 {
        kept := kept + [view[i]];
      }
      i := i + 1;
    }
    assert view[..|view|] == view;
  }

  /** `cells` maps exactly the non-empty cells of `s` to their distinct player ids. */
  ghost predicate CellsCollected(s: seq<Player>, cells: map<(int, int), set<int>>)
  {
    && (forall key :: key in cells <==> CellIds(s, key.0, key.1) != {})
    && (forall key :: key in cells ==> cells[key] == CellIds(s, key.0, key.1))
  }

  /** `cohorts` maps exactly the non-empty signup weeks of `s` to their distinct player ids. */
  ghost predicate CohortsCollected(s: seq<Player>, cohorts: map<int, set<int>>)
  {
    && (forall w :: w in cohorts <==> WeekIds(s, w) != {})
    && (forall w :: w in cohorts ==> cohorts[w] == WeekIds(s, w))
  }

  lemma CellsStep(s: seq<Player>, r: Player, cells: map<(int, int), set<int>>)
    requires CellsCollected(s, cells) && CellOf(r).Some?
    ensures var key := CellOf(r).value;
            CellsCollected(s + [r], cells[key := (if key in cells then cells[key] else {}) + {r.playerId}])
  {
    var t := s + [r];
    assert t[..|t| - 1] == s;
  }

  lemma CohortsStep(s: seq<Player>, r: Player, cohorts: map<int, set<int>>)
    requires CohortsCollected(s, cohorts) && CellOf(r).Some?
    ensures var w := CellOf(r).value.0;
            CohortsCollected(s + [r], cohorts[w := (if w in cohorts then cohorts[w] else {}) + {r.playerId}])
  {
    var t := s + [r];
    assert t[..|t| - 1] == s;
  }

  /** One pass over the kept rows collecting the distinct player ids of every
      (week, age) cell and of every week, and the week and age columns. */
  method CollectCohorts(kept: seq<Player>)
      returns (cells: map<(int, int), set<int>>, cohorts: map<int, set<int>>, weekCol: seq<int>, ageCol: seq<int>)
    requires forall k :: 0 <= k < |kept| ==> CohortAge(kept[k]) >= 0
    ensures CellsCollected(kept, cells)
    ensures CohortsCollected(kept, cohorts)
    ensures weekCol == WeekColumn(kept) && ageCol == AgeColumn(kept)
  {
    cells, cohorts := map[], map[];
    weekCol, ageCol := [], [];
    var i := 0;
    while i < |kept|
      invariant 0 <= i <= |kept|
      invariant CellsCollected(kept[..i], cells)
      invariant CohortsCollected(kept[..i], cohorts)
      invariant weekCol == WeekColumn(kept[..i]) && ageCol == AgeColumn(kept[..i])
    {
      var r := kept[i];
      assert kept[..i + 1] == kept[..i] + [r];
      CellsStep(kept[..i], r, cells);
      CohortsStep(kept[..i], r, cohorts);
      var w, a := CellOf(r).value.0, CellOf(r).value.1;
      var inCell := if (w, a) in cells then cells[(w, a)] else {};
      var inWeek := if w in cohorts then cohorts[w] else {};
      cells := cells[(w, a) := inCell + {r.playerId}];
      cohorts := cohorts[w := inWeek + {r.playerId}];
      weekCol, ageCol := weekCol + [w], ageCol + [a];
      i := i + 1;
    }
    assert kept[..|kept|] == kept;
  }

  /** The cohort page as the dashboard computes it: drop negative ages, collect the
      distinct player ids of every (week, age) cell and of every week, pivot, and
      divide each cell by its week's cohort size, an absent cell reading 0. */
  method BuildCohortTable(view: seq<Player>) returns (table: CohortTable)
    ensures table == CohortRetention(view)
  {
    var kept := DropNegativeAges(view);
    var cells, cohorts, weekCol, ageCol := CollectCohorts(kept);

    CellsOfKeptRows(kept, cells);
    if |cells| == 0 {
      table := NoCohorts;
      return;
    }

    var weeks := Keys.SortedDistinct(weekCol);
    var ages := Shown(Keys.SortedDistinct(ageCol));
    WeeksAreCollected(kept, cohorts, weeks);
    var sizes := seq(|weeks|, k requires 0 <= k < |weeks| => |cohorts[weeks[k]]|);
    var rows := PivotRows(cells, cohorts, weeks, ages);
    table := Table(weeks, ages, sizes, rows);
    SameTable(view, kept, cells, cohorts, weeks, ages, sizes);
  }

  /** A row that survived the age filter puts at least one cell in the map. */
  lemma CellsOfKeptRows(kept: seq<Player>, cells: map<(int, int), set<int>>)
    requires forall k :: 0 <= k < |kept| ==> CohortAge(kept[k]) >= 0
    requires CellsCollected(kept, cells)
    ensures kept != [] ==> |cells| > 0
  {
    if kept != [] {
      CellOfRowCounted(kept, 0);
      assert CellOf(kept[0]).value in cells;
    }
  }

  /** Every sorted week of the table has a collected, non-empty cohort. */
  lemma WeeksAreCollected(kept: seq<Player>, cohorts: map<int, set<int>>, weeks: seq<int>)
    requires CohortsCollected(kept, cohorts)
    requires weeks == Keys.SortedDistinct(WeekColumn(kept))
    ensures forall w :: w in weeks ==> w in cohorts && cohorts[w] != {}
  {
    forall w | w in weeks ensures w in cohorts && cohorts[w] != {} {
      WeekColumnCounted(kept, w);
    }
  }

  /** One cell of `cohort_pivot.divide(cohort_size, axis=0).fillna(0) * 100`. */
  function PivotCell(cells: map<(int, int), set<int>>, cohorts: map<int, set<int>>, w: int, a: int): (pct: real)
    requires w in cohorts && cohorts[w] != {}
    ensures (w, a) !in cells ==> pct == 0.0
    ensures (w, a) in cells ==> pct * (|cohorts[w]| as real) == 100.0 * (|cells[(w, a)]| as real)
    ensures (w, a) in cells && cells[(w, a)] <= cohorts[w] ==> 0.0 <= pct <= 100.0
  {
    if (w, a) in cells then
      var cell, size := cells[(w, a)], cohorts[w];
      assert cell <= size ==> |cell| <= |size| by {
        if cell <= size { SubsetCardinality(cell, size); }
      }
      Percent(|cell| as real, |size| as real)
    else 0.0
  }

  function PivotRow(cells: map<(int, int), set<int>>, cohorts: map<int, set<int>>, w: int, ages: seq<int>)
    : (row: seq<real>)
    requires w in cohorts && cohorts[w] != {}
    ensures |row| == |ages|
    ensures forall m :: 0 <= m < |ages| ==> row[m] == PivotCell(cells, cohorts, w, ages[m])
  {
    seq(|ages|, m requires 0 <= m < |ages| => PivotCell(cells, cohorts, w, ages[m]))
  }

  function PivotRows(cells: map<(int, int), set<int>>, cohorts: map<int, set<int>>, weeks: seq<int>, ages: seq<int>)
    : (rows: seq<seq<real>>)
    requires forall w :: w in weeks ==> w in cohorts && cohorts[w] != {}
    ensures |rows| == |weeks|
    ensures forall k :: 0 <= k < |weeks| ==> rows[k] == PivotRow(cells, cohorts, weeks[k], ages)
  {
    seq(|weeks|, k requires 0 <= k < |weeks| => PivotRow(cells, cohorts, weeks[k], ages))
  }

  lemma SameRow(kept: seq<Player>, cells: map<(int, int), set<int>>, cohorts: map<int, set<int>>, w: int, ages: seq<int>)
    requires CellsCollected(kept, cells) && CohortsCollected(kept, cohorts)
    requires w in cohorts && cohorts[w] != {}
    ensures PivotRow(cells, cohorts, w, ages) == RetentionRow(kept, w, ages)
  {
    forall m | 0 <= m < |ages|
      ensures PivotRow(cells, cohorts, w, ages)[m] == RetentionRow(kept, w, ages)[m]
    {
      SameCell(kept, cells, cohorts, w, ages[m]);
    }
  }

  lemma SameCell(kept: seq<Player>, cells: map<(int, int), set<int>>, cohorts: map<int, set<int>>, w: int, a: int)
    requires w in cohorts && cohorts[w] == WeekIds(kept, w) && cohorts[w] != {}
    requires (w, a) in cells <==> CellIds(kept, w, a) != {}
    requires (w, a) in cells ==> cells[(w, a)] == CellIds(kept, w, a)
    ensures PivotCell(cells, cohorts, w, a) == CellPercent(kept, w, a)
  {
  }

  lemma CohortRetentionUnfolds(view: seq<Player>, kept: seq<Player>, weeks: seq<int>, ages: seq<int>)
    requires kept == Cohorted(view) && kept != []
    requires weeks == Keys.SortedDistinct(WeekColumn(kept))
    requires ages == Shown(Keys.SortedDistinct(AgeColumn(kept)))
    ensures forall w :: w in weeks ==> |WeekIds(kept, w)| > 0
    ensures CohortRetention(view) == Table(weeks, ages, CohortSizes(kept, weeks), RetentionRows(kept, weeks, ages))
  {
    WeeksHaveCohorts(kept, weeks);
  }

  lemma SameRows(kept: seq<Player>, cells: map<(int, int), set<int>>, cohorts: map<int, set<int>>,
                 weeks: seq<int>, ages: seq<int>)
    requires CellsCollected(kept, cells) && CohortsCollected(kept, cohorts)
    requires forall w :: w in weeks ==> w in cohorts && cohorts[w] != {}
    ensures forall w :: w in weeks ==> |WeekIds(kept, w)| > 0
    ensures RetentionRows(kept, weeks, ages) == PivotRows(cells, cohorts, weeks, ages)
  {
    var specRows := RetentionRows(kept, weeks, ages);
    var rows := PivotRows(cells, cohorts, weeks, ages);
    forall k | 0 <= k < |weeks| ensures specRows[k] == rows[k] {
      assert weeks[k] in weeks;
      SameRow(kept, cells, cohorts, weeks[k], ages);
    }
  }

  lemma SameTable(view: seq<Player>, kept: seq<Player>, cells: map<(int, int), set<int>>, cohorts: map<int, set<int>>,
                  weeks: seq<int>, ages: seq<int>, sizes: seq<nat>)
    requires kept == Cohorted(view) && kept != []
    requires CellsCollected(kept, cells) && CohortsCollected(kept, cohorts)
    requires weeks == Keys.SortedDistinct(WeekColumn(kept))
    requires ages == Shown(Keys.SortedDistinct(AgeColumn(kept)))
    requires forall w :: w in weeks ==> w in cohorts && cohorts[w] != {}
    requires |sizes| == |weeks| && forall k :: 0 <= k < |weeks| ==> weeks[k] in cohorts && sizes[k] == |cohorts[weeks[k]]|
    ensures Table(weeks, ages, sizes, PivotRows(cells, cohorts, weeks, ages)) == CohortRetention(view)
  {
    CohortRetentionUnfolds(view, kept, weeks, ages);
    SameRows(kept, cells, cohorts, weeks, ages);
    assert CohortSizes(kept, weeks) == sizes;
  }
}
