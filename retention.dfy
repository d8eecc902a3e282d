/** The daily retention curve of the overview page: rows grouped by days since
    signup, optionally also by a segment column, each group's mean `IsActive`
    as a percentage. */
module Retention {
  import opened Records
  import Keys

  /** The columns the curve can be split by. */
  datatype SegmentColumn = Device | GameGenre | EngagementLevel

  function SegmentOf(col: SegmentColumn, r: Player): string
  {
    match col
    case Device => r.device
    case GameGenre => r.genre
    case EngagementLevel => r.engagement
  }

  /** One `groupby` group: a day since signup, and for a split curve also a segment value. */
  datatype Group = Group(segment: Option<(SegmentColumn, string)>, day: int)

  predicate InGroup(g: Group, r: Player)
  {
    && r.daysSinceSignup == g.day
    && match g.segment
       case None => true
       case Some(cv) => SegmentOf(cv.0, r) == cv.1
  }

  /** The group's `IsActive` column (values 0 and 1), in row order. */
  function ActiveColumn(view: seq<Player>, g: Group): seq<int>
  {
    if view == [] then []
    else
      var rest := ActiveColumn(view[..|view| - 1], g);
      var r := view[|view| - 1];
      if InGroup(g, r) then rest + [Indicator(r.isActive)] else rest
  }

  function Mean(xs: seq<int>): real
    requires xs != []
  {
    SumInt(xs) as real / |xs| as real
  }

  /** Number of rows in the group. */
  function GroupSize(view: seq<Player>, g: Group): nat
  {
    if view == [] then 0
    else GroupSize(view[..|view| - 1], g) + (if InGroup(g, view[|view| - 1]) then 1 else 0)
  }

  /** Number of active rows in the group. */
  function ActiveCount(view: seq<Player>, g: Group): nat
  {
    if view == [] then 0
    else ActiveCount(view[..|view| - 1], g) + (if InGroup(g, view[|view| - 1]) && view[|view| - 1].isActive then 1 else 0)
  }

  /** `mean(IsActive) * 100` for one group. */
  function RetentionPercent(view: seq<Player>, g: Group): (pct: real)
    requires GroupSize(view, g) > 0
    ensures pct == Percent(ActiveCount(view, g) as real, GroupSize(view, g) as real)
    ensures 0.0 <= pct <= 100.0
  {
    ActiveColumnCounts(view, g);
    100.0 * Mean(ActiveColumn(view, g))
  }

  lemma {:induction false} ActiveColumnCounts(view: seq<Player>, g: Group)
    ensures |ActiveColumn(view, g)| == GroupSize(view, g)
    ensures SumInt(ActiveColumn(view, g)) == ActiveCount(view, g)
    ensures ActiveCount(view, g) <= GroupSize(view, g)
  {
    if view != [] {
      var init := view[..|view| - 1];
      ActiveColumnCounts(init, g);
      var rest := ActiveColumn(init, g);
      var r := view[|view| - 1];
      if InGroup(g, r) {
        assert (rest + [Indicator(r.isActive)])[..|rest|] == rest;
      }
    }
  }

  lemma {:induction false} GroupOfRowNonEmpty(view: seq<Player>, g: Group, k: nat)
    requires k < |view| && InGroup(g, view[k])
    ensures GroupSize(view, g) > 0
  {
    if k < |view| - 1 {
      GroupOfRowNonEmpty(view[..|view| - 1], g, k);
    }
  }

  lemma {:induction false} NonEmptyGroupHasRow(view: seq<Player>, g: Group)
    requires GroupSize(view, g) > 0
    ensures exists k :: 0 <= k < |view| && InGroup(g, view[k])
  {
    var init := view[..|view| - 1];
    if !InGroup(g, view[|view| - 1]) {
      NonEmptyGroupHasRow(init, g);
      var k :| 0 <= k < |init| && InGroup(g, init[k]);
      assert view[k] == init[k];
    }
  }

  /** One point of the curve. */
  datatype Point = Point(day: int, percent: real)

  function DayColumn(view: seq<Player>): (col: seq<int>)
    ensures |col| == |view|
    ensures forall i :: 0 <= i < |view| ==> col[i] == view[i].daysSinceSignup
  {
    seq(|view|, i requires 0 <= i < |view| => view[i].daysSinceSignup)
  }

  /** Some row of the view signed up `d` days ago. */
  predicate HasDay(view: seq<Player>, d: int)
  {
    exists k :: 0 <= k < |view| && view[k].daysSinceSignup == d
  }

  /** The curve has a point for day `d`. */
  predicate CoversDay(curve: seq<Point>, d: int)
  {
    exists i :: 0 <= i < |curve| && curve[i].day == d
  }

  function Points(view: seq<Player>, days: seq<int>): (ps: seq<Point>)
    requires forall d :: d in days ==> GroupSize(view, Group(None, d)) > 0
    ensures |ps| == |days|
    ensures forall i :: 0 <= i < |days| ==>
      ps[i] == Point(days[i], RetentionPercent(view, Group(None, days[i])))
  {
    if days == [] then []
    else Points(view, days[..|days| - 1]) + [Point(days[|days| - 1], RetentionPercent(view, Group(None, days[|days| - 1])))]
  }

  lemma DaysHaveRows(view: seq<Player>, days: seq<int>)
    requires forall d :: d in days ==> d in DayColumn(view)
    ensures forall d :: d in days ==> GroupSize(view, Group(None, d)) > 0
  {
    forall d | d in days ensures GroupSize(view, Group(None, d)) > 0 {
      var col := DayColumn(view);
      var k :| 0 <= k < |col| && col[k] == d;
      GroupOfRowNonEmpty(view, Group(None, d), k);
    }
  }

  lemma PointsCoverDays(view: seq<Player>, days: seq<int>, ps: seq<Point>)
    requires |ps| == |days| && forall i :: 0 <= i < |days| ==> ps[i].day == days[i]
    requires forall d :: d in days <==> d in DayColumn(view)
    ensures forall k :: 0 <= k < |view| ==> CoversDay(ps, view[k].daysSinceSignup)
    ensures forall i :: 0 <= i < |ps| ==> HasDay(view, ps[i].day)
  {
    var col := DayColumn(view);
    forall k | 0 <= k < |view| ensures CoversDay(ps, view[k].daysSinceSignup) {
      assert col[k] in days;
      var i :| 0 <= i < |days| && days[i] == col[k];
      assert ps[i].day == view[k].daysSinceSignup;
    }
    forall i | 0 <= i < |ps| ensures HasDay(view, ps[i].day) {
      assert days[i] in days;
      assert days[i] in col;
      var k :| 0 <= k < |col| && col[k] == days[i];
      assert view[k].daysSinceSignup == col[k] == days[i] == ps[i].day;
    }
  }

  /** The unsplit curve: one point per distinct day, in ascending day order, each
      the percentage of that day's rows that are active. */
  function DailyRetention(view: seq<Player>): (curve: seq<Point>)
    ensures forall i, j :: 0 <= i < j < |curve| ==> curve[i].day < curve[j].day
    ensures forall k :: 0 <= k < |view| ==> CoversDay(curve, view[k].daysSinceSignup)
    ensures forall i :: 0 <= i < |curve| ==> HasDay(view, curve[i].day)
    ensures forall i :: 0 <= i < |curve| ==>
      && GroupSize(view, Group(None, curve[i].day)) > 0
      && curve[i].percent == Percent(ActiveCount(view, Group(None, curve[i].day)) as real,
                                     GroupSize(view, Group(None, curve[i].day)) as real)
      && 0.0 <= curve[i].percent <= 100.0
  {
    var days := Keys.SortedDistinct(DayColumn(view));
    DaysHaveRows(view, days);
    var curve := Points(view, days);
    PointsCoverDays(view, days, curve);
    curve
  }

  /** The keys of the split curve: every (segment value, day) pair some row has. */
  function SegmentDayKeys(view: seq<Player>, col: SegmentColumn): set<(string, int)>
  {
    set k | 0 <= k < |view| :: (SegmentOf(col, view[k]), view[k].daysSinceSignup)
  }

  /** The split curve: for every (segment value, day) pair present, the percentage of
      those rows that are active. */
  function SegmentedRetention(view: seq<Player>, col: SegmentColumn): (curve: map<(string, int), real>)
    ensures curve.Keys == SegmentDayKeys(view, col)
    ensures forall key :: key in curve ==> 0.0 <= curve[key] <= 100.0
  {
    assert forall key :: key in SegmentDayKeys(view, col) ==>
                         GroupSize(view, Group(Some((col, key.0)), key.1)) > 0 by {
      forall key | key in SegmentDayKeys(view, col)
        ensures GroupSize(view, Group(Some((col, key.0)), key.1)) > 0
      {
        var k :| 0 <= k < |view| && key == (SegmentOf(col, view[k]), view[k].daysSinceSignup);
        GroupOfRowNonEmpty(view, Group(Some((col, key.0)), key.1), k);
      }
    }
    map key | key in SegmentDayKeys(view, col) :: RetentionPercent(view, Group(Some((col, key.0)), key.1))
  }

  /** The rows of one segment value, in order. */
  function OnlySegment(view: seq<Player>, col: SegmentColumn, s: string): seq<Player>
  {
    if view == [] then []
    else
      var rest := OnlySegment(view[..|view| - 1], col, s);
      if SegmentOf(col, view[|view| - 1]) == s then rest + [view[|view| - 1]] else rest
  }

  lemma {:induction false} OnlySegmentColumn(view: seq<Player>, col: SegmentColumn, s: string, d: int)
    ensures ActiveColumn(view, Group(Some((col, s)), d)) == ActiveColumn(OnlySegment(view, col, s), Group(None, d))
  {
    if view != [] {
      var init, r := view[..|view| - 1], view[|view| - 1];
      OnlySegmentColumn(init, col, s, d);
      var only := OnlySegment(init, col, s);
      if SegmentOf(col, r) == s {
        assert (only + [r])[..|only|] == only;
      }
    }
  }

  lemma {:induction false} OnlySegmentMembers(view: seq<Player>, col: SegmentColumn, s: string, x: Player)
    ensures x in OnlySegment(view, col, s) <==> x in view && SegmentOf(col, x) == s
  {
    if view != [] {
      var init, r := view[..|view| - 1], view[|view| - 1];
      OnlySegmentMembers(init, col, s, x);
      assert view == init + [r];
    }
  }

  lemma SegmentKeyIsCoveredDay(view: seq<Player>, col: SegmentColumn, s: string, d: int)
    requires (s, d) in SegmentDayKeys(view, col)
    ensures CoversDay(DailyRetention(OnlySegment(view, col, s)), d)
  {
    var only := OnlySegment(view, col, s);
    var k :| 0 <= k < |view| && (s, d) == (SegmentOf(col, view[k]), view[k].daysSinceSignup);
    OnlySegmentMembers(view, col, s, view[k]);
    var j :| 0 <= j < |only| && only[j] == view[k];
    assert only[j].daysSinceSignup == d;
    assert CoversDay(DailyRetention(only), only[j].daysSinceSignup);
  }

  lemma CoveredDayIsSegmentKey(view: seq<Player>, col: SegmentColumn, s: string, d: int)
    requires CoversDay(DailyRetention(OnlySegment(view, col, s)), d)
    ensures (s, d) in SegmentDayKeys(view, col)
    ensures GroupSize(view, Group(Some((col, s)), d)) > 0
    ensures RetentionPercent(view, Group(Some((col, s)), d)) ==
            Percent(ActiveCount(OnlySegment(view, col, s), Group(None, d)) as real,
                    GroupSize(OnlySegment(view, col, s), Group(None, d)) as real)
  {
    var only := OnlySegment(view, col, s);
    var curve := DailyRetention(only);
    var gs, g := Group(Some((col, s)), d), Group(None, d);
    var i :| 0 <= i < |curve| && curve[i].day == d;
    assert HasDay(only, d);
    var j :| 0 <= j < |only| && only[j].daysSinceSignup == d;
    OnlySegmentMembers(view, col, s, only[j]);
    var k :| 0 <= k < |view| && view[k] == only[j];
    assert (SegmentOf(col, view[k]), view[k].daysSinceSignup) in SegmentDayKeys(view, col);
    GroupOfRowNonEmpty(view, gs, k);
    OnlySegmentColumn(view, col, s, d);
    ActiveColumnCounts(view, gs);
    ActiveColumnCounts(only, g);
  }

  /** The split curve for segment value `s` is the unsplit curve of the rows with
      that value: the same days, and the same percentage on each day. */
  lemma SegmentCurveIsFilteredCurve(view: seq<Player>, col: SegmentColumn, s: string, d: int)
    ensures (s, d) in SegmentedRetention(view, col) <==> CoversDay(DailyRetention(OnlySegment(view, col, s)), d)
    ensures forall i :: 0 <= i < |DailyRetention(OnlySegment(view, col, s))| && DailyRetention(OnlySegment(view, col, s))[i].day == d ==>
              SegmentedRetention(view, col)[(s, d)] == DailyRetention(OnlySegment(view, col, s))[i].percent
  {
    var curve := DailyRetention(OnlySegment(view, col, s));
    if (s, d) in SegmentDayKeys(view, col) {
      SegmentKeyIsCoveredDay(view, col, s, d);
    }
    if CoversDay(curve, d) {
      CoveredDayIsSegmentKey(view, col, s, d);
    }
  }
}
