/** The headline figures of the overview, revenue, social and achievement pages,
    each computed over the filtered view. */
module Kpi {
  import opened Records

  /** The achievement count a player is assumed to be able to reach. */
  const MaxAchievements: nat := 50

  /** A ratio the dashboard divides without checking the denominator: on an empty
      view the division by zero gives a value that is not a number. */
  datatype Ratio = NotANumber | Value(value: real)

  // ---------------------------------------------------------------------
  // Columns and counts

  /** The rows that made a purchase, in order. */
  function Paying(view: seq<Player>): (paying: seq<Player>)
    ensures |paying| <= |view|
    ensures forall k :: 0 <= k < |paying| ==> paying[k].hasPurchased && paying[k] in view
  {
    if view == [] then []
    else
      var rest := Paying(view[..|view| - 1]);
      if view[|view| - 1].hasPurchased then rest + [view[|view| - 1]] else rest
  }

  /** The spend column. */
  function Spends(view: seq<Player>): (col: seq<real>)
    ensures |col| == |view|
    ensures forall k :: 0 <= k < |view| ==> col[k] == view[k].spentUsd
  {
    seq(|view|, k requires 0 <= k < |view| => view[k].spentUsd)
  }

  /** The achievement column. */
  function Achievements(view: seq<Player>): (col: seq<int>)
    ensures |col| == |view|
    ensures forall k :: 0 <= k < |view| ==> col[k] == view[k].achievementsUnlocked
  {
    seq(|view|, k requires 0 <= k < |view| => view[k].achievementsUnlocked)
  }

  /** How many rows are active. */
  function ActiveCount(view: seq<Player>): nat
  {
    if view == [] then 0 else ActiveCount(view[..|view| - 1]) + Indicator(view[|view| - 1].isActive)
  }

  /** How many rows belong to a guild. */
  function GuildCount(view: seq<Player>): nat
  {
    if view == [] then 0 else GuildCount(view[..|view| - 1]) + Indicator(view[|view| - 1].guildMember)
  }

  predicate NonePay(view: seq<Player>)
  {
    forall k :: 0 <= k < |view| ==> !view[k].hasPurchased
  }

  predicate AllPay(view: seq<Player>)
  {
    forall k :: 0 <= k < |view| ==> view[k].hasPurchased
  }

  /** Players who never paid have spent nothing. */
  predicate FreeWhenNotPaying(view: seq<Player>)
  {
    forall k :: 0 <= k < |view| ==> !view[k].hasPurchased ==> view[k].spentUsd == 0.0
  }

  predicate NonNegativeSpend(view: seq<Player>)
  {
    forall k :: 0 <= k < |view| ==> view[k].spentUsd >= 0.0
  }

  lemma {:induction false} PayingCount(view: seq<Player>)
    ensures |Paying(view)| == 0 <==> NonePay(view)
    ensures |Paying(view)| == |view| <==> AllPay(view)
  {
    if view != [] {
      var init, r := view[..|view| - 1], view[|view| - 1];
      PayingCount(init);
      assert forall k :: 0 <= k < |init| ==> init[k] == view[k];
      if !r.hasPurchased {
        assert !AllPay(view);
      }
      if r.hasPurchased {
        assert Paying(view)[|Paying(view)| - 1] == r;
      }
    }
  }

  lemma {:induction false} ActiveCountBound(view: seq<Player>)
    ensures ActiveCount(view) <= |view|
  {
    if view != [] {
      ActiveCountBound(view[..|view| - 1]);
    }
  }

  lemma {:induction false} GuildCountBound(view: seq<Player>)
    ensures GuildCount(view) <= |view|
  {
    if view != [] {
      GuildCountBound(view[..|view| - 1]);
    }
  }

  // ---------------------------------------------------------------------
  // Revenue page (guarded divisions)

  /** Conversion: the percentage of rows that paid, 0 on an empty view. */
  function Conversion(view: seq<Player>): (c: real)
    ensures 0.0 <= c <= 100.0
    ensures view == [] ==> c == 0.0
    ensures view != [] ==> c * (|view| as real) == 100.0 * (|Paying(view)| as real)
  {
    if |view| > 0 then Percent(|Paying(view)| as real, |view| as real) else 0.0
  }

  /** Average revenue per paying user: the mean spend of the paying rows, 0 when
      nobody paid. */
  function Arppu(view: seq<Player>): (a: real)
    ensures Paying(view) != [] ==> a * (|Paying(view)| as real) == SumReal(Spends(Paying(view)))
    ensures Paying(view) == [] ==> a == 0.0
  {
    var paying := Paying(view);
    if |paying| > 0 then MeanOf(SumReal(Spends(paying)), |paying|) else 0.0
  }

  /** Average revenue per user, which the revenue page also shows as LTV: total
      spend over the number of rows, 0 on an empty view. */
  function Arpu(view: seq<Player>): (a: real)
    ensures view != [] ==> a * (|view| as real) == SumReal(Spends(view))
    ensures view == [] ==> a == 0.0
  {
    if |view| > 0 then MeanOf(SumReal(Spends(view)), |view|) else 0.0
  }

  /** Conversion is 0 exactly when nobody in the view paid, and 100 exactly when
      everybody in a non-empty view paid. */
  lemma ConversionExtremes(view: seq<Player>)
    ensures Conversion(view) == 0.0 <==> NonePay(view)
    ensures view != [] ==> (Conversion(view) == 100.0 <==> AllPay(view))
  {
    PayingCount(view);
    if view != [] {
      var n, p := |view| as real, |Paying(view)| as real;
      assert Conversion(view) * n == 100.0 * p;
      if Conversion(view) == 100.0 {
        assert 100.0 * n == 100.0 * p;
      }
    }
  }

  lemma {:induction false} SpendOfPayers(view: seq<Player>)
    requires FreeWhenNotPaying(view)
    ensures SumReal(Spends(view)) == SumReal(Spends(Paying(view)))
  {
    if view != [] {
      var init, r := view[..|view| - 1], view[|view| - 1];
      SpendOfPayers(init);
      assert Spends(view)[..|view| - 1] == Spends(init);
      if r.hasPurchased {
        var p := Paying(view);
        assert p == Paying(init) + [r];
        assert Spends(p)[..|p| - 1] == Spends(Paying(init));
      }
    }
  }

  lemma {:induction false} SpendNonNegative(view: seq<Player>)
    requires NonNegativeSpend(view)
    ensures SumReal(Spends(view)) >= 0.0
  {
    if view != [] {
      var init := view[..|view| - 1];
      SpendNonNegative(init);
      assert Spends(view)[..|view| - 1] == Spends(init);
    }
  }

  /** A percentage share of a non-negative amount lies between 0 and that amount. */
  lemma ShareOf(u: real, c: real, a: real)
    requires 0.0 <= c <= 100.0 && a >= 0.0 && u == c / 100.0 * a
    ensures 0.0 <= u <= a
  {
    var x := c / 100.0;
    assert 0.0 <= x <= 1.0;
    assert u == x * a;
    assert x * a >= 0.0;
    var y := 1.0 - x;
    assert y >= 0.0;
    assert y * a >= 0.0;
    assert a - u == y * a;
  }

  /** When only paying players spend, ARPU is the paying share times ARPPU. */
  lemma ArpuIsConversionTimesArppu(view: seq<Player>)
    requires FreeWhenNotPaying(view)
    ensures Arpu(view) == Conversion(view) / 100.0 * Arppu(view)
  {
    SpendOfPayers(view);
    if Paying(view) != [] {
      MeanThroughShare(SumReal(Spends(view)), |Paying(view)|, |view|);
    }
  }

  /** With non-negative spend and only paying players spending, ARPU never
      exceeds ARPPU and neither is negative. */
  lemma ArpuAtMostArppu(view: seq<Player>)
    requires FreeWhenNotPaying(view) && NonNegativeSpend(view)
    ensures 0.0 <= Arpu(view) <= Arppu(view)
  {
    ArpuIsConversionTimesArppu(view);
    SpendNonNegative(view);
    SpendOfPayers(view);
    if Paying(view) != [] {
      ShareOf(Arpu(view), Conversion(view), Arppu(view));
    } else if view != [] {
      assert SumReal(Spends(view)) == 0.0;
    }
  }

  // ---------------------------------------------------------------------
  // Achievement page (guarded division)

  /** The unlocked achievements as a percentage of the maximum everybody could
      have unlocked, 0 on an empty view. */
  function AchievementCompletion(view: seq<Player>): (c: real)
    ensures view == [] ==> c == 0.0
    ensures view != [] ==>
      c * ((|view| * MaxAchievements) as real) == 100.0 * (SumInt(Achievements(view)) as real)
  {
    if |view| > 0 then Percent(SumInt(Achievements(view)) as real, (|view| * MaxAchievements) as real) else 0.0
  }

  /** The mean achievement count shown beside the completion rate, 0 on an empty view. */
  function AverageAchievements(view: seq<Player>): (a: real)
    ensures view == [] ==> a == 0.0
    ensures view != [] ==> a * (|view| as real) == SumInt(Achievements(view)) as real
  {
    if |view| > 0 then MeanOf(SumInt(Achievements(view)) as real, |view|) else 0.0
  }

  /** Completion is the mean count as a percentage of the maximum. */
  lemma CompletionIsAverageShare(view: seq<Player>)
    ensures AchievementCompletion(view) * (MaxAchievements as real) == 100.0 * AverageAchievements(view)
  {
    if view != [] {
      var n, c, a := |view| as real, AchievementCompletion(view), AverageAchievements(view);
      var m := MaxAchievements as real;
      assert (c * m) * n == c * (n * m);
      assert (100.0 * a) * n == 100.0 * (a * n);
      assert (c * m) * n == (100.0 * a) * n;
    }
  }

  predicate AchievementsInRange(view: seq<Player>)
  {
    forall k :: 0 <= k < |view| ==> 0 <= view[k].achievementsUnlocked <= MaxAchievements
  }

  lemma {:induction false} AchievementSumBounds(view: seq<Player>)
    requires AchievementsInRange(view)
    ensures 0 <= SumInt(Achievements(view)) <= |view| * MaxAchievements
    ensures SumInt(Achievements(view)) == 0 <==> forall k :: 0 <= k < |view| ==> view[k].achievementsUnlocked == 0
  {
    if view != [] {
      var init := view[..|view| - 1];
      assert Achievements(view)[..|view| - 1] == Achievements(init);
      assert forall k :: 0 <= k < |init| ==> init[k] == view[k];
      AchievementSumBounds(init);
    }
  }

  /** With every count between 0 and the maximum, completion is a percentage, and
      it is 0 exactly when nobody unlocked anything. */
  lemma AchievementCompletionRange(view: seq<Player>)
    requires AchievementsInRange(view)
    ensures 0.0 <= AchievementCompletion(view) <= 100.0
    ensures AchievementCompletion(view) == 0.0 <==> forall k :: 0 <= k < |view| ==> view[k].achievementsUnlocked == 0
  {
    AchievementSumBounds(view);
  }

  // ---------------------------------------------------------------------
  // Unguarded divisions

  /** The ARPU shown on the overview page, divided without a guard. */
  function OverviewArpu(view: seq<Player>): (r: Ratio)
    ensures r.NotANumber? <==> view == []
    ensures r.Value? ==> r.value == Arpu(view)
  {
    if view == [] then NotANumber else Value(MeanOf(SumReal(Spends(view)), |view|))
  }

  /** The overall retention rate on the overview page, divided without a guard. */
  function OverviewRetention(view: seq<Player>): (r: Ratio)
    ensures r.NotANumber? <==> view == []
    ensures r.Value? ==> 0.0 <= r.value <= 100.0 && r.value * (|view| as real) == 100.0 * (ActiveCount(view) as real)
  {
    if view == [] then NotANumber
    else
      ActiveCountBound(view);
      Value(Percent(ActiveCount(view) as real, |view| as real))
  }

  /** The share of guild members on the social page, divided without a guard. */
  function GuildShare(view: seq<Player>): (r: Ratio)
    ensures r.NotANumber? <==> view == []
    ensures r.Value? ==> 0.0 <= r.value <= 100.0 && r.value * (|view| as real) == 100.0 * (GuildCount(view) as real)
  {
    if view == [] then NotANumber
    else
      GuildCountBound(view);
      Value(Percent(GuildCount(view) as real, |view| as real))
  }
}
