/** The sidebar filter chain: up to four categorical selections, each either
    the wildcard or one value, narrowing the dataset step by step. */
module Filter {
  import opened Records
  import Locations

  /** The "all" entry every select box starts with. */
  const Wildcard: string := "Tümü"
  /** The extra location entry: every location outside the top ten. */
  const OtherLocations: string := "Diğer"

  /** The values chosen in the four select boxes. */
  datatype Selection = Selection(genre: string, difficulty: string, device: string, location: string)

  /** One boolean mask the chain applies. */
  datatype Criterion =
    | GenreIs(genre: string)
    | DifficultyIs(difficulty: string)
    | DeviceIs(device: string)
    | LocationIs(location: string)
    | LocationNotIn(top: seq<string>)

  predicate Matches(c: Criterion, r: Player)
  {
    match c
    case GenreIs(g) => r.genre == g
    case DifficultyIs(d) => r.difficulty == d
    case DeviceIs(d) => r.device == d
    case LocationIs(l) => r.location == l
    case LocationNotIn(top) => r.location !in top
  }

  predicate MatchesAll(cs: seq<Criterion>, r: Player)
  {
    forall i :: 0 <= i < |cs| ==> Matches(cs[i], r)
  }

  /** The rows of `s` that pass every mask of `cs`, in their original order. */
  function Keep(s: seq<Player>, cs: seq<Criterion>): seq<Player>
  {
    if s == [] then []
    else
      var rest := Keep(s[..|s| - 1], cs);
      if MatchesAll(cs, s[|s| - 1]) then rest + [s[|s| - 1]] else rest
  }

  /** The genre mask, none for the wildcard. */
  function GenreMask(sel: Selection): seq<Criterion>
  {
    if sel.genre != Wildcard then [GenreIs(sel.genre)] else []
  }

  /** The difficulty mask, none for the wildcard. */
  function DifficultyMask(sel: Selection): seq<Criterion>
  {
    if sel.difficulty != Wildcard then [DifficultyIs(sel.difficulty)] else []
  }

  /** The device mask, none for the wildcard. */
  function DeviceMask(sel: Selection): seq<Criterion>
  {
    if sel.device != Wildcard then [DeviceIs(sel.device)] else []
  }

  /** The location mask: none for the wildcard, "not a top location" for the
      bucket, equality otherwise. */
  function LocationMask(sel: Selection, top: seq<string>): seq<Criterion>
  {
    if sel.location == Wildcard then []
    else if sel.location == OtherLocations then [LocationNotIn(top)]
    else [LocationIs(sel.location)]
  }

  /** The masks the chain applies for a selection, in the order it applies them. */
  function Criteria(sel: Selection, top: seq<string>): seq<Criterion>
  {
    GenreMask(sel) + DifficultyMask(sel) + DeviceMask(sel) + LocationMask(sel, top)
  }

  /** The filtered view every page of the dashboard works on. */
  function FilteredView(ds: seq<Player>, sel: Selection, top: seq<string>): seq<Player>
  {
    Keep(ds, Criteria(sel, top))
  }

  /** What the selection asks of a row, read directly off the four select boxes. */
  predicate Selects(sel: Selection, top: seq<string>, r: Player)
  {
    && (sel.genre == Wildcard || r.genre == sel.genre)
    && (sel.difficulty == Wildcard || r.difficulty == sel.difficulty)
    && (sel.device == Wildcard || r.device == sel.device)
    && (sel.location == Wildcard
        || (if sel.location == OtherLocations then r.location !in top else r.location == sel.location))
  }

  /** `a` is `b` with some rows left out and the others in their original order. */
  predicate IsSubsequence(a: seq<Player>, b: seq<Player>)
    decreases |b|
  {
    if a == [] then true
    else if b == [] then false
    else if a[|a| - 1] == b[|b| - 1] then IsSubsequence(a[..|a| - 1], b[..|b| - 1])
    else IsSubsequence(a, b[..|b| - 1])
  }

  // ---------------------------------------------------------------------
  // The chain as the dashboard runs it

  /** One narrowing step `df_filtered = df_filtered[mask]`. */
  method Narrow(view: seq<Player>, c: Criterion) returns (narrowed: seq<Player>)
    ensures narrowed == Keep(view, [c])
  {
    narrowed := [];
    var i := 0;
    while i < |view|
      invariant 0 <= i <= |view|
      invariant narrowed == Keep(view[..i], [c])
    {
      assert view[..i + 1][..i] == view[..i];
      MatchesSingle(c, view[i]);
      if Matches(c, view[i]) {
        narrowed := narrowed + [view[i]];
      }
      i := i + 1;
    }
    assert view[..|view|] == view;
  }

  /** Starts from a copy of the dataset and narrows it once per non-wildcard selection. */
  method ApplyFilters(ds: seq<Player>, sel: Selection, top: seq<string>) returns (view: seq<Player>)
    ensures view == FilteredView(ds, sel, top)
  {
    view := ds;
    KeepNothing(ds);
    if sel.genre != Wildcard {
      view := Narrow(view, GenreIs(sel.genre));
      KeepThenNarrow(ds, [], GenreIs(sel.genre));
    }
    ghost var applied := GenreMask(sel);
    assert view == Keep(ds, applied);
    if sel.difficulty != Wildcard {
      view := Narrow(view, DifficultyIs(sel.difficulty));
      KeepThenNarrow(ds, applied, DifficultyIs(sel.difficulty));
    } else {
      assert applied + DifficultyMask(sel) == applied;
    }
    applied := applied + DifficultyMask(sel);
    assert view == Keep(ds, applied);
    if sel.device != Wildcard {
      view := Narrow(view, DeviceIs(sel.device));
      KeepThenNarrow(ds, applied, DeviceIs(sel.device));
    } else {
      assert applied + DeviceMask(sel) == applied;
    }
    applied := applied + DeviceMask(sel);
    assert view == Keep(ds, applied);
    if sel.location != Wildcard {
      var c := if sel.location == OtherLocations then LocationNotIn(top) else LocationIs(sel.location);
      view := Narrow(view, c);
      KeepThenNarrow(ds, applied, c);
    } else {
      assert applied + LocationMask(sel, top) == applied;
    }
    applied := applied + LocationMask(sel, top);
    assert view == Keep(ds, applied);
  }

  // ---------------------------------------------------------------------
  // Properties of the filtered view

  lemma {:induction false} KeepNothing(s: seq<Player>)
    ensures Keep(s, []) == s
  {
    if s != [] {
      KeepNothing(s[..|s| - 1]);
    }
  }

  lemma MatchesSingle(c: Criterion, r: Player)
    ensures MatchesAll([c], r) <==> Matches(c, r)
  {
    assert [c][0] == c;
  }

  lemma MatchesAllConcat(a: seq<Criterion>, b: seq<Criterion>, r: Player)
    ensures MatchesAll(a + b, r) <==> MatchesAll(a, r) && MatchesAll(b, r)
  {
    assert forall i :: 0 <= i < |a| ==> (a + b)[i] == a[i];
    assert forall i :: 0 <= i < |b| ==> (a + b)[|a| + i] == b[i];
  }

  lemma MatchesAllAppend(cs: seq<Criterion>, c: Criterion, r: Player)
    ensures MatchesAll(cs + [c], r) <==> MatchesAll(cs, r) && Matches(c, r)
  {
    MatchesAllConcat(cs, [c], r);
    MatchesSingle(c, r);
  }

  /** Narrowing an already filtered view by one more mask is filtering by both. */
  lemma {:induction false} KeepThenNarrow(s: seq<Player>, cs: seq<Criterion>, c: Criterion)
    ensures Keep(Keep(s, cs), [c]) == Keep(s, cs + [c])
  {
    if s != [] {
      var init, last := s[..|s| - 1], s[|s| - 1];
      KeepThenNarrow(init, cs, c);
      MatchesAllAppend(cs, c, last);
      MatchesSingle(c, last);
      var kept := Keep(init, cs);
      if MatchesAll(cs, last) {
        assert (kept + [last])[..|kept + [last]| - 1] == kept;
      }
    }
  }

  /** A row occurs in the kept rows exactly as often as in the input when it passes
      every mask, and not at all otherwise. */
  lemma {:induction false} KeepCounts(s: seq<Player>, cs: seq<Criterion>, x: Player)
    ensures multiset(Keep(s, cs))[x] == if MatchesAll(cs, x) then multiset(s)[x] else 0
  {
    if s != [] {
      KeepCounts(s[..|s| - 1], cs, x);
      assert s == s[..|s| - 1] + [s[|s| - 1]];
    }
  }

  lemma CriteriaAgreeWithSelection(sel: Selection, top: seq<string>, r: Player)
    ensures MatchesAll(Criteria(sel, top), r) <==> Selects(sel, top, r)
  {
    var g, d, v, l := GenreMask(sel), DifficultyMask(sel), DeviceMask(sel), LocationMask(sel, top);
    MatchesAllConcat(g + d + v, l, r);
    MatchesAllConcat(g + d, v, r);
    MatchesAllConcat(g, d, r);
    if sel.genre != Wildcard { MatchesSingle(GenreIs(sel.genre), r); }
    if sel.difficulty != Wildcard { MatchesSingle(DifficultyIs(sel.difficulty), r); }
    if sel.device != Wildcard { MatchesSingle(DeviceIs(sel.device), r); }
    if sel.location != Wildcard {
      if sel.location == OtherLocations {
        MatchesSingle(LocationNotIn(top), r);
      } else {
        MatchesSingle(LocationIs(sel.location), r);
      }
    }
  }

  /** The view holds exactly the selected rows of the dataset, each as often as the
      dataset does: a kept row passes every non-wildcard selection and a dropped row
      fails at least one. */
  lemma FilteredViewCounts(ds: seq<Player>, sel: Selection, top: seq<string>, x: Player)
    ensures multiset(FilteredView(ds, sel, top))[x] == if Selects(sel, top, x) then multiset(ds)[x] else 0
    ensures x in FilteredView(ds, sel, top) <==> x in ds && Selects(sel, top, x)
  {
    KeepCounts(ds, Criteria(sel, top), x);
    CriteriaAgreeWithSelection(sel, top, x);
  }

  lemma {:induction false} KeepIsSubsequence(s: seq<Player>, cs: seq<Criterion>)
    ensures IsSubsequence(Keep(s, cs), s)
  {
    if s != [] {
      var init, last := s[..|s| - 1], s[|s| - 1];
      KeepIsSubsequence(init, cs);
      var kept := Keep(init, cs);
      if MatchesAll(cs, last) {
        assert (kept + [last])[..|kept + [last]| - 1] == kept;
      } else {
        SubsequenceOfLonger(kept, init, last);
      }
    }
  }

  lemma {:induction false} SubsequenceOfLonger(a: seq<Player>, b: seq<Player>, x: Player)
    requires IsSubsequence(a, b)
    ensures IsSubsequence(a, b + [x])
    decreases |b|, 1
  {
    if a != [] {
      assert (b + [x])[..|b|] == b;
      if a[|a| - 1] == x {
        // matching `x` is always possible once `a` minus its last row fits into `b`
        SubsequenceDropLast(a, b);
      }
    }
  }

  lemma {:induction false} SubsequenceDropLast(a: seq<Player>, b: seq<Player>)
    requires a != [] && IsSubsequence(a, b)
    ensures IsSubsequence(a[..|a| - 1], b)
    decreases |b|, 0
  {
    var init := a[..|a| - 1];
    assert b != [];
    var binit := b[..|b| - 1];
    if a[|a| - 1] == b[|b| - 1] {
      SubsequenceOfLonger(init, binit, b[|b| - 1]);
      assert binit + [b[|b| - 1]] == b;
    } else {
      SubsequenceDropLast(a, binit);
      SubsequenceOfLonger(init, binit, b[|b| - 1]);
      assert binit + [b[|b| - 1]] == b;
    }
  }

  /** The view keeps the dataset's order. */
  lemma FilteredViewIsSubsequence(ds: seq<Player>, sel: Selection, top: seq<string>)
    ensures IsSubsequence(FilteredView(ds, sel, top), ds)
  {
    KeepIsSubsequence(ds, Criteria(sel, top));
  }

  lemma {:induction false} KeepTwice(s: seq<Player>, cs: seq<Criterion>)
    ensures Keep(Keep(s, cs), cs) == Keep(s, cs)
  {
    if s != [] {
      var init, last := s[..|s| - 1], s[|s| - 1];
      KeepTwice(init, cs);
      var kept := Keep(init, cs);
      if MatchesAll(cs, last) {
        assert (kept + [last])[..|kept + [last]| - 1] == kept;
      }
    }
  }

  /** Applying the same selection to the view again changes nothing. */
  lemma FilterIdempotent(ds: seq<Player>, sel: Selection, top: seq<string>)
    ensures FilteredView(FilteredView(ds, sel, top), sel, top) == FilteredView(ds, sel, top)
  {
    KeepTwice(ds, Criteria(sel, top));
  }

  /** With every select box on the wildcard the view is the dataset itself. */
  lemma AllWildcardIsIdentity(ds: seq<Player>, top: seq<string>)
    ensures FilteredView(ds, Selection(Wildcard, Wildcard, Wildcard, Wildcard), top) == ds
  {
    KeepNothing(ds);
  }

  /** The "other" bucket keeps exactly the rows whose location is not a top location;
      any other location keeps exactly the rows at that location. */
  lemma LocationSelection(ds: seq<Player>, loc: string, top: seq<string>, x: Player)
    requires loc != Wildcard
    ensures x in FilteredView(ds, Selection(Wildcard, Wildcard, Wildcard, loc), top) <==>
            x in ds && (if loc == OtherLocations then x.location !in top else x.location == loc)
  {
    FilteredViewCounts(ds, Selection(Wildcard, Wildcard, Wildcard, loc), top, x);
  }

  /** The bucket name is also a location value in the generated data. Once that
      location is among the top ones, choosing it selects the bucket, which never
      holds a row at that location. */
  lemma OtherBucketHidesOtherLocation(ds: seq<Player>, sel: Selection, top: seq<string>, x: Player)
    requires sel.location == OtherLocations && OtherLocations in top
    requires x in FilteredView(ds, sel, top)
    ensures x.location != OtherLocations
  {
    FilteredViewCounts(ds, sel, top, x);
  }

  /** On the page the top list comes from the full dataset. When the dataset has at
      most ten distinct locations, every location is a top one and the bucket is
      always empty, whatever the other boxes say. */
  lemma OtherBucketEmptyWithFewLocations(ds: seq<Player>, sel: Selection)
    requires sel.location == OtherLocations
    requires |Locations.Distinct(Locations.LocationColumn(ds))| <= Locations.TopLocationLimit
    ensures FilteredView(ds, sel, Locations.TopLocations(ds)) == []
  {
    var top := Locations.TopLocations(ds);
    var view := FilteredView(ds, sel, top);
    if view != [] {
      var x := view[0];
      FilteredViewCounts(ds, sel, top, x);
      var i :| 0 <= i < |ds| && ds[i] == x;
      Locations.FewLocationsAllTop(ds, x.location);
      assert false;
    }
  }
}
