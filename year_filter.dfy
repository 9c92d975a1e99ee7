/** The dashboard's year-of-publication selection: a slider returns an
    inclusive range, and a boolean mask keeps the rows published in it. */
module YearFilter {
  import opened Records

  /** The slider's bounds. */
  const SliderMin := 1950
  const SliderMax := 2020

  /** The (start, end) pair the slider returns. */
  datatype Selection = Selection(lo: int, hi: int)

  /** The slider's initial value: its whole range. */
  const DefaultSelection := Selection(SliderMin, SliderMax)

  /** What the slider can return. */
  predicate SliderAllows(s: Selection) { SliderMin <= s.lo <= s.hi <= SliderMax }

  /** The mask, on one row: both bounds are inclusive. */
  predicate Selected(s: Selection, r: Row) { r.yearPub >= s.lo && r.yearPub <= s.hi }

  /** The filtered view: the rows the mask keeps, in table order. */
  function FilterByYear(t: seq<Row>, s: Selection): (f: seq<Row>)
    ensures |f| <= |t|
  {
    if t == [] then []
    else
      var f := FilterByYear(t[..|t| - 1], s);
      if Selected(s, t[|t| - 1]) then f + [t[|t| - 1]] else f
  }

  /** A row is in the view exactly when it is in the table and its year lies
      in the selected range. */
  lemma {:induction false} FilterMembership(t: seq<Row>, s: Selection)
    ensures forall r :: r in FilterByYear(t, s) <==> r in t && Selected(s, r)
  {
    if t != [] {
      var init := t[..|t| - 1];
      FilterMembership(init, s);
      assert t == init + [t[|t| - 1]];
    }
  }

  /** The positions of the kept rows in the table: the index labels the
      filtered view carries. */
  function KeptPositions(t: seq<Row>, s: Selection): seq<nat>
  {
    if t == [] then []
    else
      var p := KeptPositions(t[..|t| - 1], s);
      if Selected(s, t[|t| - 1]) then p + [|t| - 1] else p
  }

  /** The kept positions are increasing, are exactly the rows the mask
      accepts, and the view holds the table's row at each of them. */
  lemma {:induction false} KeptPositionsSpec(t: seq<Row>, s: Selection)
    ensures |KeptPositions(t, s)| == |FilterByYear(t, s)|
    ensures forall i :: 0 <= i < |KeptPositions(t, s)| ==>
      KeptPositions(t, s)[i] < |t| && FilterByYear(t, s)[i] == t[KeptPositions(t, s)[i]]
    ensures forall i, j :: 0 <= i < j < |KeptPositions(t, s)| ==> KeptPositions(t, s)[i] < KeptPositions(t, s)[j]
    ensures forall k :: 0 <= k < |t| ==> (k in KeptPositions(t, s) <==> Selected(s, t[k]))
  {
    if t != [] {
      var n := |t| - 1;
      var init, last := t[..n], t[n];
      KeptPositionsSpec(init, s);
      var p0, f0 := KeptPositions(init, s), FilterByYear(init, s);
      var p, f := KeptPositions(t, s), FilterByYear(t, s);
      assert n !in p0;
      if Selected(s, last) {
        assert p == p0 + [n];
        assert f == f0 + [last];
        forall i | 0 <= i < |p| ensures p[i] < |t| && f[i] == t[p[i]] {
          if i < |p0| {
            assert init[p0[i]] == t[p0[i]];
          }
        }
        forall k | 0 <= k < |t| ensures k in p <==> Selected(s, t[k]) {
          if k < n {
            assert init[k] == t[k];
          }
        }
      } else {
        assert p == p0;
        assert f == f0;
        forall i | 0 <= i < |p| ensures p[i] < |t| && f[i] == t[p[i]] {
          assert init[p0[i]] == t[p0[i]];
        }
        forall k | 0 <= k < |t| ensures k in p <==> Selected(s, t[k]) {
          if k < n {
            assert init[k] == t[k];
          }
        }
      }
    }
  }

  /** `a` is `b` with some rows dropped and the rest in their original order. */
  ghost predicate IsSubsequence(a: seq<Row>, b: seq<Row>)
  {
    exists p: seq<nat> ::
      && |p| == |a|
      && (forall i, j :: 0 <= i < j < |p| ==> p[i] < p[j])
      && (forall i :: 0 <= i < |p| ==> p[i] < |b| && a[i] == b[p[i]])
  }

  /** The view is a subsequence of the table: rows are not modified and keep
      their relative order. */
  lemma FilterIsSubsequence(t: seq<Row>, s: Selection)
    ensures IsSubsequence(FilterByYear(t, s), t)
  {
    KeptPositionsSpec(t, s);
    var p := KeptPositions(t, s);
    assert |p| == |FilterByYear(t, s)|;
  }

  /** Each row in range appears in the view as often as in the table; every
      other row not at all. */
  lemma {:induction false} FilterMultiplicity(t: seq<Row>, s: Selection)
    ensures forall r :: multiset(FilterByYear(t, s))[r] == if Selected(s, r) then multiset(t)[r] else 0
  {
    if t != [] {
      var init, last := t[..|t| - 1], t[|t| - 1];
      FilterMultiplicity(init, s);
      assert t == init + [last];
    }
  }

  /** The view is the whole table, in order, exactly when every year is in
      range. */
  lemma {:induction false} FilterKeepsAllIff(t: seq<Row>, s: Selection)
    ensures FilterByYear(t, s) == t <==> forall k :: 0 <= k < |t| ==> Selected(s, t[k])
  {
    if forall k :: 0 <= k < |t| ==> Selected(s, t[k]) {
      if t != [] {
        var init := t[..|t| - 1];
        FilterKeepsAllIff(init, s);
        assert forall k :: 0 <= k < |init| ==> init[k] == t[k];
        assert t == init + [t[|t| - 1]];
      }
    } else {
      FilterMembership(t, s);
      var k :| 0 <= k < |t| && !Selected(s, t[k]);
      assert t[k] in t;
    }
  }

  /** The view is empty exactly when no year is in range; an empty view is a
      normal result. */
  lemma {:induction false} FilterEmptyIff(t: seq<Row>, s: Selection)
    ensures FilterByYear(t, s) == [] <==> forall k :: 0 <= k < |t| ==> !Selected(s, t[k])
  {
    FilterMembership(t, s);
    if FilterByYear(t, s) != [] {
      assert FilterByYear(t, s)[0] in FilterByYear(t, s);
    } else {
      forall k | 0 <= k < |t| ensures !Selected(s, t[k]) {
        assert t[k] in t;
      }
    }
  }

  /** The slider's initial range is one it can return, and at that range the
      view keeps exactly the rows published from 1950 to 2020. */
  lemma {:induction false} DefaultSelectionView(t: seq<Row>)
    ensures SliderAllows(DefaultSelection)
    ensures forall r :: r in FilterByYear(t, DefaultSelection) <==> r in t && SliderMin <= r.yearPub <= SliderMax
  {
    FilterMembership(t, DefaultSelection);
  }

  /** At the slider's initial range the view is the whole table exactly when
      no year lies outside 1950 to 2020: rows outside are dropped even then. */
  lemma {:induction false} DefaultSelectionKeepsAllIff(t: seq<Row>)
    ensures FilterByYear(t, DefaultSelection) == t <==> forall k :: 0 <= k < |t| ==> SliderMin <= t[k].yearPub <= SliderMax
  {
    FilterKeepsAllIff(t, DefaultSelection);
  }

  /** Whatever the slider returns, the view holds only rows published from
      1950 to 2020; a single-year range keeps exactly that year. */
  lemma {:induction false} SliderView(t: seq<Row>, s: Selection)
    requires SliderAllows(s)
    ensures forall r :: r in FilterByYear(t, s) ==> SliderMin <= r.yearPub <= SliderMax
    ensures s.lo == s.hi ==> forall r :: r in FilterByYear(t, s) <==> r in t && r.yearPub == s.lo
  {
    FilterMembership(t, s);
  }
}
