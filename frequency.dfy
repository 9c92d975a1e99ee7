/** The dashboard's three "top 10" bar charts: occurrences of each distinct
    location, title or author in the filtered view, most frequent first, cut
    to the first ten. */
module Frequency {
  import opened Records

  /** How many entries each bar chart keeps. */
  const TopN := 10

  /** The columns the dashboard ranks. */
  datatype Column = Location | BookTitle | BookAuthor

  function Key(c: Column, r: Row): string
  {
    match c
    case Location => r.location
    case BookTitle => r.bookTitle
    case BookAuthor => r.bookAuthor
  }

  /** Column `c` of a table, row by row. */
  function Keys(c: Column, t: seq<Row>): (ks: seq<string>)
    ensures |ks| == |t|
  {
    seq(|t|, i requires 0 <= i < |t| => Key(c, t[i]))
  }

  /** The number of positions of `s` holding `v`. */
  function Count(s: seq<string>, v: string): (n: nat)
    ensures n <= |s|
    ensures n > 0 <==> v in s
  {
    if s == [] then 0 else (if s[0] == v then 1 else 0) + Count(s[1..], v)
  }

  /** The number of distinct values of `s`. */
  function DistinctCount(s: seq<string>): nat
  {
    |set v | v in s|
  }

  /** One bar: a value of the column and its number of rows. */
  datatype Entry = Entry(value: string, count: nat)

  function Values(es: seq<Entry>): (vs: seq<string>)
    ensures |vs| == |es|
  {
    seq(|es|, i requires 0 <= i < |es| => es[i].value)
  }

  predicate NoDuplicates(s: seq<string>)
  {
    forall i, j :: 0 <= i < j < |s| ==> s[i] != s[j]
  }

  predicate NonIncreasing(es: seq<Entry>)
  {
    forall i, j :: 0 <= i < j < |es| ==> es[i].count >= es[j].count
  }

  /** What counting the values of a column promises, whatever order it picks
      among equal counts: one entry per distinct value, each with its number
      of occurrences, largest count first. */
  predicate IsValueCounts(keys: seq<string>, vc: seq<Entry>)
  {
    && NoDuplicates(Values(vc))
    && (forall i :: 0 <= i < |vc| ==> vc[i].value in keys && vc[i].count == Count(keys, vc[i].value))
    && (forall v :: v in keys ==> v in Values(vc))
    && NonIncreasing(vc)
  }

  /** The first `n` entries, or all of them when there are fewer. */
  function Head(vc: seq<Entry>, n: nat): (h: seq<Entry>)
    ensures |h| == if |vc| < n then |vc| else n
  {
    if |vc| < n then vc else vc[..n]
  }

  /** The sum of the counts of a list of entries. */
  function Total(es: seq<Entry>): nat
  {
    if es == [] then 0 else es[0].count + Total(es[1..])
  }

  // ---------------------------------------------------------------------
  // One way of counting: distinct values in order of first occurrence,
  // each tallied, then stably sorted by decreasing count.

  /** The distinct values of `s`, in order of first occurrence. */
  function FirstOccurrences(s: seq<string>): (d: seq<string>)
    ensures NoDuplicates(d)
    ensures forall v :: v in d <==> v in s
  {
    if s == [] then []
    else
      var d := FirstOccurrences(s[..|s| - 1]);
      assert s == s[..|s| - 1] + [s[|s| - 1]];
      if s[|s| - 1] in d then d else d + [s[|s| - 1]]
  }

  function Tally(d: seq<string>, keys: seq<string>): (es: seq<Entry>)
    ensures |es| == |d|
    ensures forall i :: 0 <= i < |d| ==> es[i] == Entry(d[i], Count(keys, d[i]))
  {
    seq(|d|, i requires 0 <= i < |d| => Entry(d[i], Count(keys, d[i])))
  }

  /** Puts `e` in front of the first entry whose count it reaches. */
  function Insert(e: Entry, s: seq<Entry>): (r: seq<Entry>)
    ensures |r| == |s| + 1
    ensures forall x :: x in r <==> x == e || x in s
  {
    if s == [] || e.count >= s[0].count then [e] + s
    else [s[0]] + Insert(e, s[1..])
  }

  function SortByCount(es: seq<Entry>): (r: seq<Entry>)
    ensures |r| == |es|
    ensures forall x :: x in r <==> x in es
  {
    if es == [] then [] else Insert(es[0], SortByCount(es[1..]))
  }

  /** One admissible result of counting the values of a column in decreasing
      order of count. */
  function ValueCounts(keys: seq<string>): seq<Entry>
  {
    SortByCount(Tally(FirstOccurrences(keys), keys))
  }

  /** The bars of one chart: the ten most frequent values of column `c` in
      the filtered view. */
  function TopValues(c: Column, view: seq<Row>): seq<Entry>
  {
    Head(ValueCounts(Keys(c, view)), TopN)
  }

  // ---------------------------------------------------------------------
  // Lemmas.

  /** In a list sorted by decreasing count, no entry counts more than the
      first. */
  lemma FirstIsLargest(s: seq<Entry>)
    requires NonIncreasing(s) && s != []
    ensures forall x :: x in s ==> x.count <= s[0].count
  {
  }

  /** Inserting into a list sorted by decreasing count keeps it sorted. */
  lemma {:induction false} InsertKeepsOrder(e: Entry, s: seq<Entry>)
    requires NonIncreasing(s)
    ensures NonIncreasing(Insert(e, s))
  {
    if s != [] && e.count < s[0].count {
      var rest := s[1..];
      InsertKeepsOrder(e, rest);
      FirstIsLargest(s);
      var r' := Insert(e, rest);
      assert forall x :: x in r' ==> x.count <= s[0].count;
      assert Insert(e, s) == [s[0]] + r';
    }
  }

  /** `SortByCount` orders entries by decreasing count. */
  lemma {:induction false} SortOrders(es: seq<Entry>)
    ensures NonIncreasing(SortByCount(es))
  {
    if es != [] {
      SortOrders(es[1..]);
      InsertKeepsOrder(es[0], SortByCount(es[1..]));
    }
  }

  /** Entries with distinct values, sorted by `SortByCount`, still have
      distinct values. */
  lemma {:induction false} SortKeepsValuesDistinct(es: seq<Entry>)
    requires NoDuplicates(Values(es))
    ensures NoDuplicates(Values(SortByCount(es)))
  {
    if es != [] {
      var rest := es[1..];
      assert NoDuplicates(Values(rest)) by {
        forall i, j | 0 <= i < j < |rest| ensures Values(rest)[i] != Values(rest)[j] {
          assert Values(es)[i + 1] != Values(es)[j + 1];
        }
      }
      SortKeepsValuesDistinct(rest);
      var sorted := SortByCount(rest);
      forall x | x in sorted ensures x.value != es[0].value {
        var m :| 0 <= m < |rest| && rest[m] == x;
        assert Values(es)[0] != Values(es)[m + 1];
      }
      InsertKeepsValuesDistinct(es[0], sorted);
    }
  }

  lemma {:induction false} InsertKeepsValuesDistinct(e: Entry, s: seq<Entry>)
    requires NoDuplicates(Values(s))
    requires forall x :: x in s ==> x.value != e.value
    ensures NoDuplicates(Values(Insert(e, s)))
  {
    var r := Insert(e, s);
    if s == [] || e.count >= s[0].count {
      assert r == [e] + s;
      forall i, j | 0 <= i < j < |r| ensures Values(r)[i] != Values(r)[j] {
        assert r[j] == s[j - 1];
        if i > 0 {
          assert Values(s)[i - 1] != Values(s)[j - 1];
        } else {
          assert s[j - 1] in s;
        }
      }
    } else {
      var rest := s[1..];
      assert NoDuplicates(Values(rest)) by {
        forall i, j | 0 <= i < j < |rest| ensures Values(rest)[i] != Values(rest)[j] {
          assert Values(s)[i + 1] != Values(s)[j + 1];
        }
      }
      InsertKeepsValuesDistinct(e, rest);
      var r' := Insert(e, rest);
      assert r == [s[0]] + r';
      forall i, j | 0 <= i < j < |r| ensures Values(r)[i] != Values(r)[j] {
        if i > 0 {
          assert Values(r')[i - 1] != Values(r')[j - 1];
        } else {
          var x := r'[j - 1];
          assert x in r';
          if x != e {
            var m :| 0 <= m < |rest| && rest[m] == x;
            assert Values(s)[0] != Values(s)[m + 1];
          } else {
            assert s[0] in s;
          }
        }
      }
    }
  }

  /** `ValueCounts` meets the promise of counting, so such a list exists for
      every column. */
  lemma ValueCountsIsValueCounts(keys: seq<string>)
    ensures IsValueCounts(keys, ValueCounts(keys))
  {
    var d := FirstOccurrences(keys);
    var es := Tally(d, keys);
    var vc := ValueCounts(keys);
    assert Values(es) == d;
    SortKeepsValuesDistinct(es);
    SortOrders(es);
    forall i | 0 <= i < |vc| ensures vc[i].value in keys && vc[i].count == Count(keys, vc[i].value) {
      assert vc[i] in vc;
      var m :| 0 <= m < |es| && es[m] == vc[i];
      assert d[m] in d;
    }
    forall v | v in keys ensures v in Values(vc) {
      var m :| 0 <= m < |d| && d[m] == v;
      assert es[m] in es;
      var i :| 0 <= i < |vc| && vc[i] == es[m];
      assert Values(vc)[i] == v;
    }
  }

  /** A list without duplicates has as many distinct values as entries. */
  lemma {:induction false} NoDuplicatesDistinctCount(s: seq<string>)
    requires NoDuplicates(s)
    ensures DistinctCount(s) == |s|
  {
    if s != [] {
      var rest := s[1..];
      NoDuplicatesDistinctCount(rest);
      assert (set v | v in s) == {s[0]} + (set v | v in rest);
      assert s[0] !in (set v | v in rest);
    }
  }

  /** A counting result has one entry per distinct value. */
  lemma ValueCountsLength(keys: seq<string>, vc: seq<Entry>)
    requires IsValueCounts(keys, vc)
    ensures |vc| == DistinctCount(keys)
  {
    NoDuplicatesDistinctCount(Values(vc));
    assert (set v | v in Values(vc)) == (set v | v in keys);
  }

  /** The chart shows ten bars, or one per distinct value when there are
      fewer: never more than ten, never more than the distinct values, and
      none for an empty view. */
  lemma TopLength(keys: seq<string>, vc: seq<Entry>)
    requires IsValueCounts(keys, vc)
    ensures |Head(vc, TopN)| == if DistinctCount(keys) < TopN then DistinctCount(keys) else TopN
    ensures keys == [] ==> Head(vc, TopN) == []
  {
    ValueCountsLength(keys, vc);
  }

  /** The bars name distinct values, each with its exact number of rows (so
      at least 1), largest count first. */
  lemma TopEntries(keys: seq<string>, vc: seq<Entry>)
    requires IsValueCounts(keys, vc)
    ensures var top := Head(vc, TopN);
      && NoDuplicates(Values(top))
      && (forall i :: 0 <= i < |top| ==> top[i].count == Count(keys, top[i].value) && top[i].count >= 1)
      && NonIncreasing(top)
  {
    var top := Head(vc, TopN);
    forall i, j | 0 <= i < j < |top| ensures Values(top)[i] != Values(top)[j] {
      assert Values(vc)[i] != Values(vc)[j];
    }
  }

  /** A value left off the chart occurs in no more rows than the last bar,
      and only a full chart leaves a value off. */
  lemma TopIsTop(keys: seq<string>, vc: seq<Entry>)
    requires IsValueCounts(keys, vc)
    ensures var top := Head(vc, TopN);
      forall v :: v in keys && v !in Values(top) ==>
        |top| == TopN && Count(keys, v) <= top[TopN - 1].count
  {
    var top := Head(vc, TopN);
    assert forall j :: 0 <= j < |top| ==> Values(top)[j] == Values(vc)[j];
    forall v | v in keys && v !in Values(top) ensures |top| == TopN && Count(keys, v) <= top[TopN - 1].count {
      var j :| 0 <= j < |vc| && Values(vc)[j] == v;
    }
  }

  /** The sum, over the values of `vs`, of their numbers of occurrences in
      `keys`. */
  function Occurrences(vs: seq<string>, keys: seq<string>): nat
  {
    if vs == [] then 0 else Count(keys, vs[0]) + Occurrences(vs[1..], keys)
  }

  lemma {:induction false} OccurrencesCons(vs: seq<string>, a: string, keys: seq<string>)
    ensures Occurrences(vs, [a] + keys) == Count(vs, a) + Occurrences(vs, keys)
  {
    if vs != [] {
      OccurrencesCons(vs[1..], a, keys);
      assert ([a] + keys)[1..] == keys;
    }
  }

  /** A value occurs at most once in a list without duplicates. */
  lemma {:induction false} CountWithoutDuplicates(vs: seq<string>, a: string)
    requires NoDuplicates(vs)
    ensures Count(vs, a) == if a in vs then 1 else 0
  {
    if vs != [] {
      CountWithoutDuplicates(vs[1..], a);
      if vs[0] == a {
        assert a !in vs[1..];
      }
    }
  }

  /** Distinct values cover at most every row once, and exactly once when
      every value of `keys` is among them. */
  lemma {:induction false} OccurrencesBound(vs: seq<string>, keys: seq<string>)
    requires NoDuplicates(vs)
    ensures Occurrences(vs, keys) <= |keys|
    ensures (forall v :: v in keys ==> v in vs) ==> Occurrences(vs, keys) == |keys|
  {
    if keys == [] {
      OccurrencesOfNothing(vs);
    } else {
      var a, rest := keys[0], keys[1..];
      assert keys == [a] + rest;
      OccurrencesCons(vs, a, rest);
      CountWithoutDuplicates(vs, a);
      OccurrencesBound(vs, rest);
    }
  }

  lemma {:induction false} OccurrencesOfNothing(vs: seq<string>)
    ensures Occurrences(vs, []) == 0
  {
    if vs != [] {
      OccurrencesOfNothing(vs[1..]);
    }
  }

  lemma {:induction false} TotalIsOccurrences(es: seq<Entry>, keys: seq<string>)
    requires forall i :: 0 <= i < |es| ==> es[i].count == Count(keys, es[i].value)
    ensures Total(es) == Occurrences(Values(es), keys)
  {
    if es != [] {
      TotalIsOccurrences(es[1..], keys);
      assert Values(es)[1..] == Values(es[1..]);
    }
  }

  /** The counts of a counting result add up to the number of rows: every
      row is counted under exactly one value. */
  lemma ValueCountsTotal(keys: seq<string>, vc: seq<Entry>)
    requires IsValueCounts(keys, vc)
    ensures Total(vc) == |keys|
  {
    TotalIsOccurrences(vc, keys);
    OccurrencesBound(Values(vc), keys);
  }

  /** The bars of a chart add up to at most the number of rows in the view. */
  lemma TopTotal(keys: seq<string>, vc: seq<Entry>)
    requires IsValueCounts(keys, vc)
    ensures Total(Head(vc, TopN)) <= |keys|
  {
    var top := Head(vc, TopN);
    TopEntries(keys, vc);
    TotalIsOccurrences(top, keys);
    OccurrencesBound(Values(top), keys);
  }

  /** Everything above, for one of the dashboard's charts over a filtered
      view. */
  lemma TopValuesChart(c: Column, view: seq<Row>)
    ensures var top, keys := TopValues(c, view), Keys(c, view);
      && |top| == (if DistinctCount(keys) < TopN then DistinctCount(keys) else TopN)
      && NoDuplicates(Values(top))
      && (forall i :: 0 <= i < |top| ==> top[i].count == Count(keys, top[i].value) && top[i].count >= 1)
      && NonIncreasing(top)
      && Total(top) <= |view|
      && (forall v :: v in keys && v !in Values(top) ==> |top| == TopN && Count(keys, v) <= top[TopN - 1].count)
  {
    var keys := Keys(c, view);
    var vc := ValueCounts(keys);
    ValueCountsIsValueCounts(keys);
    TopLength(keys, vc);
    TopEntries(keys, vc);
    TopTotal(keys, vc);
    TopIsTop(keys, vc);
  }
}
