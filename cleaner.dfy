/** The one-off cleaning script: in the loaded table it blanks every age above
    80 and every rating of 0, then writes the table back over its file. */
module Cleaner {
  import opened Records

  /** Ages strictly above this limit are taken to be erroneous. */
  const AgeLimit := 80

  predicate ImplausibleAge(m: Measure) { m.Present? && m.value > AgeLimit }

  /** A rating of 0 stands for "no rating given". */
  predicate ZeroRating(m: Measure) { m.Present? && m.value == 0 }

  /** The age rule, on one row. */
  function BlankAge(r: Row): Row
  {
    if ImplausibleAge(r.age) then r.(age := Missing) else r
  }

  /** The rating rule, on one row. */
  function BlankRating(r: Row): Row
  {
    if ZeroRating(r.bookRating) then r.(bookRating := Missing) else r
  }

  /** A per-row rule applied to a whole table, row order kept. */
  function MapRows(f: Row -> Row, t: seq<Row>): seq<Row>
  {
    if t == [] then [] else [f(t[0])] + MapRows(f, t[1..])
  }

  /** The first statement of the script: the age column. */
  function AgePass(t: seq<Row>): seq<Row> { MapRows(BlankAge, t) }

  /** The second statement of the script: the rating column. */
  function RatingPass(t: seq<Row>): seq<Row> { MapRows(BlankRating, t) }

  /** The whole cleaning script, the age statement first. */
  function Clean(t: seq<Row>): seq<Row> { RatingPass(AgePass(t)) }

  /** No present age above the limit and no present rating of zero. */
  predicate IsClean(t: seq<Row>)
  {
    forall k :: 0 <= k < |t| ==> !ImplausibleAge(t[k].age) && !ZeroRating(t[k].bookRating)
  }

  /** A column statement keeps the number and order of the rows and changes
      each row by the rule alone. */
  lemma {:induction false} MapRowsAt(f: Row -> Row, t: seq<Row>)
    ensures |MapRows(f, t)| == |t|
    ensures forall k :: 0 <= k < |t| ==> MapRows(f, t)[k] == f(t[k])
  {
    if t != [] {
      MapRowsAt(f, t[1..]);
    }
  }

  /** What cleaning does to row `k`: an age above 80 becomes missing while 80,
      anything lower and a missing age are kept; a rating of 0 becomes missing
      while any other rating is kept; each rule reads only its own column, so
      one row can be hit by both; every other column is left as it was. */
  lemma CleanRow(t: seq<Row>, k: int)
    requires 0 <= k < |t|
    ensures |Clean(t)| == |t|
    ensures ImplausibleAge(t[k].age) ==> Clean(t)[k].age == Missing
    ensures !ImplausibleAge(t[k].age) ==> Clean(t)[k].age == t[k].age
    ensures ZeroRating(t[k].bookRating) ==> Clean(t)[k].bookRating == Missing
    ensures !ZeroRating(t[k].bookRating) ==> Clean(t)[k].bookRating == t[k].bookRating
    ensures Clean(t)[k] == t[k].(age := Clean(t)[k].age, bookRating := Clean(t)[k].bookRating)
  {
    MapRowsAt(BlankAge, t);
    MapRowsAt(BlankRating, AgePass(t));
  }

  /** The thresholds at their edges: 81 is blanked, 80 is kept; a rating of 0
      is blanked, a rating of 1 is kept. */
  lemma Thresholds(r: Row)
    ensures Clean([r.(age := Present(81))])[0].age == Missing
    ensures Clean([r.(age := Present(80))])[0].age == Present(80)
    ensures Clean([r.(bookRating := Present(0))])[0].bookRating == Missing
    ensures Clean([r.(bookRating := Present(1))])[0].bookRating == Present(1)
  {
  }

  /** The two statements are independent: running them in the other order
      gives the same table. */
  lemma PassesCommute(t: seq<Row>)
    ensures AgePass(RatingPass(t)) == RatingPass(AgePass(t))
  {
    MapRowsAt(BlankRating, t);
    MapRowsAt(BlankAge, RatingPass(t));
    MapRowsAt(BlankAge, t);
    MapRowsAt(BlankRating, AgePass(t));
  }

  /** After cleaning, no present age exceeds 80 and no present rating is 0. */
  lemma CleanedIsClean(t: seq<Row>)
    ensures IsClean(Clean(t))
  {
    MapRowsAt(BlankAge, t);
    MapRowsAt(BlankRating, AgePass(t));
    forall k | 0 <= k < |t|
      ensures !ImplausibleAge(Clean(t)[k].age) && !ZeroRating(Clean(t)[k].bookRating)
    {
      CleanRow(t, k);
    }
  }

  /** Cleaning leaves a table unchanged exactly when it is already clean. */
  lemma CleanFixedPoints(t: seq<Row>)
    ensures Clean(t) == t <==> IsClean(t)
  {
    MapRowsAt(BlankAge, t);
    MapRowsAt(BlankRating, AgePass(t));
    if IsClean(t) {
      forall k | 0 <= k < |t| ensures Clean(t)[k] == t[k] {
        CleanRow(t, k);
      }
    } else {
      CleanedIsClean(t);
    }
  }

  /** Cleaning twice is cleaning once: the missing marker is neither above 80
      nor equal to 0. */
  lemma CleanIdempotent(t: seq<Row>)
    ensures Clean(Clean(t)) == Clean(t)
  {
    CleanedIsClean(t);
    CleanFixedPoints(Clean(t));
  }

  /** The age statement, in place on the loaded table. */
  method BlankImplausibleAges(table: array<Row>)
    modifies table
    ensures table[..] == AgePass(old(table[..]))
  {
    var i := 0;
    while i < table.Length
      invariant 0 <= i <= table.Length
      invariant forall k :: 0 <= k < i ==> table[k] == BlankAge(old(table[k]))
      invariant forall k :: i <= k < table.Length ==> table[k] == old(table[k])
    {
      if table[i].age.Present? && table[i].age.value > AgeLimit {
        table[i] := table[i].(age := Missing);
      }
      i := i + 1;
    }
    MapRowsAt(BlankAge, old(table[..]));
  }

  /** The rating statement, in place on the loaded table. */
  method BlankZeroRatings(table: array<Row>)
    modifies table
    ensures table[..] == RatingPass(old(table[..]))
  {
    var i := 0;
    while i < table.Length
      invariant 0 <= i <= table.Length
      invariant forall k :: 0 <= k < i ==> table[k] == BlankRating(old(table[k]))
      invariant forall k :: i <= k < table.Length ==> table[k] == old(table[k])
    {
      if table[i].bookRating.Present? && table[i].bookRating.value == 0 {
        table[i] := table[i].(bookRating := Missing);
      }
      i := i + 1;
    }
    MapRowsAt(BlankRating, old(table[..]));
  }

  /** The script: both statements, in order, on the same table. */
  method CleanInPlace(table: array<Row>)
    modifies table
    ensures table[..] == Clean(old(table[..]))
    ensures IsClean(table[..])
  {
    BlankImplausibleAges(table);
    BlankZeroRatings(table);
    CleanedIsClean(old(table[..]));
  }
}
