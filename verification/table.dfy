/**
 * The stored rows of a list model, and the queries the engine runs on them.
 *
 * The table is a sequence of rows in storage order; that order breaks ties
 * between rows that a query orders by an equal key. A row whose position is
 * NULL satisfies no position comparison, as in SQL.
 */
module Table {
  import opened Scoping

  datatype Row = Row(id: Id, attrs: Attrs, position: Option<int>)

  /** The position conditions of the engine's bulk updates. */
  datatype Range =
    | GreaterThan(bound: int)   // :position.gt => bound
    | AtLeast(bound: int)       // :position.gte => bound
    | Between(lo: int, hi: int) // :position => lo..hi (both ends included)

  predicate InRange(position: Option<int>, range: Range)
  {
    position.Some? &&
    match range
    case GreaterThan(b) => position.value > b
    case AtLeast(b) => position.value >= b
    case Between(lo, hi) => lo <= position.value <= hi
  }

  predicate InScope(row: Row, scope: Scope)
  {
    Matches(row.attrs, scope)
  }

  /** A row of `scope` that has a position. */
  predicate Placed(row: Row, scope: Scope)
  {
    InScope(row, scope) && row.position.Some?
  }

  predicate UniqueIds(rows: seq<Row>)
  {
    forall i, j :: 0 <= i < j < |rows| ==> rows[i].id != rows[j].id
  }

  /**
   * The bulk update `adjust!({:position => delta})` on the rows of `scope`
   * whose position is in `range`. It never changes a row's identity or
   * attributes, so it never moves a row to another list.
   */
  function Shifted(rows: seq<Row>, scope: Scope, range: Range, delta: int): (r: seq<Row>)
    ensures |r| == |rows|
    ensures forall i :: 0 <= i < |rows| ==> r[i].id == rows[i].id && r[i].attrs == rows[i].attrs
  {
    seq(|rows|, i requires 0 <= i < |rows| =>
      if InScope(rows[i], scope) && InRange(rows[i].position, range)
      then rows[i].(position := Some(rows[i].position.value + delta))
      else rows[i])
  }

  /** `item.update(:position => position)` for the stored row with key `id`. */
  function SetPosition(rows: seq<Row>, id: Id, position: Option<int>): (r: seq<Row>)
    ensures |r| == |rows|
    ensures forall i :: 0 <= i < |rows| ==> r[i].id == rows[i].id && r[i].attrs == rows[i].attrs
    ensures forall i :: 0 <= i < |rows| && rows[i].id == id ==> r[i].position == position
    ensures forall i :: 0 <= i < |rows| && rows[i].id != id ==> r[i] == rows[i]
  {
    seq(|rows|, i requires 0 <= i < |rows| =>
      if rows[i].id == id then rows[i].(position := position) else rows[i])
  }

  /** The rows a query with filter `scope` selects, in storage order. */
  function Filter(rows: seq<Row>, scope: Scope): (r: seq<Row>)
    ensures |r| <= |rows|
    ensures forall i :: 0 <= i < |r| ==> InScope(r[i], scope)
    decreases |rows|
  {
    if rows == [] then []
    else
      var n := |rows| - 1;
      Filter(rows[..n], scope) + (if InScope(rows[n], scope) then [rows[n]] else [])
  }

  /** The query selects exactly the rows of `scope`. */
  lemma {:induction false} FilterMembers(rows: seq<Row>, scope: Scope)
    ensures forall x :: x in Filter(rows, scope) <==> x in rows && InScope(x, scope)
    decreases |rows|
  {
    if rows != [] {
      var n := |rows| - 1;
      FilterMembers(rows[..n], scope);
      assert rows == rows[..n] + [rows[n]];
      assert forall x :: x in rows <==> x in rows[..n] || x == rows[n];
    }
  }

  /** The number of records in the list `scope`. */
  function Count(rows: seq<Row>, scope: Scope): nat
  {
    |Filter(rows, scope)|
  }

  lemma {:induction false} FilterConcat(a: seq<Row>, b: seq<Row>, scope: Scope)
    ensures Filter(a + b, scope) == Filter(a, scope) + Filter(b, scope)
    decreases |b|
  {
    if b == [] {
      assert a + b == a;
    } else {
      var n := |b| - 1;
      assert (a + b)[..|a + b| - 1] == a + b[..n];
      FilterConcat(a, b[..n], scope);
    }
  }

  /** Replacing one row changes the count of a list only by the two rows' membership. */
  lemma CountUpdate(rows: seq<Row>, k: nat, r: Row, scope: Scope)
    requires k < |rows|
    ensures Count(rows[k := r], scope) + (if InScope(rows[k], scope) then 1 else 0)
         == Count(rows, scope) + (if InScope(r, scope) then 1 else 0)
  {
    assert rows == rows[..k] + [rows[k]] + rows[k + 1..];
    assert rows[k := r] == rows[..k] + [r] + rows[k + 1..];
    FilterConcat(rows[..k] + [rows[k]], rows[k + 1..], scope);
    FilterConcat(rows[..k], [rows[k]], scope);
    FilterConcat(rows[..k] + [r], rows[k + 1..], scope);
    FilterConcat(rows[..k], [r], scope);
    assert Filter([rows[k]], scope) == Filter([], scope) + (if InScope(rows[k], scope) then [rows[k]] else []);
    assert Filter([r], scope) == Filter([], scope) + (if InScope(r, scope) then [r] else []);
  }

  /** Deleting an out-of-scope row leaves the count of a list unchanged; deleting an in-scope one lowers it by one. */
  lemma CountDrop(rows: seq<Row>, k: nat, scope: Scope)
    requires k < |rows|
    ensures Count(rows[..k] + rows[k + 1..], scope) + (if InScope(rows[k], scope) then 1 else 0)
         == Count(rows, scope)
  {
    assert rows == rows[..k] + [rows[k]] + rows[k + 1..];
    FilterConcat(rows[..k] + [rows[k]], rows[k + 1..], scope);
    FilterConcat(rows[..k], [rows[k]], scope);
    FilterConcat(rows[..k], rows[k + 1..], scope);
    assert Filter([rows[k]], scope) == Filter([], scope) + (if InScope(rows[k], scope) then [rows[k]] else []);
  }

  lemma CountAppend(rows: seq<Row>, r: Row, scope: Scope)
    ensures Count(rows + [r], scope) == Count(rows, scope) + (if InScope(r, scope) then 1 else 0)
  {
    assert (rows + [r])[..|rows|] == rows;
  }

  /** Two tables that agree on which rows are in `scope` have lists of the same length. */
  lemma {:induction false} CountSame(a: seq<Row>, b: seq<Row>, scope: Scope)
    requires |a| == |b|
    requires forall i :: 0 <= i < |a| ==> (InScope(a[i], scope) <==> InScope(b[i], scope))
    ensures Count(a, scope) == Count(b, scope)
    decreases |a|
  {
    if a != [] {
      CountSame(a[..|a| - 1], b[..|b| - 1], scope);
    }
  }

  /** A row of `scope` with a position below `below` (any position when `below` is None). */
  predicate PlacedBelow(row: Row, scope: Scope, below: Option<int>)
  {
    Placed(row, scope) && (below.None? || row.position.value < below.value)
  }

  /**
   * The first row of `list(scope)` in descending position order that has a
   * position below `below`: the greatest such position, and of rows tied on
   * it the last in storage order. None when there is none.
   */
  function HighestBelow(rows: seq<Row>, scope: Scope, below: Option<int>): (r: Option<nat>)
    ensures r.Some? ==> r.value < |rows| && PlacedBelow(rows[r.value], scope, below)
    ensures r.Some? ==> forall i :: 0 <= i < |rows| && PlacedBelow(rows[i], scope, below) ==>
      rows[i].position.value <= rows[r.value].position.value
    ensures r.Some? ==> forall i :: r.value < i < |rows| && PlacedBelow(rows[i], scope, below) ==>
      rows[i].position.value < rows[r.value].position.value
    ensures r.None? <==> forall i :: 0 <= i < |rows| ==> !PlacedBelow(rows[i], scope, below)
    decreases |rows|
  {
    if rows == [] then None
    else
      var n := |rows| - 1;
      var prev := HighestBelow(rows[..n], scope, below);
      assert forall i :: 0 <= i < n ==> rows[..n][i] == rows[i];
      if PlacedBelow(rows[n], scope, below) &&
         (prev.None? || rows[prev.value].position.value <= rows[n].position.value)
      then Some(n)
      else prev
  }

  /** The last row of `scope` in storage order, whatever its position; None when the list is empty. */
  function LastIn(rows: seq<Row>, scope: Scope): (r: Option<nat>)
    ensures r.Some? ==> r.value < |rows| && InScope(rows[r.value], scope)
    ensures r.Some? ==> forall i :: r.value < i < |rows| ==> !InScope(rows[i], scope)
    ensures r.None? <==> forall i :: 0 <= i < |rows| ==> !InScope(rows[i], scope)
    decreases |rows|
  {
    if rows == [] then None
    else
      var n := |rows| - 1;
      assert forall i :: 0 <= i < n ==> rows[..n][i] == rows[i];
      if InScope(rows[n], scope) then Some(n) else LastIn(rows[..n], scope)
  }

  /**
   * `list.last`: the last row of `list(scope)` ordered by position, NULL
   * sorting before every value (as in Repair.Key), so the highest placed
   * row when there is one; when every row of the list is unplaced, the last
   * of them in storage order. None only for an empty list.
   */
  function LastRow(rows: seq<Row>, scope: Scope): (r: Option<nat>)
    ensures r.Some? ==> r.value < |rows| && InScope(rows[r.value], scope)
    ensures r.None? <==> forall i :: 0 <= i < |rows| ==> !InScope(rows[i], scope)
    ensures r.Some? && rows[r.value].position.Some? ==> forall i :: 0 <= i < |rows| && Placed(rows[i], scope) ==>
      rows[i].position.value <= rows[r.value].position.value
    ensures r.Some? && rows[r.value].position.None? ==> forall i :: 0 <= i < |rows| ==> !Placed(rows[i], scope)
  {
    match HighestBelow(rows, scope, None)
    case Some(k) => Some(k)
    case None => LastIn(rows, scope)
  }

  /** A list is empty exactly when no row is in its scope. */
  lemma EmptyList(rows: seq<Row>, scope: Scope)
    ensures Count(rows, scope) == 0 <==> forall i :: 0 <= i < |rows| ==> !InScope(rows[i], scope)
  {
    FilterMembers(rows, scope);
    if Count(rows, scope) == 0 {
      forall i | 0 <= i < |rows|
        ensures !InScope(rows[i], scope)
      {
        assert rows[i] !in Filter(rows, scope);
      }
    } else {
      assert Filter(rows, scope)[0] in Filter(rows, scope);
    }
  }

  /** A row of `scope` with a position above `above`. */
  predicate PlacedAbove(row: Row, scope: Scope, above: int)
  {
    Placed(row, scope) && row.position.value > above
  }

  /**
   * The first row of `list(scope)` in ascending position order that has a
   * position above `above`: the least such position, and of rows tied on it
   * the first in storage order. None when there is none.
   */
  function LowestAbove(rows: seq<Row>, scope: Scope, above: int): (r: Option<nat>)
    ensures r.Some? ==> r.value < |rows| && PlacedAbove(rows[r.value], scope, above)
    ensures r.Some? ==> forall i :: 0 <= i < |rows| && PlacedAbove(rows[i], scope, above) ==>
      rows[r.value].position.value <= rows[i].position.value
    ensures r.Some? ==> forall i :: 0 <= i < r.value && PlacedAbove(rows[i], scope, above) ==>
      rows[r.value].position.value < rows[i].position.value
    ensures r.None? <==> forall i :: 0 <= i < |rows| ==> !PlacedAbove(rows[i], scope, above)
    decreases |rows|
  {
    if rows == [] then None
    else
      var n := |rows| - 1;
      var prev := LowestAbove(rows[..n], scope, above);
      assert forall i :: 0 <= i < n ==> rows[..n][i] == rows[i];
      if PlacedAbove(rows[n], scope, above) &&
         (prev.None? || rows[n].position.value < rows[prev.value].position.value)
      then Some(n)
      else prev
  }

  /**
   * The list `scope` numbers its records first, first+1, ..., first+n-1 for
   * its n records: every record has a position in that run and no two share
   * one (so, by counting, every number of the run is used; see
   * Invariant.ContiguousIsRun).
   */
  predicate Contiguous(rows: seq<Row>, scope: Scope, first: int)
  {
    && (forall i :: 0 <= i < |rows| && InScope(rows[i], scope) ==>
          rows[i].position.Some? && first <= rows[i].position.value < first + Count(rows, scope))
    && (forall i, j :: 0 <= i < j < |rows| && InScope(rows[i], scope) && InScope(rows[j], scope) ==>
          rows[i].position != rows[j].position)
  }
}
