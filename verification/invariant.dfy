/**
 * The list invariant: in every list, the positions of its records are
 * exactly first, first+1, ..., first+n-1. These lemmas show which engine
 * operations keep it, reading the table as the ORM leaves it once the
 * moved record itself has been saved (its row replaced, appended or deleted).
 */
module Invariant {
  import opened Scoping
  import opened Table
  import opened Engine

  // ---------------------------------------------------------------------
  // What Contiguous means: the positions form the run, each used once.

  /** The indices of the rows of a list. */
  function Members(rows: seq<Row>, scope: Scope): set<nat>
  {
    set i: nat | i < |rows| && InScope(rows[i], scope)
  }

  /** The positions held by the rows at indices `idx`. */
  function PositionsAt(rows: seq<Row>, idx: set<nat>): set<int>
  {
    set i | i in idx && i < |rows| && rows[i].position.Some? :: rows[i].position.value
  }

  /** The run first, first+1, ..., first+n-1. */
  function Run(first: int, n: nat): (r: set<int>)
    ensures forall x :: x in r <==> first <= x < first + n
    ensures |r| == n
  {
    if n == 0 then {} else Run(first, n - 1) + {first + n - 1}
  }

  lemma {:induction false} MembersSize(rows: seq<Row>, scope: Scope)
    ensures |Members(rows, scope)| == Count(rows, scope)
    decreases |rows|
  {
    if rows != [] {
      var n := |rows| - 1;
      MembersSize(rows[..n], scope);
      assert Members(rows, scope) ==
        Members(rows[..n], scope) + (if InScope(rows[n], scope) then {n} else {});
    }
  }

  /** Placed rows with pairwise different positions hold as many positions as there are rows. */
  lemma {:induction false} DistinctPositionsSize(rows: seq<Row>, idx: set<nat>)
    requires forall i :: i in idx ==> i < |rows| && rows[i].position.Some?
    requires forall i, j :: i in idx && j in idx && i != j ==> rows[i].position != rows[j].position
    ensures |PositionsAt(rows, idx)| == |idx|
    decreases idx
  {
    if idx != {} {
      var i :| i in idx;
      var rest := idx - {i};
      DistinctPositionsSize(rows, rest);
      assert PositionsAt(rows, idx) == PositionsAt(rows, rest) + {rows[i].position.value};
      assert rows[i].position.value !in PositionsAt(rows, rest);
    }
  }

  /**
   * A contiguous list of n records holds exactly the positions
   * first..first+n-1: no gap and no duplicate.
   */
  lemma ContiguousIsRun(rows: seq<Row>, scope: Scope, first: int)
    requires Contiguous(rows, scope, first)
    ensures PositionsAt(rows, Members(rows, scope)) == Run(first, Count(rows, scope))
  {
    var n := Count(rows, scope);
    var m := Members(rows, scope);
    var ps := PositionsAt(rows, m);
    MembersSize(rows, scope);
    DistinctPositionsSize(rows, m);
    assert ps <= Run(first, n);
    assert |Run(first, n) - ps| == |Run(first, n)| - |ps| == 0;
  }

  /** Every number of the run is the position of some record of a contiguous list. */
  lemma RunIsTaken(rows: seq<Row>, scope: Scope, first: int, x: int) returns (i: nat)
    requires Contiguous(rows, scope, first)
    requires first <= x < first + Count(rows, scope)
    ensures i < |rows| && InScope(rows[i], scope) && rows[i].position == Some(x)
  {
    ContiguousIsRun(rows, scope, first);
    assert x in Run(first, Count(rows, scope));
    var m := Members(rows, scope);
    assert x in PositionsAt(rows, m);
    i :| i in m && i < |rows| && rows[i].position.Some? && rows[i].position.value == x;
  }

  // ---------------------------------------------------------------------
  // Saving: the table once the record's own row carries its new position.

  /** The table after saving the record stored at index k with `position`. */
  function Saved(rows: seq<Row>, k: nat, position: Option<int>): seq<Row>
    requires k < |rows|
  {
    rows[k := rows[k].(position := position)]
  }

  /** Two different records of a contiguous list never share a position. */
  lemma Apart(rows: seq<Row>, scope: Scope, first: int, i: nat, j: nat)
    requires Contiguous(rows, scope, first)
    requires i < |rows| && j < |rows| && i != j
    requires InScope(rows[i], scope) && InScope(rows[j], scope)
    ensures rows[i].position != rows[j].position
  {
    if j < i {
      assert rows[j].position != rows[i].position;
    }
  }

  /** Tables that agree on the membership and the positions of a list agree on its contiguity. */
  lemma ContiguousCongruent(a: seq<Row>, b: seq<Row>, scope: Scope, first: int)
    requires Contiguous(a, scope, first)
    requires |a| == |b|
    requires forall i :: 0 <= i < |a| ==> (InScope(a[i], scope) <==> InScope(b[i], scope))
    requires forall i :: 0 <= i < |a| && InScope(a[i], scope) ==> a[i].position == b[i].position
    ensures Contiguous(b, scope, first)
  {
    CountSame(a, b, scope);
  }

  /** Closing p and opening t below it (p <= t): the records at p+1..t move up one. */
  lemma DownSlot(rows: seq<Row>, scope: Scope, first: int, k: nat, t: int, i: nat, j: nat)
    requires Contiguous(rows, scope, first)
    requires k < |rows| && InScope(rows[k], scope) && rows[k].position.Some?
    requires rows[k].position.value <= t < first + Count(rows, scope)
    requires i < |rows| && j < |rows| && i != k && j != k
    requires InScope(rows[i], scope) && InScope(rows[j], scope)
    ensures var u := Shifted(rows, scope, Between(rows[k].position.value, t), -1);
      && u[i].position.Some? && first <= u[i].position.value < first + Count(rows, scope)
      && u[i].position != Some(t)
      && (i != j ==> u[i].position != u[j].position)
  {
    Apart(rows, scope, first, i, k);
    Apart(rows, scope, first, j, k);
    if i != j {
      Apart(rows, scope, first, i, j);
    }
  }

  /**
   * Moving the record at k from p down to t (p <= t < first+n): the records
   * at p+1..t move up one, the record takes t; the list stays contiguous.
   */
  lemma ShiftDownKeeps(rows: seq<Row>, scope: Scope, first: int, k: nat, t: int)
    requires Contiguous(rows, scope, first)
    requires k < |rows| && InScope(rows[k], scope) && rows[k].position.Some?
    requires rows[k].position.value <= t < first + Count(rows, scope)
    ensures Contiguous(Saved(Shifted(rows, scope, Between(rows[k].position.value, t), -1), k, Some(t)), scope, first)
  {
    var u := Shifted(rows, scope, Between(rows[k].position.value, t), -1);
    var r := Saved(u, k, Some(t));
    CountSame(r, rows, scope);
    forall i | 0 <= i < |r| && InScope(r[i], scope)
      ensures r[i].position.Some? && first <= r[i].position.value < first + Count(r, scope)
    {
      if i != k {
        DownSlot(rows, scope, first, k, t, i, i);
      }
    }
    forall i, j | 0 <= i < j < |r| && InScope(r[i], scope) && InScope(r[j], scope)
      ensures r[i].position != r[j].position
    {
      if i == k {
        DownSlot(rows, scope, first, k, t, j, j);
      } else if j == k {
        DownSlot(rows, scope, first, k, t, i, i);
      } else {
        DownSlot(rows, scope, first, k, t, i, j);
      }
    }
  }

  /** Closing p and opening t above it (t <= p): the records at t..p-1 move down one. */
  lemma UpSlot(rows: seq<Row>, scope: Scope, first: int, k: nat, t: int, i: nat, j: nat)
    requires Contiguous(rows, scope, first)
    requires k < |rows| && InScope(rows[k], scope) && rows[k].position.Some?
    requires first <= t <= rows[k].position.value
    requires i < |rows| && j < |rows| && i != k && j != k
    requires InScope(rows[i], scope) && InScope(rows[j], scope)
    ensures var u := Shifted(rows, scope, Between(t, rows[k].position.value), 1);
      && u[i].position.Some? && first <= u[i].position.value < first + Count(rows, scope)
      && u[i].position != Some(t)
      && (i != j ==> u[i].position != u[j].position)
  {
    Apart(rows, scope, first, i, k);
    Apart(rows, scope, first, j, k);
    if i != j {
      Apart(rows, scope, first, i, j);
    }
  }

  /**
   * Moving the record at k from p up to t (first <= t <= p): the records at
   * t..p-1 move down one, the record takes t; the list stays contiguous.
   */
  lemma ShiftUpKeeps(rows: seq<Row>, scope: Scope, first: int, k: nat, t: int)
    requires Contiguous(rows, scope, first)
    requires k < |rows| && InScope(rows[k], scope) && rows[k].position.Some?
    requires first <= t <= rows[k].position.value
    ensures Contiguous(Saved(Shifted(rows, scope, Between(t, rows[k].position.value), 1), k, Some(t)), scope, first)
  {
    var u := Shifted(rows, scope, Between(t, rows[k].position.value), 1);
    var r := Saved(u, k, Some(t));
    CountSame(r, rows, scope);
    forall i | 0 <= i < |r| && InScope(r[i], scope)
      ensures r[i].position.Some? && first <= r[i].position.value < first + Count(r, scope)
    {
      if i != k {
        UpSlot(rows, scope, first, k, t, i, i);
      }
    }
    forall i, j | 0 <= i < j < |r| && InScope(r[i], scope) && InScope(r[j], scope)
      ensures r[i].position != r[j].position
    {
      if i == k {
        UpSlot(rows, scope, first, k, t, j, j);
      } else if j == k {
        UpSlot(rows, scope, first, k, t, i, i);
      } else {
        UpSlot(rows, scope, first, k, t, i, j);
      }
    }
  }

  /** Opening a slot at t (first <= t <= first+n): the records at t and below move down one. */
  lemma OpenedSlot(rows: seq<Row>, scope: Scope, first: int, t: int, i: nat, j: nat)
    requires Contiguous(rows, scope, first)
    requires first <= t <= first + Count(rows, scope)
    requires i < |rows| && j < |rows| && InScope(rows[i], scope) && InScope(rows[j], scope)
    ensures var u := Shifted(rows, scope, AtLeast(t), 1);
      && u[i].position.Some? && first <= u[i].position.value <= first + Count(rows, scope)
      && u[i].position != Some(t)
      && (i != j ==> u[i].position != u[j].position)
  {
    if i != j {
      Apart(rows, scope, first, i, j);
    }
  }

  /** Inserting a record at an opened slot t, in a row that was not in the list. */
  lemma InsertKeeps(rows: seq<Row>, scope: Scope, first: int, t: int, k: nat, x: Row)
    requires Contiguous(rows, scope, first)
    requires first <= t <= first + Count(rows, scope)
    requires k < |rows| && !InScope(rows[k], scope)
    requires InScope(x, scope) && x.position == Some(t)
    ensures Contiguous(Shifted(rows, scope, AtLeast(t), 1)[k := x], scope, first)
    ensures Count(Shifted(rows, scope, AtLeast(t), 1)[k := x], scope) == Count(rows, scope) + 1
  {
    var u := Shifted(rows, scope, AtLeast(t), 1);
    var r := u[k := x];
    CountSame(u, rows, scope);
    CountUpdate(u, k, x, scope);
    forall i | 0 <= i < |r| && InScope(r[i], scope)
      ensures r[i].position.Some? && first <= r[i].position.value < first + Count(r, scope)
    {
      if i != k {
        OpenedSlot(rows, scope, first, t, i, i);
      }
    }
    forall i, j | 0 <= i < j < |r| && InScope(r[i], scope) && InScope(r[j], scope)
      ensures r[i].position != r[j].position
    {
      if i == k {
        OpenedSlot(rows, scope, first, t, j, j);
      } else if j == k {
        OpenedSlot(rows, scope, first, t, i, i);
      } else {
        OpenedSlot(rows, scope, first, t, i, j);
      }
    }
  }

  /** Inserting a new record, appended to the table, at an opened slot t. */
  lemma AppendKeeps(rows: seq<Row>, scope: Scope, first: int, t: int, x: Row)
    requires Contiguous(rows, scope, first)
    requires first <= t <= first + Count(rows, scope)
    requires InScope(x, scope) && x.position == Some(t)
    ensures Contiguous(Shifted(rows, scope, AtLeast(t), 1) + [x], scope, first)
    ensures Count(Shifted(rows, scope, AtLeast(t), 1) + [x], scope) == Count(rows, scope) + 1
  {
    var u := Shifted(rows, scope, AtLeast(t), 1);
    var r := u + [x];
    CountSame(u, rows, scope);
    CountAppend(u, x, scope);
    forall i | 0 <= i < |r| && InScope(r[i], scope)
      ensures r[i].position.Some? && first <= r[i].position.value < first + Count(r, scope)
    {
      if i < |u| {
        OpenedSlot(rows, scope, first, t, i, i);
      }
    }
    forall i, j | 0 <= i < j < |r| && InScope(r[i], scope) && InScope(r[j], scope)
      ensures r[i].position != r[j].position
    {
      if j == |u| {
        OpenedSlot(rows, scope, first, t, i, i);
      } else {
        OpenedSlot(rows, scope, first, t, i, j);
      }
    }
  }

  /** Closing the slot p of the record at k: the records below p move up one. */
  lemma ClosedSlot(rows: seq<Row>, scope: Scope, first: int, k: nat, i: nat, j: nat)
    requires Contiguous(rows, scope, first)
    requires k < |rows| && InScope(rows[k], scope) && rows[k].position.Some?
    requires i < |rows| && j < |rows| && i != k && j != k
    requires InScope(rows[i], scope) && InScope(rows[j], scope)
    ensures var d := Detached(rows, scope, rows[k].position);
      && d[i].position.Some? && first <= d[i].position.value < first + Count(rows, scope) - 1
      && (i != j ==> d[i].position != d[j].position)
  {
    Apart(rows, scope, first, i, k);
    Apart(rows, scope, first, j, k);
    if i != j {
      Apart(rows, scope, first, i, j);
    }
  }

  /** Detaching the record at k and saving it into another list leaves its old list contiguous. */
  lemma DetachKeeps(rows: seq<Row>, scope: Scope, first: int, k: nat, x: Row)
    requires Contiguous(rows, scope, first)
    requires k < |rows| && InScope(rows[k], scope) && rows[k].position.Some?
    requires !InScope(x, scope)
    ensures Contiguous(Detached(rows, scope, rows[k].position)[k := x], scope, first)
    ensures Count(Detached(rows, scope, rows[k].position)[k := x], scope) + 1 == Count(rows, scope)
  {
    var d := Detached(rows, scope, rows[k].position);
    var r := d[k := x];
    CountSame(d, rows, scope);
    CountUpdate(d, k, x, scope);
    forall i | 0 <= i < |r| && InScope(r[i], scope)
      ensures r[i].position.Some? && first <= r[i].position.value < first + Count(r, scope)
    {
      ClosedSlot(rows, scope, first, k, i, i);
    }
    forall i, j | 0 <= i < j < |r| && InScope(r[i], scope) && InScope(r[j], scope)
      ensures r[i].position != r[j].position
    {
      ClosedSlot(rows, scope, first, k, i, j);
    }
  }

  /** Row i of a table with row k deleted. */
  lemma DroppedRow(d: seq<Row>, k: nat, i: nat)
    requires k < |d| && i < |d| - 1
    ensures (d[..k] + d[k + 1..])[i] == d[if i < k then i else i + 1]
  {
  }

  /**
   * Every record of the list but the one at k holds a position in
   * first..first+n-2, and no two of them share one: the list without k is
   * contiguous.
   */
  predicate ContiguousBut(d: seq<Row>, scope: Scope, first: int, k: nat)
  {
    && (forall i :: 0 <= i < |d| && i != k && InScope(d[i], scope) ==>
          d[i].position.Some? && first <= d[i].position.value < first + Count(d, scope) - 1)
    && (forall i, j ::
          (0 <= i < |d| && 0 <= j < |d| && i != k && j != k && i != j &&
           InScope(d[i], scope) && InScope(d[j], scope)) ==> d[i].position != d[j].position)
  }

  lemma DropFromList(d: seq<Row>, scope: Scope, first: int, k: nat)
    requires k < |d| && InScope(d[k], scope)
    requires ContiguousBut(d, scope, first, k)
    ensures Contiguous(d[..k] + d[k + 1..], scope, first)
    ensures Count(d[..k] + d[k + 1..], scope) + 1 == Count(d, scope)
  {
    var r := d[..k] + d[k + 1..];
    CountDrop(d, k, scope);
    forall i | 0 <= i < |r| && InScope(r[i], scope)
      ensures r[i].position.Some? && first <= r[i].position.value < first + Count(r, scope)
    {
      DroppedRow(d, k, i);
    }
    forall i, j | 0 <= i < j < |r| && InScope(r[i], scope) && InScope(r[j], scope)
      ensures r[i].position != r[j].position
    {
      DroppedRow(d, k, i);
      DroppedRow(d, k, j);
    }
  }

  /**
   * The before-destroy hook on the record stored at k: detaching it and
   * deleting its row leaves its list contiguous, one record shorter.
   */
  lemma DestroyKeepsContiguous(rows: seq<Row>, scope: Scope, first: int, k: nat)
    requires Contiguous(rows, scope, first)
    requires k < |rows| && InScope(rows[k], scope) && rows[k].position.Some?
    ensures var d := Detached(rows, scope, rows[k].position);
      Contiguous(d[..k] + d[k + 1..], scope, first) && Count(d[..k] + d[k + 1..], scope) + 1 == Count(rows, scope)
  {
    var d := Detached(rows, scope, rows[k].position);
    CountSame(d, rows, scope);
    forall i | 0 <= i < |d| && i != k && InScope(d[i], scope)
      ensures d[i].position.Some? && first <= d[i].position.value < first + Count(d, scope) - 1
    {
      ClosedSlot(rows, scope, first, k, i, i);
    }
    forall i, j | 0 <= i < |d| && 0 <= j < |d| && i != k && j != k && i != j &&
                  InScope(d[i], scope) && InScope(d[j], scope)
      ensures d[i].position != d[j].position
    {
      ClosedSlot(rows, scope, first, k, i, j);
    }
    DropFromList(d, scope, first, k);
  }

  // ---------------------------------------------------------------------
  // maxpos of a contiguous list.

  /** The last row of a non-empty contiguous list holds position first+n-1. */
  lemma LastOfContiguous(rows: seq<Row>, scope: Scope, first: int)
    requires Contiguous(rows, scope, first) && Count(rows, scope) > 0
    ensures HighestBelow(rows, scope, None).Some?
    ensures rows[HighestBelow(rows, scope, None).value].position == Some(first + Count(rows, scope) - 1)
  {
    var n := Count(rows, scope);
    var i := RunIsTaken(rows, scope, first, first + n - 1);
    var j := HighestAtLeast(rows, scope, i);
    InRun(rows, scope, first, j);
  }

  /** The row `HighestBelow` finds holds at least the position of any placed row of the list. */
  lemma HighestAtLeast(rows: seq<Row>, scope: Scope, i: nat) returns (j: nat)
    requires i < |rows| && Placed(rows[i], scope)
    ensures HighestBelow(rows, scope, None) == Some(j) && j < |rows| && Placed(rows[j], scope)
    ensures rows[i].position.value <= rows[j].position.value
  {
    assert PlacedBelow(rows[i], scope, None);
    j := HighestBelow(rows, scope, None).value;
  }

  /** A row of a contiguous list holds a position of its run. */
  lemma InRun(rows: seq<Row>, scope: Scope, first: int, j: nat)
    requires Contiguous(rows, scope, first) && j < |rows| && InScope(rows[j], scope)
    ensures rows[j].position.Some? && first <= rows[j].position.value < first + Count(rows, scope)
  {
  }

  /**
   * For a record stored in a contiguous list of n records at position p,
   * `maxpos` is p when the record is the last one, and first+n otherwise.
   */
  lemma MaxPosOfStored(rows: seq<Row>, scope: Scope, first: int, k: nat)
    requires Contiguous(rows, scope, first) && UniqueIds(rows)
    requires k < |rows| && InScope(rows[k], scope) && rows[k].position.Some?
    ensures var p, n := rows[k].position.value, Count(rows, scope);
      MaxPos(rows, scope, rows[k].id, rows[k].position, first) == Some(if p == first + n - 1 then p else first + n)
  {
    var n := Count(rows, scope);
    LastOfContiguous(rows, scope, first);
    var h := HighestBelow(rows, scope, None);
    var j := h.value;
    assert rows[j].position == Some(first + n - 1);
    if j == k {
      assert MaxPos(rows, scope, rows[k].id, rows[k].position, first) == rows[k].position;
    } else {
      Apart(rows, scope, first, j, k);
      IdsApart(rows, j, k);
      assert rows[k].position.value != first + n - 1;
      assert rows[j].id != rows[k].id && rows[j].position.value + 1 == first + n;
      assert MaxPos(rows, scope, rows[k].id, rows[k].position, first) == Some(rows[j].position.value + 1);
    }
  }

  lemma IdsApart(rows: seq<Row>, i: nat, j: nat)
    requires UniqueIds(rows) && i < |rows| && j < |rows| && i != j
    ensures rows[i].id != rows[j].id
  {
    if j < i {
      assert rows[j].id != rows[i].id;
    }
  }

  /** For a record not in a contiguous list of n records, `maxpos` is first+n. */
  lemma MaxPosOfAbsent(rows: seq<Row>, scope: Scope, first: int, id: Id, prepos: Option<int>)
    requires Contiguous(rows, scope, first)
    requires forall i :: 0 <= i < |rows| && InScope(rows[i], scope) ==> rows[i].id != id
    ensures MaxPos(rows, scope, id, prepos, first) == Some(first + Count(rows, scope))
  {
    if Count(rows, scope) > 0 {
      LastOfContiguous(rows, scope, first);
    }
  }

  // ---------------------------------------------------------------------
  // `move` on a record stored in a contiguous list, with nothing assigned
  // since loading (its position and its original position agree).

  /** The slot `:to => i` lands on for a record at p in a list of n: just above the record now at the clamped index. */
  function ToSlot(i: int, p: int, first: int, n: int): int
  {
    var c := Max(first, Min(i, first + n));
    if c > p then c - 1 else c
  }

  /**
   * The shape of an accepted move of a record at p whose position is not
   * assigned since loading, once newpos is known and no guard refuses it:
   * nothing moves, or a shift down, or a shift up.
   */
  lemma MoveShape(rows: seq<Row>, scopeAttrs: set<Attr>, first: int, id: Id, attrs: Attrs,
                  p: int, moved: bool, v: Vector, maxpos: int, newpos: int)
    requires MaxPos(rows, ListScope(scopeAttrs, attrs), id, Some(p), first) == Some(maxpos)
    requires Resolve(v, first, Some(maxpos), Some(p)) == At(newpos)
    requires !((v.Higher? || v.Lower?) && newpos == p)
    requires (v.Above? || v.Below?) ==> ListScope(scopeAttrs, v.target.attrs) == ListScope(scopeAttrs, attrs)
    requires !(maxpos == newpos && p == newpos - 1)
    ensures var scope := ListScope(scopeAttrs, attrs);
      var o := MoveEffect(rows, scopeAttrs, first, id, attrs, Some(p), Some(p), moved, v);
      var t := if TakesOwnSlot(v) then newpos - 1 else newpos;
      && o.reply == Returned(true)
      && (newpos == p ==> o.rows == rows && o.position == Some(p))
      && (newpos > p ==> o.rows == Shifted(rows, scope, Between(p, t), -1) && o.position == Some(t))
      && (newpos < p ==> o.rows == Shifted(rows, scope, Between(newpos, p), 1) && o.position == Some(newpos))
  {
  }

  /** Moving to the top, to the bottom, or to a raw index inside the list. */
  lemma MoveToRankKeeps(rows: seq<Row>, scopeAttrs: set<Attr>, first: int, k: nat, moved: bool, v: Vector)
    requires UniqueIds(rows) && k < |rows| && rows[k].position.Some?
    requires Contiguous(rows, ListScope(scopeAttrs, rows[k].attrs), first)
    requires v.Highest? || v.Lowest? || v.Raw?
    requires v.Raw? ==> first <= v.index < first + Count(rows, ListScope(scopeAttrs, rows[k].attrs))
    ensures var scope := ListScope(scopeAttrs, rows[k].attrs);
      var n := Count(rows, scope);
      var o := MoveEffect(rows, scopeAttrs, first, rows[k].id, rows[k].attrs, rows[k].position, rows[k].position, moved, v);
      && o.reply == Returned(true)
      && (v.Highest? ==> o.position == Some(first))
      && (v.Lowest? ==> o.position == Some(first + n - 1))
      && (v.Raw? ==> o.position == Some(v.index))
      && Contiguous(Saved(o.rows, k, o.position), scope, first)
  {
    var scope := ListScope(scopeAttrs, rows[k].attrs);
    var n, p := Count(rows, scope), rows[k].position.value;
    var maxpos := StoredFacts(rows, scopeAttrs, first, k);
    var newpos := match v
      case Highest => first
      case Lowest => maxpos
      case Raw(i) => i;
    assert Resolve(v, first, Some(maxpos), Some(p)) == At(newpos);
    MoveShape(rows, scopeAttrs, first, rows[k].id, rows[k].attrs, p, moved, v, maxpos, newpos);
    var o := MoveEffect(rows, scopeAttrs, first, rows[k].id, rows[k].attrs, rows[k].position, rows[k].position, moved, v);
    var t := if newpos > p && TakesOwnSlot(v) then newpos - 1 else newpos;
    assert o.position == Some(t);
    assert t == match v
      case Highest => first
      case Lowest => first + n - 1
      case Raw(i) => i;
    Accepted(rows, scope, first, k, t);
  }

  /** `:to => i`: the record lands just above the record now at i, clamped into the list. */
  lemma MoveToIndexKeeps(rows: seq<Row>, scopeAttrs: set<Attr>, first: int, k: nat, moved: bool, i: int)
    requires UniqueIds(rows) && k < |rows| && rows[k].position.Some?
    requires Contiguous(rows, ListScope(scopeAttrs, rows[k].attrs), first)
    ensures var scope := ListScope(scopeAttrs, rows[k].attrs);
      var n, p := Count(rows, scope), rows[k].position.value;
      var o := MoveEffect(rows, scopeAttrs, first, rows[k].id, rows[k].attrs, rows[k].position, rows[k].position, moved, To(i));
      && o.reply == Returned(true)
      && o.position == Some(ToSlot(i, p, first, n))
      && Contiguous(Saved(o.rows, k, o.position), scope, first)
  {
    var scope := ListScope(scopeAttrs, rows[k].attrs);
    var n, p := Count(rows, scope), rows[k].position.value;
    var maxpos := StoredFacts(rows, scopeAttrs, first, k);
    var newpos := Max(first, Min(i, maxpos));
    assert Resolve(To(i), first, Some(maxpos), Some(p)) == At(newpos);
    MoveShape(rows, scopeAttrs, first, rows[k].id, rows[k].attrs, p, moved, To(i), maxpos, newpos);
    var t := if newpos > p then newpos - 1 else newpos;
    assert t == ToSlot(i, p, first, n);
    var o := MoveEffect(rows, scopeAttrs, first, rows[k].id, rows[k].attrs, rows[k].position, rows[k].position, moved, To(i));
    Accepted(rows, scope, first, k, t);
  }

  /** One step up: `:higher` at the top is refused, `:up` there succeeds without moving. */
  lemma MoveUpKeeps(rows: seq<Row>, scopeAttrs: set<Attr>, first: int, k: nat, moved: bool, v: Vector)
    requires UniqueIds(rows) && k < |rows| && rows[k].position.Some?
    requires Contiguous(rows, ListScope(scopeAttrs, rows[k].attrs), first)
    requires v.Higher? || v.Up?
    ensures var scope := ListScope(scopeAttrs, rows[k].attrs);
      var p := rows[k].position.value;
      var o := MoveEffect(rows, scopeAttrs, first, rows[k].id, rows[k].attrs, rows[k].position, rows[k].position, moved, v);
      && o.reply == Returned(!(v.Higher? && p == first))
      && o.position == Some(Max(first, p - 1))
      && Contiguous(Saved(o.rows, k, o.position), scope, first)
  {
    var scope := ListScope(scopeAttrs, rows[k].attrs);
    var n, p := Count(rows, scope), rows[k].position.value;
    var maxpos := StoredFacts(rows, scopeAttrs, first, k);
    var newpos := Max(p - 1, first);
    assert Resolve(v, first, Some(maxpos), Some(p)) == At(newpos);
    var o := MoveEffect(rows, scopeAttrs, first, rows[k].id, rows[k].attrs, rows[k].position, rows[k].position, moved, v);
    if v.Higher? && newpos == p {
      assert o.rows == rows && o.position == Some(p);
      assert Saved(rows, k, Some(p)) == rows;
    } else {
      MoveShape(rows, scopeAttrs, first, rows[k].id, rows[k].attrs, p, moved, v, maxpos, newpos);
      assert o.reply == Returned(true) && o.position == Some(newpos);
      Accepted(rows, scope, first, k, newpos);
    }
  }

  /** One step down: `:lower` at the bottom is refused, `:down` there succeeds without moving. */
  lemma MoveDownKeeps(rows: seq<Row>, scopeAttrs: set<Attr>, first: int, k: nat, moved: bool, v: Vector)
    requires UniqueIds(rows) && k < |rows| && rows[k].position.Some?
    requires Contiguous(rows, ListScope(scopeAttrs, rows[k].attrs), first)
    requires v.Lower? || v.Down?
    ensures var scope := ListScope(scopeAttrs, rows[k].attrs);
      var n, p := Count(rows, scope), rows[k].position.value;
      var o := MoveEffect(rows, scopeAttrs, first, rows[k].id, rows[k].attrs, rows[k].position, rows[k].position, moved, v);
      && o.reply == Returned(!(v.Lower? && p == first + n - 1))
      && o.position == Some(Min(p + 1, first + n - 1))
      && Contiguous(Saved(o.rows, k, o.position), scope, first)
  {
    var scope := ListScope(scopeAttrs, rows[k].attrs);
    var n, p := Count(rows, scope), rows[k].position.value;
    var maxpos := StoredFacts(rows, scopeAttrs, first, k);
    var newpos := Min(p + 1, maxpos);
    assert Resolve(v, first, Some(maxpos), Some(p)) == At(newpos);
    var o := MoveEffect(rows, scopeAttrs, first, rows[k].id, rows[k].attrs, rows[k].position, rows[k].position, moved, v);
    if v.Lower? && newpos == p {
      assert o.rows == rows && o.position == Some(p);
      assert Saved(rows, k, Some(p)) == rows;
    } else {
      MoveShape(rows, scopeAttrs, first, rows[k].id, rows[k].attrs, p, moved, v, maxpos, newpos);
      assert o.reply == Returned(true) && o.position == Some(newpos);
      Accepted(rows, scope, first, k, newpos);
    }
  }

  /**
   * `:above => r` for another record r of the same list at q: the record
   * takes q when it comes from below, q-1 (r having moved up) when from above.
   */
  lemma MoveAboveKeeps(rows: seq<Row>, scopeAttrs: set<Attr>, first: int, k: nat, moved: bool, j: nat)
    requires UniqueIds(rows) && k < |rows| && rows[k].position.Some?
    requires Contiguous(rows, ListScope(scopeAttrs, rows[k].attrs), first)
    requires j < |rows| && j != k && ListScope(scopeAttrs, rows[j].attrs) == ListScope(scopeAttrs, rows[k].attrs)
    ensures rows[j].position.Some? && rows[j].position != rows[k].position
    ensures var scope := ListScope(scopeAttrs, rows[k].attrs);
      var p, q := rows[k].position.value, rows[j].position.value;
      var o := MoveEffect(rows, scopeAttrs, first, rows[k].id, rows[k].attrs, rows[k].position, rows[k].position, moved,
                          Above(Target(rows[j].attrs, rows[j].position)));
      && o.reply == Returned(true)
      && o.position == Some(if q > p then q - 1 else q)
      && Contiguous(Saved(o.rows, k, o.position), scope, first)
  {
    var scope := ListScope(scopeAttrs, rows[k].attrs);
    var maxpos, q := BesideFacts(rows, scopeAttrs, first, k, j);
    var p := rows[k].position.value;
    AboveShape(rows, scopeAttrs, first, rows[k].id, rows[k].attrs, p, moved, Target(rows[j].attrs, rows[j].position), maxpos);
    var o := MoveEffect(rows, scopeAttrs, first, rows[k].id, rows[k].attrs, rows[k].position, rows[k].position, moved,
                        Above(Target(rows[j].attrs, rows[j].position)));
    var t := if q > p then q - 1 else q;
    assert o.position == Some(t);
    Accepted(rows, scope, first, k, t);
  }

  /** After `:above => r`, r is the record's right neighbour: its position is one more. */
  lemma MoveAboveLandsAbove(rows: seq<Row>, scopeAttrs: set<Attr>, first: int, k: nat, moved: bool, j: nat)
    requires UniqueIds(rows) && k < |rows| && rows[k].position.Some?
    requires Contiguous(rows, ListScope(scopeAttrs, rows[k].attrs), first)
    requires j < |rows| && j != k && ListScope(scopeAttrs, rows[j].attrs) == ListScope(scopeAttrs, rows[k].attrs)
    ensures var o := MoveEffect(rows, scopeAttrs, first, rows[k].id, rows[k].attrs, rows[k].position, rows[k].position, moved,
                                Above(Target(rows[j].attrs, rows[j].position)));
      o.position.Some? && Saved(o.rows, k, o.position)[j].position == Some(o.position.value + 1)
  {
    var maxpos, q := BesideFacts(rows, scopeAttrs, first, k, j);
    var p := rows[k].position.value;
    AboveShape(rows, scopeAttrs, first, rows[k].id, rows[k].attrs, p, moved, Target(rows[j].attrs, rows[j].position), maxpos);
    if q > p {
      assert !InRange(rows[j].position, Between(p, q - 1));
    } else {
      assert InRange(rows[j].position, Between(q, p));
    }
  }

  /** The facts a move of the stored record at k starts from: it is in its list, within the run, and `maxpos`. */
  lemma StoredFacts(rows: seq<Row>, scopeAttrs: set<Attr>, first: int, k: nat) returns (maxpos: int)
    requires UniqueIds(rows) && k < |rows| && rows[k].position.Some?
    requires Contiguous(rows, ListScope(scopeAttrs, rows[k].attrs), first)
    ensures var p, n := rows[k].position.value, Count(rows, ListScope(scopeAttrs, rows[k].attrs));
      && MaxPos(rows, ListScope(scopeAttrs, rows[k].attrs), rows[k].id, rows[k].position, first) == Some(maxpos)
      && maxpos == (if p == first + n - 1 then p else first + n)
      && InScope(rows[k], ListScope(scopeAttrs, rows[k].attrs))
      && first <= p < first + n
  {
    var scope := ListScope(scopeAttrs, rows[k].attrs);
    var n, p := Count(rows, scope), rows[k].position.value;
    MatchesListScope(scopeAttrs, rows[k].attrs, rows[k].attrs);
    MaxPosOfStored(rows, scope, first, k);
    InRun(rows, scope, first, k);
    maxpos := if p == first + n - 1 then p else first + n;
  }

  /**
   * What `:above`/`:below` need to know of a record at p and another record
   * r at q of its contiguous list: `maxpos`, and that q is neither p nor maxpos.
   */
  lemma BesideFacts(rows: seq<Row>, scopeAttrs: set<Attr>, first: int, k: nat, j: nat) returns (maxpos: int, q: int)
    requires UniqueIds(rows) && k < |rows| && rows[k].position.Some?
    requires Contiguous(rows, ListScope(scopeAttrs, rows[k].attrs), first)
    requires j < |rows| && j != k && ListScope(scopeAttrs, rows[j].attrs) == ListScope(scopeAttrs, rows[k].attrs)
    ensures MaxPos(rows, ListScope(scopeAttrs, rows[k].attrs), rows[k].id, rows[k].position, first) == Some(maxpos)
    ensures rows[j].position == Some(q) && q != rows[k].position.value && q != maxpos
    ensures InScope(rows[k], ListScope(scopeAttrs, rows[k].attrs)) && InScope(rows[j], ListScope(scopeAttrs, rows[k].attrs))
    ensures first <= q < first + Count(rows, ListScope(scopeAttrs, rows[k].attrs))
    ensures first <= rows[k].position.value < first + Count(rows, ListScope(scopeAttrs, rows[k].attrs))
  {
    var scope := ListScope(scopeAttrs, rows[k].attrs);
    var n, p := Count(rows, scope), rows[k].position.value;
    MatchesListScope(scopeAttrs, rows[k].attrs, rows[k].attrs);
    MatchesListScope(scopeAttrs, rows[k].attrs, rows[j].attrs);
    MaxPosOfStored(rows, scope, first, k);
    Apart(rows, scope, first, j, k);
    maxpos := if p == first + n - 1 then p else first + n;
    q := rows[j].position.value;
  }

  /** The outcome of `:above => r`, r at q, for a record at p: a shift down to q-1 or up to q. */
  lemma AboveShape(rows: seq<Row>, scopeAttrs: set<Attr>, first: int, id: Id, attrs: Attrs, p: int, moved: bool,
                   target: Target, maxpos: int)
    requires MaxPos(rows, ListScope(scopeAttrs, attrs), id, Some(p), first) == Some(maxpos)
    requires ListScope(scopeAttrs, target.attrs) == ListScope(scopeAttrs, attrs)
    requires target.position.Some? && target.position.value != p && target.position.value != maxpos
    ensures var scope, q := ListScope(scopeAttrs, attrs), target.position.value;
      MoveEffect(rows, scopeAttrs, first, id, attrs, Some(p), Some(p), moved, Above(target)) ==
        if q > p then Outcome(Returned(true), Shifted(rows, scope, Between(p, q - 1), -1), Some(q - 1), true)
        else Outcome(Returned(true), Shifted(rows, scope, Between(q, p), 1), Some(q), true)
  {
  }

  /**
   * `:below => r` for another record r of the same list at q: the record
   * takes q+1 when it comes from below, q (r having moved up) when from above.
   */
  lemma MoveBelowKeeps(rows: seq<Row>, scopeAttrs: set<Attr>, first: int, k: nat, moved: bool, j: nat)
    requires UniqueIds(rows) && k < |rows| && rows[k].position.Some?
    requires Contiguous(rows, ListScope(scopeAttrs, rows[k].attrs), first)
    requires j < |rows| && j != k && ListScope(scopeAttrs, rows[j].attrs) == ListScope(scopeAttrs, rows[k].attrs)
    ensures rows[j].position.Some?
    ensures var scope := ListScope(scopeAttrs, rows[k].attrs);
      var p, q := rows[k].position.value, rows[j].position.value;
      var o := MoveEffect(rows, scopeAttrs, first, rows[k].id, rows[k].attrs, rows[k].position, rows[k].position, moved,
                          Below(Target(rows[j].attrs, rows[j].position)));
      && o.reply == Returned(true)
      && o.position == Some(if q >= p then q else q + 1)
      && Contiguous(Saved(o.rows, k, o.position), scope, first)
  {
    var scope := ListScope(scopeAttrs, rows[k].attrs);
    var maxpos, q := BesideFacts(rows, scopeAttrs, first, k, j);
    var p := rows[k].position.value;
    BelowShape(rows, scopeAttrs, first, rows[k].id, rows[k].attrs, p, moved, Target(rows[j].attrs, rows[j].position), maxpos);
    var o := MoveEffect(rows, scopeAttrs, first, rows[k].id, rows[k].attrs, rows[k].position, rows[k].position, moved,
                        Below(Target(rows[j].attrs, rows[j].position)));
    var t := if q >= p then q else q + 1;
    assert o.position == Some(t);
    Accepted(rows, scope, first, k, t);
  }

  /** After `:below => r`, r is the record's left neighbour: its position is one less. */
  lemma MoveBelowLandsBelow(rows: seq<Row>, scopeAttrs: set<Attr>, first: int, k: nat, moved: bool, j: nat)
    requires UniqueIds(rows) && k < |rows| && rows[k].position.Some?
    requires Contiguous(rows, ListScope(scopeAttrs, rows[k].attrs), first)
    requires j < |rows| && j != k && ListScope(scopeAttrs, rows[j].attrs) == ListScope(scopeAttrs, rows[k].attrs)
    ensures var o := MoveEffect(rows, scopeAttrs, first, rows[k].id, rows[k].attrs, rows[k].position, rows[k].position, moved,
                                Below(Target(rows[j].attrs, rows[j].position)));
      o.position.Some? && Saved(o.rows, k, o.position)[j].position == Some(o.position.value - 1)
  {
    var maxpos, q := BesideFacts(rows, scopeAttrs, first, k, j);
    BelowNeighbour(rows, scopeAttrs, first, k, moved, j, maxpos);
  }

  /** The neighbour relation after `:below => r`, from `maxpos` alone. */
  lemma BelowNeighbour(rows: seq<Row>, scopeAttrs: set<Attr>, first: int, k: nat, moved: bool, j: nat, maxpos: int)
    requires k < |rows| && rows[k].position.Some? && j < |rows| && j != k
    requires MaxPos(rows, ListScope(scopeAttrs, rows[k].attrs), rows[k].id, rows[k].position, first) == Some(maxpos)
    requires ListScope(scopeAttrs, rows[j].attrs) == ListScope(scopeAttrs, rows[k].attrs)
    requires InScope(rows[j], ListScope(scopeAttrs, rows[k].attrs))
    requires rows[j].position.Some? && rows[j].position != rows[k].position
    ensures var o := MoveEffect(rows, scopeAttrs, first, rows[k].id, rows[k].attrs, rows[k].position, rows[k].position, moved,
                                Below(Target(rows[j].attrs, rows[j].position)));
      o.position.Some? && Saved(o.rows, k, o.position)[j].position == Some(o.position.value - 1)
  {
    var p, q := rows[k].position.value, rows[j].position.value;
    BelowShape(rows, scopeAttrs, first, rows[k].id, rows[k].attrs, p, moved, Target(rows[j].attrs, rows[j].position), maxpos);
    if q > p {
      assert InRange(rows[j].position, Between(p, q));
    } else if q + 1 < p {
      assert !InRange(rows[j].position, Between(q + 1, p));
    }
  }

  /** The outcome of `:below => r`, r at q, for a record at p: none when q+1 is p, else a shift down to q or up to q+1. */
  lemma BelowShape(rows: seq<Row>, scopeAttrs: set<Attr>, first: int, id: Id, attrs: Attrs, p: int, moved: bool,
                   target: Target, maxpos: int)
    requires MaxPos(rows, ListScope(scopeAttrs, attrs), id, Some(p), first) == Some(maxpos)
    requires ListScope(scopeAttrs, target.attrs) == ListScope(scopeAttrs, attrs)
    requires target.position.Some? && target.position.value != p
    ensures var scope, q := ListScope(scopeAttrs, attrs), target.position.value;
      MoveEffect(rows, scopeAttrs, first, id, attrs, Some(p), Some(p), moved, Below(target)) ==
        if q + 1 == p then Outcome(Returned(true), rows, Some(p), moved)
        else if q > p then Outcome(Returned(true), Shifted(rows, scope, Between(p, q), -1), Some(q), true)
        else Outcome(Returned(true), Shifted(rows, scope, Between(q + 1, p), 1), Some(q + 1), true)
  {
  }

  /**
   * `:above` or `:below` a placed record of another list is refused and
   * changes nothing (it raises instead when the list's `last` is unplaced).
   */
  lemma BesideOtherListRefused(rows: seq<Row>, scopeAttrs: set<Attr>, first: int, id: Id, attrs: Attrs,
                               position: Option<int>, original: Option<int>, moved: bool, v: Vector)
    requires (v.Above? || v.Below?) && v.target.position.Some?
    requires ListScope(scopeAttrs, v.target.attrs) != ListScope(scopeAttrs, attrs)
    ensures MoveEffect(rows, scopeAttrs, first, id, attrs, position, original, moved, v)
         == Outcome(if LastUnplaced(rows, ListScope(scopeAttrs, attrs), id) then Raised else Returned(false),
                    rows, position, moved)
  {
  }

  /**
   * Once accepted, a move of the record at p to t (by a shift down when
   * t >= p, by a shift up when t <= p, or by nothing when t == p) leaves
   * its list contiguous.
   */
  lemma Accepted(rows: seq<Row>, scope: Scope, first: int, k: nat, t: int)
    requires Contiguous(rows, scope, first)
    requires k < |rows| && InScope(rows[k], scope) && rows[k].position.Some?
    requires first <= t < first + Count(rows, scope)
    ensures var p := rows[k].position.value;
      t >= p ==> Contiguous(Saved(Shifted(rows, scope, Between(p, t), -1), k, Some(t)), scope, first)
    ensures var p := rows[k].position.value;
      t <= p ==> Contiguous(Saved(Shifted(rows, scope, Between(t, p), 1), k, Some(t)), scope, first)
    ensures t == rows[k].position.value ==> Contiguous(Saved(rows, k, Some(t)), scope, first)
  {
    var p := rows[k].position.value;
    if t >= p {
      ShiftDownKeeps(rows, scope, first, k, t);
    }
    if t <= p {
      ShiftUpKeeps(rows, scope, first, k, t);
    }
    if t == p {
      assert Saved(rows, k, Some(t)) == rows;
    }
  }

  // ---------------------------------------------------------------------
  // The hooks.

  /** Two different list scopes share no record. */
  lemma ListsDisjoint(scopeAttrs: set<Attr>, a: Attrs, b: Attrs, row: Row)
    requires ListScope(scopeAttrs, a) != ListScope(scopeAttrs, b)
    ensures !(InScope(row, ListScope(scopeAttrs, a)) && InScope(row, ListScope(scopeAttrs, b)))
  {
    MatchesListScope(scopeAttrs, a, row.attrs);
    MatchesListScope(scopeAttrs, b, row.attrs);
  }

  /**
   * The outcome of a move of a record that has no position (a new record,
   * or one just detached): `:lowest` takes maxpos, a raw index opens a slot
   * at min(index, maxpos).
   */
  lemma InsertShape(rows: seq<Row>, scopeAttrs: set<Attr>, first: int, id: Id, attrs: Attrs,
                    original: Option<int>, moved: bool, v: Vector, maxpos: int)
    requires MaxPos(rows, ListScope(scopeAttrs, attrs), id, original, first) == Some(maxpos)
    requires v.Lowest? || v.Raw?
    ensures var t := if v.Lowest? then maxpos else Min(v.index, maxpos);
      MoveEffect(rows, scopeAttrs, first, id, attrs, None, original, moved, v) ==
        Outcome(Returned(true), if v.Lowest? then rows else Shifted(rows, ListScope(scopeAttrs, attrs), AtLeast(t), 1), Some(t), true)
  {
  }

  /** No record of a contiguous list sits at first+n or beyond. */
  lemma NothingBeyond(rows: seq<Row>, scope: Scope, first: int)
    requires Contiguous(rows, scope, first)
    ensures Shifted(rows, scope, AtLeast(first + Count(rows, scope)), 1) == rows
  {
    var u := Shifted(rows, scope, AtLeast(first + Count(rows, scope)), 1);
    forall i | 0 <= i < |rows|
      ensures u[i] == rows[i]
    {
    }
  }

  /**
   * The before-create hook for a new record without a position: it goes to
   * the bottom, first+n, and its list, with its row appended, is contiguous.
   */
  lemma CreateAppendsAtBottom(rows: seq<Row>, scopeAttrs: set<Attr>, first: int, id: Id, attrs: Attrs, moved: bool)
    requires forall i :: 0 <= i < |rows| ==> rows[i].id != id
    requires Contiguous(rows, ListScope(scopeAttrs, attrs), first)
    ensures var scope := ListScope(scopeAttrs, attrs);
      var o := CreateEffect(rows, scopeAttrs, first, id, attrs, None, moved);
      && o.reply == Returned(true) && o.moved
      && o.rows == rows && o.position == Some(first + Count(rows, scope))
      && Contiguous(rows + [Row(id, attrs, o.position)], scope, first)
      && Count(rows + [Row(id, attrs, o.position)], scope) == Count(rows, scope) + 1
  {
    var scope := ListScope(scopeAttrs, attrs);
    var n := Count(rows, scope);
    MaxPosOfAbsent(rows, scope, first, id, None);
    InsertShape(rows, scopeAttrs, first, id, attrs, None, moved, Lowest, first + n);
    assert CreateEffect(rows, scopeAttrs, first, id, attrs, None, moved) == Outcome(Returned(true), rows, Some(first + n), true);
    MatchesListScope(scopeAttrs, attrs, attrs);
    NothingBeyond(rows, scope, first);
    AppendKeeps(rows, scope, first, first + n, Row(id, attrs, Some(first + n)));
  }

  /**
   * The record at k, stored with a position, is updated with new attributes
   * that put it in another list; its original values put it in the list it
   * is stored in, and both lists are contiguous.
   */
  predicate ChangesList(rows: seq<Row>, scopeAttrs: set<Attr>, first: int, k: nat, attrs: Attrs, originals: Scope)
  {
    && UniqueIds(rows) && k < |rows| && rows[k].position.Some?
    && OriginalListScope(scopeAttrs, attrs, originals) == ListScope(scopeAttrs, rows[k].attrs)
    && ListScope(scopeAttrs, attrs) != ListScope(scopeAttrs, rows[k].attrs)
    && Contiguous(rows, ListScope(scopeAttrs, rows[k].attrs), first)
    && Contiguous(rows, ListScope(scopeAttrs, attrs), first)
  }

  /**
   * The before-update hook when only the scope changed (the position is as
   * loaded): the record leaves its old list, which closes up, and enters
   * the new one at min(p, first+n) for n records there; both lists are
   * contiguous once the record's row is saved with its new attributes.
   */
  lemma ScopeChangeKeepsBothLists(rows: seq<Row>, scopeAttrs: set<Attr>, first: int, k: nat,
                                  attrs: Attrs, moved: bool, originals: Scope, positionDirty: bool)
    requires ChangesList(rows, scopeAttrs, first, k, attrs, originals)
    ensures var before, after := ListScope(scopeAttrs, rows[k].attrs), ListScope(scopeAttrs, attrs);
      var e := UpdateEffect(rows, scopeAttrs, first, rows[k].id, attrs, rows[k].position, moved, originals,
                            rows[k].position, positionDirty);
      var saved := e.1.rows[k := Row(rows[k].id, attrs, e.1.position)];
      && e.0 == Some(Returned(true)) && !e.1.moved
      && e.1.position == Some(Min(rows[k].position.value, first + Count(rows, after)))
      && |e.1.rows| == |rows|
      && Contiguous(saved, before, first)
      && Contiguous(saved, after, first)
  {
    var p := rows[k].position.value;
    var t := Min(p, first + Count(rows, ListScope(scopeAttrs, attrs)));
    MatchesListScope(scopeAttrs, rows[k].attrs, rows[k].attrs);
    assert first <= p;
    ScopeChangeShape(rows, scopeAttrs, first, k, attrs, moved, originals, positionDirty);
    OldListClosed(rows, scopeAttrs, first, k, attrs, t);
    NewListOpened(rows, scopeAttrs, first, k, attrs, t);
  }

  /** The scope-change update in closed form: the detached table with a slot opened at min(p, first+n) in the new list. */
  lemma ScopeChangeShape(rows: seq<Row>, scopeAttrs: set<Attr>, first: int, k: nat,
                         attrs: Attrs, moved: bool, originals: Scope, positionDirty: bool)
    requires UniqueIds(rows) && k < |rows| && rows[k].position.Some?
    requires OriginalListScope(scopeAttrs, attrs, originals) == ListScope(scopeAttrs, rows[k].attrs)
    requires ListScope(scopeAttrs, attrs) != ListScope(scopeAttrs, rows[k].attrs)
    requires Contiguous(rows, ListScope(scopeAttrs, attrs), first)
    ensures var before, after := ListScope(scopeAttrs, rows[k].attrs), ListScope(scopeAttrs, attrs);
      var d := Detached(rows, before, rows[k].position);
      var t := Min(rows[k].position.value, first + Count(rows, after));
      UpdateEffect(rows, scopeAttrs, first, rows[k].id, attrs, rows[k].position, moved, originals,
                   rows[k].position, positionDirty)
        == (Some(Returned(true)), Outcome(Returned(true), Shifted(d, after, AtLeast(t), 1), Some(t), false))
  {
    var before, after := ListScope(scopeAttrs, rows[k].attrs), ListScope(scopeAttrs, attrs);
    var p := rows[k].position.value;
    var id := rows[k].id;
    var d := Detached(rows, before, rows[k].position);
    var m := first + Count(rows, after);
    var t := Min(p, m);
    DetachedMaxPos(rows, scopeAttrs, first, k, attrs, rows[k].position);
    InsertShape(d, scopeAttrs, first, id, attrs, Some(p), moved, Raw(p), m);
    var o := MoveEffect(d, scopeAttrs, first, id, attrs, None, Some(p), moved, Raw(p));
    assert o == Outcome(Returned(true), Shifted(d, after, AtLeast(t), 1), Some(t), true);
    UpdateAcross(rows, scopeAttrs, first, id, attrs, Some(p), moved, originals, Some(p), positionDirty);
    assert PositionOrLowest(Some(p)) == Raw(p);
    var e := UpdateEffect(rows, scopeAttrs, first, id, attrs, rows[k].position, moved, originals, rows[k].position, positionDirty);
    assert e == (Some(o.reply), o.(moved := false));
    assert o.(moved := false) == Outcome(Returned(true), Shifted(d, after, AtLeast(t), 1), Some(t), false);
  }

  /** After detaching from the old list, `maxpos` in the new list is first+n for its n records. */
  lemma DetachedMaxPos(rows: seq<Row>, scopeAttrs: set<Attr>, first: int, k: nat, attrs: Attrs, prepos: Option<int>)
    requires UniqueIds(rows) && k < |rows| && rows[k].position.Some?
    requires ListScope(scopeAttrs, attrs) != ListScope(scopeAttrs, rows[k].attrs)
    requires Contiguous(rows, ListScope(scopeAttrs, attrs), first)
    ensures var before, after := ListScope(scopeAttrs, rows[k].attrs), ListScope(scopeAttrs, attrs);
      var d := Detached(rows, before, rows[k].position);
      MaxPos(d, after, rows[k].id, prepos, first) == Some(first + Count(rows, after))
  {
    var before, after := ListScope(scopeAttrs, rows[k].attrs), ListScope(scopeAttrs, attrs);
    var id := rows[k].id;
    var d := Detached(rows, before, rows[k].position);
    NewListUntouched(rows, scopeAttrs, first, k, attrs);
    forall i | 0 <= i < |d| && InScope(d[i], after)
      ensures d[i].id != id
    {
      if i != k {
        IdsApart(rows, i, k);
      } else {
        ListsDisjoint(scopeAttrs, rows[k].attrs, attrs, rows[k]);
        MatchesListScope(scopeAttrs, rows[k].attrs, rows[k].attrs);
      }
    }
    MaxPosOfAbsent(d, after, first, id, prepos);
  }

  /** Detaching from the old list leaves the new list as it was. */
  lemma NewListUntouched(rows: seq<Row>, scopeAttrs: set<Attr>, first: int, k: nat, attrs: Attrs)
    requires k < |rows| && rows[k].position.Some?
    requires ListScope(scopeAttrs, attrs) != ListScope(scopeAttrs, rows[k].attrs)
    requires Contiguous(rows, ListScope(scopeAttrs, attrs), first)
    ensures var d := Detached(rows, ListScope(scopeAttrs, rows[k].attrs), rows[k].position);
      && Contiguous(d, ListScope(scopeAttrs, attrs), first)
      && Count(d, ListScope(scopeAttrs, attrs)) == Count(rows, ListScope(scopeAttrs, attrs))
      && (forall i :: 0 <= i < |d| && InScope(d[i], ListScope(scopeAttrs, attrs)) ==> d[i] == rows[i])
  {
    var before, after := ListScope(scopeAttrs, rows[k].attrs), ListScope(scopeAttrs, attrs);
    var d := Detached(rows, before, rows[k].position);
    forall i | 0 <= i < |rows| && InScope(rows[i], after)
      ensures d[i] == rows[i]
    {
      ListsDisjoint(scopeAttrs, rows[k].attrs, attrs, rows[i]);
    }
    ContiguousCongruent(rows, d, after, first);
    CountSame(rows, d, after);
  }

  /** The new list, with a slot opened at t and the record's row saved there, is contiguous. */
  lemma NewListOpened(rows: seq<Row>, scopeAttrs: set<Attr>, first: int, k: nat, attrs: Attrs, t: int)
    requires k < |rows| && rows[k].position.Some?
    requires ListScope(scopeAttrs, attrs) != ListScope(scopeAttrs, rows[k].attrs)
    requires Contiguous(rows, ListScope(scopeAttrs, attrs), first)
    requires first <= t <= first + Count(rows, ListScope(scopeAttrs, attrs))
    ensures var before, after := ListScope(scopeAttrs, rows[k].attrs), ListScope(scopeAttrs, attrs);
      var d := Detached(rows, before, rows[k].position);
      Contiguous(Shifted(d, after, AtLeast(t), 1)[k := Row(rows[k].id, attrs, Some(t))], after, first)
  {
    var before, after := ListScope(scopeAttrs, rows[k].attrs), ListScope(scopeAttrs, attrs);
    var d := Detached(rows, before, rows[k].position);
    NewListUntouched(rows, scopeAttrs, first, k, attrs);
    ListsDisjoint(scopeAttrs, rows[k].attrs, attrs, rows[k]);
    MatchesListScope(scopeAttrs, rows[k].attrs, rows[k].attrs);
    MatchesListScope(scopeAttrs, attrs, attrs);
    InsertKeeps(d, after, first, t, k, Row(rows[k].id, attrs, Some(t)));
  }

  /** The old list, closed up after the record left it, is contiguous; opening a slot in the new list does not touch it. */
  lemma OldListClosed(rows: seq<Row>, scopeAttrs: set<Attr>, first: int, k: nat, attrs: Attrs, t: int)
    requires k < |rows| && rows[k].position.Some?
    requires ListScope(scopeAttrs, attrs) != ListScope(scopeAttrs, rows[k].attrs)
    requires Contiguous(rows, ListScope(scopeAttrs, rows[k].attrs), first)
    ensures var before, after := ListScope(scopeAttrs, rows[k].attrs), ListScope(scopeAttrs, attrs);
      var d := Detached(rows, before, rows[k].position);
      Contiguous(Shifted(d, after, AtLeast(t), 1)[k := Row(rows[k].id, attrs, Some(t))], before, first)
  {
    var before, after := ListScope(scopeAttrs, rows[k].attrs), ListScope(scopeAttrs, attrs);
    var d := Detached(rows, before, rows[k].position);
    var x := Row(rows[k].id, attrs, Some(t));
    var u := Shifted(d, after, AtLeast(t), 1);
    MatchesListScope(scopeAttrs, rows[k].attrs, rows[k].attrs);
    MatchesListScope(scopeAttrs, attrs, attrs);
    ListsDisjoint(scopeAttrs, rows[k].attrs, attrs, x);
    DetachKeeps(rows, before, first, k, x);
    forall i | 0 <= i < |d| && InScope(d[i], before)
      ensures u[i] == d[i]
    {
      ListsDisjoint(scopeAttrs, rows[k].attrs, attrs, d[i]);
    }
    ContiguousCongruent(d[k := x], u[k := x], before, first);
  }

  /** The update hook when the scope changed: detach from the old list, then move into the new one. */
  lemma UpdateAcross(rows: seq<Row>, scopeAttrs: set<Attr>, first: int, id: Id, attrs: Attrs, position: Option<int>,
                     moved: bool, originals: Scope, loaded: Option<int>, positionDirty: bool)
    requires ListScope(scopeAttrs, attrs) != OriginalListScope(scopeAttrs, attrs, originals)
    ensures var o := MoveEffect(Detached(rows, OriginalListScope(scopeAttrs, attrs, originals), position),
                                scopeAttrs, first, id, attrs, None, loaded, moved, PositionOrLowest(position));
      UpdateEffect(rows, scopeAttrs, first, id, attrs, position, moved, originals, loaded, positionDirty) ==
        (Some(o.reply), if o.reply.Raised? then o else o.(moved := false))
  {
  }

  /** The update hook when only the position was assigned: move to the assigned value. */
  lemma UpdateWithin(rows: seq<Row>, scopeAttrs: set<Attr>, first: int, id: Id, attrs: Attrs, position: Option<int>,
                     originals: Scope, loaded: Option<int>)
    requires ListScope(scopeAttrs, attrs) == OriginalListScope(scopeAttrs, attrs, originals)
    ensures var o := MoveEffect(rows, scopeAttrs, first, id, attrs, position, loaded, false, PositionVector(position));
      UpdateEffect(rows, scopeAttrs, first, id, attrs, position, false, originals, loaded, true) ==
        (Some(o.reply), if o.reply.Raised? then o else o.(moved := false))
  {
  }

  /**
   * The outcome of the update hook's move when only the position was
   * assigned, from p to q with q <= maxpos: nothing, or a shift down or up
   * to q.
   */
  lemma AssignShape(rows: seq<Row>, scopeAttrs: set<Attr>, first: int, id: Id, attrs: Attrs,
                    p: int, q: int, moved: bool, maxpos: int)
    requires MaxPos(rows, ListScope(scopeAttrs, attrs), id, Some(p), first) == Some(maxpos)
    requires q <= maxpos
    ensures var scope := ListScope(scopeAttrs, attrs);
      MoveEffect(rows, scopeAttrs, first, id, attrs, Some(q), Some(p), moved, Raw(q)) ==
        if q == p then Outcome(Returned(true), rows, Some(q), moved)
        else if q > p then Outcome(Returned(true), Shifted(rows, scope, Between(p, q), -1), Some(q), true)
        else Outcome(Returned(true), Shifted(rows, scope, Between(q, p), 1), Some(q), true)
  {
  }

  /**
   * The before-update hook when only the position was assigned, to q within
   * the list: the record lands at q and its list stays contiguous.
   */
  lemma UpdatePositionKeeps(rows: seq<Row>, scopeAttrs: set<Attr>, first: int, k: nat,
                            originals: Scope, q: int)
    requires UniqueIds(rows) && k < |rows| && rows[k].position.Some?
    requires OriginalListScope(scopeAttrs, rows[k].attrs, originals) == ListScope(scopeAttrs, rows[k].attrs)
    requires Contiguous(rows, ListScope(scopeAttrs, rows[k].attrs), first)
    requires first <= q < first + Count(rows, ListScope(scopeAttrs, rows[k].attrs))
    ensures var scope := ListScope(scopeAttrs, rows[k].attrs);
      var e := UpdateEffect(rows, scopeAttrs, first, rows[k].id, rows[k].attrs, Some(q), false, originals,
                            rows[k].position, true);
      && e.0 == Some(Returned(true)) && !e.1.moved
      && e.1.position == Some(q)
      && Contiguous(Saved(e.1.rows, k, e.1.position), scope, first)
  {
    var scope := ListScope(scopeAttrs, rows[k].attrs);
    var n, p := Count(rows, scope), rows[k].position.value;
    var maxpos := StoredFacts(rows, scopeAttrs, first, k);
    AssignShape(rows, scopeAttrs, first, rows[k].id, rows[k].attrs, p, q, false, maxpos);
    UpdateWithin(rows, scopeAttrs, first, rows[k].id, rows[k].attrs, Some(q), originals, rows[k].position);
    var o := MoveEffect(rows, scopeAttrs, first, rows[k].id, rows[k].attrs, Some(q), Some(p), false, Raw(q));
    assert o.reply == Returned(true) && o.position == Some(q);
    Accepted(rows, scope, first, k, q);
  }
}
