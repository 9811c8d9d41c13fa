/**
 * Repairing a list: `repair_list` / `reorder_list`.
 *
 * The records of a query are fetched in the requested order and numbered
 * 1, 2, 3, ... in that order. This module holds the ordered query and the
 * table the enumeration produces; the loop itself is Storage.Store.RepairList.
 */
module Repair {
  import opened Scoping
  import opened Table

  /** The `:order` of a query: by position (the default) or by another attribute, ascending. */
  datatype Order = ByPosition | ByAttr(attr: Attr)

  /** The sort key of a row; NULL sorts before every value. */
  function Key(row: Row, order: Order): Option<int>
  {
    match order
    case ByPosition => row.position
    case ByAttr(a) => Get(row.attrs, a)
  }

  predicate KeyLe(a: Option<int>, b: Option<int>)
  {
    a.None? || (b.Some? && a.value <= b.value)
  }

  predicate KeyLt(a: Option<int>, b: Option<int>)
  {
    !KeyLe(b, a)
  }

  predicate Sorted(s: seq<Row>, order: Order)
  {
    forall i, j :: 0 <= i < j < |s| ==> KeyLe(Key(s[i], order), Key(s[j], order))
  }

  /** Insert `x` after every element whose key is not greater than its own. */
  function Insert(s: seq<Row>, x: Row, order: Order): (r: seq<Row>)
    requires Sorted(s, order)
    ensures Sorted(r, order)
    ensures multiset(r) == multiset(s) + multiset{x}
  {
    if s == [] then [x]
    else if KeyLt(Key(x, order), Key(s[0], order)) then [x] + s
    else
      var t := Insert(s[1..], x, order);
      InsertStep(s, x, t, order);
      [s[0]] + t
  }

  lemma InsertStep(s: seq<Row>, x: Row, t: seq<Row>, order: Order)
    requires s != [] && Sorted(s, order) && KeyLe(Key(s[0], order), Key(x, order))
    requires Sorted(t, order) && multiset(t) == multiset(s[1..]) + multiset{x}
    ensures Sorted([s[0]] + t, order)
    ensures multiset([s[0]] + t) == multiset(s) + multiset{x}
  {
    assert s == [s[0]] + s[1..];
    forall y | y in t
      ensures KeyLe(Key(s[0], order), Key(y, order))
    {
      assert y in multiset(t);
      if y != x {
        assert y in multiset(s[1..]);
      }
    }
    var r := [s[0]] + t;
    forall i, j | 0 <= i < j < |r|
      ensures KeyLe(Key(r[i], order), Key(r[j], order))
    {
      if i == 0 {
        assert r[j] == t[j - 1];
        assert r[j] in t;
      } else {
        assert r[i] == t[i - 1] && r[j] == t[j - 1];
      }
    }
  }

  /** Stable insertion sort by the key of `order`. */
  function Sort(s: seq<Row>, order: Order): (r: seq<Row>)
    ensures Sorted(r, order)
    ensures multiset(r) == multiset(s)
    decreases |s|
  {
    if s == [] then []
    else
      var n := |s| - 1;
      assert s == s[..n] + [s[n]];
      Insert(Sort(s[..n], order), s[n], order)
  }

  /** `model.all(filter.merge(:order => order))`: the matching rows, sorted. */
  function Select(rows: seq<Row>, filter: Scope, order: Order): (r: seq<Row>)
    ensures |r| == Count(rows, filter)
    ensures forall x :: x in r <==> x in rows && InScope(x, filter)
    ensures Sorted(r, order)
  {
    var f := Filter(rows, filter);
    FilterMembers(rows, filter);
    var r := Sort(f, order);
    assert |r| == |multiset(r)| == |multiset(f)| == |f|;
    assert forall x :: x in r <==> x in multiset(r);
    r
  }

  /** The last index of `items` holding the record `id`. */
  function LastIndexOf(items: seq<Row>, id: Id): (r: Option<nat>)
    ensures r.Some? ==> r.value < |items| && items[r.value].id == id
    ensures r.Some? ==> forall i :: r.value < i < |items| ==> items[i].id != id
    ensures r.None? <==> forall i :: 0 <= i < |items| ==> items[i].id != id
    decreases |items|
  {
    if items == [] then None
    else if items[|items| - 1].id == id then Some(|items| - 1)
    else LastIndexOf(items[..|items| - 1], id)
  }

  /**
   * The table after `items.each_with_index { |item, i| item.update(:position => base + i) }`:
   * each record that occurs in `items` holds base plus the index of its
   * (last) occurrence; every other row is as it was.
   */
  function Renumbered(rows: seq<Row>, items: seq<Row>, base: int): (r: seq<Row>)
    ensures |r| == |rows|
    ensures forall j :: 0 <= j < |rows| ==> r[j].id == rows[j].id && r[j].attrs == rows[j].attrs
    ensures forall j :: 0 <= j < |rows| ==>
      r[j].position == (var k := LastIndexOf(items, rows[j].id); if k.Some? then Some(base + k.value) else rows[j].position)
  {
    seq(|rows|, j requires 0 <= j < |rows| =>
      match LastIndexOf(items, rows[j].id)
      case Some(k) => rows[j].(position := Some(base + k))
      case None => rows[j])
  }

  /** One more step of the enumeration is one more `update` of one record. */
  lemma RenumberedStep(rows: seq<Row>, items: seq<Row>, i: nat, base: int)
    requires i < |items|
    ensures Renumbered(rows, items[..i + 1], base)
         == SetPosition(Renumbered(rows, items[..i], base), items[i].id, Some(base + i))
  {
    var a, b := items[..i + 1], items[..i];
    assert a[..|a| - 1] == b;
    forall j | 0 <= j < |rows|
      ensures Renumbered(rows, a, base)[j]
           == SetPosition(Renumbered(rows, b, base), items[i].id, Some(base + i))[j]
    {
      if rows[j].id != items[i].id {
        assert LastIndexOf(a, rows[j].id) == LastIndexOf(b, rows[j].id);
      }
    }
  }

  /**
   * Repairing a list numbers it base, base+1, ... with no gap and no
   * duplicate, whatever positions it held before (NULL, duplicated, gapped),
   * for any order. `repair_list` uses base 1.
   */
  lemma RepairMakesContiguous(rows: seq<Row>, scope: Scope, order: Order, base: int)
    requires UniqueIds(rows)
    ensures Contiguous(Renumbered(rows, Select(rows, scope, order), base), scope, base)
  {
    var items := Select(rows, scope, order);
    forall i | 0 <= i < |rows| && InScope(rows[i], scope)
      ensures LastIndexOf(items, rows[i].id).Some?
    {
      SelectedHasIndex(rows, scope, order, i);
    }
    RenumberedContiguous(rows, items, scope, base);
  }

  /** Numbering a list in the order of a result that holds each of its records makes it contiguous. */
  lemma RenumberedContiguous(rows: seq<Row>, items: seq<Row>, scope: Scope, base: int)
    requires UniqueIds(rows)
    requires |items| == Count(rows, scope)
    requires forall i :: 0 <= i < |rows| && InScope(rows[i], scope) ==> LastIndexOf(items, rows[i].id).Some?
    ensures Contiguous(Renumbered(rows, items, base), scope, base)
  {
    var r := Renumbered(rows, items, base);
    CountSame(rows, r, scope);
    forall i | 0 <= i < |r| && InScope(r[i], scope)
      ensures r[i].position.Some? && base <= r[i].position.value < base + |items|
    {
      assert InScope(rows[i], scope);
    }
    forall i, j | 0 <= i < j < |r| && InScope(r[i], scope) && InScope(r[j], scope)
      ensures r[i].position != r[j].position
    {
      RenumberedApart(rows, items, scope, base, i, j);
    }
  }

  /** Two records of the list get the indices of their own, different, occurrences. */
  lemma RenumberedApart(rows: seq<Row>, items: seq<Row>, scope: Scope, base: int, i: nat, j: nat)
    requires UniqueIds(rows) && i < j < |rows|
    requires LastIndexOf(items, rows[i].id).Some? && LastIndexOf(items, rows[j].id).Some?
    ensures Renumbered(rows, items, base)[i].position != Renumbered(rows, items, base)[j].position
  {
    var ki, kj := LastIndexOf(items, rows[i].id).value, LastIndexOf(items, rows[j].id).value;
    assert rows[i].id != rows[j].id;
    assert items[ki].id != items[kj].id;
  }

  /** Every row of the filter occurs in the ordered query result. */
  lemma SelectedHasIndex(rows: seq<Row>, scope: Scope, order: Order, i: nat)
    requires i < |rows| && InScope(rows[i], scope)
    ensures LastIndexOf(Select(rows, scope, order), rows[i].id).Some?
  {
    var items := Select(rows, scope, order);
    assert rows[i] in items;
    var k :| 0 <= k < |items| && items[k] == rows[i];
    assert items[k].id == rows[i].id;
  }

  /** The occurrence of a record in the query result is that record's own row. */
  lemma SelectedIsRow(rows: seq<Row>, scope: Scope, order: Order, i: nat)
    requires UniqueIds(rows)
    requires i < |rows| && InScope(rows[i], scope)
    ensures var items := Select(rows, scope, order);
      var k := LastIndexOf(items, rows[i].id);
      k.Some? && items[k.value] == rows[i]
  {
    SelectedHasIndex(rows, scope, order, i);
    var items := Select(rows, scope, order);
    var k := LastIndexOf(items, rows[i].id).value;
    assert items[k] in items;
    var p :| 0 <= p < |rows| && rows[p] == items[k];
    assert p == i;
  }

  /**
   * Repairing keeps the requested order: of two records of the list, the one
   * with the smaller key ends up with the smaller position. With the default
   * order this is "the previous relative order of positions".
   */
  lemma RepairKeepsOrder(rows: seq<Row>, scope: Scope, order: Order, base: int, i: nat, j: nat)
    requires UniqueIds(rows)
    requires i < |rows| && j < |rows|
    requires InScope(rows[i], scope) && InScope(rows[j], scope)
    requires KeyLt(Key(rows[i], order), Key(rows[j], order))
    ensures var r := Renumbered(rows, Select(rows, scope, order), base);
      r[i].position.Some? && r[j].position.Some? && r[i].position.value < r[j].position.value
  {
    var items := Select(rows, scope, order);
    SelectedIsRow(rows, scope, order, i);
    SelectedIsRow(rows, scope, order, j);
    var ki, kj := LastIndexOf(items, rows[i].id).value, LastIndexOf(items, rows[j].id).value;
    SortedIndexOrder(items, order, ki, kj);
    RenumberedAt(rows, items, base, i);
    RenumberedAt(rows, items, base, j);
  }

  /** In a sorted sequence, an element with a strictly smaller key comes first. */
  lemma SortedIndexOrder(items: seq<Row>, order: Order, a: nat, b: nat)
    requires Sorted(items, order) && a < |items| && b < |items|
    requires KeyLt(Key(items[a], order), Key(items[b], order))
    ensures a < b
  {
  }

  /** A record that occurs in the enumerated items is renumbered by the index of its last occurrence. */
  lemma RenumberedAt(rows: seq<Row>, items: seq<Row>, base: int, i: nat)
    requires i < |rows| && LastIndexOf(items, rows[i].id).Some?
    ensures Renumbered(rows, items, base)[i].position == Some(base + LastIndexOf(items, rows[i].id).value)
  {
  }

  /** Rows outside the repaired filter keep everything, position included. */
  lemma RepairIsolated(rows: seq<Row>, scope: Scope, order: Order, base: int, i: nat)
    requires UniqueIds(rows)
    requires i < |rows| && !InScope(rows[i], scope)
    ensures Renumbered(rows, Select(rows, scope, order), base)[i] == rows[i]
  {
    var items := Select(rows, scope, order);
    forall k | 0 <= k < |items|
      ensures items[k].id != rows[i].id
    {
      assert items[k] in items;
      var p :| 0 <= p < |rows| && rows[p] == items[k];
      assert p != i;
    }
  }
}
