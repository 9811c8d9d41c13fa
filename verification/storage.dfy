/**
 * The backing store of one list model: its list options and its table.
 */
module Storage {
  import opened Scoping
  import opened Table
  import opened Repair

  class Store {
    /** `list_options[:scope]`: the attributes that partition the records into lists. */
    const scopeAttrs: set<Attr>
    /** `list_options[:first]`: the position of the top of a list. */
    const first: int
    /** The stored rows, in storage order. */
    var rows: seq<Row>

    ghost predicate Valid()
      reads this
    {
      UniqueIds(rows)
    }

    constructor (scopeAttrs: set<Attr>, first: int, rows: seq<Row>)
      requires UniqueIds(rows)
      ensures Valid()
      ensures this.scopeAttrs == scopeAttrs && this.first == first && this.rows == rows
    {
      this.scopeAttrs := scopeAttrs;
      this.first := first;
      this.rows := rows;
    }

    /**
     * `list(scope).all(range).adjust!({ :position => delta }, true)`: one bulk
     * update of the positions of the rows of `scope` in `range`.
     */
    method Adjust(scope: Scope, range: Range, delta: int)
      requires Valid()
      modifies this`rows
      ensures Valid()
      ensures rows == Shifted(old(rows), scope, range, delta)
    {
      rows := Shifted(rows, scope, range, delta);
    }

    /**
     * `ClassMethods#repair_list(scope)`: refuses (false, nothing written) a
     * filter on an attribute that is not a scope attribute; otherwise fetches
     * the matching rows in `order` (by position unless overridden) and gives
     * the i-th of them position i + 1.
     */
    method RepairList(filter: Scope, order: Option<Order>) returns (ok: bool)
      requires Valid()
      modifies this`rows
      ensures Valid()
      ensures ok <==> filter.Keys <= scopeAttrs
      ensures rows == if ok
        then Renumbered(old(rows), Select(old(rows), filter, if order.Some? then order.value else ByPosition), 1)
        else old(rows)
    {
      if !(filter.Keys <= scopeAttrs) {
        return false;
      }
      var items := Select(rows, filter, if order.Some? then order.value else ByPosition);
      var i := 0;
      while i < |items|
        invariant 0 <= i <= |items|
        invariant rows == Renumbered(old(rows), items[..i], 1)
      {
        RenumberedStep(old(rows), items, i, 1);
        rows := SetPosition(rows, items[i].id, Some(i + 1));
        i := i + 1;
      }
      assert items[..|items|] == items;
      return true;
    }
  }
}
