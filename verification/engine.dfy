/**
 * The list ordering engine: moving a record within its list, detaching it,
 * its neighbours, and the lifecycle hooks that chain these together.
 *
 * The pure functions state what one call does to the table and to the
 * record; the methods of Resource perform it on the store in place.
 */
module Engine {
  import opened Scoping
  import opened Table
  import opened Repair
  import opened Storage

  /** The other record named by `:above => r` or `:below => r`, as loaded. */
  datatype Target = Target(attrs: Attrs, position: Option<int>)

  /** The argument of `move`. */
  datatype Vector =
    | Highest              // :highest
    | Lowest               // :lowest
    | Higher               // :higher
    | Up                   // :up
    | Lower                // :lower
    | Down                 // :down
    | Above(target: Target)
    | Below(target: Target)
    | To(index: int)       // :to => index
    | Raw(index: int)      // any other value, by its to_i: an integer as such, nil as 0

  /** The value of `newpos`: an integer, nil, or an exception raised while computing it. */
  datatype NewPos = At(pos: int) | Nil | Raises

  /** The outcome of `move_without_saving`: true or false, or an exception. */
  datatype Reply = Returned(ok: bool) | Raised

  /** What one call leaves behind: its reply, the table, and the record's position and moved flag. */
  datatype Outcome = Outcome(reply: Reply, rows: seq<Row>, position: Option<int>, moved: bool)

  function Min(a: int, b: int): int { if a <= b then a else b }

  function Max(a: int, b: int): int { if a >= b then a else b }

  /** `prepos`: the position as loaded when the ORM tracks an original value for it, else the current one. */
  function Prepos(original: Option<int>, position: Option<int>): (r: Option<int>)
    ensures original.Some? ==> r == original
    ensures original.None? ==> r == position
    ensures r.None? <==> original.None? && position.None?
  {
    if original.Some? then original else position
  }

  /**
   * `maxpos`: the first index when the list is empty; the record's own
   * `prepos` when the record itself is the list's last row; otherwise one
   * past the last row's position. None is a nil `maxpos`, and also stands
   * for the case where computing it raises (LastUnplaced).
   */
  function MaxPos(rows: seq<Row>, scope: Scope, id: Id, prepos: Option<int>, first: int): Option<int>
  {
    match LastRow(rows, scope)
    case None => Some(first)
    case Some(k) =>
      if rows[k].id == id then prepos
      else if rows[k].position.Some? then Some(rows[k].position.value + 1)
      else None
  }

  /** Computing `maxpos` raises: `list.last` is another record, and its position is NULL (`nil + 1`). */
  predicate LastUnplaced(rows: seq<Row>, scope: Scope, id: Id)
  {
    match LastRow(rows, scope)
    case None => false
    case Some(k) => rows[k].id != id && rows[k].position.None?
  }

  /** Row k is placed in the list, and strictly above every other placed row of it. */
  predicate Top(rows: seq<Row>, scope: Scope, k: int)
  {
    0 <= k < |rows| && Placed(rows[k], scope) &&
    forall i :: 0 <= i < |rows| && i != k && Placed(rows[i], scope) ==> rows[i].position.value < rows[k].position.value
  }

  /** The record's own row is the top of the list. */
  predicate OnTop(rows: seq<Row>, scope: Scope, id: Id)
  {
    exists k :: 0 <= k < |rows| && Top(rows, scope, k) && rows[k].id == id
  }

  /**
   * What `maxpos` means for the list: `first` for an empty list; the
   * record's own `prepos` when its row is the top of the list; one past the
   * top row when that row is another record's; one past the highest placed
   * row when the record is not in the list. Whatever the
   * case, a value other than `prepos` and `first` is one past a placed row
   * and above every placed row. When computing it raises, it is None, the
   * list has rows, none of them placed, and one of them is another record.
   */
  lemma MaxPosBeyondList(rows: seq<Row>, scope: Scope, id: Id, prepos: Option<int>, first: int)
    ensures (forall i :: 0 <= i < |rows| ==> !InScope(rows[i], scope)) ==> MaxPos(rows, scope, id, prepos, first) == Some(first)
    ensures OnTop(rows, scope, id) ==> MaxPos(rows, scope, id, prepos, first) == prepos
    ensures forall j :: Top(rows, scope, j) && rows[j].id != id ==>
      MaxPos(rows, scope, id, prepos, first) == Some(rows[j].position.value + 1)
    ensures (forall i :: 0 <= i < |rows| && InScope(rows[i], scope) ==> rows[i].id != id) &&
            (exists j :: 0 <= j < |rows| && Placed(rows[j], scope)) ==>
      exists j :: 0 <= j < |rows| && Placed(rows[j], scope) &&
        MaxPos(rows, scope, id, prepos, first) == Some(rows[j].position.value + 1) &&
        forall i :: 0 <= i < |rows| && Placed(rows[i], scope) ==> rows[i].position.value <= rows[j].position.value
    ensures var m := MaxPos(rows, scope, id, prepos, first);
      m.Some? && m != prepos && m != Some(first) ==>
        (exists j :: 0 <= j < |rows| && Placed(rows[j], scope) && rows[j].position.value + 1 == m.value) &&
        (forall i :: 0 <= i < |rows| && Placed(rows[i], scope) ==> rows[i].position.value < m.value)
    ensures LastUnplaced(rows, scope, id) ==>
      MaxPos(rows, scope, id, prepos, first).None? &&
      (forall i :: 0 <= i < |rows| ==> !Placed(rows[i], scope)) &&
      (exists j :: 0 <= j < |rows| && InScope(rows[j], scope) && rows[j].id != id)
  {
    var m := MaxPos(rows, scope, id, prepos, first);
    var l := LastRow(rows, scope);
    if l.Some? {
      var k := l.value;
      if m.Some? && m != prepos && m != Some(first) {
        assert rows[k].id != id && rows[k].position.Some?;
        assert Placed(rows[k], scope) && rows[k].position.value + 1 == m.value;
      }
      if OnTop(rows, scope, id) {
        var t :| 0 <= t < |rows| && Top(rows, scope, t) && rows[t].id == id;
        assert rows[k].position.Some?;
        assert k == t;
      }
      forall j | Top(rows, scope, j) && rows[j].id != id
        ensures m == Some(rows[j].position.value + 1)
      {
        assert rows[k].position.Some?;
        assert k == j;
      }
      if rows[k].position.Some? {
        assert Placed(rows[k], scope);
      }
    }
  }

  /**
   * `newpos` for each vector. A nil `maxpos` or a nil position where the
   * code does arithmetic or comparison on it raises.
   */
  function Resolve(v: Vector, first: int, maxpos: Option<int>, position: Option<int>): (r: NewPos)
    // :highest is the top, :lowest is maxpos.
    ensures v.Highest? ==> r == At(first)
    ensures v.Lowest? && maxpos.Some? ==> r == At(maxpos.value)
    // :above r takes r's slot, :below r the one after it.
    ensures v.Above? && v.target.position.Some? ==> r == At(v.target.position.value)
    ensures v.Below? && v.target.position.Some? ==> r == At(v.target.position.value + 1)
    // :to is clamped into [first, maxpos]; a raw integer only capped by maxpos.
    ensures v.To? && maxpos.Some? && first <= maxpos.value ==> r.At? && first <= r.pos <= maxpos.value
    ensures v.To? && maxpos.Some? && first <= v.index <= maxpos.value ==> r == At(v.index)
    ensures v.To? && maxpos.Some? && v.index < first ==> r == At(first)
    ensures v.To? && maxpos.Some? && first <= maxpos.value < v.index ==> r == At(maxpos.value)
    ensures v.To? && maxpos.Some? && maxpos.value < first ==> r == At(first)
    ensures v.Raw? && maxpos.Some? ==> r.At? && r.pos <= maxpos.value && r.pos <= v.index
    ensures v.Raw? && maxpos.Some? && v.index <= maxpos.value ==> r == At(v.index)
    ensures v.Raw? && maxpos.Some? && maxpos.value <= v.index ==> r == At(maxpos.value)
    // :higher/:up go one up but not above first; :lower/:down one down but not past maxpos.
    ensures (v.Higher? || v.Up?) && position.Some? ==>
      r.At? && first <= r.pos && (r.pos == first || r.pos == position.value - 1)
    ensures (v.Higher? || v.Up?) && position.Some? && first <= position.value - 1 ==> r == At(position.value - 1)
    ensures (v.Lower? || v.Down?) && position.Some? && maxpos.Some? ==>
      r.At? && r.pos <= maxpos.value && (r.pos == maxpos.value || r.pos == position.value + 1)
    ensures (v.Lower? || v.Down?) && position.Some? && maxpos.Some? && position.value + 1 <= maxpos.value ==>
      r == At(position.value + 1)
    // The only nil results, and the only exceptions.
    ensures r.Nil? <==> (v.Lowest? && maxpos.None?) || (v.Above? && v.target.position.None?)
    ensures r.Raises? <==>
      ((v.Higher? || v.Up? || v.Lower? || v.Down?) && position.None?) ||
      ((v.Lower? || v.Down? || v.To? || v.Raw?) && maxpos.None?) ||
      (v.Below? && v.target.position.None?)
  {
    match v
    case Highest => At(first)
    case Lowest => if maxpos.Some? then At(maxpos.value) else Nil
    case Higher | Up => if position.Some? then At(Max(position.value - 1, first)) else Raises
    case Lower | Down =>
      if position.Some? && maxpos.Some? then At(Min(position.value + 1, maxpos.value)) else Raises
    case Above(t) => if t.position.Some? then At(t.position.value) else Nil
    case Below(t) => if t.position.Some? then At(t.position.value + 1) else Raises
    case To(i) => if maxpos.Some? then At(Max(first, Min(i, maxpos.value))) else Raises
    case Raw(i) => if maxpos.Some? then At(Min(i, maxpos.value)) else Raises
  }

  /** The vectors whose target is lowered by one when the record moves down the list. */
  predicate TakesOwnSlot(v: Vector)
  {
    v.Lowest? || v.Above? || v.Below? || v.To?
  }

  /**
   * `move_without_saving(v)` for the record `id` with attributes `attrs`,
   * in-memory `position` and `moved` flag, where `original` is the ORM's
   * original value of the position (None when it tracks none or it was nil).
   */
  function MoveEffect(rows: seq<Row>, scopeAttrs: set<Attr>, first: int, id: Id, attrs: Attrs,
                      position: Option<int>, original: Option<int>, moved: bool, v: Vector): (o: Outcome)
    ensures |o.rows| == |rows|
  {
    var scope := ListScope(scopeAttrs, attrs);
    var prepos := Prepos(original, position);
    var maxpos := MaxPos(rows, scope, id, prepos, first);
    var kept := Outcome(Returned(false), rows, position, moved);
    if LastUnplaced(rows, scope, id) then kept.(reply := Raised)
    else match Resolve(v, first, maxpos, position)
    case Raises => kept.(reply := Raised)
    case Nil => kept
    case At(newpos) =>
      if (v.Higher? || v.Lower?) && prepos == Some(newpos) then kept
      else if (v.Above? || v.Below?) && ListScope(scopeAttrs, v.target.attrs) != scope then kept
      else if (position == Some(newpos) && position == prepos) ||
              (maxpos == Some(newpos) && position == Some(newpos - 1))
      then kept.(reply := Returned(true))
      else Take(rows, scope, v, position, prepos, newpos)
  }

  /**
   * Lines 190-201 of `move_without_saving`, once the move is accepted: an
   * entering record opens a slot at `newpos` (none for `:lowest`); a record
   * moving down closes the gap above `prepos` and takes `newpos`, less one for
   * the vectors that count its own slot; one moving up opens a slot at
   * `newpos`. The record is then placed and marked moved.
   */
  function Take(rows: seq<Row>, scope: Scope, v: Vector, position: Option<int>, prepos: Option<int>,
                newpos: int): (o: Outcome)
    requires position.Some? ==> prepos.Some?
    ensures o.reply == Returned(true) && o.moved && o.position.Some?
    ensures |o.rows| == |rows|
    ensures forall i :: 0 <= i < |rows| ==> o.rows[i].id == rows[i].id && o.rows[i].attrs == rows[i].attrs
    ensures forall i :: 0 <= i < |rows| && !InScope(rows[i], scope) ==> o.rows[i] == rows[i]
  {
    if position.None? then
      Outcome(Returned(true), if v.Lowest? then rows else Shifted(rows, scope, AtLeast(newpos), 1), Some(newpos), true)
    else if newpos > prepos.value then
      var target := if TakesOwnSlot(v) then newpos - 1 else newpos;
      Outcome(Returned(true), Shifted(rows, scope, Between(prepos.value, target), -1), Some(target), true)
    else if newpos < prepos.value then
      Outcome(Returned(true), Shifted(rows, scope, Between(newpos, prepos.value), 1), Some(newpos), true)
    else
      Outcome(Returned(true), rows, Some(newpos), true)
  }

  /**
   * A move that raises or is refused changes nothing; one that changes
   * anything replies true, sets `moved` and leaves the record placed. It
   * touches only rows of the record's own list, and only their positions.
   */
  lemma MoveEffectFrame(rows: seq<Row>, scopeAttrs: set<Attr>, first: int, id: Id, attrs: Attrs,
                        position: Option<int>, original: Option<int>, moved: bool, v: Vector)
    ensures var o := MoveEffect(rows, scopeAttrs, first, id, attrs, position, original, moved, v);
      && (o.reply != Returned(true) ==> o.rows == rows && o.position == position && o.moved == moved)
      && (o.moved != moved || o.position != position || o.rows != rows ==>
            o.reply == Returned(true) && o.moved && o.position.Some?)
      && |o.rows| == |rows|
      && (forall i :: 0 <= i < |rows| ==> o.rows[i].id == rows[i].id && o.rows[i].attrs == rows[i].attrs)
      && (forall i :: 0 <= i < |rows| && !InScope(rows[i], ListScope(scopeAttrs, attrs)) ==> o.rows[i] == rows[i])
  {
    var scope := ListScope(scopeAttrs, attrs);
    var maxpos := MaxPos(rows, scope, id, Prepos(original, position), first);
    var o := MoveEffect(rows, scopeAttrs, first, id, attrs, position, original, moved, v);
    var kept := Outcome(Returned(false), rows, position, moved);
    if LastUnplaced(rows, scope, id) {
      assert o == kept.(reply := Raised);
    } else {
      match Resolve(v, first, maxpos, position)
      case At(newpos) => MoveFrameAt(rows, scopeAttrs, first, id, attrs, position, original, moved, v, newpos);
      case Raises => assert o == kept.(reply := Raised);
      case Nil => assert o == kept;
    }
  }

  /** MoveEffectFrame for a move that resolves to a slot. */
  lemma MoveFrameAt(rows: seq<Row>, scopeAttrs: set<Attr>, first: int, id: Id, attrs: Attrs,
                    position: Option<int>, original: Option<int>, moved: bool, v: Vector, newpos: int)
    requires !LastUnplaced(rows, ListScope(scopeAttrs, attrs), id)
    requires Resolve(v, first, MaxPos(rows, ListScope(scopeAttrs, attrs), id, Prepos(original, position), first), position)
          == At(newpos)
    ensures var o := MoveEffect(rows, scopeAttrs, first, id, attrs, position, original, moved, v);
      && (o.reply != Returned(true) ==> o.rows == rows && o.position == position && o.moved == moved)
      && (o.moved != moved || o.position != position || o.rows != rows ==>
            o.reply == Returned(true) && o.moved && o.position.Some?)
      && |o.rows| == |rows|
      && (forall i :: 0 <= i < |rows| ==> o.rows[i].id == rows[i].id && o.rows[i].attrs == rows[i].attrs)
      && (forall i :: 0 <= i < |rows| && !InScope(rows[i], ListScope(scopeAttrs, attrs)) ==> o.rows[i] == rows[i])
  {
    var scope := ListScope(scopeAttrs, attrs);
    var prepos := Prepos(original, position);
    var maxpos := MaxPos(rows, scope, id, prepos, first);
    var o := MoveEffect(rows, scopeAttrs, first, id, attrs, position, original, moved, v);
    var kept := Outcome(Returned(false), rows, position, moved);
    if (v.Higher? || v.Lower?) && prepos == Some(newpos) {
      assert o == kept;
    } else if (v.Above? || v.Below?) && ListScope(scopeAttrs, v.target.attrs) != scope {
      assert o == kept;
    } else if (position == Some(newpos) && position == prepos) ||
              (maxpos == Some(newpos) && position == Some(newpos - 1)) {
      assert o == kept.(reply := Returned(true));
    } else {
      assert o == Take(rows, scope, v, position, prepos, newpos);
    }
  }

  /** `detach(scope)`: the rows of `scope` above the record's position move up one. */
  function Detached(rows: seq<Row>, scope: Scope, position: Option<int>): (r: seq<Row>)
    ensures |r| == |rows|
    ensures forall i :: 0 <= i < |rows| ==> r[i].id == rows[i].id && r[i].attrs == rows[i].attrs
    ensures forall i :: 0 <= i < |rows| && !InScope(rows[i], scope) ==> r[i] == rows[i]
  {
    if position.Some? then Shifted(rows, scope, GreaterThan(position.value), -1) else rows
  }

  /** The vector the hooks pass for a position value: `position || :lowest`. */
  function PositionOrLowest(position: Option<int>): (v: Vector)
    ensures v.Lowest? <==> position.None?
    ensures position.Some? ==> v == Raw(position.value)
  {
    if position.Some? then Raw(position.value) else Lowest
  }

  /** The vector `move_without_saving(position)` receives: nil.to_i is 0. */
  function PositionVector(position: Option<int>): (v: Vector)
    ensures v.Raw?
    ensures v.index == if position.Some? then position.value else 0
  {
    if position.Some? then Raw(position.value) else Raw(0)
  }

  /** The before-create hook: move to `position || :lowest`; a new record has no original position. */
  function CreateEffect(rows: seq<Row>, scopeAttrs: set<Attr>, first: int, id: Id, attrs: Attrs,
                        position: Option<int>, moved: bool): (o: Outcome)
    ensures |o.rows| == |rows|
  {
    MoveEffect(rows, scopeAttrs, first, id, attrs, position, None, moved, PositionOrLowest(position))
  }

  /**
   * The create hook changes nothing unless it returns true; any change means
   * it returned true, set `moved` and placed the record. It touches only the
   * record's own list, and only positions.
   */
  lemma CreateEffectFrame(rows: seq<Row>, scopeAttrs: set<Attr>, first: int, id: Id, attrs: Attrs,
                          position: Option<int>, moved: bool)
    ensures var o := CreateEffect(rows, scopeAttrs, first, id, attrs, position, moved);
      && (o.reply != Returned(true) ==> o.rows == rows && o.position == position && o.moved == moved)
      && (o.rows != rows || o.position != position ==> o.reply == Returned(true) && o.moved && o.position.Some?)
      && (forall i :: 0 <= i < |rows| && !InScope(rows[i], ListScope(scopeAttrs, attrs)) ==> o.rows[i] == rows[i])
  {
    MoveEffectFrame(rows, scopeAttrs, first, id, attrs, position, None, moved, PositionOrLowest(position));
  }

  /**
   * The before-update hook. `originals` are the original values of the
   * changed scope attributes, `loaded` the position as loaded from the store,
   * `positionDirty` whether the position was assigned since loading. Each
   * move it makes runs with the position assigned (by the user, or by the
   * detach just before), so the ORM's original position is then `loaded`.
   * The reply is None when no move was made.
   */
  function UpdateEffect(rows: seq<Row>, scopeAttrs: set<Attr>, first: int, id: Id, attrs: Attrs,
                        position: Option<int>, moved: bool, originals: Scope, loaded: Option<int>,
                        positionDirty: bool): (r: (Option<Reply>, Outcome))
    ensures r.0 != Some(Raised) ==> !r.1.moved
    ensures |r.1.rows| == |rows|
  {
    var scope := ListScope(scopeAttrs, attrs);
    var before := OriginalListScope(scopeAttrs, attrs, originals);
    if scope != before then
      var o := MoveEffect(Detached(rows, before, position), scopeAttrs, first, id, attrs,
                          None, loaded, moved, PositionOrLowest(position));
      (Some(o.reply), if o.reply.Raised? then o else o.(moved := false))
    else if positionDirty && !moved then
      var o := MoveEffect(rows, scopeAttrs, first, id, attrs, position, loaded, moved, PositionVector(position));
      (Some(o.reply), if o.reply.Raised? then o else o.(moved := false))
    else
      (None, Outcome(Returned(false), rows, position, false))
  }

  /**
   * Line 188: once the target is resolved and the move is not refused, a
   * record already at its target and unmoved since loading, or one just
   * above a target equal to maxpos, returns true and changes nothing.
   */
  lemma MoveShortCircuits(rows: seq<Row>, scopeAttrs: set<Attr>, first: int, id: Id, attrs: Attrs,
                          position: Option<int>, original: Option<int>, moved: bool, v: Vector, newpos: int)
    requires !LastUnplaced(rows, ListScope(scopeAttrs, attrs), id)
    requires var maxpos := MaxPos(rows, ListScope(scopeAttrs, attrs), id, Prepos(original, position), first);
      Resolve(v, first, maxpos, position) == At(newpos)
    requires !((v.Higher? || v.Lower?) && Prepos(original, position) == Some(newpos))
    requires (v.Above? || v.Below?) ==> ListScope(scopeAttrs, v.target.attrs) == ListScope(scopeAttrs, attrs)
    requires var maxpos := MaxPos(rows, ListScope(scopeAttrs, attrs), id, Prepos(original, position), first);
      (position == Some(newpos) && original.None?) || (position == Some(newpos) && original == position) ||
      (maxpos == Some(newpos) && position == Some(newpos - 1))
    ensures MoveEffect(rows, scopeAttrs, first, id, attrs, position, original, moved, v)
         == Outcome(Returned(true), rows, position, moved)
  {
  }

  /**
   * The update hook touches no row outside the record's old and new lists,
   * and never changes a row's identity or attributes.
   */
  lemma UpdateEffectFrame(rows: seq<Row>, scopeAttrs: set<Attr>, first: int, id: Id, attrs: Attrs,
                          position: Option<int>, moved: bool, originals: Scope, loaded: Option<int>,
                          positionDirty: bool)
    ensures var e := UpdateEffect(rows, scopeAttrs, first, id, attrs, position, moved, originals, loaded, positionDirty);
      var scope, before := ListScope(scopeAttrs, attrs), OriginalListScope(scopeAttrs, attrs, originals);
      && (forall i :: 0 <= i < |rows| ==> e.1.rows[i].id == rows[i].id && e.1.rows[i].attrs == rows[i].attrs)
      && (forall i :: 0 <= i < |rows| && !InScope(rows[i], scope) && !InScope(rows[i], before) ==> e.1.rows[i] == rows[i])
  {
    var scope, before := ListScope(scopeAttrs, attrs), OriginalListScope(scopeAttrs, attrs, originals);
    if scope != before {
      var d := Detached(rows, before, position);
      MoveEffectFrame(d, scopeAttrs, first, id, attrs, None, loaded, moved, PositionOrLowest(position));
    } else {
      MoveEffectFrame(rows, scopeAttrs, first, id, attrs, position, loaded, moved, PositionVector(position));
    }
  }

  /**
   * An update that changes no scope attribute and has no position to apply
   * (the position is not dirty, or the record was already moved) leaves the
   * table and the position alone, answers nothing, and clears `moved`.
   */
  lemma UpdateLeavesListAlone(rows: seq<Row>, scopeAttrs: set<Attr>, first: int, id: Id, attrs: Attrs,
                              position: Option<int>, moved: bool, originals: Scope, loaded: Option<int>,
                              positionDirty: bool)
    requires forall a :: a in scopeAttrs && a in originals ==> originals[a] == Get(attrs, a)
    requires !positionDirty || moved
    ensures var e := UpdateEffect(rows, scopeAttrs, first, id, attrs, position, moved, originals, loaded, positionDirty);
      e.0.None? && e.1.rows == rows && e.1.position == position && !e.1.moved
  {
    OriginalScopeChanged(scopeAttrs, attrs, originals);
  }

  /** A loaded record of a list model, with the state the ORM keeps for it in memory. */
  class Resource {
    const id: Id
    var attrs: Attrs
    var position: Option<int>
    var moved: bool

    constructor (id: Id, attrs: Attrs, position: Option<int>)
      ensures this.id == id && this.attrs == attrs && this.position == position && !moved
    {
      this.id := id;
      this.attrs := attrs;
      this.position := position;
      this.moved := false;
    }

    /**
     * `move_without_saving(v)`: resolve the target, refuse or short-circuit,
     * else shift the siblings in one bulk update and take the target.
     */
    method MoveWithoutSaving(store: Store, v: Vector, original: Option<int>) returns (r: Reply)
      requires store.Valid()
      modifies this`position, this`moved, store`rows
      ensures store.Valid()
      ensures var o := MoveEffect(old(store.rows), store.scopeAttrs, store.first, id, attrs,
                                  old(position), original, old(moved), v);
        r == o.reply && store.rows == o.rows && position == o.position && moved == o.moved
    {
      ghost var o := MoveEffect(store.rows, store.scopeAttrs, store.first, id, attrs, position, original, moved, v);
      var scope := ListScope(store.scopeAttrs, attrs);
      var minpos := store.first;
      var prepos := Prepos(original, position);
      if LastUnplaced(store.rows, scope, id) {
        assert o == Outcome(Raised, store.rows, position, moved);
        return Raised;
      }
      var maxpos := MaxPos(store.rows, scope, id, prepos, minpos);
      var resolved := Resolve(v, minpos, maxpos, position);
      if resolved.Raises? {
        assert o == Outcome(Raised, store.rows, position, moved);
        return Raised;
      }
      if resolved.Nil? {
        assert o == Outcome(Returned(false), store.rows, position, moved);
        return Returned(false);
      }
      var newpos := resolved.pos;
      if (v.Higher? || v.Lower?) && prepos == Some(newpos) {
        assert o == Outcome(Returned(false), store.rows, position, moved);
        return Returned(false);
      }
      if (v.Above? || v.Below?) && ListScope(store.scopeAttrs, v.target.attrs) != scope {
        assert o == Outcome(Returned(false), store.rows, position, moved);
        return Returned(false);
      }
      if (position == Some(newpos) && position == prepos) ||
         (maxpos == Some(newpos) && position == Some(newpos - 1)) {
        assert o == Outcome(Returned(true), store.rows, position, moved);
        return Returned(true);
      }
      assert o == Take(store.rows, scope, v, position, prepos, newpos);
      r := TakeSlot(store, scope, v, prepos, newpos);
    }

    /** Lines 190-201: shift the siblings in one bulk update, then take the slot. */
    method TakeSlot(store: Store, scope: Scope, v: Vector, prepos: Option<int>, newpos: int) returns (r: Reply)
      requires store.Valid()
      requires position.Some? ==> prepos.Some?
      modifies this`position, this`moved, store`rows
      ensures store.Valid()
      ensures var o := Take(old(store.rows), scope, v, old(position), prepos, newpos);
        r == o.reply && store.rows == o.rows && position == o.position && moved == o.moved
    {
      var target := newpos;
      if position.None? {
        if !v.Lowest? {
          store.Adjust(scope, AtLeast(newpos), 1);
        }
      } else if newpos > prepos.value {
        if TakesOwnSlot(v) {
          target := newpos - 1;
        }
        store.Adjust(scope, Between(prepos.value, target), -1);
      } else if newpos < prepos.value {
        store.Adjust(scope, Between(newpos, prepos.value), 1);
      }
      position := Some(target);
      moved := true;
      return Returned(true);
    }

    /** `detach(scope)`: close the gap the record leaves in `scope`, and unplace it. */
    method Detach(store: Store, scope: Scope)
      requires store.Valid()
      modifies this`position, store`rows
      ensures store.Valid()
      ensures store.rows == Detached(old(store.rows), scope, old(position))
      ensures position == None
    {
      if position.Some? {
        store.Adjust(scope, GreaterThan(position.value), -1);
      }
      position := None;
    }

    /**
     * `left_sibling`: of the stored records of this record's list with a
     * position below its own, the one with the greatest position; None when
     * there is none or this record has no position.
     */
    function LeftSibling(store: Store): (r: Option<Row>)
      reads this, store
      ensures r.Some? ==>
        && position.Some? && r.value in store.rows
        && Placed(r.value, ListScope(store.scopeAttrs, attrs)) && r.value.position.value < position.value
      ensures r.Some? ==> forall i ::
        (0 <= i < |store.rows| && Placed(store.rows[i], ListScope(store.scopeAttrs, attrs))
         && store.rows[i].position.value < position.value) ==>
          store.rows[i].position.value <= r.value.position.value
      ensures r.None? <==> position.None? || forall i :: 0 <= i < |store.rows| ==>
        !(Placed(store.rows[i], ListScope(store.scopeAttrs, attrs)) && store.rows[i].position.value < position.value)
    {
      if position.None? then None
      else
        match HighestBelow(store.rows, ListScope(store.scopeAttrs, attrs), position)
        case None => None
        case Some(k) => Some(store.rows[k])
    }

    /**
     * `right_sibling`: of the stored records of this record's list with a
     * position above its own, the one with the least position; None when
     * there is none or this record has no position.
     */
    function RightSibling(store: Store): (r: Option<Row>)
      reads this, store
      ensures r.Some? ==>
        && position.Some? && r.value in store.rows
        && Placed(r.value, ListScope(store.scopeAttrs, attrs)) && r.value.position.value > position.value
      ensures r.Some? ==> forall i ::
        (0 <= i < |store.rows| && Placed(store.rows[i], ListScope(store.scopeAttrs, attrs))
         && store.rows[i].position.value > position.value) ==>
          r.value.position.value <= store.rows[i].position.value
      ensures r.None? <==> position.None? || forall i :: 0 <= i < |store.rows| ==>
        !(Placed(store.rows[i], ListScope(store.scopeAttrs, attrs)) && store.rows[i].position.value > position.value)
    {
      if position.None? then None
      else
        match LowestAbove(store.rows, ListScope(store.scopeAttrs, attrs), position.value)
        case None => None
        case Some(k) => Some(store.rows[k])
    }

    /** `repair_list`: repair this record's list; always accepted, as its filter is the list scope. */
    method RepairList(store: Store) returns (ok: bool)
      requires store.Valid()
      modifies store`rows
      ensures store.Valid() && ok
      ensures store.rows == Renumbered(old(store.rows),
        Select(old(store.rows), ListScope(store.scopeAttrs, attrs), ByPosition), 1)
    {
      ok := store.RepairList(ListScope(store.scopeAttrs, attrs), None);
    }

    /** `reorder_list(order)`: renumber this record's list in `order`. */
    method ReorderList(store: Store, order: Order) returns (ok: bool)
      requires store.Valid()
      modifies store`rows
      ensures store.Valid() && ok
      ensures store.rows == Renumbered(old(store.rows),
        Select(old(store.rows), ListScope(store.scopeAttrs, attrs), order), 1)
    {
      ok := store.RepairList(ListScope(store.scopeAttrs, attrs), Some(order));
    }

    /** The before-create hook. */
    method BeforeCreate(store: Store) returns (r: Reply)
      requires store.Valid()
      modifies this`position, this`moved, store`rows
      ensures store.Valid()
      ensures var o := CreateEffect(old(store.rows), store.scopeAttrs, store.first, id, attrs, old(position), old(moved));
        r == o.reply && store.rows == o.rows && position == o.position && moved == o.moved
    {
      r := MoveWithoutSaving(store, PositionOrLowest(position), None);
    }

    /** The before-update hook; `moved` is cleared unless the move raised. */
    method BeforeUpdate(store: Store, originals: Scope, loaded: Option<int>, positionDirty: bool)
      returns (r: Option<Reply>)
      requires store.Valid()
      modifies this`position, this`moved, store`rows
      ensures store.Valid()
      ensures var e := UpdateEffect(old(store.rows), store.scopeAttrs, store.first, id, attrs, old(position),
                                    old(moved), originals, loaded, positionDirty);
        r == e.0 && store.rows == e.1.rows && position == e.1.position && moved == e.1.moved
    {
      ghost var e := UpdateEffect(store.rows, store.scopeAttrs, store.first, id, attrs, position,
                                  moved, originals, loaded, positionDirty);
      r := None;
      var scope := ListScope(store.scopeAttrs, attrs);
      var before := OriginalListScope(store.scopeAttrs, attrs, originals);
      if scope != before {
        var newpos := position;
        ghost var o := MoveEffect(Detached(store.rows, before, position), store.scopeAttrs, store.first, id, attrs,
                                  None, loaded, moved, PositionOrLowest(position));
        assert e == (Some(o.reply), if o.reply.Raised? then o else o.(moved := false));
        Detach(store, before);
        var reply := MoveWithoutSaving(store, PositionOrLowest(newpos), loaded);
        r := Some(reply);
      } else if positionDirty && !moved {
        ghost var o := MoveEffect(store.rows, store.scopeAttrs, store.first, id, attrs, position, loaded, moved,
                                  PositionVector(position));
        assert e == (Some(o.reply), if o.reply.Raised? then o else o.(moved := false));
        var reply := MoveWithoutSaving(store, PositionVector(position), loaded);
        r := Some(reply);
      }
      if r == Some(Raised) {
        return;
      }
      moved := false;
    }

    /** The before-destroy hook: detach from the current list. */
    method BeforeDestroy(store: Store)
      requires store.Valid()
      modifies this`position, store`rows
      ensures store.Valid()
      ensures store.rows == Detached(old(store.rows), ListScope(store.scopeAttrs, attrs), old(position))
      ensures position == None
    {
      Detach(store, ListScope(store.scopeAttrs, attrs));
    }
  }
}
