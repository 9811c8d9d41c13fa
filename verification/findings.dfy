/**
 * Four places where the engine, as written, breaks the list invariant it
 * exists to keep (each list numbered first, first+1, ... without gaps or
 * duplicates), each shown on a concrete table, next to the evidently
 * intended behaviour and a proof that the intended behaviour keeps it.
 *
 * The rest of the model (Engine, Storage, Invariant) stays faithful to the
 * code as written; the corrected definitions live here only.
 */
module Findings {
  import opened Scoping
  import opened Table
  import opened Repair
  import opened Engine
  import opened Invariant

  // ---------------------------------------------------------------------
  // Finding 1: the create hook with an explicit position.
  // ---------------------------------------------------------------------

  /**
   * As written: a new record created with a position that is already taken
   * in its list is not inserted. A new record has no original position, so
   * `prepos` is its own `position`; the target equals both, the move
   * short-circuits without opening a slot, and once saved the list holds
   * that number twice. (With [1, 2] and a new record at 1: 1, 2, 1.)
   */
  lemma CreateAtTakenSlotDuplicates(rows: seq<Row>, scopeAttrs: set<Attr>, first: int, id: Id, attrs: Attrs,
                                    q: int, moved: bool)
    requires forall i :: 0 <= i < |rows| ==> rows[i].id != id
    requires Contiguous(rows, ListScope(scopeAttrs, attrs), first)
    requires first <= q < first + Count(rows, ListScope(scopeAttrs, attrs))
    ensures var scope := ListScope(scopeAttrs, attrs);
      var o := CreateEffect(rows, scopeAttrs, first, id, attrs, Some(q), moved);
      && o.reply == Returned(true) && o.rows == rows && o.position == Some(q)
      && !Contiguous(rows + [Row(id, attrs, o.position)], scope, first)
  {
    var scope := ListScope(scopeAttrs, attrs);
    MaxPosOfAbsent(rows, scope, first, id, Some(q));
    assert Resolve(Raw(q), first, Some(first + Count(rows, scope)), Some(q)) == At(q);
    var i := RunIsTaken(rows, scope, first, q);
    var saved := rows + [Row(id, attrs, Some(q))];
    MatchesListScope(scopeAttrs, attrs, attrs);
    assert saved[i] == rows[i] && InScope(saved[|rows|], scope);
    assert saved[i].position == saved[|rows|].position;
  }

  // ---------------------------------------------------------------------
  // Finding 2: a raw integer target outside the list.
  // ---------------------------------------------------------------------

  /**
   * As written: `move(i)` with a plain integer only caps `i` at `maxpos`.
   * Below `first` the record lands below the list's first number. Beyond
   * the end, a record that is not the last lands at `maxpos`, one past the
   * last number, because only :lowest, :above, :below and :to take back
   * the slot the record leaves. (With [1, 2, 3]: moving the first record to
   * 4 gives 4, 1, 2; moving the last to 0 gives 2, 3, 0.)
   */
  lemma RawOutsideListBreaksRun(rows: seq<Row>, scopeAttrs: set<Attr>, first: int, k: nat, moved: bool, i: int)
    requires UniqueIds(rows) && k < |rows| && rows[k].position.Some?
    requires Contiguous(rows, ListScope(scopeAttrs, rows[k].attrs), first)
    requires i < first ||
      (i >= first + Count(rows, ListScope(scopeAttrs, rows[k].attrs)) &&
       rows[k].position.value < first + Count(rows, ListScope(scopeAttrs, rows[k].attrs)) - 1)
    ensures var scope := ListScope(scopeAttrs, rows[k].attrs);
      var n := Count(rows, scope);
      var o := MoveEffect(rows, scopeAttrs, first, rows[k].id, rows[k].attrs,
                          rows[k].position, rows[k].position, moved, Raw(i));
      && o.reply == Returned(true)
      && o.position == Some(if i < first then i else first + n)
      && !Contiguous(Saved(o.rows, k, o.position), scope, first)
  {
    var scope := ListScope(scopeAttrs, rows[k].attrs);
    var n, p := Count(rows, scope), rows[k].position.value;
    var maxpos := StoredFacts(rows, scopeAttrs, first, k);
    var newpos := if i < first then i else first + n;
    assert Resolve(Raw(i), first, Some(maxpos), Some(p)) == At(newpos);
    var o := MoveEffect(rows, scopeAttrs, first, rows[k].id, rows[k].attrs, rows[k].position, rows[k].position, moved, Raw(i));
    assert o.position == Some(newpos);
    var saved := Saved(o.rows, k, o.position);
    CountSame(saved, rows, scope);
    assert InScope(saved[k], scope) && saved[k].position == Some(newpos);
  }

  /**
   * The evident intent: an integer target outside the list is clamped to
   * its ends, as :to is. Beyond the last slot it means the bottom
   * (:lowest, which takes back the slot the record leaves); below `first`
   * it means the top. A raw integer is kept where maxpos is nil, where the
   * code raises.
   */
  function Clamped(v: Vector, first: int, maxpos: Option<int>): (r: Vector)
    ensures !v.Raw? || maxpos.None? ==> r == v
    ensures v.Raw? && maxpos.Some? ==>
      (r == Lowest <==> v.index >= maxpos.value) &&
      (r == Highest <==> v.index < first && v.index < maxpos.value) &&
      (r.Raw? ==> r == v && first <= v.index < maxpos.value)
  {
    match v
    case Raw(i) =>
      if maxpos.None? then v
      else if i >= maxpos.value then Lowest
      else if i < first then Highest
      else v
    case _ => v
  }

  /** `move_without_saving` with an out-of-list integer target clamped first. */
  function MoveEffectCorrected(rows: seq<Row>, scopeAttrs: set<Attr>, first: int, id: Id, attrs: Attrs,
                               position: Option<int>, original: Option<int>, moved: bool, v: Vector): (o: Outcome)
    ensures !v.Raw? ==> o == MoveEffect(rows, scopeAttrs, first, id, attrs, position, original, moved, v)
    ensures |o.rows| == |rows|
  {
    var maxpos := MaxPos(rows, ListScope(scopeAttrs, attrs), id, Prepos(original, position), first);
    MoveEffect(rows, scopeAttrs, first, id, attrs, position, original, moved, Clamped(v, first, maxpos))
  }

  /**
   * Corrected: any integer target lands the record at that number clamped
   * into the list's run, and the list stays contiguous.
   */
  lemma CorrectedRawKeeps(rows: seq<Row>, scopeAttrs: set<Attr>, first: int, k: nat, moved: bool, i: int)
    requires UniqueIds(rows) && k < |rows| && rows[k].position.Some?
    requires Contiguous(rows, ListScope(scopeAttrs, rows[k].attrs), first)
    ensures var scope := ListScope(scopeAttrs, rows[k].attrs);
      var n := Count(rows, scope);
      var o := MoveEffectCorrected(rows, scopeAttrs, first, rows[k].id, rows[k].attrs,
                                   rows[k].position, rows[k].position, moved, Raw(i));
      && o.reply == Returned(true)
      && o.position == Some(Max(first, Min(i, first + n - 1)))
      && Contiguous(Saved(o.rows, k, o.position), scope, first)
  {
    var scope := ListScope(scopeAttrs, rows[k].attrs);
    var maxpos := StoredFacts(rows, scopeAttrs, first, k);
    var w := Clamped(Raw(i), first, Some(maxpos));
    assert MoveEffectCorrected(rows, scopeAttrs, first, rows[k].id, rows[k].attrs,
                               rows[k].position, rows[k].position, moved, Raw(i))
        == MoveEffect(rows, scopeAttrs, first, rows[k].id, rows[k].attrs,
                      rows[k].position, rows[k].position, moved, w);
    MoveToRankKeeps(rows, scopeAttrs, first, k, moved, w);
  }

  // ---------------------------------------------------------------------
  // Finding 1, corrected.
  // ---------------------------------------------------------------------

  /**
   * The evident intent of the create hook ("a position has been set before
   * save => open up and make room"): the new record is not in any list yet,
   * so it moves as an unplaced record to `position || :lowest`.
   */
  function CreateEffectCorrected(rows: seq<Row>, scopeAttrs: set<Attr>, first: int, id: Id, attrs: Attrs,
                                 position: Option<int>, moved: bool): (o: Outcome)
    ensures |o.rows| == |rows|
  {
    MoveEffectCorrected(rows, scopeAttrs, first, id, attrs, None, None, moved, PositionOrLowest(position))
  }

  /** The slot an unplaced record asking for `q` (`q || :lowest`) takes in a list of `n`. */
  function InsertSlot(q: Option<int>, first: int, n: nat): (t: int)
    ensures first <= t <= first + n
    ensures q.None? ==> t == first + n
    ensures q.Some? && first <= q.value <= first + n ==> t == q.value
  {
    if q.None? then first + n else Max(first, Min(q.value, first + n))
  }

  /** An unplaced record moved to `:highest` opens the top slot and takes it. */
  lemma InsertAtTop(rows: seq<Row>, scopeAttrs: set<Attr>, first: int, id: Id, attrs: Attrs,
                    original: Option<int>, moved: bool, maxpos: int)
    requires MaxPos(rows, ListScope(scopeAttrs, attrs), id, original, first) == Some(maxpos)
    ensures MoveEffect(rows, scopeAttrs, first, id, attrs, None, original, moved, Highest)
         == Outcome(Returned(true), Shifted(rows, ListScope(scopeAttrs, attrs), AtLeast(first), 1), Some(first), true)
  {
    assert !LastUnplaced(rows, ListScope(scopeAttrs, attrs), id);
    assert Prepos(original, None) == original;
  }

  /** The corrected move of an unplaced record: open slot `t` and take it. */
  lemma CorrectedInsertShape(rows: seq<Row>, scopeAttrs: set<Attr>, first: int, id: Id, attrs: Attrs,
                             original: Option<int>, moved: bool, q: Option<int>)
    requires Contiguous(rows, ListScope(scopeAttrs, attrs), first)
    requires MaxPos(rows, ListScope(scopeAttrs, attrs), id, original, first)
      == Some(first + Count(rows, ListScope(scopeAttrs, attrs)))
    ensures var scope := ListScope(scopeAttrs, attrs);
      var t := InsertSlot(q, first, Count(rows, scope));
      MoveEffectCorrected(rows, scopeAttrs, first, id, attrs, None, original, moved, PositionOrLowest(q))
        == Outcome(Returned(true), Shifted(rows, scope, AtLeast(t), 1), Some(t), true)
  {
    var scope := ListScope(scopeAttrs, attrs);
    var m := first + Count(rows, scope);
    var t := InsertSlot(q, first, Count(rows, scope));
    var w := Clamped(PositionOrLowest(q), first, Some(m));
    assert Prepos(original, None) == original;
    assert MoveEffectCorrected(rows, scopeAttrs, first, id, attrs, None, original, moved, PositionOrLowest(q))
        == MoveEffect(rows, scopeAttrs, first, id, attrs, None, original, moved, w);
    if w.Highest? {
      assert t == first;
      InsertAtTop(rows, scopeAttrs, first, id, attrs, original, moved, m);
    } else if w.Lowest? {
      assert t == m;
      InsertShape(rows, scopeAttrs, first, id, attrs, original, moved, w, m);
      NothingBeyond(rows, scope, first);
    } else {
      assert w == Raw(q.value) && t == q.value;
      InsertShape(rows, scopeAttrs, first, id, attrs, original, moved, w, m);
    }
  }

  /**
   * Corrected: a new record created with any position, or none, is inserted
   * at that position clamped into first..first+n (the bottom when none),
   * and the list, with the new record saved, stays contiguous.
   */
  lemma CorrectedCreateKeeps(rows: seq<Row>, scopeAttrs: set<Attr>, first: int, id: Id, attrs: Attrs,
                             q: Option<int>, moved: bool)
    requires forall i :: 0 <= i < |rows| ==> rows[i].id != id
    requires Contiguous(rows, ListScope(scopeAttrs, attrs), first)
    ensures var scope := ListScope(scopeAttrs, attrs);
      var o := CreateEffectCorrected(rows, scopeAttrs, first, id, attrs, q, moved);
      && o.reply == Returned(true)
      && o.position == Some(InsertSlot(q, first, Count(rows, scope)))
      && Contiguous(o.rows + [Row(id, attrs, o.position)], scope, first)
  {
    var scope := ListScope(scopeAttrs, attrs);
    var t := InsertSlot(q, first, Count(rows, scope));
    MaxPosOfAbsent(rows, scope, first, id, None);
    CorrectedInsertShape(rows, scopeAttrs, first, id, attrs, None, moved, q);
    MatchesListScope(scopeAttrs, attrs, attrs);
    AppendKeeps(rows, scope, first, t, Row(id, attrs, Some(t)));
  }

  // ---------------------------------------------------------------------
  // Finding 3: the update hook when the scope and the position change together.
  // ---------------------------------------------------------------------

  /**
   * As written: `detach(original_list_scope)` closes the gap at the
   * record's in-memory position, which is already the new one. When the
   * record moves to another list and to a position s at least two smaller
   * than the one it held, the old list's record at s + 1 is renumbered s.
   * (With [1, 2, 3] in scope g = 0 and the third record moved to g = 1 at
   * position 1: the old list becomes 1, 1.)
   */
  lemma ScopeAndPositionChangeDuplicates(rows: seq<Row>, scopeAttrs: set<Attr>, first: int, k: nat,
                                         attrs: Attrs, s: int, moved: bool, originals: Scope,
                                         positionDirty: bool)
    requires ChangesList(rows, scopeAttrs, first, k, attrs, originals)
    requires first <= s < rows[k].position.value - 1
    ensures var before := ListScope(scopeAttrs, rows[k].attrs);
      var e := UpdateEffect(rows, scopeAttrs, first, rows[k].id, attrs, Some(s), moved, originals,
                            rows[k].position, positionDirty);
      var saved := e.1.rows[k := Row(rows[k].id, attrs, e.1.position)];
      !Contiguous(saved, before, first)
  {
    var before, after := ListScope(scopeAttrs, rows[k].attrs), ListScope(scopeAttrs, attrs);
    var d := Detached(rows, before, Some(s));
    var i, j := CollidingRows(rows, scopeAttrs, first, k, attrs, s);
    MoveEffectFrame(d, scopeAttrs, first, rows[k].id, attrs, None, rows[k].position, moved, Raw(s));
    var o := MoveEffect(d, scopeAttrs, first, rows[k].id, attrs, None, rows[k].position, moved, Raw(s));
    assert o.rows[i] == d[i] && o.rows[j] == d[j];
    UpdateAcross(rows, scopeAttrs, first, rows[k].id, attrs, Some(s), moved, originals, rows[k].position, positionDirty);
    assert PositionOrLowest(Some(s)) == Raw(s);
    var e := UpdateEffect(rows, scopeAttrs, first, rows[k].id, attrs, Some(s), moved, originals,
                          rows[k].position, positionDirty);
    assert e.1.rows == o.rows;
    var saved := e.1.rows[k := Row(rows[k].id, attrs, e.1.position)];
    assert saved[i] == d[i] && saved[j] == d[j];
  }

  /**
   * Closing the gap above s instead of above the record's own position
   * leaves two rows of its old list at s, neither of them the record.
   */
  lemma CollidingRows(rows: seq<Row>, scopeAttrs: set<Attr>, first: int, k: nat, attrs: Attrs, s: int)
    returns (i: nat, j: nat)
    requires UniqueIds(rows) && k < |rows| && rows[k].position.Some?
    requires ListScope(scopeAttrs, attrs) != ListScope(scopeAttrs, rows[k].attrs)
    requires Contiguous(rows, ListScope(scopeAttrs, rows[k].attrs), first)
    requires first <= s < rows[k].position.value - 1
    ensures var before, after := ListScope(scopeAttrs, rows[k].attrs), ListScope(scopeAttrs, attrs);
      var d := Detached(rows, before, Some(s));
      && i < |rows| && j < |rows| && i != j && i != k && j != k
      && InScope(d[i], before) && InScope(d[j], before)
      && !InScope(rows[i], after) && !InScope(rows[j], after)
      && d[i].position == Some(s) && d[j].position == Some(s)
  {
    var before := ListScope(scopeAttrs, rows[k].attrs);
    MatchesListScope(scopeAttrs, rows[k].attrs, rows[k].attrs);
    InRun(rows, before, first, k);
    i := RunIsTaken(rows, before, first, s);
    j := RunIsTaken(rows, before, first, s + 1);
    ListsDisjoint(scopeAttrs, rows[k].attrs, attrs, rows[i]);
    ListsDisjoint(scopeAttrs, rows[k].attrs, attrs, rows[j]);
  }

  /**
   * The evident intent of the update hook: leave the old list at the
   * position the record is stored at (its original position when the
   * position changed too), and move within or into a list with the
   * corrected move.
   */
  function UpdateEffectCorrected(rows: seq<Row>, scopeAttrs: set<Attr>, first: int, id: Id, attrs: Attrs,
                                 position: Option<int>, moved: bool, originals: Scope, loaded: Option<int>,
                                 positionDirty: bool): (r: (Option<Reply>, Outcome))
    ensures r.0 != Some(Raised) ==> !r.1.moved
    ensures |r.1.rows| == |rows|
  {
    var scope := ListScope(scopeAttrs, attrs);
    var before := OriginalListScope(scopeAttrs, attrs, originals);
    if scope != before then
      var o := MoveEffectCorrected(Detached(rows, before, Prepos(loaded, position)), scopeAttrs, first, id, attrs,
                                   None, loaded, moved, PositionOrLowest(position));
      (Some(o.reply), if o.reply.Raised? then o else o.(moved := false))
    else if positionDirty && !moved then
      var o := MoveEffectCorrected(rows, scopeAttrs, first, id, attrs, position, loaded, moved, PositionVector(position));
      (Some(o.reply), if o.reply.Raised? then o else o.(moved := false))
    else
      (None, Outcome(Returned(false), rows, position, false))
  }

  /** The corrected hook's result when the record changes list. */
  lemma CorrectedScopeChangeShape(rows: seq<Row>, scopeAttrs: set<Attr>, first: int, k: nat, attrs: Attrs,
                                  q: Option<int>, moved: bool, originals: Scope, loaded: Option<int>,
                                  positionDirty: bool)
    requires ChangesList(rows, scopeAttrs, first, k, attrs, originals)
    requires Prepos(loaded, q) == rows[k].position
    ensures var before, after := ListScope(scopeAttrs, rows[k].attrs), ListScope(scopeAttrs, attrs);
      var d := Detached(rows, before, rows[k].position);
      var t := InsertSlot(q, first, Count(rows, after));
      UpdateEffectCorrected(rows, scopeAttrs, first, rows[k].id, attrs, q, moved, originals, loaded, positionDirty)
        == (Some(Returned(true)), Outcome(Returned(true), Shifted(d, after, AtLeast(t), 1), Some(t), false))
  {
    DetachedInsert(rows, scopeAttrs, first, k, attrs, q, moved, loaded);
    CorrectedAcross(rows, scopeAttrs, first, rows[k].id, attrs, q, moved, originals, loaded, positionDirty);
  }

  /** After leaving its old list, the record enters the new one at the clamped slot by the corrected move. */
  lemma DetachedInsert(rows: seq<Row>, scopeAttrs: set<Attr>, first: int, k: nat, attrs: Attrs,
                       q: Option<int>, moved: bool, loaded: Option<int>)
    requires UniqueIds(rows) && k < |rows| && rows[k].position.Some?
    requires ListScope(scopeAttrs, attrs) != ListScope(scopeAttrs, rows[k].attrs)
    requires Contiguous(rows, ListScope(scopeAttrs, attrs), first)
    ensures var before, after := ListScope(scopeAttrs, rows[k].attrs), ListScope(scopeAttrs, attrs);
      var d := Detached(rows, before, rows[k].position);
      var t := InsertSlot(q, first, Count(rows, after));
      MoveEffectCorrected(d, scopeAttrs, first, rows[k].id, attrs, None, loaded, moved, PositionOrLowest(q))
        == Outcome(Returned(true), Shifted(d, after, AtLeast(t), 1), Some(t), true)
  {
    var before, after := ListScope(scopeAttrs, rows[k].attrs), ListScope(scopeAttrs, attrs);
    var d := Detached(rows, before, rows[k].position);
    NewListUntouched(rows, scopeAttrs, first, k, attrs);
    DetachedMaxPos(rows, scopeAttrs, first, k, attrs, loaded);
    CorrectedInsertShape(d, scopeAttrs, first, rows[k].id, attrs, loaded, moved, q);
  }

  /** The corrected hook, when the record changes list, is the corrected move after detaching. */
  lemma CorrectedAcross(rows: seq<Row>, scopeAttrs: set<Attr>, first: int, id: Id, attrs: Attrs, position: Option<int>,
                        moved: bool, originals: Scope, loaded: Option<int>, positionDirty: bool)
    requires ListScope(scopeAttrs, attrs) != OriginalListScope(scopeAttrs, attrs, originals)
    ensures var d := Detached(rows, OriginalListScope(scopeAttrs, attrs, originals), Prepos(loaded, position));
      var o := MoveEffectCorrected(d, scopeAttrs, first, id, attrs, None, loaded, moved, PositionOrLowest(position));
      UpdateEffectCorrected(rows, scopeAttrs, first, id, attrs, position, moved, originals, loaded, positionDirty) ==
        (Some(o.reply), if o.reply.Raised? then o else o.(moved := false))
  {
  }

  /**
   * Corrected: when a record changes list, whatever position it was given
   * (or none), it leaves its old list closed up and enters the new one at
   * that position clamped into first..first+n (the bottom when none), and
   * both lists stay contiguous once it is saved.
   */
  lemma CorrectedScopeChangeKeepsBothLists(rows: seq<Row>, scopeAttrs: set<Attr>, first: int, k: nat,
                                           attrs: Attrs, q: Option<int>, moved: bool, originals: Scope,
                                           loaded: Option<int>, positionDirty: bool)
    requires ChangesList(rows, scopeAttrs, first, k, attrs, originals)
    requires Prepos(loaded, q) == rows[k].position
    ensures var before, after := ListScope(scopeAttrs, rows[k].attrs), ListScope(scopeAttrs, attrs);
      var e := UpdateEffectCorrected(rows, scopeAttrs, first, rows[k].id, attrs, q, moved, originals,
                                     loaded, positionDirty);
      var saved := e.1.rows[k := Row(rows[k].id, attrs, e.1.position)];
      && e.0 == Some(Returned(true)) && !e.1.moved
      && e.1.position == Some(InsertSlot(q, first, Count(rows, after)))
      && Contiguous(saved, before, first)
      && Contiguous(saved, after, first)
  {
    var after := ListScope(scopeAttrs, attrs);
    var t := InsertSlot(q, first, Count(rows, after));
    CorrectedScopeChangeShape(rows, scopeAttrs, first, k, attrs, q, moved, originals, loaded, positionDirty);
    OldListClosed(rows, scopeAttrs, first, k, attrs, t);
    NewListOpened(rows, scopeAttrs, first, k, attrs, t);
  }

  // ---------------------------------------------------------------------
  // Finding 4: repair numbers from 1.
  // ---------------------------------------------------------------------

  /**
   * As written: `repair_list` numbers the list 1, 2, ... whatever `first`
   * the model declared, so repairing a non-empty list of a model whose
   * first position is not 1 leaves it outside its run. (With first = 0 and
   * one record at 0: the record is renumbered 1.)
   */
  lemma RepairIgnoresFirst(rows: seq<Row>, scope: Scope, order: Order, first: int)
    requires UniqueIds(rows) && first != 1 && Count(rows, scope) > 0
    ensures !Contiguous(Renumbered(rows, Select(rows, scope, order), 1), scope, first)
  {
    var r := Renumbered(rows, Select(rows, scope, order), 1);
    var n := Count(rows, scope);
    RepairMakesContiguous(rows, scope, order, 1);
    CountSame(r, rows, scope);
    if first > 1 {
      var i := RunIsTaken(r, scope, 1, 1);
      assert r[i].position.value < first;
    } else {
      var i := RunIsTaken(r, scope, 1, n);
      assert r[i].position.value >= first + n;
    }
  }

  /** Corrected: repair numbers the list from the model's `first`, which leaves it contiguous. */
  function RepairFromFirst(rows: seq<Row>, scope: Scope, order: Order, first: int): (r: seq<Row>)
    requires UniqueIds(rows)
    ensures |r| == |rows|
    ensures forall i :: 0 <= i < |rows| ==> r[i].id == rows[i].id && r[i].attrs == rows[i].attrs
    ensures Contiguous(r, scope, first)
  {
    var items := Select(rows, scope, order);
    RepairMakesContiguous(rows, scope, order, first);
    Renumbered(rows, items, first)
  }
}
