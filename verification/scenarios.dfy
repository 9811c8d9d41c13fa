/**
 * Worked examples on one unscoped list of three records, A, B and C, at
 * positions 1, 2 and 3 (the default `first` of 1).
 */
module Scenarios {
  import opened Scoping
  import opened Table
  import opened Engine
  import opened Invariant

  /** The table [A:1, B:2, C:3]; A, B and C have ids 1, 2 and 3. */
  function Abc(): seq<Row>
  {
    [Row(1, map[], Some(1)), Row(2, map[], Some(2)), Row(3, map[], Some(3))]
  }

  /** With no scope attributes every record is in the one list, whose filter is empty. */
  lemma NoScope(attrs: Attrs)
    ensures ListScope({}, attrs) == map[]
  {
  }

  /** The example table is one contiguous list of three. */
  lemma AbcIsList()
    ensures UniqueIds(Abc())
    ensures Count(Abc(), map[]) == 3
    ensures Contiguous(Abc(), map[], 1)
  {
    var rows := Abc();
    var a, b, c := rows[0], rows[1], rows[2];
    assert InScope(a, map[]) && InScope(b, map[]) && InScope(c, map[]);
    assert Count([], map[]) == 0;
    CountAppend([], a, map[]);
    CountAppend([a], b, map[]);
    CountAppend([a, b], c, map[]);
    assert [] + [a] == [a] && [a] + [b] == [a, b] && [a, b] + [c] == rows;
    assert forall i :: 0 <= i < |rows| ==> rows[i].position == Some(i + 1);
  }

  /** `C.move(:to => 1)`: C goes to the top, A and B move down one: [A:2, B:3, C:1]. */
  lemma MoveToTop()
    ensures var o := MoveEffect(Abc(), {}, 1, 3, map[], Some(3), Some(3), false, To(1));
      && o.reply == Returned(true) && o.position == Some(1) && o.moved
      && Saved(o.rows, 2, o.position) == [Row(1, map[], Some(2)), Row(2, map[], Some(3)), Row(3, map[], Some(1))]
  {
    var rows := Abc();
    AbcIsList();
    NoScope(map[]);
    MaxPosOfStored(rows, map[], 1, 2);
    MoveShape(rows, {}, 1, 3, map[], 3, false, To(1), 3, 1);
    var o := MoveEffect(rows, {}, 1, 3, map[], Some(3), Some(3), false, To(1));
    assert o.rows == Shifted(rows, map[], Between(1, 3), 1);
    assert o.rows[0] == Row(1, map[], Some(2)) && o.rows[1] == Row(2, map[], Some(3));
  }

  /** `B.move(:above => A)`: B takes A's place: [A:2, B:1, C:3]. */
  lemma MoveAboveFirst()
    ensures var o := MoveEffect(Abc(), {}, 1, 2, map[], Some(2), Some(2), false, Above(Target(map[], Some(1))));
      && o.reply == Returned(true) && o.position == Some(1)
      && Saved(o.rows, 1, o.position) == [Row(1, map[], Some(2)), Row(2, map[], Some(1)), Row(3, map[], Some(3))]
  {
    var rows := Abc();
    AbcIsList();
    NoScope(map[]);
    MaxPosOfStored(rows, map[], 1, 1);
    AboveShape(rows, {}, 1, 2, map[], 2, false, Target(map[], Some(1)), 4);
    var o := MoveEffect(rows, {}, 1, 2, map[], Some(2), Some(2), false, Above(Target(map[], Some(1))));
    assert o.rows == Shifted(rows, map[], Between(1, 2), 1);
    assert o.rows[0] == Row(1, map[], Some(2)) && o.rows[2] == rows[2];
  }

  /** `:higher` on the top record and `:lower` on the bottom one are refused and change nothing. */
  lemma EndsRefuse()
    ensures MoveEffect(Abc(), {}, 1, 1, map[], Some(1), Some(1), false, Higher)
         == Outcome(Returned(false), Abc(), Some(1), false)
    ensures MoveEffect(Abc(), {}, 1, 3, map[], Some(3), Some(3), false, Lower)
         == Outcome(Returned(false), Abc(), Some(3), false)
  {
    AbcIsList();
    NoScope(map[]);
    MaxPosOfStored(Abc(), map[], 1, 0);
    MaxPosOfStored(Abc(), map[], 1, 2);
  }

  /** Destroying B closes the gap: [A:1, C:2]. */
  lemma DestroyMiddle()
    ensures var d := Detached(Abc(), map[], Some(2));
      d[..1] + d[2..] == [Row(1, map[], Some(1)), Row(3, map[], Some(2))]
  {
    var d := Detached(Abc(), map[], Some(2));
    assert d[0] == Row(1, map[], Some(1)) && d[2] == Row(3, map[], Some(2));
  }

  /** A record created without a position goes to the bottom, 4, and nothing else moves. */
  lemma CreateAtBottom()
    ensures var o := CreateEffect(Abc(), {}, 1, 4, map[], None, false);
      o.reply == Returned(true) && o.rows == Abc() && o.position == Some(4)
  {
    AbcIsList();
    NoScope(map[]);
    CreateAppendsAtBottom(Abc(), {}, 1, 4, map[], false);
  }
}
