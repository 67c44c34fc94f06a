/**
 * A hand-checked line: five unknown cells and a single block of three. The
 * block can start at 0, 1 or 2, so only the middle cell is covered by every
 * arrangement; solving the line resolves that cell as set and leaves the
 * others undone with one or two votes of three.
 */
module Worked {
  import opened Lex
  import opened Lines
  import opened Solver

  /** Five cells of which nothing is known yet. */
  function Blank(): (k: seq<Cell>)
    ensures |k| == 5 && forall t :: 0 <= t < 5 ==> k[t] == Unknown
  {
    [Unknown, Unknown, Unknown, Unknown, Unknown]
  }

  /** The arrangements of a block of three on five unknown cells, in order. */
  function Starts(): seq<seq<int>> {
    [[0], [1], [2]]
  }

  /** A block of three fits on five unknown cells exactly at starts 0, 1 and 2. */
  lemma FitsOfThree(i: int)
    ensures Fits(Blank(), 3, i) <==> 0 <= i <= 2
  {
  }

  /** The three starts are every arrangement of the block, each once, in order. */
  lemma {:induction false} BlockOfThree()
    ensures AllArrangements(Blank(), [3], Starts())
  {
    var k, arrs := Blank(), Starts();
    forall v | v in arrs
      ensures Arrangement(k, [3], v)
    {
      FitsOfThree(v[0]);
      assert !Missed(k, [3], v);
    }
    forall v | Arrangement(k, [3], v)
      ensures v in arrs
    {
      assert Fits(k, 3, v[0]);
      FitsOfThree(v[0]);
      assert v == [v[0]];
    }
    forall i, j | 0 <= i < j < |arrs|
      ensures Less(arrs[i], arrs[j])
    {
      LessAt(arrs[i], arrs[j], 0);
    }
  }

  /** Cell `t` of the five is covered by 1, 2, 3, 2 and 1 of the arrangements. */
  lemma Votes(t: int)
    requires 0 <= t < 5
    ensures Count(Starts(), [3], t) == [1, 2, 3, 2, 1][t]
  {
    var arrs := Starts();
    var a2, a1, a0: seq<seq<int>> := [[0], [1]], [[0]], [];
    assert arrs[..2] == a2 && a2[..1] == a1 && a1[..0] == a0;
    assert Count(a1, [3], t) == if Covered([3], [0], t) then 1 else 0;
    assert Count(a2, [3], t) == Count(a1, [3], t) + if Covered([3], [1], t) then 1 else 0;
    assert Count(arrs, [3], t) == Count(a2, [3], t) + if Covered([3], [2], t) then 1 else 0;
    assert Covered([3], [0], t) <==> t <= 2 by {
      if t <= 2 {
        assert [0][0] <= t < [0][0] + [3][0];
      }
    }
    assert Covered([3], [1], t) <==> 1 <= t <= 3 by {
      if 1 <= t <= 3 {
        assert [1][0] <= t < [1][0] + [3][0];
      }
    }
    assert Covered([3], [2], t) <==> 2 <= t by {
      if 2 <= t {
        assert [2][0] <= t < [2][0] + [3][0];
      }
    }
  }

  /**
   * Solving a fresh line of five cells with the clue [3] accepts three
   * arrangements and resolves only the middle cell, as set.
   */
  lemma {:induction false} MiddleResolves(l0: Line, l: Line, arrs: seq<seq<int>>)
    requires l0.clues == [3] && |l0.slots| == 5 && forall t :: 0 <= t < 5 ==> !l0.slots[t].done
    requires AllArrangements(KnownCells(l0.slots), l0.clues, arrs) && Solved(l0, l, arrs)
    ensures l.slotMax == 3
    ensures l.slots == [Slot(false, 1), Slot(false, 2), Slot(true, 3), Slot(false, 2), Slot(false, 1)]
  {
    assert KnownCells(l0.slots) == Blank();
    BlockOfThree();
    SortedUnique(arrs, Starts());
    forall t | 0 <= t < 5
      ensures l.slots[t] == [Slot(false, 1), Slot(false, 2), Slot(true, 3), Slot(false, 2), Slot(false, 1)][t]
    {
      Votes(t);
    }
  }
}
