/**
 * The per-line placement routines of the solver: measuring the run of
 * non-clear slots at a position, testing one block, greedy placement of the
 * remaining clues into the shared `clue_start` array, the check for a set cell
 * left outside every block, and the vote an accepted placement casts.
 *
 * A line is passed by value and the updated line is returned; the shared
 * `clue_start` buffer is an array the methods write in place.
 */
module Placing {
  import opened Lex
  import opened Lines

  // ----- the run of non-clear slots -----

  /** `gap` is the length of the run of non-clear slots that starts at `pos`. */
  ghost predicate IsGap(slots: seq<Slot>, pos: nat, gap: nat) {
    && pos + gap <= |slots|
    && (forall j :: pos <= j < pos + gap ==> !IsClear(slots[j]))
    && (pos + gap < |slots| ==> IsClear(slots[pos + gap]))
  }

  method AvailableGap(line: Line, pos: nat) returns (r: nat)
    requires pos <= |line.slots|
    ensures IsGap(line.slots, pos, r)
  {
    var i := pos;
    while i < |line.slots|
      invariant pos <= i <= |line.slots|
      invariant forall j :: pos <= j < i ==> !IsClear(line.slots[j])
    {
      if IsClear(line.slots[i]) {
        return i - pos;
      }
      i := i + 1;
    }
    return |line.slots| - pos;
  }

  /**
   * Whether a block of length `clue` can start at `pos`, given the gap measured
   * there: the gap is long enough and the slot right after the block is not set.
   */
  function CanPlaceSingleClue(line: Line, clue: nat, gap: nat, pos: nat): (r: bool)
    ensures pos < |line.slots| && IsGap(line.slots, pos, gap) ==>
      (r <==> Fits(KnownCells(line.slots), clue, pos))
  {
    if gap < clue then
      assert IsGap(line.slots, pos, gap) && pos + gap < |line.slots| ==> KnownCells(line.slots)[pos + gap] == Empty;
      false
    else if pos + clue < |line.slots| && IsSet(line.slots[pos + clue]) then false
    else true
  }

  // ----- greedy placement -----

  function Prepend(xs: seq<int>, o: Option<seq<int>>): Option<seq<int>> {
    match o
    case None => None
    case Some(r) => Some(xs + r)
  }

  lemma PrependTwice(xs: seq<int>, ys: seq<int>, o: Option<seq<int>>)
    ensures Prepend(xs, Prepend(ys, o)) == Prepend(xs + ys, o)
  {
    match o {
      case None =>
      case Some(r) => assert xs + (ys + r) == (xs + ys) + r;
    }
  }

  /** One step of greedy placement: the block placed at `i` moves from the pending part to the placed prefix. */
  lemma GreedyStep(k: seq<Cell>, clues: seq<nat>, c: nat, p: nat, i: nat, xs: seq<int>, whole: Option<seq<int>>)
    requires c < |clues| && FirstFit(k, clues[c], p) == Some(i)
    requires whole == Prepend(xs, Greedy(k, clues[c..], p))
    ensures whole == Prepend(xs + [i], Greedy(k, clues[c + 1..], i + clues[c] + 1))
  {
    GreedyUnfold(k, clues, c, p, i);
    PrependTwice(xs, [i], Greedy(k, clues[c + 1..], i + clues[c] + 1));
  }

  /** Greedy placement of the clues from `c` on unfolds into its first block and the rest. */
  lemma GreedyUnfold(k: seq<Cell>, clues: seq<nat>, c: nat, pos: nat, i: nat)
    requires c < |clues| && FirstFit(k, clues[c], pos) == Some(i)
    ensures Greedy(k, clues[c..], pos) == Prepend([i], Greedy(k, clues[c + 1..], i + clues[c] + 1))
  {
    assert clues[c..][0] == clues[c] && clues[c..][1..] == clues[c + 1..];
  }

  /**
   * The inner scan of greedy placement: the first start at or after `pos`
   * where a block of length `clue` can be placed, if any.
   */
  method FindStart(line: Line, clue: nat, pos: nat) returns (r: Option<nat>)
    ensures r == FirstFit(KnownCells(line.slots), clue, pos)
  {
    ghost var k := KnownCells(line.slots);
    var i: nat := pos;
    while i < |line.slots|
      invariant pos <= i
      invariant FirstFit(k, clue, pos) == FirstFit(k, clue, i)
    {
      var gap := AvailableGap(line, i);
      if CanPlaceSingleClue(line, clue, gap, i) {
        return Some(i);
      }
      i := i + 1;
    }
    return None;
  }

  /**
   * Places the clues from `clueIdx` on, each at the first start at or after
   * `pos` (then after the previous block and a gap) where it fits.
   */
  method CanPlaceClue(clueStart: array<int>, line: Line, clueIdx: nat, pos: nat) returns (ok: bool)
    requires clueIdx <= |line.clues| <= clueStart.Length
    modifies clueStart
    ensures var g := Greedy(KnownCells(line.slots), line.clues[clueIdx..], pos);
      ok == g.Some? && (ok ==> clueStart[clueIdx..|line.clues|] == g.value)
    ensures forall d :: 0 <= d < clueStart.Length && !(clueIdx <= d < |line.clues|) ==> clueStart[d] == old(clueStart[d])
    ensures forall d :: clueIdx <= d < |line.clues| ==>
      clueStart[d] == old(clueStart[d]) || 0 <= clueStart[d] < |line.slots|
  {
    ghost var k := KnownCells(line.slots);
    ghost var whole := Greedy(k, line.clues[clueIdx..], pos);
    var n := |line.clues|;
    var c := clueIdx;
    var p: nat := pos;
    ghost var xs: seq<int> := [];
    match Greedy(k, line.clues[c..], p) {
      case None =>
      case Some(r) => assert [] + r == r;
    }
    while c < n
      invariant clueIdx <= c <= n && |xs| == c - clueIdx
      invariant whole == Prepend(xs, Greedy(k, line.clues[c..], p))
      invariant forall d :: clueIdx <= d < c ==> clueStart[d] == xs[d - clueIdx]
      invariant forall d :: 0 <= d < clueStart.Length && !(clueIdx <= d < c) ==> clueStart[d] == old(clueStart[d])
      invariant forall d :: 0 <= d < |xs| ==> 0 <= xs[d] < |line.slots|
    {
      var found := FindStart(line, line.clues[c], p);
      if found.None? {
        assert Greedy(k, line.clues[c..], p) == None by {
          assert line.clues[c..][0] == line.clues[c];
        }
        return false;
      }
      var i := found.value;
      FirstFitSpec(k, line.clues[c], p);
      GreedyStep(k, line.clues, c, p, i, xs, whole);
      clueStart[c] := i;
      p := i + line.clues[c] + 1;
      xs := xs + [i];
      c := c + 1;
    }
    assert line.clues[n..] == [];
    assert clueStart[clueIdx..n] == xs;
    return true;
  }

  // ----- the set cell outside every block -----

  /** Whether some set slot lies outside every block `[clueStart[c], clueStart[c] + clues[c])`. */
  method MissedSetCell(line: Line, clueStart: array<int>) returns (r: bool)
    requires |line.clues| <= clueStart.Length
    ensures r == Missed(KnownCells(line.slots), line.clues, clueStart[..|line.clues|])
  {
    ghost var k := KnownCells(line.slots);
    var n := |line.clues|;
    ghost var v := clueStart[..n];
    var s := 0;
    while s < |line.slots|
      invariant 0 <= s <= |line.slots|
      invariant forall t :: 0 <= t < s ==> !(k[t] == Filled && !Covered(line.clues, v, t))
    {
      if IsSet(line.slots[s]) {
        var inside := false;
        var c := 0;
        while c < n
          invariant 0 <= c <= n
          invariant inside == CoveredBelow(line.clues, v, c, s)
        {
          if s >= clueStart[c] && s < clueStart[c] + line.clues[c] {
            inside := true;
            break;
          }
          c := c + 1;
        }
        if !inside {
          assert k[s] == Filled && !Covered(line.clues, v, s);
          return true;
        }
      }
      s := s + 1;
    }
    return false;
  }

  // ----- the vote of one placement -----

  /** How many of the first `c` blocks of `v` cover cell `t`. */
  function BlockCount(clues: seq<nat>, v: seq<int>, c: nat, t: int): nat {
    if c == 0 then 0
    else
      var covers := c - 1 < |v| && c - 1 < |clues| && v[c - 1] <= t < v[c - 1] + clues[c - 1];
      BlockCount(clues, v, c - 1, t) + (if covers then 1 else 0)
  }

  /** The slot after one vote of `n` blocks: done slots keep their value. */
  function VoteSlot(s: Slot, n: nat): Slot {
    if s.done then s else Slot(false, s.value + n)
  }

  /** The line after voting for placement `v`: every block adds one to each undone slot it covers. */
  function Voted(line: Line, v: seq<int>): Line {
    line.(slots := seq(|line.slots|, t requires 0 <= t < |line.slots| =>
                         VoteSlot(line.slots[t], BlockCount(line.clues, v, |line.clues|, t))),
          slotMax := line.slotMax + 1)
  }

  /** In a legal placement blocks do not overlap, so a cell gets one vote exactly when it is covered. */
  lemma {:induction false} BlockCountPlaced(k: seq<Cell>, clues: seq<nat>, v: seq<int>, c: nat, t: int)
    requires Placed(k, clues, v) && c <= |v|
    ensures BlockCount(clues, v, c, t) == if CoveredBelow(clues, v, c, t) then 1 else 0
  {
    if c > 0 {
      BlockCountPlaced(k, clues, v, c - 1, t);
      if v[c - 1] <= t < v[c - 1] + clues[c - 1] && CoveredBelow(clues, v, c - 1, t) {
        var d :| 0 <= d < c - 1 && v[d] <= t < v[d] + clues[d];
        PlacedOrdered(k, clues, v, d, c - 1);
      }
    }
  }

  /** The blocks of `v` lie inside a line of `len` slots. */
  ghost predicate InsideLine(clues: seq<nat>, v: seq<int>, len: int) {
    |v| <= |clues| && forall c :: 0 <= c < |v| ==> 0 <= v[c] && v[c] + clues[c] <= len
  }

  /** A prefix inside the line followed by a greedy placement of the rest stays inside the line. */
  lemma GreedyInside(k: seq<Cell>, clues: seq<nat>, p: seq<int>, pos: nat)
    requires |p| <= |clues| && InsideLine(clues, p, |k|)
    requires Greedy(k, clues[|p|..], pos).Some?
    ensures InsideLine(clues, p + Greedy(k, clues[|p|..], pos).value, |k|)
  {
    var m := |p|;
    var g := Greedy(k, clues[m..], pos).value;
    GreedyPlaces(k, clues[m..], pos);
    var v := p + g;
    forall c | 0 <= c < |v| ensures 0 <= v[c] && v[c] + clues[c] <= |k| {
      if c >= m {
        assert v[c] == g[c - m] && clues[c] == clues[m..][c - m];
        assert Fits(k, clues[m..][c - m], g[c - m]);
      } else {
        assert v[c] == p[c];
      }
    }
  }

  /**
   * The vote of the placement held in `clueStart`: one more to every undone
   * slot inside a block, and one more to the line's count of placements.
   */
  method CastVote(clueStart: array<int>, line: Line) returns (line': Line)
    requires |line.clues| <= clueStart.Length
    requires InsideLine(line.clues, clueStart[..|line.clues|], |line.slots|)
    ensures line' == Voted(line, clueStart[..|line.clues|])
  {
    var n := |line.clues|;
    ghost var v := clueStart[..n];
    var slots := line.slots;
    var c := 0;
    while c < n
      invariant 0 <= c <= n && |slots| == |line.slots|
      invariant forall t :: 0 <= t < |slots| ==> slots[t] == VoteSlot(line.slots[t], BlockCount(line.clues, v, c, t))
    {
      var start := clueStart[c];
      assert start == v[c];
      var s := start;
      while s < start + line.clues[c]
        invariant start <= s <= start + line.clues[c] && |slots| == |line.slots|
        invariant forall t :: 0 <= t < |slots| ==>
          slots[t] == VoteSlot(line.slots[t], BlockCount(line.clues, v, c, t) + (if start <= t < s then 1 else 0))
      {
        if slots[s].done == false {
          slots := slots[s := Slot(false, slots[s].value + 1)];
        }
        s := s + 1;
      }
      c := c + 1;
    }
    line' := line.(slots := slots, slotMax := line.slotMax + 1);
    assert line'.slots == Voted(line, v).slots;
  }

  /**
   * Greedy placement of the clues from `clueIdx` on; a placement that misses
   * a set cell is reported as placed but casts no vote, and an accepted
   * placement adds its vote to the line.
   */
  method TryPlaceClues(clueStart: array<int>, line: Line, clueIdx: nat, pos: nat, ghost cs: seq<int>)
    returns (placed: bool, line': Line, ghost next: seq<int>)
    requires clueIdx <= |line.clues| <= clueStart.Length && clueStart[..|line.clues|] == cs
    requires InsideLine(line.clues, cs[..clueIdx], |line.slots|)
    modifies clueStart
    ensures clueStart[..|line.clues|] == next && |next| == |cs| && next[..clueIdx] == cs[..clueIdx]
    ensures forall d :: |line.clues| <= d < clueStart.Length ==> clueStart[d] == old(clueStart[d])
    ensures var g := Greedy(KnownCells(line.slots), line.clues[clueIdx..], pos);
      placed == g.Some? && (placed ==> next[clueIdx..] == g.value)
    ensures forall d :: clueIdx <= d < |next| ==> next[d] == cs[d] || 0 <= next[d] < |line.slots|
    ensures line' == if placed && !Missed(KnownCells(line.slots), line.clues, next) then Voted(line, next) else line
  {
    ghost var k := KnownCells(line.slots);
    var n := |line.clues|;
    var ok := CanPlaceClue(clueStart, line, clueIdx, pos);
    next := clueStart[..n];
    assert next[..clueIdx] == cs[..clueIdx];
    if !ok {
      return false, line, next;
    }
    assert next == cs[..clueIdx] + next[clueIdx..];
    GreedyInside(k, line.clues, cs[..clueIdx], pos);
    var missed := MissedSetCell(line, clueStart);
    if missed {
      return true, line, next;
    }
    line' := CastVote(clueStart, line);
    placed := true;
  }
}
