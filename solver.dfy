/**
 * The puzzle and its solver: rows and columns that share cells, the
 * resolution of a cell in both views at once, solving one line by counting
 * the votes of all its arrangements, a pass over the rows or the columns, and
 * the scheduler that alternates passes until the puzzle is complete, a line
 * cannot be placed, or a pair of passes resolves nothing.
 *
 * Lines are values held in the `rows` and `cols` sequences; the operations
 * that change a line build its new value and store it back.
 */
module Solver {
  import opened Lex
  import opened Lines
  import opened Placing
  import opened Anchor

  /** The two views of a cell agree on whether it is done, and on its value once it is. */
  predicate Agree(a: Slot, b: Slot) {
    a.done == b.done && (a.done ==> a.value == b.value)
  }

  /** A line of `len` slots with at most `cap` clues, whose counters match its contents. */
  ghost predicate LineOk(l: Line, len: nat, cap: nat) {
    && |l.slots| == len && |l.clues| <= cap
    && l.total == DoneCount(l.slots) && l.clueTotal == Sum(l.clues)
  }

  /** The number of done cells, counted over the rows. */
  ghost function DoneCells(lines: seq<Line>): nat {
    if lines == [] then 0 else DoneCells(lines[..|lines| - 1]) + DoneCount(lines[|lines| - 1].slots)
  }

  /** Two versions of a line that differ at most in vote counts, `slot_max` and the update flag. */
  ghost predicate SameKnown(a: Line, b: Line) {
    && a.clues == b.clues && a.clueTotal == b.clueTotal && a.total == b.total
    && |a.slots| == |b.slots|
    && forall t :: 0 <= t < |a.slots| ==> Agree(a.slots[t], b.slots[t])
  }

  /** The line with slot `i` done with value `v`, and one more done slot counted. */
  function MarkDone(l: Line, i: nat, v: nat): Line
    requires i < |l.slots|
  {
    l.(slots := l.slots[i := Slot(true, v)], total := l.total + 1)
  }

  /**
   * The perpendicular line `o` after slot `i` of the solved line went from
   * `before` to `after`: if the slot became done, its copy in `o` is done with
   * the same value and `o` is flagged for another solve.
   */
  function Propagated(o: Line, i: nat, before: Slot, after: Slot): Line
    requires i < |o.slots|
  {
    if !before.done && after.done then MarkDone(o, i, after.value).(updateNeeded := true) else o
  }

  /** The line at the start of a solve: no votes, no accepted arrangements. */
  function Reset(l: Line): Line {
    l.(slotMax := 0,
       slots := seq(|l.slots|, t requires 0 <= t < |l.slots| =>
                  if l.slots[t].done then l.slots[t] else Slot(false, 0)))
  }

  /** A line needs no solving: all its slots are done, or nothing changed since its last solve. */
  ghost predicate Settled(l: Line) {
    l.total == |l.slots| || !l.updateNeeded
  }

  /** A line whose clues cannot be placed on the cells known in it. */
  ghost predicate Unplaceable(l: Line) {
    !Placeable(KnownCells(l.slots), l.clues)
  }

  /**
   * `l` is `l0` after a successful solve that accepted the arrangements
   * `arrs`: each undone slot got its vote count and was resolved against the
   * number of arrangements, and the line is no longer flagged.
   */
  ghost predicate Solved(l0: Line, l: Line, arrs: seq<seq<int>>) {
    && l.clues == l0.clues && l.clueTotal == l0.clueTotal && !l.updateNeeded
    && l.slotMax == |arrs| && |l.slots| == |l0.slots|
    && forall t :: 0 <= t < |l.slots| ==>
         l.slots[t] == Resolve(VoteSlot(Reset(l0).slots[t], Count(arrs, l0.clues, t)), |arrs|)
  }

  /** `l` is solved from `l0` against the full list of arrangements of `l0`'s clues on its known cells. */
  ghost predicate SolvedFrom(l0: Line, l: Line) {
    exists arrs :: AllArrangements(KnownCells(l0.slots), l0.clues, arrs) && Solved(l0, l, arrs)
  }

  /** What a pass does to one line: a settled line is left alone, any other is solved. */
  ghost predicate PassedLine(l0: Line, l: Line) {
    if Settled(l0) then l == l0 else SolvedFrom(l0, l)
  }

  /** A pass from `before` has dealt with the first `n` lines and left the others as they were. */
  ghost predicate PassedUpTo(before: seq<Line>, after: seq<Line>, n: nat) {
    && |after| == |before| && n <= |before|
    && (forall j :: 0 <= j < n ==> PassedLine(before[j], after[j]))
    && (forall j :: n <= j < |before| ==> after[j] == before[j])
  }

  /**
   * A pass from `before` dealt with the lines ahead of `f`, then found line
   * `f`, which needed solving, unplaceable: it is left with its votes cleared
   * and the lines after it are untouched.
   */
  ghost predicate FailedAt(before: seq<Line>, after: seq<Line>, f: nat) {
    && |after| == |before| && f < |before|
    && (forall j :: 0 <= j < f ==> PassedLine(before[j], after[j]))
    && !Settled(before[f]) && Unplaceable(before[f]) && after[f] == Reset(before[f])
    && (forall j :: f < j < |before| ==> after[j] == before[j])
  }

  /** `l` is `l0` with possibly more cells resolved: the same clues and length, and every resolved cell kept. */
  ghost predicate Grows(l0: Line, l: Line) {
    && l.clues == l0.clues && l.clueTotal == l0.clueTotal && |l.slots| == |l0.slots|
    && forall t :: 0 <= t < |l0.slots| && l0.slots[t].done ==> l.slots[t] == l0.slots[t]
  }

  /** Every line of `before` grows into the line at the same place in `after`. */
  ghost predicate AllGrow(before: seq<Line>, after: seq<Line>) {
    |after| == |before| && forall i :: 0 <= i < |before| ==> Grows(before[i], after[i])
  }

  lemma AllGrowTrans(a: seq<Line>, b: seq<Line>, c: seq<Line>)
    requires AllGrow(a, b) && AllGrow(b, c)
    ensures AllGrow(a, c)
  {
    forall i | 0 <= i < |a| ensures Grows(a[i], c[i]) {
      assert Grows(a[i], b[i]) && Grows(b[i], c[i]);
    }
  }

  /** Copying the cells line `i` of `same` resolved into the perpendicular lines only makes them grow. */
  lemma PropagatedGrow(same: seq<Line>, mid: seq<Line>, after: seq<Line>, cap: nat, i: nat, now: seq<Slot>)
    requires Woven(same, mid, cap) && i < |same| && |after| == |mid| && |mid| <= |now|
    requires forall j :: 0 <= j < |mid| ==> after[j] == Propagated(mid[j], i, same[i].slots[j], now[j])
    ensures AllGrow(mid, after)
  {
    forall j | 0 <= j < |mid| ensures Grows(mid[j], after[j]) {
      CellAt(same, mid, cap, i, j);
    }
  }

  /** Replacing line `i` by a grown version keeps every line grown from `same`. */
  lemma ReplaceGrow(same: seq<Line>, cur: seq<Line>, next: seq<Line>, i: nat)
    requires AllGrow(same, cur) && i < |cur| && |next| == |cur|
    requires forall j :: 0 <= j < |cur| && j != i ==> next[j] == cur[j]
    requires Grows(cur[i], next[i])
    ensures AllGrow(same, next)
  {
    forall j | 0 <= j < |same| ensures Grows(same[j], next[j]) {
      assert Grows(same[j], cur[j]);
    }
  }

  /** Dealing with line `i` extends a pass that has dealt with the lines before it. */
  lemma PassedStep(same: seq<Line>, cur: seq<Line>, next: seq<Line>, i: nat)
    requires PassedUpTo(same, cur, i) && i < |same| && |next| == |cur|
    requires forall j :: 0 <= j < |cur| && j != i ==> next[j] == cur[j]
    requires PassedLine(cur[i], next[i])
    ensures PassedUpTo(same, next, i + 1)
  {
  }

  /** Finding line `i` unplaceable ends a pass that has dealt with the lines before it. */
  lemma FailedStep(same: seq<Line>, cur: seq<Line>, next: seq<Line>, i: nat)
    requires PassedUpTo(same, cur, i) && i < |same| && |next| == |cur|
    requires forall j :: 0 <= j < |cur| && j != i ==> next[j] == cur[j]
    requires !Settled(cur[i]) && Unplaceable(cur[i]) && next[i] == Reset(cur[i])
    ensures FailedAt(same, next, i)
  {
  }

  /** A solve keeps the clues and every cell already resolved, and leaves the line unflagged. */
  lemma SolvedGrows(l0: Line, l: Line)
    requires SolvedFrom(l0, l)
    ensures Grows(l0, l) && Settled(l)
  {
    var arrs :| AllArrangements(KnownCells(l0.slots), l0.clues, arrs) && Solved(l0, l, arrs);
    forall t | 0 <= t < |l0.slots| && l0.slots[t].done ensures l.slots[t] == l0.slots[t] {
      assert Reset(l0).slots[t] == l0.slots[t];
    }
  }

  /**
   * Resolving the slots of `tallied`, the line `l0` after the votes of
   * `arrs`, and clearing its flag gives the line `Solved` describes; no slot
   * changed whether it is done while the votes were counted.
   */
  lemma SolvedByResolving(l0: Line, tallied: Line, resolved: Line, arrs: seq<seq<int>>)
    requires Tallied(Reset(l0), tallied, arrs)
    requires resolved.clues == tallied.clues && resolved.clueTotal == tallied.clueTotal && !resolved.updateNeeded
    requires resolved.slotMax == tallied.slotMax && |resolved.slots| == |tallied.slots|
    requires forall t :: 0 <= t < |resolved.slots| ==> resolved.slots[t] == Resolve(tallied.slots[t], tallied.slotMax)
    ensures Solved(l0, resolved, arrs)
    ensures forall t :: 0 <= t < |tallied.slots| ==> tallied.slots[t].done == l0.slots[t].done
  {
  }

  // ----- counting done slots -----

  lemma {:induction false} DoneCountMark(slots: seq<Slot>, i: nat, s: Slot)
    requires i < |slots| && !slots[i].done && s.done
    ensures DoneCount(slots[i := s]) == DoneCount(slots) + 1
    decreases |slots|
  {
    var m := |slots| - 1;
    var slots' := slots[i := s];
    assert slots'[..m] == if i < m then slots[..m][i := s] else slots[..m];
    if i < m {
      DoneCountMark(slots[..m], i, s);
    }
  }

  lemma {:induction false} DoneCountAgree(a: seq<Slot>, b: seq<Slot>)
    requires |a| == |b| && forall t :: 0 <= t < |a| ==> a[t].done == b[t].done
    ensures DoneCount(a) == DoneCount(b)
    decreases |a|
  {
    if a != [] {
      DoneCountAgree(a[..|a| - 1], b[..|b| - 1]);
    }
  }

  lemma {:induction false} DoneCountNone(slots: seq<Slot>)
    requires forall t :: 0 <= t < |slots| ==> !slots[t].done
    ensures DoneCount(slots) == 0
    decreases |slots|
  {
    if slots != [] {
      DoneCountNone(slots[..|slots| - 1]);
    }
  }

  /** At most every slot is done, and all of them exactly when each one is. */
  lemma {:induction false} DoneCountFull(slots: seq<Slot>)
    ensures DoneCount(slots) <= |slots|
    ensures DoneCount(slots) == |slots| <==> forall t :: 0 <= t < |slots| ==> slots[t].done
    decreases |slots|
  {
    if slots != [] {
      var init := slots[..|slots| - 1];
      DoneCountFull(init);
      assert forall t :: 0 <= t < |init| ==> init[t] == slots[t];
    }
  }

  lemma {:induction false} DoneCellsUpdate(lines: seq<Line>, y: nat, l: Line)
    requires y < |lines|
    ensures DoneCells(lines[y := l]) + DoneCount(lines[y].slots) == DoneCells(lines) + DoneCount(l.slots)
    decreases |lines|
  {
    var m := |lines| - 1;
    var lines' := lines[y := l];
    assert lines'[..m] == if y < m then lines[..m][y := l] else lines[..m];
    if y < m {
      DoneCellsUpdate(lines[..m], y, l);
    }
  }

  /** With `w` slots per line, at most every cell is done, and all of them exactly when each one is. */
  lemma {:induction false} DoneCellsFull(lines: seq<Line>, w: nat)
    requires forall y :: 0 <= y < |lines| ==> |lines[y].slots| == w
    ensures DoneCells(lines) <= |lines| * w
    ensures DoneCells(lines) == |lines| * w <==>
      forall y, x :: 0 <= y < |lines| && 0 <= x < w ==> lines[y].slots[x].done
    decreases |lines|
  {
    if lines != [] {
      var m := |lines| - 1;
      var init, last := lines[..m], lines[m].slots;
      DoneCellsFull(init, w);
      DoneCountFull(last);
      assert |lines| * w == m * w + w by {
        assert |lines| * w == (m + 1) * w;
      }
      assert DoneCells(lines) == DoneCells(init) + DoneCount(last);
      if DoneCells(lines) == |lines| * w {
        forall y, x | 0 <= y < |lines| && 0 <= x < w
          ensures lines[y].slots[x].done
        {
          if y < m {
            assert init[y] == lines[y];
          }
        }
      }
      if forall y, x :: 0 <= y < |lines| && 0 <= x < w ==> lines[y].slots[x].done {
        forall y, x | 0 <= y < m && 0 <= x < w
          ensures init[y].slots[x].done
        {
          assert init[y] == lines[y];
        }
      }
    }
  }

  lemma {:induction false} DoneCellsNone(lines: seq<Line>)
    requires forall y, x :: 0 <= y < |lines| && 0 <= x < |lines[y].slots| ==> !lines[y].slots[x].done
    ensures DoneCells(lines) == 0
    decreases |lines|
  {
    if lines != [] {
      var m := |lines| - 1;
      DoneCellsNone(lines[..m]);
      DoneCountNone(lines[m].slots);
    }
  }

  lemma PlacedInside(k: seq<Cell>, clues: seq<nat>, v: seq<int>)
    requires Placed(k, clues, v)
    ensures InsideLine(clues, v, |k|)
  {
    forall c | 0 <= c < |v| ensures 0 <= v[c] && v[c] + clues[c] <= |k| {
      assert Fits(k, clues[c], v[c]);
    }
  }

  lemma ResetKnown(l: Line)
    ensures KnownCells(Reset(l).slots) == KnownCells(l.slots)
  {
  }

  // ----- rows and columns as two views of one grid -----

  /** Every line of `lines` has `len` slots. */
  ghost predicate Shaped(lines: seq<Line>, len: nat) {
    forall i :: 0 <= i < |lines| ==> |lines[i].slots| == len
  }

  /** Every line of `lines` is well formed with `len` slots. */
  ghost predicate LinesOk(lines: seq<Line>, len: nat, cap: nat) {
    forall i {:trigger LineOk(lines[i], len, cap)} :: 0 <= i < |lines| ==> LineOk(lines[i], len, cap)
  }

  /** The two copies of every cell agree: slot `j` of line `i` of `a` is slot `i` of line `j` of `b`. */
  ghost predicate Cross(a: seq<Line>, b: seq<Line>) {
    forall i, j {:trigger Agree(a[i].slots[j], b[j].slots[i])} ::
      0 <= i < |a| && 0 <= j < |b| && j < |a[i].slots| && i < |b[j].slots| ==> Agree(a[i].slots[j], b[j].slots[i])
  }

  /**
   * Lines `a` and lines `b` are the two views of one grid: each line of one
   * has a slot per line of the other and is well formed, and the two copies
   * of every cell agree.
   */
  ghost predicate Woven(a: seq<Line>, b: seq<Line>, cap: nat) {
    && Shaped(a, |b|) && Shaped(b, |a|)
    && LinesOk(a, |b|, cap) && LinesOk(b, |a|, cap) && Cross(a, b)
  }

  /** What the views say about one line. */
  lemma LineAt(a: seq<Line>, b: seq<Line>, cap: nat, i: nat)
    requires Woven(a, b, cap) && i < |a|
    ensures LineOk(a[i], |b|, cap)
  {
  }

  /** What the views say about one cell. */
  lemma CellAt(a: seq<Line>, b: seq<Line>, cap: nat, i: nat, j: nat)
    requires Woven(a, b, cap) && i < |a| && j < |b|
    ensures Agree(a[i].slots[j], b[j].slots[i])
  {
  }

  lemma WovenSym(a: seq<Line>, b: seq<Line>, cap: nat)
    requires Woven(a, b, cap)
    ensures Woven(b, a, cap)
  {
    forall i, j | 0 <= i < |b| && 0 <= j < |a| && j < |b[i].slots| && i < |a[j].slots|
      ensures Agree(b[i].slots[j], a[j].slots[i])
    {
      assert Agree(a[j].slots[i], b[i].slots[j]);
    }
  }

  /** Replacing line `i` by a well-formed line of the same length keeps the lines well formed. */
  lemma ReplaceLinesOk(a: seq<Line>, len: nat, cap: nat, i: nat, l: Line)
    requires LinesOk(a, len, cap) && Shaped(a, len) && i < |a| && LineOk(l, len, cap)
    ensures LinesOk(a[i := l], len, cap) && Shaped(a[i := l], len)
  {
    var a' := a[i := l];
    forall k | 0 <= k < |a'| ensures LineOk(a'[k], len, cap) {
      if k != i {
        assert LineOk(a[k], len, cap);
      }
    }
  }

  /** Resolving a cell in both views keeps the copies of every cell in agreement. */
  lemma MarkCross(a: seq<Line>, b: seq<Line>, i: nat, j: nat, v: nat, a': seq<Line>, b': seq<Line>)
    requires Cross(a, b) && i < |a| && j < |b| && j < |a[i].slots| && i < |b[j].slots|
    requires a' == a[i := MarkDone(a[i], j, v)]
    requires b' == b[j := MarkDone(b[j], i, v).(updateNeeded := true)]
    ensures Cross(a', b')
  {
    forall p, q | 0 <= p < |a'| && 0 <= q < |b'| && q < |a'[p].slots| && p < |b'[q].slots|
      ensures Agree(a'[p].slots[q], b'[q].slots[p])
    {
      if p != i || q != j {
        assert a'[p].slots[q] == a[p].slots[q] && b'[q].slots[p] == b[q].slots[p];
        assert Agree(a[p].slots[q], b[q].slots[p]);
      }
    }
  }

  lemma MarkCount(a: seq<Line>, i: nat, j: nat, v: nat, l: Line)
    requires i < |a| && j < |a[i].slots| && !a[i].slots[j].done
    requires l.slots == a[i].slots[j := Slot(true, v)]
    ensures DoneCells(a[i := l]) == DoneCells(a) + 1
  {
    DoneCountMark(a[i].slots, j, Slot(true, v));
    DoneCellsUpdate(a, i, l);
  }

  /** Marking slot `j` of line `i` done with value `v` keeps the line well formed and counts one more done slot. */
  lemma MarkLine(l: Line, len: nat, cap: nat, j: nat, v: nat)
    requires LineOk(l, len, cap) && j < len && !l.slots[j].done
    ensures LineOk(MarkDone(l, j, v), len, cap) && LineOk(MarkDone(l, j, v).(updateNeeded := true), len, cap)
  {
    DoneCountMark(l.slots, j, Slot(true, v));
  }

  /** Resolving a cell in both views keeps them woven and counts one more done cell in each. */
  lemma MarkWoven(a: seq<Line>, b: seq<Line>, cap: nat, i: nat, j: nat, v: nat, a': seq<Line>, b': seq<Line>)
    requires Woven(a, b, cap) && i < |a| && j < |b| && !a[i].slots[j].done
    requires a' == a[i := MarkDone(a[i], j, v)]
    requires b' == b[j := MarkDone(b[j], i, v).(updateNeeded := true)]
    ensures Woven(a', b', cap) && Woven(b', a', cap)
    ensures DoneCells(a') == DoneCells(a) + 1 && DoneCells(b') == DoneCells(b) + 1
  {
    LineAt(a, b, cap, i);
    WovenSym(a, b, cap);
    LineAt(b, a, cap, j);
    CellAt(a, b, cap, i, j);
    MarkLine(a[i], |b|, cap, j, v);
    MarkLine(b[j], |a|, cap, i, v);
    ReplaceLinesOk(a, |b|, cap, i, a'[i]);
    ReplaceLinesOk(b, |a|, cap, j, b'[j]);
    MarkCross(a, b, i, j, v, a', b');
    WovenSym(a', b', cap);
    MarkCount(a, i, j, v, a'[i]);
    MarkCount(b, j, i, v, b'[j]);
  }

  /** Replacing a line by one with the same known cells keeps the views woven and the done count. */
  lemma StoreWoven(a: seq<Line>, b: seq<Line>, cap: nat, i: nat, l: Line)
    requires Woven(a, b, cap) && i < |a| && SameKnown(a[i], l)
    ensures Woven(a[i := l], b, cap) && Woven(b, a[i := l], cap) && DoneCells(a[i := l]) == DoneCells(a)
  {
    var a' := a[i := l];
    LineAt(a, b, cap, i);
    DoneCountAgree(a[i].slots, l.slots);
    ReplaceLinesOk(a, |b|, cap, i, l);
    forall p, q | 0 <= p < |a'| && 0 <= q < |b| && q < |a'[p].slots| && p < |b[q].slots|
      ensures Agree(a'[p].slots[q], b[q].slots[p])
    {
      assert Agree(a[p].slots[q], b[q].slots[p]);
    }
    WovenSym(a', b, cap);
    DoneCellsUpdate(a, i, l);
  }

  // ----- initialisation -----

  /** The sum of the clues of every line. */
  function SumAll(clueLists: seq<seq<nat>>): nat {
    if clueLists == [] then 0 else SumAll(clueLists[..|clueLists| - 1]) + Sum(clueLists[|clueLists| - 1])
  }

  /**
   * The vote every slot starts with, before any solve, given the clue sum of
   * all lines of the same orientation. Only the picture drawn before the
   * first solve reads it.
   */
  function InitialVote(orientationTotal: nat): nat {
    orientationTotal
  }

  /**
   * Lines as initialisation leaves them: line `i` has the clues
   * `clueLists[i]` and their sum, `slotCount` undone slots holding `vote`,
   * is flagged for solving, and counts every cell of its orientation as its
   * maximum vote.
   */
  ghost predicate Initialised(lines: seq<Line>, clueLists: seq<seq<nat>>, slotCount: nat, vote: nat) {
    && |lines| == |clueLists|
    && forall i :: 0 <= i < |lines| ==>
         lines[i] == Line(clueLists[i], Sum(clueLists[i]), seq(slotCount, _ => Slot(false, vote)), 0, true, |clueLists| * slotCount)
  }

  /**
   * Freshly initialised rows and columns are the two views of one grid with
   * no cell resolved, given a clue capacity that fits every line.
   */
  lemma InitialWoven(rows: seq<Line>, cols: seq<Line>, rowClues: seq<seq<nat>>, colClues: seq<seq<nat>>,
                     rowVote: nat, colVote: nat, cap: nat)
    requires Initialised(rows, rowClues, |colClues|, rowVote) && Initialised(cols, colClues, |rowClues|, colVote)
    requires forall i :: 0 <= i < |rowClues| ==> |rowClues[i]| <= cap
    requires forall i :: 0 <= i < |colClues| ==> |colClues[i]| <= cap
    ensures Woven(rows, cols, cap) && DoneCells(rows) == 0
    ensures forall y, x :: 0 <= y < |rows| && 0 <= x < |cols| ==> !rows[y].slots[x].done && !cols[x].slots[y].done
  {
    forall y | 0 <= y < |rows| ensures LineOk(rows[y], |cols|, cap) {
      InitialLineOk(rows, rowClues, |colClues|, rowVote, y, cap);
    }
    forall x | 0 <= x < |cols| ensures LineOk(cols[x], |rows|, cap) {
      InitialLineOk(cols, colClues, |rowClues|, colVote, x, cap);
    }
    InitialUndone(rows, rowClues, |colClues|, rowVote);
    InitialUndone(cols, colClues, |rowClues|, colVote);
    DoneCellsNone(rows);
  }

  /** Slot `j` of freshly initialised line `i` is undone with the initial vote; the maximum counts the orientation's cells. */
  lemma InitialSlot(lines: seq<Line>, clueLists: seq<seq<nat>>, slotCount: nat, vote: nat, i: nat, j: nat)
    requires Initialised(lines, clueLists, slotCount, vote) && i < |lines| && j < slotCount
    ensures lines[i].slots[j] == Slot(false, vote) && lines[i].slotMax == |clueLists| * slotCount
  {
  }

  /** No slot of freshly initialised lines is done. */
  lemma InitialUndone(lines: seq<Line>, clueLists: seq<seq<nat>>, slotCount: nat, vote: nat)
    requires Initialised(lines, clueLists, slotCount, vote)
    ensures forall i, j :: 0 <= i < |lines| && 0 <= j < slotCount ==> !lines[i].slots[j].done
  {
    forall i, j | 0 <= i < |lines| && 0 <= j < slotCount ensures !lines[i].slots[j].done {
      InitialSlot(lines, clueLists, slotCount, vote, i, j);
    }
  }

  /** A freshly initialised line is well formed, with none of its slots done. */
  lemma InitialLineOk(lines: seq<Line>, clueLists: seq<seq<nat>>, slotCount: nat, vote: nat, i: nat, cap: nat)
    requires Initialised(lines, clueLists, slotCount, vote) && i < |lines| && |clueLists[i]| <= cap
    ensures LineOk(lines[i], slotCount, cap)
  {
    DoneCountNone(lines[i].slots);
  }

  /**
   * Builds the lines of one orientation from their clues: each gets
   * `slotCount` undone slots holding the initial vote, is flagged for
   * solving, and records its clue sum; also returns the clue sum of all of
   * them and their largest clue count.
   */
  method InitialiseLines(clueLists: seq<seq<nat>>, slotCount: nat)
    returns (lines: seq<Line>, clueTotal: nat, maxClues: nat)
    ensures Initialised(lines, clueLists, slotCount, InitialVote(clueTotal)) && clueTotal == SumAll(clueLists)
    ensures forall i :: 0 <= i < |clueLists| ==> |clueLists[i]| <= maxClues
    ensures maxClues == 0 || exists i :: 0 <= i < |clueLists| && |clueLists[i]| == maxClues
  {
    var totals: seq<nat> := [];
    clueTotal, maxClues := 0, 0;
    var i := 0;
    while i < |clueLists|
      invariant 0 <= i <= |clueLists| && |totals| == i
      invariant forall j :: 0 <= j < i ==> totals[j] == Sum(clueLists[j])
      invariant clueTotal == SumAll(clueLists[..i])
      invariant forall j :: 0 <= j < i ==> |clueLists[j]| <= maxClues
      invariant maxClues == 0 || exists j :: 0 <= j < i && |clueLists[j]| == maxClues
    {
      var clues := clueLists[i];
      var lineTotal := 0;
      var j := 0;
      while j < |clues|
        invariant 0 <= j <= |clues| && lineTotal == Sum(clues[..j])
      {
        assert clues[..j + 1][..j] == clues[..j];
        lineTotal := lineTotal + clues[j];
        j := j + 1;
      }
      assert clues[..|clues|] == clues;
      totals := totals + [lineTotal];
      assert clueLists[..i + 1][..i] == clueLists[..i];
      clueTotal := clueTotal + lineTotal;
      if |clues| > maxClues {
        maxClues := |clues|;
      }
      i := i + 1;
    }
    assert clueLists[..|clueLists|] == clueLists;
    lines := [];
    i := 0;
    while i < |clueLists|
      invariant 0 <= i <= |clueLists| && |lines| == i
      invariant forall j :: 0 <= j < i ==>
        lines[j] == Line(clueLists[j], Sum(clueLists[j]), seq(slotCount, _ => Slot(false, InitialVote(clueTotal))),
                         0, true, |clueLists| * slotCount)
    {
      var slots: seq<Slot> := [];
      var j := 0;
      while j < slotCount
        invariant 0 <= j <= slotCount && slots == seq(j, _ => Slot(false, InitialVote(clueTotal)))
      {
        slots := slots + [Slot(false, InitialVote(clueTotal))];
        j := j + 1;
      }
      lines := lines + [Line(clueLists[i], totals[i], slots, 0, true, |clueLists| * slotCount)];
      i := i + 1;
    }
  }

  /** The start of the line solver: no accepted arrangements, and every undone slot's vote count back to zero. */
  method ClearVotes(line: Line) returns (line': Line)
    ensures line' == Reset(line)
  {
    line' := line.(slotMax := 0);
    var s := 0;
    while s < |line'.slots|
      invariant 0 <= s <= |line'.slots| == |line.slots|
      invariant line' == line.(slotMax := 0, slots := line'.slots)
      invariant forall t :: 0 <= t < |line'.slots| ==> line'.slots[t] == if t < s then Reset(line).slots[t] else line.slots[t]
    {
      if line'.slots[s].done == false {
        line' := line'.(slots := line'.slots[s := Slot(false, 0)]);
      }
      s := s + 1;
    }
  }

  // ----- enumerating the arrangements of one line -----

  /**
   * The state of the anchor loop while solving `l0`: `cs` holds the starts,
   * `last` the placement found last, which agrees with `cs` up to the anchor
   * `clue`; `arrs` lists the arrangements found so far and `l` holds their
   * votes.
   */
  ghost predicate Scanning(l0: Line, l: Line, arrs: seq<seq<int>>, cs: seq<int>, last: seq<int>, clue: int) {
    var k, clues, len := KnownCells(l0.slots), l0.clues, |l0.slots|;
    && -1 <= clue < |clues| && |cs| == |clues| && |last| == |clues|
    && InRange(cs, len) && (forall c :: 0 <= c < |cs| ==> cs[c] < len)
    && Placed(k, clues, last) && InsideLine(clues, last, len)
    && cs[..clue + 1] == last[..clue + 1]
    && Listed(k, clues, arrs, last) && Enumerated(k, clues, arrs, cs, clue)
    && Tallied(l0, l, arrs)
  }

  /**
   * The greedy placement from the line start is the first arrangement; the
   * loop starts from it with the anchor on the last clue. Without it the
   * clues cannot be placed at all.
   */
  lemma ScanStart(l0: Line, l: Line, arrs: seq<seq<int>>, first: seq<int>, placed: bool)
    requires var g := Greedy(KnownCells(l0.slots), l0.clues, 0);
      placed == g.Some? && (placed ==> first == g.value)
    requires l == if placed && !Missed(KnownCells(l0.slots), l0.clues, first) then Voted(l0, first) else l0
    requires arrs == if placed && !Missed(KnownCells(l0.slots), l0.clues, first) then [first] else []
    ensures placed <==> Placeable(KnownCells(l0.slots), l0.clues)
    ensures placed ==> Scanning(l0, l, arrs, first, first, |l0.clues| - 1)
  {
    var k := KnownCells(l0.slots);
    GreedyIffPlaceable(k, l0.clues);
    if placed {
      FirstPlacement(k, l0.clues, first);
      TalliedNone(l0);
      if !Missed(k, l0.clues, first) {
        TallyVote(l0, l0, [], first);
      }
      PlacedInside(k, l0.clues, first);
    }
  }

  /** What remains to visit: the vectors after `cs` masked past the anchor. */
  ghost function Remaining(cs: seq<int>, clue: int, len: nat): set<seq<int>>
    requires -1 <= clue < |cs| && InRange(cs, len)
  {
    Above(Mask(cs, clue, len), len)
  }

  /** The anchor block starts on a set cell: the anchor retreats. */
  lemma ScanSkip(l0: Line, l: Line, arrs: seq<seq<int>>, cs: seq<int>, last: seq<int>, clue: int)
    requires Scanning(l0, l, arrs, cs, last, clue) && 0 <= clue && IsSet(l.slots[cs[clue]])
    ensures Scanning(l0, l, arrs, cs, last, clue - 1)
    ensures Remaining(cs, clue - 1, |l0.slots|) < Remaining(cs, clue, |l0.slots|)
  {
    TalliedKnown(l0, l, arrs);
    SkipStep(KnownCells(l0.slots), l0.clues, arrs, cs, last, clue);
    Retreat(cs, cs, clue, |l0.slots|);
  }

  /** Greedy placement found the next placement `next`: it is voted for unless it misses a set cell. */
  lemma ScanFound(l0: Line, l: Line, arrs: seq<seq<int>>, cs: seq<int>, last: seq<int>, clue: int, next: seq<int>)
    requires Scanning(l0, l, arrs, cs, last, clue) && 0 <= clue
    requires |next| == |cs| && next[..clue] == cs[..clue] && InRange(next, |l0.slots|)
    requires forall c :: 0 <= c < |next| ==> next[c] < |l0.slots|
    requires Greedy(KnownCells(l0.slots), l0.clues[clue..], cs[clue] + 1) == Some(next[clue..])
    ensures var k := KnownCells(l0.slots);
      var l' := if Missed(k, l0.clues, next) then l else Voted(l, next);
      var arrs' := if Missed(k, l0.clues, next) then arrs else arrs + [next];
      && Scanning(l0, l', arrs', next, next, |l0.clues| - 1)
      && Remaining(next, |l0.clues| - 1, |l0.slots|) < Remaining(cs, clue, |l0.slots|)
  {
    var k, clues := KnownCells(l0.slots), l0.clues;
    AdvanceStep(k, clues, arrs, cs, last, clue, next);
    if !Missed(k, clues, next) {
      TallyVote(l0, l, arrs, next);
    }
    PlacedInside(k, clues, next);
    Advance(cs, next, clue, |l0.slots|);
  }

  /** No placement moves the anchor block right: the anchor retreats. */
  lemma ScanFailed(l0: Line, l: Line, arrs: seq<seq<int>>, cs: seq<int>, last: seq<int>, clue: int, next: seq<int>)
    requires Scanning(l0, l, arrs, cs, last, clue) && 0 <= clue
    requires |next| == |cs| && next[..clue] == cs[..clue] && InRange(next, |l0.slots|)
    requires forall c :: 0 <= c < |next| ==> next[c] < |l0.slots|
    requires Greedy(KnownCells(l0.slots), l0.clues[clue..], cs[clue] + 1).None?
    ensures Scanning(l0, l, arrs, next, last, clue - 1)
    ensures Remaining(next, clue - 1, |l0.slots|) < Remaining(cs, clue, |l0.slots|)
  {
    var k, clues := KnownCells(l0.slots), l0.clues;
    FailStep(k, clues, arrs, cs, clue);
    EnumeratedPrefix(k, clues, arrs, cs, next, clue - 1);
    Retreat(cs, next, clue, |l0.slots|);
    assert next[..clue] == last[..clue] by {
      assert cs[..clue] == cs[..clue + 1][..clue] && last[..clue] == last[..clue + 1][..clue];
    }
  }

  /** The line being voted on has the known cells of `l0`, and the starts before the anchor lie inside it. */
  lemma ScanInside(l0: Line, l: Line, arrs: seq<seq<int>>, cs: seq<int>, last: seq<int>, clue: int)
    requires Scanning(l0, l, arrs, cs, last, clue) && 0 <= clue
    ensures l.clues == l0.clues && |l.slots| == |l0.slots| && KnownCells(l.slots) == KnownCells(l0.slots)
    ensures InsideLine(l0.clues, cs[..clue], |l0.slots|)
  {
    TalliedKnown(l0, l, arrs);
    assert cs[..clue] == last[..clue + 1][..clue];
  }

  /** Starts rewritten by greedy placement from `clue` on stay inside the line, as the earlier ones were. */
  lemma KeptInside(cs: seq<int>, next: seq<int>, clue: nat, len: nat)
    requires |next| == |cs| && clue <= |cs| && InRange(cs, len) && (forall c :: 0 <= c < |cs| ==> cs[c] < len)
    requires next[..clue] == cs[..clue]
    requires forall d :: clue <= d < |next| ==> next[d] == cs[d] || 0 <= next[d] < len
    ensures InRange(next, len) && forall c :: 0 <= c < |next| ==> next[c] < len
  {
    forall c | 0 <= c < clue
      ensures next[c] == cs[c]
    {
      assert next[c] == next[..clue][c];
    }
  }

  /**
   * After moving the anchor block right and placing the later blocks
   * greedily into `next`: if that placement exists the anchor goes to the
   * last clue with `next` voted for (unless it misses a set cell), otherwise
   * the anchor retreats.
   */
  lemma ScanStep(l0: Line, l: Line, arrs: seq<seq<int>>, cs: seq<int>, last: seq<int>, clue: int,
                 placed: bool, next: seq<int>, l': Line, arrs': seq<seq<int>>, last': seq<int>, clue': int)
    requires Scanning(l0, l, arrs, cs, last, clue) && 0 <= clue
    requires |next| == |cs| && next[..clue] == cs[..clue] && InRange(next, |l0.slots|)
    requires forall c :: 0 <= c < |next| ==> next[c] < |l0.slots|
    requires var g := Greedy(KnownCells(l0.slots), l0.clues[clue..], cs[clue] + 1);
      placed == g.Some? && (placed ==> next[clue..] == g.value)
    requires l' == if placed && !Missed(KnownCells(l0.slots), l0.clues, next) then Voted(l, next) else l
    requires arrs' == if placed && !Missed(KnownCells(l0.slots), l0.clues, next) then arrs + [next] else arrs
    requires last' == (if placed then next else last) && clue' == if placed then |l0.clues| - 1 else clue - 1
    ensures Scanning(l0, l', arrs', next, last', clue')
    ensures Remaining(next, clue', |l0.slots|) < Remaining(cs, clue, |l0.slots|)
  {
    if placed {
      ScanFound(l0, l, arrs, cs, last, clue, next);
    } else {
      ScanFailed(l0, l, arrs, cs, last, clue, next);
    }
  }

  /**
   * One step of the anchor loop. An anchor block that starts on a set cell
   * cannot move right, so the anchor retreats. Otherwise the anchor block
   * moves right by one cell and the later blocks are placed greedily: either
   * the next placement is found (and voted for unless it misses a set cell)
   * and the anchor goes to the last clue, or the anchor retreats.
   */
  method AnchorStep(clueStart: array<int>, l0: Line, line: Line, clue: int,
                       ghost arrs: seq<seq<int>>, ghost last: seq<int>, ghost cs: seq<int>)
    returns (clue': int, line': Line, ghost arrs': seq<seq<int>>, ghost last': seq<int>, ghost next: seq<int>)
    requires |l0.clues| <= clueStart.Length && 0 <= clue && clueStart[..|l0.clues|] == cs
    requires Scanning(l0, line, arrs, cs, last, clue)
    modifies clueStart
    ensures clueStart[..|l0.clues|] == next
    ensures Scanning(l0, line', arrs', next, last', clue')
    ensures Remaining(next, clue', |l0.slots|) < Remaining(cs, clue, |l0.slots|)
  {
    var n := |l0.clues|;
    ScanInside(l0, line, arrs, cs, last, clue);
    var pos := clueStart[clue];
    assert pos == cs[clue];
    if IsSet(line.slots[pos]) || pos == |line.slots| {
      ScanSkip(l0, line, arrs, cs, last, clue);
      return clue - 1, line, arrs, last, cs;
    }
    pos := pos + 1;
    var placed;
    placed, line', next := TryPlaceClues(clueStart, line, clue, pos, cs);
    KeptInside(cs, next, clue, |l0.slots|);
    arrs' := if placed && !Missed(KnownCells(l0.slots), l0.clues, next) then arrs + [next] else arrs;
    last' := if placed then next else last;
    clue' := if placed then n - 1 else clue - 1;
    ScanStep(l0, line, arrs, cs, last, clue, placed, next, line', arrs', last', clue');
  }

  /**
   * The anchor loop of the line solver: starting from the greedy placement,
   * visits every legal placement in lexicographic order, voting for each one
   * that misses no set cell. Reports failure when not even the first
   * placement exists.
   */
  method Enumerate(clueStart: array<int>, line: Line) returns (ok: bool, line': Line, ghost arrs: seq<seq<int>>)
    requires |line.clues| <= clueStart.Length
    modifies clueStart
    ensures var k := KnownCells(line.slots);
      && (ok <==> Placeable(k, line.clues))
      && (!ok ==> line' == line)
      && (ok ==> AllArrangements(k, line.clues, arrs) && Tallied(line, line', arrs))
  {
    var n := |line.clues|;
    var placed;
    assert line.clues[0..] == line.clues;
    ghost var last;
    placed, line', last := TryPlaceClues(clueStart, line, 0, 0, clueStart[..n]);
    arrs := if placed && !Missed(KnownCells(line.slots), line.clues, last) then [last] else [];
    ScanStart(line, line', arrs, last, placed);
    if !placed {
      return false, line', [];
    }
    var clue: int := n - 1;
    ghost var cs := last;
    while clue >= 0
      invariant clueStart[..n] == cs
      invariant Scanning(line, line', arrs, cs, last, clue)
      decreases Remaining(cs, clue, |line.slots|)
    {
      clue, line', arrs, last, cs := AnchorStep(clueStart, line, line', clue, arrs, last, cs);
    }
    EnumeratedAll(KnownCells(line.slots), line.clues, arrs, cs, last);
    return true, line', arrs;
  }

  class Puzzle {
    var rows: seq<Line>
    var cols: seq<Line>
    /** The clue sum of all rows and all columns. */
    var clueTotal: nat
    /** The largest clue count of any line: the length of `clueStart`. */
    var clueStartCount: nat
    /** The start of each block of the placement being tried, shared by all lines. */
    var clueStart: array<int>
    /** The number of cells resolved so far. */
    var cellsComplete: nat

    ghost predicate Valid()
      reads this
    {
      && clueStartCount == clueStart.Length
      && Woven(rows, cols, clueStartCount)
      && cellsComplete == DoneCells(rows)
    }

    /** The columns when `vertical`, the rows otherwise. */
    function LinesOf(vertical: bool): seq<Line>
      reads this
    {
      if vertical then cols else rows
    }

    /** Every line is settled: another pass over either orientation would solve nothing. */
    ghost predicate Quiescent()
      reads this
    {
      (forall y :: 0 <= y < |rows| ==> Settled(rows[y])) && (forall x :: 0 <= x < |cols| ==> Settled(cols[x]))
    }

    /** Some row or column cannot be placed on the cells known in it. */
    ghost predicate Infeasible()
      reads this
    {
      (exists y :: 0 <= y < |rows| && Unplaceable(rows[y])) || (exists x :: 0 <= x < |cols| && Unplaceable(cols[x]))
    }

    constructor (rowClues: seq<seq<nat>>, colClues: seq<seq<nat>>)
      ensures Valid() && fresh(clueStart)
      ensures |rows| == |rowClues| && |cols| == |colClues|
      ensures forall y :: 0 <= y < |rows| ==> rows[y].clues == rowClues[y] && rows[y].updateNeeded
      ensures forall x :: 0 <= x < |cols| ==> cols[x].clues == colClues[x] && cols[x].updateNeeded
      ensures forall y, x :: 0 <= y < |rows| && 0 <= x < |cols| ==> !rows[y].slots[x].done && !cols[x].slots[y].done
      ensures cellsComplete == 0 && clueTotal == SumAll(rowClues) + SumAll(colClues)
      ensures Initialised(rows, rowClues, |colClues|, InitialVote(SumAll(rowClues)))
      ensures Initialised(cols, colClues, |rowClues|, InitialVote(SumAll(colClues)))
    {
      var lines, total, maxClues := InitialiseLines(colClues, |rowClues|);
      var count := maxClues;
      cols := lines;
      var rowLines, rowTotal, rowMax := InitialiseLines(rowClues, |colClues|);
      if count < rowMax {
        count := rowMax;
      }
      rows := rowLines;
      clueTotal := total + rowTotal;
      clueStartCount := count;
      clueStart := new int[count](_ => 0);
      cellsComplete := 0;
      new;
      InitialWoven(rows, cols, rowClues, colClues, InitialVote(rowTotal), InitialVote(total), count);
    }

    /** The puzzle is complete once every cell has been resolved. */
    function IsComplete(): bool
      reads this
    {
      cellsComplete == |cols| * |rows|
    }

    lemma CompleteIffAllDone()
      requires Valid()
      ensures IsComplete() <==> forall y, x :: 0 <= y < |rows| && 0 <= x < |cols| ==> rows[y].slots[x].done
    {
      DoneCellsFull(rows, |cols|);
    }

    lemma LineOkAt(vertical: bool, i: nat)
      requires Valid() && i < |LinesOf(vertical)|
      ensures LineOk(LinesOf(vertical)[i], |LinesOf(!vertical)|, clueStartCount)
    {
      if vertical {
        WovenSym(rows, cols, clueStartCount);
        LineAt(cols, rows, clueStartCount, i);
      } else {
        LineAt(rows, cols, clueStartCount, i);
      }
    }

    /** Stores a new version of a line that changes only votes, `slot_max` or its flag. */
    method Store(vertical: bool, lineIdx: nat, l: Line)
      requires Valid() && lineIdx < |LinesOf(vertical)| && SameKnown(LinesOf(vertical)[lineIdx], l)
      modifies this
      ensures Valid()
      ensures LinesOf(vertical) == old(LinesOf(vertical))[lineIdx := l]
      ensures LinesOf(!vertical) == old(LinesOf(!vertical))
      ensures cellsComplete == old(cellsComplete) && clueStart == old(clueStart)
      ensures clueStartCount == old(clueStartCount) && clueTotal == old(clueTotal)
    {
      if vertical {
        WovenSym(rows, cols, clueStartCount);
        StoreWoven(cols, rows, clueStartCount, lineIdx, l);
        cols := cols[lineIdx := l];
      } else {
        StoreWoven(rows, cols, clueStartCount, lineIdx, l);
        rows := rows[lineIdx := l];
      }
    }

    /**
     * Marks slot `slotIdx` of line `lineIdx` done, copies it into the
     * perpendicular line (which is flagged for another solve), and counts one
     * more resolved cell.
     */
    method SolveSlotDone(vertical: bool, lineIdx: nat, slotIdx: nat)
      requires Valid()
      requires lineIdx < |LinesOf(vertical)| && slotIdx < |LinesOf(!vertical)|
      requires !LinesOf(vertical)[lineIdx].slots[slotIdx].done
      modifies this
      ensures Valid()
      ensures clueStart == old(clueStart) && clueStartCount == old(clueStartCount) && clueTotal == old(clueTotal)
      ensures var v := old(LinesOf(vertical)[lineIdx].slots[slotIdx].value);
        && LinesOf(vertical) == old(LinesOf(vertical))[lineIdx := MarkDone(old(LinesOf(vertical)[lineIdx]), slotIdx, v)]
        && LinesOf(!vertical) == old(LinesOf(!vertical))[slotIdx := MarkDone(old(LinesOf(!vertical)[slotIdx]), lineIdx, v).(updateNeeded := true)]
      ensures cellsComplete == old(cellsComplete) + 1
    {
      var v := LinesOf(vertical)[lineIdx].slots[slotIdx].value;
      if vertical {
        var cols', rows' := cols[lineIdx := MarkDone(cols[lineIdx], slotIdx, v)],
                            rows[slotIdx := MarkDone(rows[slotIdx], lineIdx, v).(updateNeeded := true)];
        WovenSym(rows, cols, clueStartCount);
        MarkWoven(cols, rows, clueStartCount, lineIdx, slotIdx, v, cols', rows');
        cols, rows := cols', rows';
      } else {
        var rows', cols' := rows[lineIdx := MarkDone(rows[lineIdx], slotIdx, v)],
                            cols[slotIdx := MarkDone(cols[slotIdx], lineIdx, v).(updateNeeded := true)];
        MarkWoven(rows, cols, clueStartCount, lineIdx, slotIdx, v, rows', cols');
        rows, cols := rows', cols';
      }
      cellsComplete := cellsComplete + 1;
    }

    /**
     * Part way through the resolution loop: the first `s` slots of line
     * `lineIdx` (which was `l0`) are resolved and copied into the
     * perpendicular lines (which were `others`); lines of the same orientation
     * (which were `same`) are unchanged, and the resolved-cell count (which was
     * `c0`) changed only if some cell was resolved.
     */
    ghost predicate Resolving(vertical: bool, lineIdx: nat, s: nat, l0: Line, same: seq<Line>, others: seq<Line>, c0: nat)
      reads this
    {
      && Valid() && lineIdx < |same| && s <= |l0.slots| == |others|
      && |LinesOf(vertical)| == |same| && |LinesOf(!vertical)| == |others|
      && (forall j :: 0 <= j < |same| && j != lineIdx ==> LinesOf(vertical)[j] == same[j])
      && (var l := LinesOf(vertical)[lineIdx];
          && l.clues == l0.clues && l.clueTotal == l0.clueTotal && l.slotMax == l0.slotMax
          && l.updateNeeded == l0.updateNeeded && |l.slots| == |l0.slots|
          && forall t :: 0 <= t < |l.slots| ==> l.slots[t] == if t < s then Resolve(l0.slots[t], l0.slotMax) else l0.slots[t])
      && (forall j :: 0 <= j < |others| ==> lineIdx < |others[j].slots|)
      && (forall j :: 0 <= j < |others| ==>
            LinesOf(!vertical)[j] == if j < s then Propagated(others[j], lineIdx, l0.slots[j], Resolve(l0.slots[j], l0.slotMax)) else others[j])
      && cellsComplete >= c0
      && (cellsComplete == c0 ==> forall j :: 0 <= j < s ==> Resolve(l0.slots[j], l0.slotMax) == l0.slots[j])
    }

    /** One iteration of the resolution loop: slot `s` is resolved if its vote is `slot_max` or zero. */
    method ResolveSlot(vertical: bool, lineIdx: nat, s: nat, ghost l0: Line, ghost same: seq<Line>, ghost others: seq<Line>, ghost c0: nat)
      requires Resolving(vertical, lineIdx, s, l0, same, others, c0) && s < |l0.slots|
      modifies this
      ensures Resolving(vertical, lineIdx, s + 1, l0, same, others, c0)
      ensures clueStart == old(clueStart) && clueStartCount == old(clueStartCount) && clueTotal == old(clueTotal)
    {
      var l := LinesOf(vertical)[lineIdx];
      if l.slots[s].done == false {
        if l.slots[s].value == l.slotMax || l.slots[s].value == 0 {
          SolveSlotDone(vertical, lineIdx, s);
        }
      }
    }

    /**
     * The resolution loop of the line solver: every undone slot whose vote
     * equals `slot_max`, or is zero, is resolved in both views.
     */
    method ResolveSlots(vertical: bool, lineIdx: nat)
      requires Valid() && lineIdx < |LinesOf(vertical)|
      modifies this
      ensures Valid()
      ensures clueStart == old(clueStart) && clueStartCount == old(clueStartCount) && clueTotal == old(clueTotal)
      ensures |LinesOf(vertical)| == old(|LinesOf(vertical)|) && |LinesOf(!vertical)| == old(|LinesOf(!vertical)|)
      ensures forall j :: 0 <= j < |LinesOf(vertical)| && j != lineIdx ==> LinesOf(vertical)[j] == old(LinesOf(vertical)[j])
      ensures var l0, l := old(LinesOf(vertical)[lineIdx]), LinesOf(vertical)[lineIdx];
        && l.clues == l0.clues && l.clueTotal == l0.clueTotal && l.slotMax == l0.slotMax
        && l.updateNeeded == l0.updateNeeded && |l.slots| == |l0.slots|
        && forall t :: 0 <= t < |l.slots| ==> l.slots[t] == Resolve(l0.slots[t], l0.slotMax)
      ensures forall j :: 0 <= j < |LinesOf(!vertical)| ==>
        LinesOf(!vertical)[j] == Propagated(old(LinesOf(!vertical)[j]), lineIdx,
                                            old(LinesOf(vertical)[lineIdx].slots[j]), LinesOf(vertical)[lineIdx].slots[j])
      ensures cellsComplete >= old(cellsComplete)
      ensures cellsComplete == old(cellsComplete) ==> LinesOf(!vertical) == old(LinesOf(!vertical))
    {
      ghost var l0 := LinesOf(vertical)[lineIdx];
      ghost var same := LinesOf(vertical);
      ghost var others := LinesOf(!vertical);
      LineOkAt(vertical, lineIdx);
      var s := 0;
      while s < |LinesOf(!vertical)|
        invariant 0 <= s
        invariant Resolving(vertical, lineIdx, s, l0, same, others, old(cellsComplete))
        invariant clueStart == old(clueStart) && clueStartCount == old(clueStartCount) && clueTotal == old(clueTotal)
      {
        ResolveSlot(vertical, lineIdx, s, l0, same, others, old(cellsComplete));
        s := s + 1;
      }
      if cellsComplete == old(cellsComplete) {
        assert LinesOf(!vertical) == others by {
          forall j | 0 <= j < |others| ensures LinesOf(!vertical)[j] == others[j] {
            assert Resolve(l0.slots[j], l0.slotMax) == l0.slots[j];
          }
        }
      }
    }

    /**
     * Solves one line: clears its votes, counts the votes of every
     * arrangement, and resolves the slots every arrangement sets or none
     * does. Fails, with the votes cleared, when the clues cannot be placed.
     */
    method SolveLine(vertical: bool, lineIdx: nat) returns (ok: bool, ghost arrs: seq<seq<int>>)
      requires Valid() && lineIdx < |LinesOf(vertical)|
      modifies this, clueStart
      ensures Valid() && clueStart == old(clueStart) && clueStartCount == old(clueStartCount)
      ensures |rows| == old(|rows|) && |cols| == old(|cols|)
      ensures var l0, l := old(LinesOf(vertical)[lineIdx]), LinesOf(vertical)[lineIdx];
        && (ok <==> Placeable(KnownCells(l0.slots), l0.clues))
        && (!ok ==> l == Reset(l0))
        && (ok ==> AllArrangements(KnownCells(l0.slots), l0.clues, arrs) && Solved(l0, l, arrs))
      ensures forall j :: 0 <= j < |LinesOf(vertical)| && j != lineIdx ==> LinesOf(vertical)[j] == old(LinesOf(vertical)[j])
      ensures forall j :: 0 <= j < |LinesOf(!vertical)| ==>
        LinesOf(!vertical)[j] == Propagated(old(LinesOf(!vertical)[j]), lineIdx,
                                            old(LinesOf(vertical)[lineIdx].slots[j]), LinesOf(vertical)[lineIdx].slots[j])
      ensures cellsComplete >= old(cellsComplete)
      ensures cellsComplete == old(cellsComplete) ==> LinesOf(!vertical) == old(LinesOf(!vertical))
    {
      ghost var l0 := LinesOf(vertical)[lineIdx];
      LineOkAt(vertical, lineIdx);
      var line := ClearVotes(LinesOf(vertical)[lineIdx]);
      ResetKnown(l0);
      var placed;
      placed, line, arrs := Enumerate(clueStart, line);
      if !placed {
        Store(vertical, lineIdx, line);
        return false, arrs;
      }
      Store(vertical, lineIdx, line.(updateNeeded := false));
      ResolveSlots(vertical, lineIdx);
      SolvedByResolving(l0, line, LinesOf(vertical)[lineIdx], arrs);
      return true, arrs;
    }

    /**
     * Part way through a pass over one orientation, whose lines were `same`
     * and whose perpendicular lines were `others` (with `c0` cells resolved):
     * the first `i` lines are dealt with and settled, and every line has only
     * grown.
     */
    ghost predicate Passing(vertical: bool, i: nat, same: seq<Line>, others: seq<Line>, c0: nat)
      reads this
    {
      && Valid() && PassedUpTo(same, LinesOf(vertical), i)
      && AllGrow(same, LinesOf(vertical)) && AllGrow(others, LinesOf(!vertical))
      && (forall j :: 0 <= j < i ==> Settled(LinesOf(vertical)[j]))
      && cellsComplete >= c0
      && (cellsComplete == c0 ==> LinesOf(!vertical) == others)
    }

    /**
     * One step of a pass: line `i` is skipped when settled and solved
     * otherwise; fails, with the line's votes cleared, when it cannot be placed.
     */
    method PassLine(vertical: bool, i: nat, ghost same: seq<Line>, ghost others: seq<Line>, ghost c0: nat) returns (ok: bool)
      requires Passing(vertical, i, same, others, c0) && i < |same|
      modifies this, clueStart
      ensures clueStart == old(clueStart) && clueStartCount == old(clueStartCount)
      ensures ok ==> Passing(vertical, i + 1, same, others, c0)
      ensures !ok ==> && Valid() && FailedAt(same, LinesOf(vertical), i) && Unplaceable(LinesOf(vertical)[i])
                      && AllGrow(same, LinesOf(vertical)) && AllGrow(others, LinesOf(!vertical))
                      && cellsComplete >= c0 && (cellsComplete == c0 ==> LinesOf(!vertical) == others)
    {
      var l := LinesOf(vertical)[i];
      ghost var cur, mid := LinesOf(vertical), LinesOf(!vertical);
      if l.total == |l.slots| || l.updateNeeded == false {
        PassedStep(same, cur, cur, i);
        return true;
      }
      if vertical {
        WovenSym(rows, cols, clueStartCount);
      }
      var solved;
      ghost var arrs;
      solved, arrs := SolveLine(vertical, i);
      ghost var next := LinesOf(vertical);
      PropagatedGrow(cur, mid, LinesOf(!vertical), clueStartCount, i, next[i].slots);
      AllGrowTrans(others, mid, LinesOf(!vertical));
      if !solved {
        ResetKnown(l);
        FailedStep(same, cur, next, i);
        ReplaceGrow(same, cur, next, i);
        return false;
      }
      assert SolvedFrom(l, next[i]);
      SolvedGrows(l, next[i]);
      PassedStep(same, cur, next, i);
      ReplaceGrow(same, cur, next, i);
      return true;
    }

    /**
     * Solves, in order, every line of one orientation that is flagged and not
     * yet complete; stops at the first line that cannot be placed.
     */
    method SolvePass(vertical: bool) returns (ok: bool)
      requires Valid()
      modifies this, clueStart
      ensures Valid() && clueStart == old(clueStart) && clueStartCount == old(clueStartCount)
      ensures |rows| == old(|rows|) && |cols| == old(|cols|)
      ensures AllGrow(old(rows), rows) && AllGrow(old(cols), cols)
      ensures cellsComplete >= old(cellsComplete)
      ensures cellsComplete == old(cellsComplete) ==> LinesOf(!vertical) == old(LinesOf(!vertical))
      ensures ok ==> PassedUpTo(old(LinesOf(vertical)), LinesOf(vertical), |LinesOf(vertical)|)
      ensures ok ==> forall i :: 0 <= i < |LinesOf(vertical)| ==> Settled(LinesOf(vertical)[i])
      ensures !ok ==> exists f :: FailedAt(old(LinesOf(vertical)), LinesOf(vertical), f)
      ensures !ok ==> exists i :: 0 <= i < |LinesOf(vertical)| && Unplaceable(LinesOf(vertical)[i])
    {
      ghost var same, others := LinesOf(vertical), LinesOf(!vertical);
      var i := 0;
      while i < |LinesOf(vertical)|
        invariant 0 <= i <= |same|
        invariant Passing(vertical, i, same, others, old(cellsComplete))
        invariant clueStart == old(clueStart) && clueStartCount == old(clueStartCount)
      {
        var stepOk := PassLine(vertical, i, same, others, old(cellsComplete));
        if !stepOk {
          return false;
        }
        i := i + 1;
      }
      return true;
    }

    /**
     * One pass of the scheduler, seen from the scheduler: every line keeps
     * growing from `rows0` and `cols0`, the resolved-cell count stays within
     * the grid, and the pass either settles its orientation or finds the
     * puzzle infeasible.
     */
    method Round(vertical: bool, ghost rows0: seq<Line>, ghost cols0: seq<Line>) returns (ok: bool)
      requires Valid() && AllGrow(rows0, rows) && AllGrow(cols0, cols)
      modifies this, clueStart
      ensures Valid() && clueStart == old(clueStart)
      ensures |rows| == old(|rows|) && |cols| == old(|cols|)
      ensures AllGrow(rows0, rows) && AllGrow(cols0, cols)
      ensures old(cellsComplete) <= cellsComplete <= |rows| * |cols|
      ensures cellsComplete == old(cellsComplete) ==> LinesOf(!vertical) == old(LinesOf(!vertical))
      ensures ok ==> forall i :: 0 <= i < |LinesOf(vertical)| ==> Settled(LinesOf(vertical)[i])
      ensures !ok ==> Infeasible()
    {
      ghost var rowsBefore, colsBefore := rows, cols;
      ok := SolvePass(vertical);
      AllGrowTrans(rows0, rowsBefore, rows);
      AllGrowTrans(cols0, colsBefore, cols);
      DoneCellsFull(rows, |cols|);
    }

    /**
     * Alternates row passes (even) and column passes (odd) until the puzzle
     * is complete, a line cannot be placed (the only failure), or a column
     * pass ends with no more cells resolved than after the previous column
     * pass (or than none, before the first).
     */
    method Solve() returns (ok: bool)
      requires Valid()
      modifies this, clueStart
      ensures Valid() && clueStart == old(clueStart)
      ensures |rows| == old(|rows|) && |cols| == old(|cols|)
      ensures AllGrow(old(rows), rows) && AllGrow(old(cols), cols)
      ensures cellsComplete >= old(cellsComplete)
      ensures !ok ==> Infeasible()
      ensures ok ==> IsComplete() || Quiescent()
      ensures old(IsComplete()) ==> ok && rows == old(rows) && cols == old(cols)
    {
      var baseline: nat := 0;
      ok := true;
      var pass: nat := 0;
      ghost var size := |rows| * |cols|;
      ghost var rows0, cols0 := rows, cols;
      DoneCellsFull(rows, |cols|);
      while ok && !IsComplete()
        invariant Valid() && clueStart == old(clueStart)
        invariant |rows| == old(|rows|) && |cols| == old(|cols|) && size == |rows| * |cols|
        invariant baseline <= cellsComplete <= size
        invariant AllGrow(rows0, rows) && AllGrow(cols0, cols)
        invariant cellsComplete >= old(cellsComplete)
        invariant !ok ==> Infeasible()
        invariant pass % 2 == 1 ==> forall y :: 0 <= y < |rows| ==> Settled(rows[y])
        invariant old(IsComplete()) ==> ok && rows == old(rows) && cols == old(cols) && cellsComplete == old(cellsComplete)
        decreases size - baseline, if pass % 2 == 0 then 1 else 0
      {
        var vertical := pass % 2 == 1;
        ghost var before := cellsComplete;
        ghost var rowsBefore := rows;
        var passOk := Round(vertical, rows0, cols0);
        if !passOk {
          ok := false;
          break;
        }
        if vertical {
          if baseline == cellsComplete {
            assert LinesOf(vertical) == cols && rows == rowsBefore;
            break;
          }
          baseline := cellsComplete;
        } else {
          assert LinesOf(vertical) == rows;
        }
        assert (pass + 1) % 2 == if vertical then 0 else 1;
        pass := pass + 1;
      }
    }
  }
}
