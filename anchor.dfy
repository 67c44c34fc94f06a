/**
 * The enumeration performed by the anchor loop of the line solver, step by
 * step. The loop keeps the vector of clue starts it placed last; at anchor
 * `clue` every arrangement whose first `clue + 1` starts come no later than
 * the current ones has been listed. Each step either shows that no
 * arrangement keeps the first `clue` starts and moves block `clue` right (the
 * anchor retreats), or finds the next placement in lexicographic order.
 */
module Anchor {
  import opened Lex
  import opened Lines
  import opened Placing

  /** Every arrangement whose first `clue + 1` starts come no later than those of `cs` is in `arrs`. */
  ghost predicate Enumerated(k: seq<Cell>, clues: seq<nat>, arrs: seq<seq<int>>, cs: seq<int>, clue: int) {
    && -1 <= clue < |cs| && |cs| == |clues|
    && forall v :: Arrangement(k, clues, v) && LessEq(v[..clue + 1], cs[..clue + 1]) ==> v in arrs
  }

  /** The vectors listed so far are arrangements, strictly increasing, none after `last`. */
  ghost predicate Listed(k: seq<Cell>, clues: seq<nat>, arrs: seq<seq<int>>, last: seq<int>) {
    && (forall w :: w in arrs ==> Arrangement(k, clues, w))
    && StrictlySorted(arrs)
    && (forall w :: w in arrs ==> LessEq(w, last))
  }

  /** Enumeration with the anchor retreated past the first clue has listed every arrangement. */
  lemma EnumeratedAll(k: seq<Cell>, clues: seq<nat>, arrs: seq<seq<int>>, cs: seq<int>, last: seq<int>)
    requires Enumerated(k, clues, arrs, cs, -1) && Listed(k, clues, arrs, last)
    ensures AllArrangements(k, clues, arrs)
  {
    forall v | Arrangement(k, clues, v) ensures v in arrs {
      assert v[..0] == cs[..0];
    }
  }

  /** The first greedy placement is the least legal placement, so it starts the list. */
  lemma FirstPlacement(k: seq<Cell>, clues: seq<nat>, g: seq<int>)
    requires Greedy(k, clues, 0) == Some(g)
    ensures |g| == |clues| && Placed(k, clues, g)
    ensures var arrs := if Missed(k, clues, g) then [] else [g];
      Listed(k, clues, arrs, g) && Enumerated(k, clues, arrs, g, |clues| - 1)
  {
    GreedyPlaces(k, clues, 0);
    var arrs := if Missed(k, clues, g) then [] else [g];
    forall v | Arrangement(k, clues, v) && LessEq(v[..|clues|], g[..|clues|]) ensures v in arrs {
      assert v[..|clues|] == v && g[..|clues|] == g;
      if |v| > 0 {
        assert Fits(k, clues[0], v[0]);
      }
      GreedyLeftmost(k, clues, 0, v);
      LessEqAntisym(v, g);
    }
  }

  /**
   * Moving block `clue` right of its current start `cs[clue]` while keeping
   * the blocks before it leaves that cell uncovered: the earlier blocks end
   * before it and the later ones start after block `clue`.
   */
  lemma {:induction false} LaterStartMisses(k: seq<Cell>, clues: seq<nat>, cs: seq<int>, last: seq<int>, clue: int, v: seq<int>)
    requires |last| == |clues| && Placed(k, clues, last) && 0 <= clue < |clues|
    requires |cs| == |clues| && cs[..clue + 1] == last[..clue + 1]
    requires |v| == |clues| && Placed(k, clues, v) && v[..clue] == cs[..clue] && cs[clue] < v[clue]
    ensures !Covered(clues, v, cs[clue])
  {
    var p := cs[clue];
    forall c | 0 <= c < |v| ensures !(v[c] <= p < v[c] + clues[c]) {
      if c < clue {
        assert v[c] == v[..clue][c] == cs[..clue][c] == cs[c];
        assert cs[c] == cs[..clue + 1][c] == last[..clue + 1][c] == last[c];
        assert last[clue] == last[..clue + 1][clue] == cs[..clue + 1][clue] == p;
        PlacedOrdered(k, clues, last, c, clue);
      } else if c > clue {
        PlacedOrdered(k, clues, v, clue, c);
      }
    }
  }

  /** The anchor block starts on a set cell, so it cannot move right: the anchor retreats. */
  lemma {:induction false} SkipStep(k: seq<Cell>, clues: seq<nat>, arrs: seq<seq<int>>, cs: seq<int>, last: seq<int>, clue: int)
    requires Enumerated(k, clues, arrs, cs, clue) && 0 <= clue
    requires |last| == |clues| && Placed(k, clues, last) && cs[..clue + 1] == last[..clue + 1]
    requires 0 <= cs[clue] < |k| && k[cs[clue]] == Filled
    ensures Enumerated(k, clues, arrs, cs, clue - 1)
  {
    forall v | Arrangement(k, clues, v) && LessEq(v[..clue], cs[..clue]) ensures v in arrs {
      PrefixStep(v, cs, clue);
      if !LessEq(v[..clue + 1], cs[..clue + 1]) {
        LaterStartMisses(k, clues, cs, last, clue, v);
        assert false;
      }
    }
  }

  /** No placement of the clues from `clue` on starts after `cs[clue]`: the anchor retreats. */
  lemma {:induction false} FailStep(k: seq<Cell>, clues: seq<nat>, arrs: seq<seq<int>>, cs: seq<int>, clue: int)
    requires Enumerated(k, clues, arrs, cs, clue) && 0 <= clue && 0 <= cs[clue]
    requires Greedy(k, clues[clue..], cs[clue] + 1).None?
    ensures Enumerated(k, clues, arrs, cs, clue - 1)
  {
    forall v | Arrangement(k, clues, v) && LessEq(v[..clue], cs[..clue]) ensures v in arrs {
      PrefixStep(v, cs, clue);
      if !LessEq(v[..clue + 1], cs[..clue + 1]) {
        PlacedSuffix(k, clues, v, clue);
        GreedyLeftmost(k, clues[clue..], cs[clue] + 1, v[clue..]);
        assert false;
      }
    }
  }

  /** Retreating only reads the starts before the anchor, so rewriting later ones does not matter. */
  lemma EnumeratedPrefix(k: seq<Cell>, clues: seq<nat>, arrs: seq<seq<int>>, cs: seq<int>, cs': seq<int>, clue: int)
    requires Enumerated(k, clues, arrs, cs, clue) && |cs'| == |cs| && cs'[..clue + 1] == cs[..clue + 1]
    ensures Enumerated(k, clues, arrs, cs', clue)
  {
  }

  /** The placement found by moving the anchor block is legal and comes after `last`. */
  lemma {:induction false} AdvancePlaced(k: seq<Cell>, clues: seq<nat>, cs: seq<int>, last: seq<int>, clue: int, n: seq<int>)
    requires |last| == |clues| && Placed(k, clues, last) && 0 <= clue < |clues|
    requires |cs| == |clues| && cs[..clue + 1] == last[..clue + 1]
    requires 0 <= cs[clue] && |n| == |clues| && n[..clue] == cs[..clue]
    requires Greedy(k, clues[clue..], cs[clue] + 1) == Some(n[clue..])
    ensures Placed(k, clues, n) && cs[clue] < n[clue] && Less(last, n)
  {
    var g := n[clue..];
    GreedyPlaces(k, clues[clue..], cs[clue] + 1);
    assert n == n[..clue] + g;
    assert last[..clue] == cs[..clue] by {
      assert last[..clue] == last[..clue + 1][..clue] && cs[..clue] == cs[..clue + 1][..clue];
    }
    assert last[clue] == last[..clue + 1][clue] == cs[..clue + 1][clue] == cs[clue];
    PlacedPrefix(k, clues, last, clue);
    if clue > 0 {
      assert Separated(clues, last, clue - 1);
      assert n[..clue][clue - 1] == last[clue - 1];
    }
    PlacedJoin(k, clues, n[..clue], g);
    assert n[clue] == g[0];
    LessAt(last, n, clue);
  }

  /** Appending a placement that comes after every listed one keeps the list sorted. */
  lemma ListedExtend(k: seq<Cell>, clues: seq<nat>, arrs: seq<seq<int>>, last: seq<int>, n: seq<int>)
    requires Listed(k, clues, arrs, last) && Less(last, n) && |n| == |clues| && Placed(k, clues, n)
    ensures var arrs' := if Missed(k, clues, n) then arrs else arrs + [n];
      Listed(k, clues, arrs', n)
  {
    var arrs' := if Missed(k, clues, n) then arrs else arrs + [n];
    forall w | w in arrs' ensures LessEq(w, n) {
      if w in arrs {
        LessEqLessTrans(w, last, n);
      }
    }
    forall i, j | 0 <= i < j < |arrs'| ensures Less(arrs'[i], arrs'[j]) {
      if j == |arrs| {
        assert arrs'[i] == arrs[i] && arrs[i] in arrs;
        LessEqLessTrans(arrs[i], last, n);
      } else {
        assert arrs'[i] == arrs[i] && arrs'[j] == arrs[j];
      }
    }
  }

  /**
   * Among legal placements that keep the starts before the anchor and move
   * the anchor block right, the greedy one `n` is the least, so none lies
   * strictly between the old starts and `n`.
   */
  lemma {:induction false} NextIsLeast(k: seq<Cell>, clues: seq<nat>, cs: seq<int>, clue: int, n: seq<int>, v: seq<int>)
    requires 0 <= clue < |clues| && |cs| == |clues| && 0 <= cs[clue]
    requires |n| == |clues| && n[..clue] == cs[..clue]
    requires Greedy(k, clues[clue..], cs[clue] + 1) == Some(n[clue..])
    requires |v| == |clues| && Placed(k, clues, v) && v[..clue] == cs[..clue] && cs[clue] < v[clue]
    requires LessEq(v, n)
    ensures v == n
  {
    var g := n[clue..];
    PlacedSuffix(k, clues, v, clue);
    GreedyLeftmost(k, clues[clue..], cs[clue] + 1, v[clue..]);
    LessEqPrefixed(cs[..clue], g, v[clue..]);
    assert v == cs[..clue] + v[clue..];
    assert n == cs[..clue] + g;
    LessEqAntisym(v, n);
  }

  /** Every arrangement up to the newly found placement `n` is listed once `n` is added (if it misses no set cell). */
  lemma {:induction false} AdvanceEnumerated(k: seq<Cell>, clues: seq<nat>, arrs: seq<seq<int>>, cs: seq<int>, clue: int, n: seq<int>)
    requires Enumerated(k, clues, arrs, cs, clue) && 0 <= clue
    requires 0 <= cs[clue] && |n| == |clues| && n[..clue] == cs[..clue] && cs[clue] < n[clue]
    requires Greedy(k, clues[clue..], cs[clue] + 1) == Some(n[clue..])
    ensures Enumerated(k, clues, if Missed(k, clues, n) then arrs else arrs + [n], n, |clues| - 1)
  {
    var arrs' := if Missed(k, clues, n) then arrs else arrs + [n];
    forall v | Arrangement(k, clues, v) && LessEq(v[..|clues|], n[..|clues|]) ensures v in arrs' {
      assert v[..|clues|] == v && n[..|clues|] == n;
      LessEqSplit(v, n, cs, clue);
      if !LessEq(v[..clue + 1], cs[..clue + 1]) {
        NextIsLeast(k, clues, cs, clue, n, v);
      }
    }
  }

  /**
   * Greedy placement found `n`, the next legal placement after `last` in
   * lexicographic order: every arrangement up to `n` is now listed, `n`
   * itself included when it misses no set cell.
   */
  lemma AdvanceStep(k: seq<Cell>, clues: seq<nat>, arrs: seq<seq<int>>, cs: seq<int>, last: seq<int>, clue: int, n: seq<int>)
    requires Enumerated(k, clues, arrs, cs, clue) && Listed(k, clues, arrs, last) && 0 <= clue
    requires |last| == |clues| && Placed(k, clues, last) && cs[..clue + 1] == last[..clue + 1]
    requires 0 <= cs[clue] && |n| == |clues| && n[..clue] == cs[..clue]
    requires Greedy(k, clues[clue..], cs[clue] + 1) == Some(n[clue..])
    ensures Placed(k, clues, n) && cs[clue] < n[clue]
    ensures var arrs' := if Missed(k, clues, n) then arrs else arrs + [n];
      Listed(k, clues, arrs', n) && Enumerated(k, clues, arrs', n, |clues| - 1)
  {
    AdvancePlaced(k, clues, cs, last, clue, n);
    ListedExtend(k, clues, arrs, last, n);
    AdvanceEnumerated(k, clues, arrs, cs, clue, n);
  }

  // ----- the votes tallied during enumeration -----

  /**
   * `l` is `l0` after the votes of `arrs`: every undone slot gained the number
   * of arrangements in `arrs` that cover it, and `slot_max` gained one per
   * arrangement; nothing else differs.
   */
  ghost predicate Tallied(l0: Line, l: Line, arrs: seq<seq<int>>) {
    && l.clues == l0.clues && l.clueTotal == l0.clueTotal && l.total == l0.total
    && l.updateNeeded == l0.updateNeeded
    && |l.slots| == |l0.slots| && l.slotMax == l0.slotMax + |arrs|
    && forall t :: 0 <= t < |l.slots| ==>
         l.slots[t] == VoteSlot(l0.slots[t], Count(arrs, l0.clues, t))
  }

  lemma TalliedNone(l: Line)
    ensures Tallied(l, l, [])
  {
  }

  /** Voting never changes which slots are done, nor their values, so the known cells stay the same. */
  lemma TalliedKnown(l0: Line, l: Line, arrs: seq<seq<int>>)
    requires Tallied(l0, l, arrs)
    ensures KnownCells(l.slots) == KnownCells(l0.slots)
  {
  }

  /** Casting the vote of one more legal placement extends the tally by that placement. */
  lemma {:induction false} TallyVote(l0: Line, l: Line, arrs: seq<seq<int>>, n: seq<int>)
    requires Tallied(l0, l, arrs) && |n| == |l0.clues| && Placed(KnownCells(l0.slots), l0.clues, n)
    ensures Tallied(l0, Voted(l, n), arrs + [n])
  {
    var arrs' := arrs + [n];
    assert arrs'[..|arrs'| - 1] == arrs;
    forall t | 0 <= t < |l.slots|
      ensures Voted(l, n).slots[t] == VoteSlot(l0.slots[t], Count(arrs', l0.clues, t))
    {
      BlockCountPlaced(KnownCells(l0.slots), l0.clues, n, |n|, t);
    }
  }
}
