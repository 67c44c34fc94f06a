/**
 * The data model of one Nonogram line (a row or a column) and the meaning of
 * its clues: where a block may start, which clue placements are legal given
 * the cells already known, and the arrangements the line solver counts votes
 * over.
 */
module Lines {
  import opened Lex

  datatype Option<T> = None | Some(value: T)

  /**
   * One cell as one line sees it. While `done` is false, `value` counts the
   * arrangements that cover the cell; once done, 0 means clear and anything
   * else means set.
   */
  datatype Slot = Slot(done: bool, value: nat)

  /**
   * A row or a column: its clue lengths, their sum, its slots, how many of
   * them are done, whether a perpendicular resolution touched it since it was
   * last solved, and how many arrangements the last solve accepted.
   */
  datatype Line = Line(
    clues: seq<nat>,
    clueTotal: nat,
    slots: seq<Slot>,
    total: nat,
    updateNeeded: bool,
    slotMax: nat)

  /** What is known about a cell: nothing yet, set, or clear. */
  datatype Cell = Unknown | Filled | Empty

  predicate IsSet(s: Slot) {
    s.done && s.value > 0
  }

  predicate IsClear(s: Slot) {
    s.done && s.value == 0
  }

  /** A slot is exactly one of set, clear or undone. */
  lemma SlotKinds(s: Slot)
    ensures IsSet(s) || IsClear(s) || !s.done
    ensures !(IsSet(s) && IsClear(s)) && !(s.done && !IsSet(s) && !IsClear(s))
  {
  }

  /** What placement knows of a slot: only an undone slot is unknown. */
  function Known(s: Slot): (c: Cell)
    ensures (c == Unknown <==> !s.done) && (c == Filled <==> IsSet(s)) && (c == Empty <==> IsClear(s))
  {
    if IsSet(s) then Filled else if IsClear(s) then Empty else Unknown
  }

  function KnownCells(slots: seq<Slot>): (k: seq<Cell>)
    ensures |k| == |slots|
  {
    seq(|slots|, i requires 0 <= i < |slots| => Known(slots[i]))
  }

  function Sum(xs: seq<nat>): nat {
    if xs == [] then 0 else Sum(xs[..|xs| - 1]) + xs[|xs| - 1]
  }

  /** The number of done slots. */
  function DoneCount(slots: seq<Slot>): nat {
    if slots == [] then 0 else DoneCount(slots[..|slots| - 1]) + (if slots[|slots| - 1].done then 1 else 0)
  }

  // ----- legal placements -----

  /**
   * A block of length `len` may start at `i`: it starts on the line, ends
   * inside it, covers no clear cell, and is not directly followed by a set cell.
   */
  ghost predicate Fits(k: seq<Cell>, len: nat, i: int) {
    && 0 <= i < |k|
    && i + len <= |k|
    && (forall j :: i <= j < i + len ==> k[j] != Empty)
    && (i + len < |k| ==> k[i + len] != Filled)
  }

  /** Block `c + 1` starts at least one gap cell after block `c` ends. */
  ghost predicate Separated(clues: seq<nat>, v: seq<int>, c: int) {
    0 <= c && c + 1 < |v| && c < |clues| && v[c] + clues[c] + 1 <= v[c + 1]
  }

  /** `v` places the first `|v|` clues: each block fits, and consecutive blocks have a gap. */
  ghost predicate Placed(k: seq<Cell>, clues: seq<nat>, v: seq<int>) {
    && |v| <= |clues|
    && (forall c :: 0 <= c < |v| ==> Fits(k, clues[c], v[c]))
    && (forall c :: 0 <= c < |v| - 1 ==> Separated(clues, v, c))
  }

  /** Some block among the first `n` covers cell `s`. */
  ghost predicate CoveredBelow(clues: seq<nat>, v: seq<int>, n: int, s: int) {
    exists c :: 0 <= c < n && c < |v| && c < |clues| && v[c] <= s < v[c] + clues[c]
  }

  ghost predicate Covered(clues: seq<nat>, v: seq<int>, s: int) {
    CoveredBelow(clues, v, |v|, s)
  }

  /** Some cell known to be set lies outside every block. */
  ghost predicate Missed(k: seq<Cell>, clues: seq<nat>, v: seq<int>) {
    exists s :: 0 <= s < |k| && k[s] == Filled && !Covered(clues, v, s)
  }

  /** A placement of all clues that agrees with every known cell. */
  ghost predicate Arrangement(k: seq<Cell>, clues: seq<nat>, v: seq<int>) {
    |v| == |clues| && Placed(k, clues, v) && !Missed(k, clues, v)
  }

  /** The earliest start at or after `pos` where a block of length `len` fits. */
  ghost function FirstFit(k: seq<Cell>, len: nat, pos: nat): Option<nat>
    decreases |k| - pos
  {
    if pos >= |k| then None
    else if Fits(k, len, pos) then Some(pos)
    else FirstFit(k, len, pos + 1)
  }

  /** The first fit is a fit, and nothing before it (from `pos` on) fits; with no first fit, nothing fits. */
  lemma {:induction false} FirstFitSpec(k: seq<Cell>, len: nat, pos: nat)
    ensures var r := FirstFit(k, len, pos);
      && (r.Some? ==> pos <= r.value && Fits(k, len, r.value))
      && (r.Some? ==> forall j :: pos <= j < r.value ==> !Fits(k, len, j))
      && (r.None? ==> forall j :: pos <= j ==> !Fits(k, len, j))
    decreases |k| - pos
  {
    if pos < |k| && !Fits(k, len, pos) {
      FirstFitSpec(k, len, pos + 1);
    }
  }

  /**
   * Places the clues `cl` left to right, each at the earliest start that fits
   * at or after the end of the previous block plus one gap cell; no backtracking.
   */
  ghost function Greedy(k: seq<Cell>, cl: seq<nat>, pos: nat): Option<seq<int>>
    decreases |cl|
  {
    if cl == [] then Some([])
    else match FirstFit(k, cl[0], pos)
      case None => None
      case Some(i) =>
        match Greedy(k, cl[1..], i + cl[0] + 1)
        case None => None
        case Some(rest) => Some([i] + rest)
  }

  /** A greedy placement places every clue legally, starting at or after `pos`. */
  lemma {:induction false} GreedyPlaces(k: seq<Cell>, cl: seq<nat>, pos: nat)
    requires Greedy(k, cl, pos).Some?
    ensures var g := Greedy(k, cl, pos).value;
      |g| == |cl| && Placed(k, cl, g) && (|g| > 0 ==> pos <= g[0])
    decreases |cl|
  {
    if cl != [] {
      FirstFitSpec(k, cl[0], pos);
      var i := FirstFit(k, cl[0], pos).value;
      var next := i + cl[0] + 1;
      GreedyPlaces(k, cl[1..], next);
      var rest := Greedy(k, cl[1..], next).value;
      var g := [i] + rest;
      assert forall c :: 1 <= c < |g| ==> g[c] == rest[c - 1] && cl[c] == cl[1..][c - 1];
      assert forall c :: 0 <= c < |g| ==> Fits(k, cl[c], g[c]) by {
        forall c | 0 <= c < |g| ensures Fits(k, cl[c], g[c]) {
          if c > 0 {
            assert Fits(k, cl[1..][c - 1], rest[c - 1]);
          }
        }
      }
      assert forall c :: 0 <= c < |g| - 1 ==> Separated(cl, g, c) by {
        forall c | 0 <= c < |g| - 1 ensures Separated(cl, g, c) {
          if c > 0 {
            assert Separated(cl[1..], rest, c - 1);
          }
          assert Separated(cl, g, c);
        }
      }
    }
  }

  /**
   * Greedy placement is complete and leftmost: if any legal placement of `cl`
   * starts at or after `pos`, greedy placement succeeds and comes no later in
   * lexicographic order.
   */
  lemma {:induction false} GreedyLeftmost(k: seq<Cell>, cl: seq<nat>, pos: nat, v: seq<int>)
    requires |v| == |cl| && Placed(k, cl, v) && (|v| > 0 ==> pos <= v[0])
    ensures Greedy(k, cl, pos).Some?
    ensures LessEq(Greedy(k, cl, pos).value, v)
    decreases |cl|
  {
    if cl != [] {
      assert Fits(k, cl[0], v[0]);
      FirstFitSpec(k, cl[0], pos);
      var i := FirstFit(k, cl[0], pos).value;
      assert i <= v[0];
      var next := i + cl[0] + 1;
      var w := v[1..];
      assert Placed(k, cl[1..], w) by {
        assert forall c :: 0 <= c < |w| ==> w[c] == v[c + 1] && cl[1..][c] == cl[c + 1];
        forall c | 0 <= c < |w| - 1 ensures Separated(cl[1..], w, c) {
          assert Separated(cl, v, c + 1);
        }
      }
      if |w| > 0 {
        assert Separated(cl, v, 0);
      }
      GreedyLeftmost(k, cl[1..], next, w);
      var rest := Greedy(k, cl[1..], next).value;
      if i < v[0] {
        assert |rest| == |w| by {
          GreedyPlaces(k, cl[1..], next);
        }
      }
      LessEqCons(i, rest, v[0], w);
      assert v == [v[0]] + w;
    }
  }

  /** Blocks of a legal placement come in order, each ending before the next one starts. */
  lemma {:induction false} PlacedOrdered(k: seq<Cell>, clues: seq<nat>, v: seq<int>, c: int, d: int)
    requires Placed(k, clues, v) && 0 <= c < d < |v|
    ensures v[c] + clues[c] < v[d]
    decreases d - c
  {
    assert Separated(clues, v, c);
    if c + 1 < d {
      PlacedOrdered(k, clues, v, c + 1, d);
    }
  }

  /** Joining a legal prefix and a legal placement of the remaining clues after a gap. */
  lemma PlacedJoin(k: seq<Cell>, clues: seq<nat>, p: seq<int>, g: seq<int>)
    requires Placed(k, clues, p) && Placed(k, clues[|p|..], g) && |p| + |g| <= |clues|
    requires |p| > 0 && |g| > 0 ==> p[|p| - 1] + clues[|p| - 1] + 1 <= g[0]
    ensures Placed(k, clues, p + g)
  {
    JoinFits(k, clues, p, g);
    JoinSeparated(k, clues, p, g);
  }

  lemma JoinFits(k: seq<Cell>, clues: seq<nat>, p: seq<int>, g: seq<int>)
    requires Placed(k, clues, p) && Placed(k, clues[|p|..], g) && |p| + |g| <= |clues|
    ensures forall c :: 0 <= c < |p + g| ==> Fits(k, clues[c], (p + g)[c])
  {
    var v, m := p + g, |p|;
    var rest := clues[m..];
    forall c | 0 <= c < |v| ensures Fits(k, clues[c], v[c]) {
      if c >= m {
        assert Fits(k, rest[c - m], g[c - m]);
        assert v[c] == g[c - m] && rest[c - m] == clues[c];
      } else {
        assert Fits(k, clues[c], p[c]);
        assert v[c] == p[c];
      }
    }
  }

  lemma JoinSeparated(k: seq<Cell>, clues: seq<nat>, p: seq<int>, g: seq<int>)
    requires Placed(k, clues, p) && Placed(k, clues[|p|..], g) && |p| + |g| <= |clues|
    requires |p| > 0 && |g| > 0 ==> p[|p| - 1] + clues[|p| - 1] + 1 <= g[0]
    ensures forall c :: 0 <= c < |p + g| - 1 ==> Separated(clues, p + g, c)
  {
    var v, m := p + g, |p|;
    var rest := clues[m..];
    forall c | 0 <= c < |v| - 1 ensures Separated(clues, v, c) {
      if c >= m {
        assert Separated(rest, g, c - m);
        assert v[c] == g[c - m] && v[c + 1] == g[c - m + 1] && rest[c - m] == clues[c];
      } else if c + 1 < m {
        assert Separated(clues, p, c);
        assert v[c] == p[c] && v[c + 1] == p[c + 1];
      } else {
        assert v[c] == p[m - 1] && v[c + 1] == g[0];
      }
    }
  }

  /** The placement of the clues from `c` on is legal when the whole is. */
  lemma PlacedSuffix(k: seq<Cell>, clues: seq<nat>, v: seq<int>, c: int)
    requires Placed(k, clues, v) && |v| == |clues| && 0 <= c <= |v|
    ensures Placed(k, clues[c..], v[c..])
  {
    var w := v[c..];
    assert forall d :: 0 <= d < |w| ==> w[d] == v[c + d] && clues[c..][d] == clues[c + d];
    forall d | 0 <= d < |w| - 1 ensures Separated(clues[c..], w, d) {
      assert Separated(clues, v, c + d);
    }
  }

  // ----- votes -----

  /** The number of arrangements in `arrs` that cover cell `s`. */
  ghost function Count(arrs: seq<seq<int>>, clues: seq<nat>, s: int): (n: nat)
    ensures n <= |arrs|
  {
    if arrs == [] then 0
    else Count(arrs[..|arrs| - 1], clues, s) + (if Covered(clues, arrs[|arrs| - 1], s) then 1 else 0)
  }

  lemma {:induction false} CountAll(arrs: seq<seq<int>>, clues: seq<nat>, s: int)
    ensures Count(arrs, clues, s) == |arrs| <==> forall w :: w in arrs ==> Covered(clues, w, s)
  {
    if arrs != [] {
      var init := arrs[..|arrs| - 1];
      CountAll(init, clues, s);
      assert arrs == init + [arrs[|arrs| - 1]];
      if Count(arrs, clues, s) != |arrs| {
        if Count(init, clues, s) != |init| {
          var w :| w in init && !Covered(clues, w, s);
          assert w in arrs;
        }
      }
    }
  }

  lemma {:induction false} CountNone(arrs: seq<seq<int>>, clues: seq<nat>, s: int)
    ensures Count(arrs, clues, s) == 0 <==> forall w :: w in arrs ==> !Covered(clues, w, s)
  {
    if arrs != [] {
      var init := arrs[..|arrs| - 1];
      CountNone(init, clues, s);
      assert arrs == init + [arrs[|arrs| - 1]];
      if Count(arrs, clues, s) != 0 {
        if Count(init, clues, s) != 0 {
          var w :| w in init && Covered(clues, w, s);
          assert w in arrs;
        }
      }
    }
  }

  /** `arrs` lists every arrangement of the line, each exactly once, in lexicographic order. */
  ghost predicate AllArrangements(k: seq<Cell>, clues: seq<nat>, arrs: seq<seq<int>>) {
    && (forall v :: v in arrs ==> Arrangement(k, clues, v))
    && (forall v :: Arrangement(k, clues, v) ==> v in arrs)
    && StrictlySorted(arrs)
  }

  /**
   * How the line solver resolves a slot once the votes are in: an undone slot
   * whose vote count equals the number of accepted arrangements, or is zero,
   * becomes done with that count as its value; any other slot is left as it is.
   */
  function Resolve(s: Slot, slotMax: nat): Slot {
    if !s.done && (s.value == slotMax || s.value == 0) then Slot(true, s.value) else s
  }

  /**
   * What resolution means: an undone slot becomes set exactly when every
   * arrangement of the line covers it (and there is one), and clear exactly
   * when no arrangement covers it; a slot left undone has a vote count
   * strictly between 0 and the number of arrangements.
   */
  lemma ResolveMeaning(k: seq<Cell>, clues: seq<nat>, arrs: seq<seq<int>>, i: int)
    requires AllArrangements(k, clues, arrs)
    ensures var r := Resolve(Slot(false, Count(arrs, clues, i)), |arrs|);
      && (IsSet(r) <==> (exists v :: Arrangement(k, clues, v)) && forall v :: Arrangement(k, clues, v) ==> Covered(clues, v, i))
      && (IsClear(r) <==> forall v :: Arrangement(k, clues, v) ==> !Covered(clues, v, i))
      && (!r.done ==> 0 < r.value < |arrs|)
  {
    CountAll(arrs, clues, i);
    CountNone(arrs, clues, i);
    if arrs != [] {
      assert arrs[0] in arrs;
    }
  }

  /** The clues can be placed at all (ignoring set cells a placement might leave uncovered). */
  ghost predicate Placeable(k: seq<Cell>, clues: seq<nat>) {
    exists v :: |v| == |clues| && Placed(k, clues, v)
  }

  /** Greedy placement from the start of the line succeeds exactly when the clues can be placed. */
  lemma GreedyIffPlaceable(k: seq<Cell>, clues: seq<nat>)
    ensures Greedy(k, clues, 0).Some? <==> Placeable(k, clues)
  {
    if Greedy(k, clues, 0).Some? {
      GreedyPlaces(k, clues, 0);
    }
    if Placeable(k, clues) {
      var v :| |v| == |clues| && Placed(k, clues, v);
      if |v| > 0 {
        assert Fits(k, clues[0], v[0]);
      }
      GreedyLeftmost(k, clues, 0, v);
    }
  }

  /** A prefix of a legal placement is legal. */
  lemma PlacedPrefix(k: seq<Cell>, clues: seq<nat>, v: seq<int>, m: int)
    requires Placed(k, clues, v) && 0 <= m <= |v|
    ensures Placed(k, clues, v[..m])
  {
    var w := v[..m];
    forall c | 0 <= c < |w| - 1 ensures Separated(clues, w, c) {
      assert Separated(clues, v, c);
    }
  }
}
