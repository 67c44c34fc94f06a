/**
 * Lexicographic order on placement vectors (the `clue_start` values of one
 * line), and the measure that proves the anchor loop of the line solver
 * terminates: every step of that loop either advances the vector or retreats
 * the anchor clue, and both move the masked vector strictly forward.
 */
module Lex {

  /** `a` comes strictly before `b`: they agree on a prefix and then `a` is smaller. */
  ghost predicate Less(a: seq<int>, b: seq<int>) {
    exists k :: 0 <= k < |a| && k < |b| && a[..k] == b[..k] && a[k] < b[k]
  }

  ghost predicate LessEq(a: seq<int>, b: seq<int>) {
    a == b || Less(a, b)
  }

  /** Every vector of the list comes strictly before every later one. */
  ghost predicate StrictlySorted(xs: seq<seq<int>>) {
    forall i, j :: 0 <= i < j < |xs| ==> Less(xs[i], xs[j])
  }

  lemma LessAt(a: seq<int>, b: seq<int>, k: int)
    requires 0 <= k < |a| && k < |b| && a[..k] == b[..k] && a[k] < b[k]
    ensures Less(a, b)
  {
  }

  lemma LessIrreflexive(a: seq<int>)
    ensures !Less(a, a)
  {
  }

  lemma LessTrans(a: seq<int>, b: seq<int>, c: seq<int>)
    requires Less(a, b) && Less(b, c)
    ensures Less(a, c)
  {
    var k1 :| 0 <= k1 < |a| && k1 < |b| && a[..k1] == b[..k1] && a[k1] < b[k1];
    var k2 :| 0 <= k2 < |b| && k2 < |c| && b[..k2] == c[..k2] && b[k2] < c[k2];
    if k1 <= k2 {
      assert b[..k1] == b[..k2][..k1] == c[..k2][..k1] == c[..k1];
      if k1 < k2 {
        assert b[k1] == b[..k2][k1] == c[..k2][k1] == c[k1];
      }
      LessAt(a, c, k1);
    } else {
      assert a[..k2] == a[..k1][..k2] == b[..k1][..k2] == b[..k2];
      assert a[k2] == a[..k1][k2] == b[..k1][k2] == b[k2];
      LessAt(a, c, k2);
    }
  }

  lemma LessEqLessTrans(a: seq<int>, b: seq<int>, c: seq<int>)
    requires LessEq(a, b) && Less(b, c)
    ensures Less(a, c)
  {
    if a != b {
      LessTrans(a, b, c);
    }
  }

  lemma LessEqTrans(a: seq<int>, b: seq<int>, c: seq<int>)
    requires LessEq(a, b) && LessEq(b, c)
    ensures LessEq(a, c)
  {
    if a != b && b != c {
      LessTrans(a, b, c);
    }
  }

  lemma LessEqAntisym(a: seq<int>, b: seq<int>)
    requires LessEq(a, b) && LessEq(b, a)
    ensures a == b
  {
    if a != b {
      LessTrans(a, b, a);
      LessIrreflexive(a);
    }
  }

  /** A common prefix does not change the order of two vectors. */
  lemma {:induction false} LessEqPrefixed(p: seq<int>, a: seq<int>, b: seq<int>)
    requires LessEq(a, b)
    ensures LessEq(p + a, p + b)
  {
    if a != b {
      var k :| 0 <= k < |a| && k < |b| && a[..k] == b[..k] && a[k] < b[k];
      assert (p + a)[..|p| + k] == p + a[..k] && (p + b)[..|p| + k] == p + b[..k];
      assert (p + a)[|p| + k] == a[k] && (p + b)[|p| + k] == b[k];
      LessAt(p + a, p + b, |p| + k);
    }
  }

  /** Comparing two vectors by their heads first. */
  lemma {:induction false} LessEqCons(i: int, r: seq<int>, j: int, w: seq<int>)
    requires i < j || (i == j && LessEq(r, w))
    ensures LessEq([i] + r, [j] + w)
  {
    var a, b := [i] + r, [j] + w;
    if i < j {
      LessAt(a, b, 0);
    } else if r != w {
      var k :| 0 <= k < |r| && k < |w| && r[..k] == w[..k] && r[k] < w[k];
      assert a[..k + 1] == [i] + r[..k] && b[..k + 1] == [j] + w[..k];
      assert a[k + 1] == r[k] && b[k + 1] == w[k];
      LessAt(a, b, k + 1);
    }
  }

  /** A strictly smaller prefix decides the order of the whole vectors. */
  lemma LessOfPrefix(a: seq<int>, b: seq<int>, m: int)
    requires 0 <= m <= |a| && m <= |b| && Less(a[..m], b[..m])
    ensures Less(a, b)
  {
    var k :| 0 <= k < m && a[..m][..k] == b[..m][..k] && a[..m][k] < b[..m][k];
    assert a[..k] == a[..m][..k] && b[..k] == b[..m][..k];
    LessAt(a, b, k);
  }

  /**
   * If `v` is at most `u` and `u` agrees with `cs` before position `k` and is
   * larger at `k`, then `v` is at most `cs` up to and including `k`, or it
   * agrees with `cs` before `k` and is larger at `k`.
   */
  lemma {:induction false} LessEqSplit(v: seq<int>, u: seq<int>, cs: seq<int>, k: int)
    requires |v| == |u| && 0 <= k < |u| && k < |cs|
    requires u[..k] == cs[..k] && cs[k] < u[k]
    requires LessEq(v, u)
    ensures LessEq(v[..k + 1], cs[..k + 1]) || (v[..k] == cs[..k] && cs[k] < v[k])
  {
    if v == u {
      return;
    }
    var d :| 0 <= d < |v| && d < |u| && v[..d] == u[..d] && v[d] < u[d];
    if d < k {
      assert v[..d] == u[..k][..d] == cs[..k][..d] == cs[..d];
      assert u[d] == u[..k][d] == cs[..k][d] == cs[d];
      assert v[..k + 1][..d] == v[..d] && cs[..k + 1][..d] == cs[..d];
      LessAt(v[..k + 1], cs[..k + 1], d);
    } else {
      assert v[..k] == v[..d][..k] == u[..d][..k] == cs[..k];
      if v[k] <= cs[k] {
        if v[k] < cs[k] {
          LessAt(v[..k + 1], cs[..k + 1], k);
        } else {
          assert v[..k + 1] == cs[..k + 1];
        }
      }
    }
  }

  /**
   * One step of the anchor loop keeps the prefix before `k`, and either
   * keeps position `k` no higher (first case) or raises it (second case).
   */
  lemma {:induction false} PrefixStep(v: seq<int>, cs: seq<int>, k: int)
    requires 0 <= k < |v| && k < |cs|
    requires LessEq(v[..k], cs[..k])
    ensures LessEq(v[..k + 1], cs[..k + 1]) || (v[..k] == cs[..k] && cs[k] < v[k])
  {
    if v[..k] != cs[..k] {
      var d :| 0 <= d < k && v[..k][..d] == cs[..k][..d] && v[..k][d] < cs[..k][d];
      assert v[..k + 1][..d] == v[..k][..d] && cs[..k + 1][..d] == cs[..k][..d];
      LessAt(v[..k + 1], cs[..k + 1], d);
    } else if v[k] < cs[k] {
      assert v[..k + 1][..k] == v[..k] == cs[..k] == cs[..k + 1][..k];
      LessAt(v[..k + 1], cs[..k + 1], k);
    } else if v[k] == cs[k] {
      assert v[..k + 1] == cs[..k + 1];
    }
  }

  /** Two strictly sorted lists with the same members are the same list. */
  lemma {:induction false} SortedUnique(xs: seq<seq<int>>, ys: seq<seq<int>>)
    requires StrictlySorted(xs) && StrictlySorted(ys)
    requires forall v :: v in xs <==> v in ys
    ensures xs == ys
    decreases |xs|
  {
    if xs != [] {
      assert xs[0] in ys;
    }
    if ys != [] {
      assert ys[0] in xs;
    }
    if xs == [] {
      return;
    }
    var x, y := xs[0], ys[0];
    assert forall v :: v in xs ==> LessEq(x, v) by {
      forall v | v in xs ensures LessEq(x, v) {
        var i :| 0 <= i < |xs| && xs[i] == v;
      }
    }
    assert forall v :: v in ys ==> LessEq(y, v) by {
      forall v | v in ys ensures LessEq(y, v) {
        var i :| 0 <= i < |ys| && ys[i] == v;
      }
    }
    assert x in ys && y in xs;
    if x != y {
      LessTrans(x, y, x);
      LessIrreflexive(x);
    }
    forall v ensures v in xs[1..] <==> v in ys[1..] {
      if v in xs[1..] {
        var i :| 1 <= i < |xs| && xs[i] == v;
        LessIrreflexive(x);
        assert v != x;
        assert v in ys;
        var j :| 0 <= j < |ys| && ys[j] == v;
        assert j != 0;
      }
      if v in ys[1..] {
        var j :| 1 <= j < |ys| && ys[j] == v;
        LessIrreflexive(y);
        assert v != y;
        assert v in xs;
        var i :| 0 <= i < |xs| && xs[i] == v;
        assert i != 0;
      }
    }
    SortedUnique(xs[1..], ys[1..]);
    assert xs == [x] + xs[1..] && ys == [y] + ys[1..];
  }

  // ----- the termination measure of the anchor loop -----

  ghost predicate InRange(v: seq<int>, top: int) {
    forall i :: 0 <= i < |v| ==> 0 <= v[i] <= top
  }

  /** Every vector of length `n` whose entries lie in `[0, top]`. */
  ghost function Box(n: nat, top: nat): set<seq<int>>
  {
    if n == 0 then {[]} else set x, v | 0 <= x <= top && v in Box(n - 1, top) :: [x] + v
  }

  lemma {:induction false} InBox(v: seq<int>, top: nat)
    requires InRange(v, top)
    ensures v in Box(|v|, top)
    decreases |v|
  {
    if |v| > 0 {
      InBox(v[1..], top);
      assert v == [v[0]] + v[1..];
    }
  }

  /** The vectors of the box that still come after `m`: a finite set that shrinks as `m` advances. */
  ghost function Above(m: seq<int>, top: nat): set<seq<int>>
  {
    set v | v in Box(|m|, top) && Less(m, v)
  }

  lemma AboveShrinks(m: seq<int>, m': seq<int>, top: nat)
    requires |m| == |m'| && InRange(m', top) && Less(m, m')
    ensures Above(m', top) < Above(m, top)
  {
    forall v | v in Above(m', top) ensures v in Above(m, top) {
      LessTrans(m, m', v);
    }
    InBox(m', top);
    LessIrreflexive(m');
    assert m' in Above(m, top) - Above(m', top);
  }

  /** The vector with every position after `k` replaced by the largest value `top`. */
  ghost function Mask(cs: seq<int>, k: int, top: nat): (m: seq<int>)
    requires -1 <= k < |cs| && InRange(cs, top)
    ensures |m| == |cs| && InRange(m, top)
  {
    cs[..k + 1] + seq(|cs| - 1 - k, _ => top)
  }

  /** Retreating the anchor from `k` to `k - 1` shrinks the measure. */
  lemma Retreat(cs: seq<int>, cs': seq<int>, k: int, top: nat)
    requires |cs| == |cs'| && 0 <= k < |cs| && InRange(cs, top) && InRange(cs', top)
    requires cs'[..k] == cs[..k] && cs[k] < top
    ensures Above(Mask(cs', k - 1, top), top) < Above(Mask(cs, k, top), top)
  {
    var m, m' := Mask(cs, k, top), Mask(cs', k - 1, top);
    assert m[..k] == cs[..k] == m'[..k];
    assert m[k] == cs[k] && m'[k] == top;
    LessAt(m, m', k);
    AboveShrinks(m, m', top);
  }

  /** Advancing position `k` (and rewriting everything after it) shrinks the measure. */
  lemma Advance(cs: seq<int>, cs': seq<int>, k: int, top: nat)
    requires |cs| == |cs'| && 0 <= k < |cs| && InRange(cs, top) && InRange(cs', top)
    requires cs'[..k] == cs[..k] && cs[k] < cs'[k]
    ensures Above(Mask(cs', |cs| - 1, top), top) < Above(Mask(cs, k, top), top)
  {
    var m, m' := Mask(cs, k, top), Mask(cs', |cs| - 1, top);
    assert m[..k] == cs[..k] && m'[..k] == cs'[..k];
    assert m[k] == cs[k] && m'[k] == cs'[k];
    LessAt(m, m', k);
    AboveShrinks(m, m', top);
  }
}
