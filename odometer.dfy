/**
 * Enumeration of the index vectors that a list of ranges (one per dimension)
 * addresses, in odometer order: the last dimension moves fastest, and a
 * dimension that passes its upper bound goes back to its lower bound and
 * carries into the dimension before it. Singleton dimensions never move.
 */
module Odometer {
  import opened Ranges
  import opened SeqFacts

  /**
   * One step of the odometer. The flag is false when the carry passed the
   * first dimension, that is when the vector was the last one.
   */
  function Next(rs: seq<IntegerEntity>, v: seq<int>): (r: (bool, seq<int>))
    requires |v| == |rs|
    ensures |r.1| == |rs|
  {
    if |v| == 0 then (false, [])
    else
      var n := |v| - 1;
      if rs[n].Interval? && v[n] + 1 <= rs[n].sup then (true, v[..n] + [v[n] + 1])
      else
        var p := Next(rs[..n], v[..n]);
        (p.0, p.1 + [if rs[n].Singleton? then v[n] else rs[n].inf])
  }

  /** The coordinates after a carry: a singleton keeps its value, an interval goes back to its lower bound. */
  function Reset(rs: seq<IntegerEntity>, v: seq<int>): (w: seq<int>)
    requires |v| == |rs|
    ensures |w| == |rs|
  {
    seq(|v|, k requires 0 <= k < |v| => if rs[k].Singleton? then v[k] else rs[k].inf)
  }

  /** When no coordinate can move, a step resets them all and reports that there is no next vector. */
  lemma {:induction false} NextWraps(rs: seq<IntegerEntity>, v: seq<int>)
    requires |v| == |rs|
    requires forall k :: 0 <= k < |v| ==> rs[k].Singleton? || v[k] + 1 > rs[k].sup
    ensures Next(rs, v) == (false, Reset(rs, v))
  {
    if |v| > 0 {
      var n := |v| - 1;
      NextWraps(rs[..n], v[..n]);
      ResetSnoc(rs, v);
    }
  }

  /**
   * When coordinate j can move and none after it can, a step moves j up by
   * one and resets the coordinates after it.
   */
  lemma {:induction false} NextBumps(rs: seq<IntegerEntity>, v: seq<int>, j: int)
    requires |v| == |rs| && 0 <= j < |v|
    requires forall k :: j < k < |v| ==> rs[k].Singleton? || v[k] + 1 > rs[k].sup
    requires rs[j].Interval? && v[j] + 1 <= rs[j].sup
    ensures Next(rs, v) == (true, v[..j] + [v[j] + 1] + Reset(rs[j + 1..], v[j + 1..]))
  {
    var n := |v| - 1;
    if j < n {
      var x := if rs[n].Singleton? then v[n] else rs[n].inf;
      var p := Next(rs[..n], v[..n]);
      NextBumps(rs[..n], v[..n], j);
      var rt, vt := rs[j + 1..], v[j + 1..];
      assert p.1 == v[..j] + [v[j] + 1] + Reset(rt[..|rt| - 1], vt[..|vt| - 1]) by {
        assert rs[..n][j + 1..] == rt[..|rt| - 1] && v[..n][j + 1..] == vt[..|vt| - 1];
        assert v[..n][..j] == v[..j];
      }
      ResetSnoc(rt, vt);
      assert p.1 + [x] == v[..j] + [v[j] + 1] + (Reset(rt[..|rt| - 1], vt[..|vt| - 1]) + [x]);
    } else {
      assert Next(rs, v) == (true, v[..n] + [v[n] + 1]);
      assert Reset(rs[j + 1..], v[j + 1..]) == [];
      assert v[..j] + [v[j] + 1] + [] == v[..n] + [v[n] + 1];
    }
  }

  lemma ResetSnoc(rs: seq<IntegerEntity>, v: seq<int>)
    requires |v| == |rs| > 0
    ensures Reset(rs[..|v| - 1], v[..|v| - 1]) + [if rs[|v| - 1].Singleton? then v[|v| - 1] else rs[|v| - 1].inf] == Reset(rs, v)
  {
  }

  /**
   * A step in progress from the last coordinate down to coordinate j: the
   * coordinates up to j in cur are still those of v, and the step of v is the
   * step of those coordinates followed by the coordinates already carried in cur.
   */
  ghost predicate Stepping(rs: seq<IntegerEntity>, v: seq<int>, j: int, cur: seq<int>) {
    |v| == |rs| == |cur| && -1 <= j < |v| && cur[..j + 1] == v[..j + 1]
    && Next(rs, v) == (Next(rs[..j + 1], v[..j + 1]).0, Next(rs[..j + 1], v[..j + 1]).1 + cur[j + 1..])
  }

  /** Before any coordinate is visited, the whole vector is still to be stepped. */
  lemma StepBegin(rs: seq<IntegerEntity>, v: seq<int>, n: nat)
    requires |v| == |rs| == n
    ensures Stepping(rs, v, n - 1, v)
  {
    assert rs[..n] == rs;
    assert v[..n] == v;
    assert v[n..] == [];
    assert Next(rs, v).1 + [] == Next(rs, v).1;
  }

  /** The step of the first j + 1 coordinates, where coordinate j cannot move. */
  lemma NextCarriesPrefix(rs: seq<IntegerEntity>, v: seq<int>, j: nat, y: int)
    requires |v| == |rs| && j < |v| && !(rs[j].Interval? && v[j] + 1 <= rs[j].sup)
    requires y == if rs[j].Singleton? then v[j] else rs[j].inf
    ensures Next(rs[..j + 1], v[..j + 1]) == (Next(rs[..j], v[..j]).0, Next(rs[..j], v[..j]).1 + [y])
  {
    assert rs[..j + 1][..j] == rs[..j];
    assert v[..j + 1][..j] == v[..j];
  }

  /** The step of the first j + 1 coordinates, where coordinate j moves up to x. */
  lemma NextMovesPrefix(rs: seq<IntegerEntity>, v: seq<int>, j: nat, x: int)
    requires |v| == |rs| && j < |v| && rs[j].Interval? && x == v[j] + 1 <= rs[j].sup
    ensures Next(rs[..j + 1], v[..j + 1]) == (true, v[..j] + [x])
  {
    assert v[..j + 1][..j] == v[..j];
  }

  /** A singleton coordinate is passed over. */
  lemma StepSkips(rs: seq<IntegerEntity>, v: seq<int>, j: nat, cur: seq<int>)
    requires Stepping(rs, v, j, cur) && rs[j].Singleton?
    ensures Stepping(rs, v, j - 1, cur)
  {
    PrefixAgree(cur, v, j);
    NextCarriesPrefix(rs, v, j, v[j]);
    SliceSplit(cur, j);
    AppendAssoc(Next(rs[..j], v[..j]).1, [v[j]], cur[j + 1..]);
  }

  /** An interval coordinate that passes its upper bound goes back to its lower bound and carries. */
  lemma StepCarries(rs: seq<IntegerEntity>, v: seq<int>, j: nat, cur: seq<int>, x: int)
    requires Stepping(rs, v, j, cur) && rs[j].Interval? && x == cur[j] + 1 > rs[j].sup
    ensures Stepping(rs, v, j - 1, cur[j := rs[j].inf])
  {
    PrefixAgree(cur, v, j);
    NextCarriesPrefix(rs, v, j, rs[j].inf);
    UpdateSlices(cur, j, rs[j].inf);
    AppendAssoc(Next(rs[..j], v[..j]).1, [rs[j].inf], cur[j + 1..]);
  }

  /** An interval coordinate that stays within its upper bound moves up to x, and the step stops. */
  lemma StepStops(rs: seq<IntegerEntity>, v: seq<int>, j: nat, cur: seq<int>, x: int)
    requires Stepping(rs, v, j, cur) && rs[j].Interval? && x == cur[j] + 1 <= rs[j].sup
    ensures Next(rs, v) == (true, cur[j := x])
  {
    PrefixAgree(cur, v, j);
    NextMovesPrefix(rs, v, j, x);
    UpdateSplit(cur, j, x);
  }

  /** With every coordinate carried, the step reports no next vector. */
  lemma StepEnds(rs: seq<IntegerEntity>, v: seq<int>, cur: seq<int>)
    requires Stepping(rs, v, -1, cur)
    ensures Next(rs, v) == (false, cur)
  {
    assert |v[..0]| == 0;
    assert Next(rs[..0], v[..0]) == (false, []);
    assert cur[0..] == cur;
    assert [] + cur == cur;
  }

  /** The first vector: the smallest index of every dimension. */
  function Smallest(rs: seq<IntegerEntity>): (v: seq<int>)
    ensures |v| == |rs|
  {
    seq(|rs|, d requires 0 <= d < |rs| => rs[d].Smallest())
  }

  /** Number of vectors addressed: the product of the widths. */
  function Count(rs: seq<IntegerEntity>): int {
    if |rs| == 0 then 1 else Count(rs[..|rs| - 1]) * rs[|rs| - 1].Width()
  }

  /** v belongs to the Cartesian product of the ranges. */
  predicate InProduct(rs: seq<IntegerEntity>, v: seq<int>) {
    |v| == |rs| && forall d :: 0 <= d < |v| ==> rs[d].Contains(v[d])
  }

  /** Every vector of ps, in order, followed by every index of r in ascending order. */
  function Extend(ps: seq<seq<int>>, r: IntegerEntity): seq<seq<int>> {
    if |ps| == 0 then []
    else seq(r.Width(), k requires 0 <= k < r.Width() => ps[0] + [r.Smallest() + k]) + Extend(ps[1..], r)
  }

  /** The vectors addressed by the ranges, in odometer order. */
  function Enumerate(rs: seq<IntegerEntity>): seq<seq<int>> {
    if |rs| == 0 then [[]] else Extend(Enumerate(rs[..|rs| - 1]), rs[|rs| - 1])
  }

  ghost predicate Distinct(es: seq<seq<int>>) {
    forall i, j :: 0 <= i < j < |es| ==> es[i] != es[j]
  }

  /** Every vector of es has one coordinate per range, and each one steps to the next. */
  ghost predicate Chained(rs: seq<IntegerEntity>, es: seq<seq<int>>) {
    && (forall k :: 0 <= k < |es| ==> |es[k]| == |rs|)
    && (forall k :: 0 <= k < |es| - 1 ==> Next(rs, es[k]) == (true, es[k + 1]))
  }

  lemma {:induction false} ExtendLength(ps: seq<seq<int>>, r: IntegerEntity)
    ensures |Extend(ps, r)| == |ps| * r.Width()
  {
    if |ps| > 0 {
      ExtendLength(ps[1..], r);
      assert |ps| * r.Width() == r.Width() + (|ps| - 1) * r.Width();
    }
  }

  /** The first vector of ps, followed by every index of r. */
  function Block(p: seq<int>, r: IntegerEntity): (b: seq<seq<int>>)
    ensures |b| == r.Width()
  {
    seq(r.Width(), k requires 0 <= k < r.Width() => p + [r.Smallest() + k])
  }

  lemma ExtendUnfold(ps: seq<seq<int>>, r: IntegerEntity)
    requires |ps| > 0
    ensures Extend(ps, r) == Block(ps[0], r) + Extend(ps[1..], r)
  {
  }

  lemma BlockMember(p: seq<int>, r: IntegerEntity, w: seq<int>)
    ensures w in Block(p, r) <==> |w| > 0 && w[..|w| - 1] == p && r.Contains(w[|w| - 1])
  {
    var b := Block(p, r);
    if w in b {
      var k :| 0 <= k < |b| && b[k] == w;
      assert w[..|w| - 1] == p;
    }
    if |w| > 0 && w[..|w| - 1] == p && r.Contains(w[|w| - 1]) {
      var k := w[|w| - 1] - r.Smallest();
      assert w == b[k];
    }
  }

  lemma {:induction false} ExtendMember(ps: seq<seq<int>>, r: IntegerEntity, w: seq<int>)
    ensures w in Extend(ps, r) <==> |w| > 0 && w[..|w| - 1] in ps && r.Contains(w[|w| - 1])
  {
    if |ps| > 0 {
      ExtendUnfold(ps, r);
      ExtendMember(ps[1..], r, w);
      BlockMember(ps[0], r, w);
      assert w in Extend(ps, r) <==> w in Block(ps[0], r) || w in Extend(ps[1..], r);
      if |w| > 0 {
        assert w[..|w| - 1] in ps <==> w[..|w| - 1] == ps[0] || w[..|w| - 1] in ps[1..] by {
          assert ps == [ps[0]] + ps[1..];
        }
      }
    }
  }

  lemma {:induction false} ExtendDistinct(ps: seq<seq<int>>, r: IntegerEntity)
    requires Distinct(ps)
    ensures Distinct(Extend(ps, r))
  {
    if |ps| > 0 {
      var block := Block(ps[0], r);
      var rest := Extend(ps[1..], r);
      ExtendDistinct(ps[1..], r);
      var all := Extend(ps, r);
      ExtendUnfold(ps, r);
      forall i, j | 0 <= i < j < |all| ensures all[i] != all[j] {
        if j < |block| {
          assert all[i][|ps[0]|] != all[j][|ps[0]|];
        } else if i < |block| {
          CrossBlock(ps, r, all[i], j - |block|);
        } else {
          assert all[i] == rest[i - |block|] && all[j] == rest[j - |block|];
        }
      }
    }
  }

  /** A vector of the first block never reappears after it. */
  lemma CrossBlock(ps: seq<seq<int>>, r: IntegerEntity, v: seq<int>, m: int)
    requires Distinct(ps) && |ps| > 0 && v in Block(ps[0], r)
    requires 0 <= m < |Extend(ps[1..], r)|
    ensures v != Extend(ps[1..], r)[m]
  {
    var w := Extend(ps[1..], r)[m];
    ExtendMember(ps[1..], r, w);
    BlockMember(ps[0], r, v);
  }

  /** Stepping from p + [x] where x is below the upper bound of r: only the last coordinate moves, to y. */
  lemma NextLastMoves(rs: seq<IntegerEntity>, r: IntegerEntity, p: seq<int>, x: int, y: int)
    requires |p| == |rs| && r.Interval? && y == x + 1 <= r.sup
    ensures Next(rs + [r], p + [x]) == (true, p + [y])
  {
    var v := p + [x];
    assert v[..|p|] == p;
    assert v[|p|] == x;
    assert (rs + [r])[|p|] == r;
  }

  /** A last coordinate that cannot move is reset and carries into the ones before it. */
  lemma NextCarriesLast(rs: seq<IntegerEntity>, v: seq<int>)
    requires |v| == |rs| > 0
    requires !(rs[|v| - 1].Interval? && v[|v| - 1] + 1 <= rs[|v| - 1].sup)
    ensures Next(rs, v) ==
      (var p := Next(rs[..|v| - 1], v[..|v| - 1]);
       (p.0, p.1 + [if rs[|v| - 1].Singleton? then v[|v| - 1] else rs[|v| - 1].inf]))
  {
  }

  /** Stepping from p + [x] where x is the last index of r: it wraps, and the carry steps p. */
  lemma NextLastWraps(rs: seq<IntegerEntity>, r: IntegerEntity, p: seq<int>)
    requires |p| == |rs|
    ensures Next(rs + [r], p + [r.Smallest() + r.Width() - 1]) == (Next(rs, p).0, Next(rs, p).1 + [r.Smallest()])
  {
    var v := p + [r.Smallest() + r.Width() - 1];
    var n := |p|;
    assert (rs + [r])[..n] == rs && (rs + [r])[n] == r && v[..n] == p;
    assert v[n] == r.Smallest() + r.Width() - 1;
    NextCarriesLast(rs + [r], v);
  }

  /** Two chained runs make one when the last vector of the first steps to the first vector of the second. */
  lemma ChainedJoin(rs: seq<IntegerEntity>, a: seq<seq<int>>, b: seq<seq<int>>)
    requires Chained(rs, a) && Chained(rs, b) && |a| > 0 && |b| > 0
    requires Next(rs, a[|a| - 1]) == (true, b[0])
    ensures Chained(rs, a + b)
  {
    var ab := a + b;
    forall k | 0 <= k < |ab| - 1 ensures Next(rs, ab[k]) == (true, ab[k + 1]) {
      if k >= |a| {
        assert ab[k] == b[k - |a|] && ab[k + 1] == b[k + 1 - |a|];
      }
    }
  }

  /** The block of p is chained when p has one coordinate per range. */
  lemma BlockChained(rs: seq<IntegerEntity>, r: IntegerEntity, p: seq<int>)
    requires |p| == |rs|
    ensures Chained(rs + [r], Block(p, r))
  {
    var b := Block(p, r);
    forall k | 0 <= k < |b| - 1 ensures Next(rs + [r], b[k]) == (true, b[k + 1]) {
      NextLastMoves(rs, r, p, r.Smallest() + k, r.Smallest() + (k + 1));
    }
  }

  lemma {:induction false} ExtendChained(rs: seq<IntegerEntity>, r: IntegerEntity, ps: seq<seq<int>>)
    requires |ps| > 0 && Chained(rs, ps)
    ensures Chained(rs + [r], Extend(ps, r))
    ensures |Extend(ps, r)| > 0
    ensures Extend(ps, r)[0] == ps[0] + [r.Smallest()]
    ensures Extend(ps, r)[|Extend(ps, r)| - 1] == ps[|ps| - 1] + [r.Smallest() + r.Width() - 1]
  {
    var block := Block(ps[0], r);
    var rest := Extend(ps[1..], r);
    ExtendUnfold(ps, r);
    BlockChained(rs, r, ps[0]);
    if |ps| == 1 {
      assert rest == [];
      assert Extend(ps, r) == block;
    } else {
      var tail := ps[1..];
      assert Chained(rs, tail) by {
        forall k | 0 <= k < |tail| - 1 ensures Next(rs, tail[k]) == (true, tail[k + 1]) {
          assert tail[k] == ps[k + 1] && tail[k + 1] == ps[k + 2];
        }
      }
      ExtendChained(rs, r, tail);
      NextLastWraps(rs, r, ps[0]);
      assert Next(rs, ps[0]) == (true, ps[1]);
      ChainedJoin(rs + [r], block, rest);
    }
  }

  /**
   * The odometer walks exactly the enumeration: it starts at the smallest
   * vector, steps from each vector to the next one, and after the last one it
   * reports the end and is back at the smallest vector.
   */
  lemma {:induction false} EnumerateWalk(rs: seq<IntegerEntity>)
    ensures |Enumerate(rs)| > 0
    ensures Enumerate(rs)[0] == Smallest(rs)
    ensures Chained(rs, Enumerate(rs))
    ensures |Enumerate(rs)[|Enumerate(rs)| - 1]| == |rs|
    ensures Next(rs, Enumerate(rs)[|Enumerate(rs)| - 1]) == (false, Smallest(rs))
  {
    if |rs| > 0 {
      var n := |rs| - 1;
      var ps := Enumerate(rs[..n]);
      EnumerateWalk(rs[..n]);
      assert rs == rs[..n] + [rs[n]];
      ExtendChained(rs[..n], rs[n], ps);
      NextLastWraps(rs[..n], rs[n], ps[|ps| - 1]);
      assert Smallest(rs) == Smallest(rs[..n]) + [rs[n].Smallest()];
    }
  }

  /** The enumeration starts at the smallest vector, and each of its vectors has one coordinate per range. */
  lemma EnumerateStart(rs: seq<IntegerEntity>)
    ensures |Enumerate(rs)| > 0 && Enumerate(rs)[0] == Smallest(rs)
    ensures forall k :: 0 <= k < |Enumerate(rs)| ==> |Enumerate(rs)[k]| == |rs|
  {
    EnumerateWalk(rs);
  }

  /**
   * Walking the enumeration: from its c-th vector the odometer steps to the
   * next one, and reports the end only from the last one.
   */
  lemma EnumerateStep(rs: seq<IntegerEntity>, c: int)
    requires 0 <= c < |Enumerate(rs)|
    ensures |Enumerate(rs)[c]| == |rs|
    ensures Next(rs, Enumerate(rs)[c]).0 <==> c + 1 < |Enumerate(rs)|
    ensures c + 1 < |Enumerate(rs)| ==> Next(rs, Enumerate(rs)[c]).1 == Enumerate(rs)[c + 1]
  {
    var es := Enumerate(rs);
    EnumerateWalk(rs);
    if c + 1 < |es| {
      assert Next(rs, es[c]) == (true, es[c + 1]);
    } else {
      assert es[c] == es[|es| - 1];
    }
  }

  /** The enumeration holds every vector of the Cartesian product and nothing else. */
  lemma {:induction false} EnumerateMembers(rs: seq<IntegerEntity>)
    ensures forall v :: v in Enumerate(rs) <==> InProduct(rs, v)
  {
    if |rs| > 0 {
      var n := |rs| - 1;
      EnumerateMembers(rs[..n]);
      forall v ensures v in Enumerate(rs) <==> InProduct(rs, v) {
        ExtendMember(Enumerate(rs[..n]), rs[n], v);
        if |v| > 0 {
          var p := v[..|v| - 1];
          if |v| == |rs| {
            assert InProduct(rs, v) <==> InProduct(rs[..n], p) && rs[n].Contains(v[n]) by {
              if InProduct(rs[..n], p) && rs[n].Contains(v[n]) {
                forall d | 0 <= d < |v| ensures rs[d].Contains(v[d]) {
                  if d < n { assert rs[..n][d] == rs[d] && p[d] == v[d]; }
                }
              }
            }
          }
        }
      }
    }
  }

  /** The enumeration has one vector per element of the product, each exactly once. */
  lemma {:induction false} EnumerateCount(rs: seq<IntegerEntity>)
    ensures |Enumerate(rs)| == Count(rs)
    ensures Distinct(Enumerate(rs))
  {
    if |rs| > 0 {
      var n := |rs| - 1;
      EnumerateCount(rs[..n]);
      ExtendLength(Enumerate(rs[..n]), rs[n]);
      ExtendDistinct(Enumerate(rs[..n]), rs[n]);
    }
  }

  /** The one-dimensional enumeration of 0..1. */
  lemma OdometerOrderColumn()
    ensures Enumerate([Interval(0, 1)]) == [[0], [1]]
  {
    assert [Interval(0, 1)][..0] == [];
    ExtendUnfold([[]], Interval(0, 1));
    var b0 := Block([], Interval(0, 1));
    assert b0[0] == [0] && b0[1] == [1];
  }

  /** The order of a two-by-three enumeration, written out. */
  lemma OdometerOrderExample()
    ensures Enumerate([Interval(0, 1), Interval(0, 2)]) == [[0, 0], [0, 1], [0, 2], [1, 0], [1, 1], [1, 2]]
  {
    var rs := [Interval(0, 1), Interval(0, 2)];
    assert rs[..1] == [Interval(0, 1)];
    OdometerOrderColumn();
    ExtendUnfold([[0], [1]], Interval(0, 2));
    ExtendUnfold([[1]], Interval(0, 2));
    var b1, b2 := Block([0], Interval(0, 2)), Block([1], Interval(0, 2));
    assert b1[0] == [0, 0] && b1[1] == [0, 1] && b1[2] == [0, 2];
    assert b2[0] == [1, 0] && b2[1] == [1, 1] && b2[2] == [1, 2];
  }
}
