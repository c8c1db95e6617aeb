/**
 * Row-major addressing of a multi-dimensional array flattened into one buffer:
 * the last dimension varies fastest. An index vector has one coordinate per
 * dimension; its flat offset is the Horner evaluation of the vector with radix
 * size[d] at position d.
 */
module RowMajor {
  import opened Arith
  import opened SeqFacts

  /** Every dimension size is positive. */
  predicate Positive(size: seq<int>) {
    forall d :: 0 <= d < |size| ==> size[d] > 0
  }

  /** Number of cells: the sizes folded from the left, starting from 1 (so 1 for no dimension). */
  function Product(size: seq<int>): int {
    if |size| == 0 then 1 else Product(size[..|size| - 1]) * size[|size| - 1]
  }

  /** v addresses a cell: one coordinate per dimension, each within its dimension. */
  predicate InBounds(size: seq<int>, v: seq<int>) {
    |v| == |size| && forall d :: 0 <= d < |v| ==> 0 <= v[d] < size[d]
  }

  /** Row-major offset of index vector v. */
  function Flat(size: seq<int>, v: seq<int>): int
    requires |v| == |size|
  {
    if |v| == 0 then 0
    else Flat(size[..|v| - 1], v[..|v| - 1]) * size[|v| - 1] + v[|v| - 1]
  }

  /**
   * Index vector of flat offset o, decoded from the last dimension to the first;
   * the first coordinate takes whatever quotient is left.
   */
  function Decode(size: seq<int>, o: nat): (v: seq<int>)
    requires Positive(size)
    ensures |v| == |size|
  {
    if |size| == 0 then []
    else if |size| == 1 then [o]
    else Decode(size[..|size| - 1], o / size[|size| - 1]) + [o % size[|size| - 1]]
  }

  /**
   * One odometer step over the full extent of every dimension: the last
   * coordinate is bumped, and one that reaches its size goes back to 0 and
   * carries into the dimension before it.
   */
  function Tick(size: seq<int>, v: seq<int>): (w: seq<int>)
    requires |v| == |size|
    ensures |w| == |size|
  {
    if |v| == 0 then []
    else if v[|v| - 1] + 1 == size[|v| - 1] then Tick(size[..|v| - 1], v[..|v| - 1]) + [0]
    else v[..|v| - 1] + [v[|v| - 1] + 1]
  }

  lemma {:induction false} ProductPositive(size: seq<int>)
    requires Positive(size)
    ensures Product(size) > 0
  {
    if |size| > 0 {
      ProductPositive(size[..|size| - 1]);
      MulMonotone(1, Product(size[..|size| - 1]), size[|size| - 1]);
    }
  }

  /** Every in-bounds vector lands inside the buffer. */
  lemma {:induction false} FlatInRange(size: seq<int>, v: seq<int>)
    requires InBounds(size, v)
    ensures 0 <= Flat(size, v) < Product(size)
  {
    if |v| > 0 {
      var n := |v| - 1;
      FlatInRange(size[..n], v[..n]);
      MulMonotone(0, Flat(size[..n], v[..n]), size[n]);
      MulMonotone(Flat(size[..n], v[..n]) + 1, Product(size[..n]), size[n]);
    }
  }

  /** Decoding an offset inside the buffer gives an in-bounds vector that encodes back to it. */
  lemma {:induction false} FlatOfDecode(size: seq<int>, o: nat)
    requires Positive(size) && o < Product(size)
    ensures InBounds(size, Decode(size, o)) && Flat(size, Decode(size, o)) == o
  {
    var n := |size| - 1;
    if |size| == 1 {
      assert Product(size) == size[0] by { assert size[..0] == []; }
      assert Decode(size, o)[..0] == [];
    } else if |size| > 1 {
      var s := size[n];
      var q, r := o / s, o % s;
      assert o == q * s + r;
      ProductPositive(size[..n]);
      if q >= Product(size[..n]) {
        MulMonotone(Product(size[..n]), q, s);
        assert false;
      }
      FlatOfDecode(size[..n], q);
      var v := Decode(size, o);
      assert v == Decode(size[..n], q) + [r];
      assert v[..n] == Decode(size[..n], q);
      assert Flat(size, v) == Flat(size[..n], v[..n]) * s + r;
    }
  }

  /** Encoding an in-bounds vector and decoding the offset gives the vector back. */
  lemma {:induction false} DecodeOfFlat(size: seq<int>, v: seq<int>)
    requires Positive(size) && InBounds(size, v)
    ensures Flat(size, v) >= 0 && Decode(size, Flat(size, v)) == v
  {
    FlatInRange(size, v);
    var n := |v| - 1;
    if |v| == 1 {
      assert v[..0] == [];
    } else if |v| > 1 {
      var f := Flat(size[..n], v[..n]);
      FlatInRange(size[..n], v[..n]);
      DivModUnique(Flat(size, v), size[n], f, v[n]);
      DecodeOfFlat(size[..n], v[..n]);
      assert v == v[..n] + [v[n]];
    }
  }

  /** Distinct in-bounds vectors have distinct offsets. */
  lemma FlatInjective(size: seq<int>, v: seq<int>, w: seq<int>)
    requires Positive(size) && InBounds(size, v) && InBounds(size, w)
    requires Flat(size, v) == Flat(size, w)
    ensures v == w
  {
    DecodeOfFlat(size, v);
    DecodeOfFlat(size, w);
  }

  lemma {:induction false} ProductPeel(size: seq<int>)
    requires |size| > 0
    ensures Product(size) == size[0] * Product(size[1..])
  {
    var n := |size| - 1;
    if n > 0 {
      ProductPeel(size[..n]);
      assert size[..n][1..] == size[1..][..n - 1];
    } else {
      assert size[..0] == [] && size[1..] == [];
    }
  }

  /**
   * Stride form of the offset: the first coordinate weighs the product of the
   * later sizes, and the rest is the offset within the later dimensions.
   */
  lemma {:induction false} FlatPeel(size: seq<int>, v: seq<int>)
    requires |v| == |size| > 0
    ensures Flat(size, v) == v[0] * Product(size[1..]) + Flat(size[1..], v[1..])
  {
    var n := |v| - 1;
    if n == 0 {
      assert v[..0] == [] && size[..0] == [] && v[1..] == [] && size[1..] == [];
    } else {
      FlatPeel(size[..n], v[..n]);
      assert size[..n][1..] == size[1..][..n - 1];
      assert v[..n][1..] == v[1..][..n - 1];
      var a, p, r, s := v[0], Product(size[1..][..n - 1]), Flat(size[1..][..n - 1], v[1..][..n - 1]), size[n];
      assert (a * p + r) * s == a * (p * s) + r * s;
    }
  }

  /** The vector of zeros is at offset 0. */
  lemma {:induction false} FlatZero(size: seq<int>, v: seq<int>)
    requires |v| == |size| && forall d :: 0 <= d < |v| ==> v[d] == 0
    ensures Flat(size, v) == 0
  {
    if |v| > 0 {
      FlatZero(size[..|v| - 1], v[..|v| - 1]);
    }
  }

  /** The tick of the first j + 1 indexes, where index j stays below its size. */
  lemma TickStopsPrefix(size: seq<int>, v: seq<int>, j: nat)
    requires |v| == |size| && j < |v| && v[j] + 1 != size[j]
    ensures Tick(size[..j + 1], v[..j + 1]) == v[..j] + [v[j] + 1]
  {
    assert v[..j + 1][..j] == v[..j];
  }

  /** The tick of the first j + 1 indexes, where index j reaches its size. */
  lemma TickCarriesPrefix(size: seq<int>, v: seq<int>, j: nat)
    requires |v| == |size| && j < |v| && v[j] + 1 == size[j]
    ensures Tick(size[..j + 1], v[..j + 1]) == Tick(size[..j], v[..j]) + [0]
  {
    assert size[..j + 1][..j] == size[..j];
    assert v[..j + 1][..j] == v[..j];
  }

  /**
   * A tick in progress from the last index down to index j: the indexes up to
   * j in cur are still those of v, and the tick of v is the tick of those
   * indexes followed by the indexes already done in cur.
   */
  ghost predicate Ticking(size: seq<int>, v: seq<int>, j: int, cur: seq<int>) {
    |v| == |size| == |cur| && -1 <= j < |v| && cur[..j + 1] == v[..j + 1]
    && Tick(size, v) == Tick(size[..j + 1], v[..j + 1]) + cur[j + 1..]
  }

  /** Before any index is visited, the whole vector is still to be ticked. */
  lemma TickBegin(size: seq<int>, v: seq<int>, n: nat)
    requires |v| == |size| == n
    ensures Ticking(size, v, n - 1, v)
  {
    assert size[..n] == size;
    assert v[..n] == v;
    assert v[n..] == [];
    assert Tick(size, v) + [] == Tick(size, v);
  }

  /** Where index j reaches its size, the tick resets it and carries into the indexes before it. */
  lemma TickCarriesAt(size: seq<int>, v: seq<int>, j: nat, cur: seq<int>)
    requires Ticking(size, v, j, cur) && cur[j] + 1 == size[j]
    ensures Ticking(size, v, j - 1, cur[j := 0])
  {
    PrefixAgree(cur, v, j);
    TickCarriesPrefix(size, v, j);
    UpdateSlices(cur, j, 0);
  }

  /** Where index j stays below its size, the tick moves it up to x and stops there. */
  lemma TickStopsAt(size: seq<int>, v: seq<int>, j: nat, cur: seq<int>, x: int)
    requires Ticking(size, v, j, cur) && x == cur[j] + 1 && x != size[j]
    ensures Tick(size, v) == cur[j := x]
  {
    PrefixAgree(cur, v, j);
    TickStopsPrefix(size, v, j);
    UpdateSplit(cur, j, x);
  }

  /** With every index carried, the tick is what is left. */
  lemma TickAllCarried(size: seq<int>, v: seq<int>, cur: seq<int>)
    requires Ticking(size, v, -1, cur)
    ensures Tick(size, v) == cur
  {
    assert cur[0..] == cur;
  }

  /** Where the last index wraps, the offset before it must have room to move up. */
  lemma TickCarryRoom(size: seq<int>, v: seq<int>, n: nat, pre: int)
    requires InBounds(size, v) && n + 1 == |v| && v[n] + 1 == size[n]
    requires pre == Flat(size[..n], v[..n]) && Flat(size, v) + 1 < Product(size)
    ensures pre + 1 < Product(size[..n])
  {
    if pre + 1 >= Product(size[..n]) {
      MulMonotone(Product(size[..n]), pre + 1, size[n]);
      assert false;
    }
  }

  /** A tick that carries moves the offset up by one when the tick before it does. */
  lemma TickCarryFlat(size: seq<int>, v: seq<int>, n: nat, t: seq<int>, p: int)
    requires InBounds(size, v) && n + 1 == |v| && v[n] + 1 == size[n]
    requires t == Tick(size[..n], v[..n]) && InBounds(size[..n], t)
    requires p == Flat(size[..n], v[..n]) && Flat(size[..n], t) == p + 1
    ensures InBounds(size, Tick(size, v)) && Flat(size, Tick(size, v)) == Flat(size, v) + 1
  {
    var w := Tick(size, v);
    assert w == t + [0];
    assert w[..n] == t;
    MulSucc(p, size[n]);
  }

  /** A tick that stops at the last index moves the offset up by one. */
  lemma TickStopFlat(size: seq<int>, v: seq<int>, n: nat)
    requires InBounds(size, v) && n + 1 == |v| && v[n] + 1 != size[n]
    ensures InBounds(size, Tick(size, v)) && Flat(size, Tick(size, v)) == Flat(size, v) + 1
  {
    assert Tick(size, v)[..n] == v[..n];
  }

  /** One tick moves an in-bounds vector to the next offset, unless it is the last cell. */
  lemma {:induction false} TickSucc(size: seq<int>, v: seq<int>)
    requires InBounds(size, v) && Flat(size, v) + 1 < Product(size)
    ensures InBounds(size, Tick(size, v)) && Flat(size, Tick(size, v)) == Flat(size, v) + 1
  {
    if |v| == 0 {
      assert false;
    } else {
      var n := |v| - 1;
      if v[n] + 1 == size[n] {
        TickCarryRoom(size, v, n, Flat(size[..n], v[..n]));
        TickSucc(size[..n], v[..n]);
        TickCarryFlat(size, v, n, Tick(size[..n], v[..n]), Flat(size[..n], v[..n]));
      } else {
        TickStopFlat(size, v, n);
      }
    }
  }
}
