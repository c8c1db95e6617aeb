/**
 * An array of variables of an instance: a multi-dimensional array stored as a
 * flat, row-major buffer of slots that are filled, cell by cell, by domain
 * assignments written in compact form (`x[1..3][]`), or all at once.
 */
module XVariables {
  import opened Wrappers
  import opened Text
  import opened Ranges
  import opened RowMajor
  import opened Odometer
  import opened CompactForm
  import opened Assignment
  import Entries

  class Array<Dom> {
    /** Identifier of the array. */
    const id: string
    /** Kind of every variable of the array. */
    const varType: Entries.TypeVar
    /** Size of each dimension. */
    const size: seq<int>
    /** The flat buffer: slot i holds the variable of the cell whose row-major offset is i, once it exists. */
    const vars: array<Slot<Dom>>

    /** The buffer has one slot per cell. */
    predicate Valid() {
      Positive(size) && vars.Length == Product(size)
    }

    /** An array whose cells have no variable yet. */
    constructor(id: string, varType: Entries.TypeVar, size: seq<int>)
      requires Positive(size)
      ensures Valid() && this.id == id && this.varType == varType && this.size == size
      ensures fresh(vars) && forall i :: 0 <= i < vars.Length ==> vars[i].None?
    {
      this.id := id;
      this.varType := varType;
      this.size := size;
      ProductPositive(size);
      vars := new Slot<Dom>[Product(size)](_ => None);
    }

    /** An array whose every cell gets a variable with domain dom. */
    constructor WithDom(id: string, varType: Entries.TypeVar, size: seq<int>, dom: Dom)
      requires Positive(size)
      ensures Valid() && this.id == id && this.varType == varType && this.size == size
      ensures fresh(vars) && vars[..] == Fill(seq(Product(size), _ => None), id, varType, size, dom)
    {
      this.id := id;
      this.varType := varType;
      this.size := size;
      ProductPositive(size);
      vars := new Slot<Dom>[Product(size)](_ => None);
      new;
      assert vars[..] == seq(Product(size), _ => None);
      BuildVarsWith(dom);
    }

    /**
     * Gives a variable with domain dom to every empty slot, walking the offsets
     * in order while an odometer over the full extents keeps the index vector
     * of the current offset.
     */
    method BuildVarsWith(dom: Dom)
      requires Valid()
      modifies vars
      ensures vars[..] == Fill(old(vars[..]), id, varType, size, dom)
    {
      ghost var slots := old(vars[..]);
      var indexes := new int[|size|](_ => 0);
      FlatZero(size, indexes[..]);
      FillUpToEnds(slots, id, varType, size, dom);
      var i := 0;
      while i < vars.Length
        invariant 0 <= i <= vars.Length
        invariant indexes.Length == |size|
        invariant i < vars.Length ==> InBounds(size, indexes[..])
        invariant i < vars.Length ==> Flat(size, indexes[..]) == i
        invariant vars[..] == FillUpTo(slots, id, varType, size, dom, i)
      {
        DecodeOfFlat(size, indexes[..]);
        FillUpToStep(slots, id, varType, size, dom, i, indexes[..]);
        if vars[i].None? {
          vars[i] := Some(Entries.CellVar(id, varType, dom, indexes[..]));
        }
        ghost var v0 := indexes[..];
        TickIndexes(indexes, size);
        if i + 1 < vars.Length {
          TickSucc(size, v0);
        }
        i := i + 1;
      }
    }

    /**
     * The inner loop of the fill: the last index moves up by one, and an index
     * that reaches its size goes back to 0 and carries into the one before it.
     */
    static method TickIndexes(indexes: array<int>, size: seq<int>)
      requires indexes.Length == |size|
      modifies indexes
      ensures indexes[..] == Tick(size, old(indexes[..]))
    {
      ghost var v0 := indexes[..];
      var j := indexes.Length - 1;
      TickBegin(size, v0, indexes.Length);
      while j >= 0
        invariant -1 <= j < indexes.Length
        invariant Ticking(size, v0, j, indexes[..])
      {
        var x := indexes[j] + 1;
        if x == size[j] {
          TickCarriesAt(size, v0, j, indexes[..]);
          indexes[j] := 0;
          j := j - 1;
        } else {
          TickStopsAt(size, v0, j, indexes[..], x);
          indexes[j] := x;
          break;
        }
      }
      if j < 0 {
        TickAllCarried(size, v0, indexes[..]);
      }
    }

    /**
     * The index vector of a flat offset, as written: the loop counter moves up
     * instead of down, so every rank other than one reads past the end of an
     * array, which Java reports by throwing.
     */
    method IndexesForAsWritten(flatIndex: nat) returns (r: Result<seq<int>, Error>)
      requires Valid()
      ensures |size| == 1 ==> r == Success([flatIndex])
      ensures |size| != 1 ==> r == Failure(IndexOutOfBounds)
    {
      var t := new int[|size|];
      var f := flatIndex;
      var i := t.Length - 1;
      while i > 0
        invariant t.Length >= 2 ==> t.Length - 1 <= i <= t.Length
        invariant t.Length < 2 ==> i == t.Length - 1 && f == flatIndex
        decreases t.Length - i
      {
        if i >= t.Length {
          return Failure(IndexOutOfBounds);
        }
        t[i] := f % size[i];
        f := f / size[i];
        i := i + 1;
      }
      if t.Length == 0 {
        return Failure(IndexOutOfBounds);
      }
      t[0] := f;
      assert t[..] == [flatIndex];
      return Success(t[..]);
    }

    /**
     * The index vector of a flat offset, with the loop counter moving down:
     * the remainders by the sizes from the last dimension to the second, and
     * what is left for the first.
     */
    method IndexesFor(flatIndex: nat) returns (indexes: seq<int>)
      requires Valid()
      ensures indexes == Decode(size, flatIndex)
      ensures flatIndex < vars.Length ==> InBounds(size, indexes) && Flat(size, indexes) == flatIndex
    {
      var t := new int[|size|];
      if t.Length == 0 {
        return [];
      }
      var f: nat := flatIndex;
      var i := t.Length - 1;
      assert size[..i + 1] == size && t[i + 1..] == [];
      while i > 0
        invariant 0 <= i < t.Length
        invariant Decode(size, flatIndex) == Decode(size[..i + 1], f) + t[i + 1..]
      {
        assert size[..i + 1][..i] == size[..i];
        t[i] := f % size[i];
        f := f / size[i];
        i := i - 1;
      }
      t[0] := f;
      indexes := t[..];
      assert indexes == [f] + t[1..];
      if flatIndex < vars.Length {
        FlatOfDecode(size, flatIndex);
      }
    }

    /**
     * Row-major offset of indexes, summed from the last index to the first
     * with a stride that grows by each size. Fewer indexes than dimensions are
     * weighed by the leading sizes.
     */
    method FlatIndexFor(indexes: seq<int>) returns (sum: int)
      requires |indexes| <= |size|
      ensures sum == Flat(size[..|indexes|], indexes)
      ensures |indexes| == |size| ==> sum == Flat(size, indexes)
    {
      var n := |indexes|;
      sum := 0;
      var nb := 1;
      var i := n - 1;
      while i >= 0
        invariant -1 <= i < n
        invariant sum == Flat(size[i + 1..n], indexes[i + 1..])
        invariant nb == Product(size[i + 1..n])
      {
        FlatPeel(size[i..n], indexes[i..]);
        ProductPeel(size[i..n]);
        assert size[i..n][1..] == size[i + 1..n] && indexes[i..][1..] == indexes[i + 1..];
        sum := sum + indexes[i] * nb;
        nb := nb * size[i];
        i := i - 1;
      }
      assert size[0..n] == size[..n];
      assert indexes[0..] == indexes;
      assert size[..|size|] == size;
    }

    /**
     * The slot addressed by indexes; a failure when there are more indexes than
     * dimensions or the offset falls outside the buffer.
     */
    method VarAt(indexes: seq<int>) returns (r: Result<Slot<Dom>, Error>)
      requires Valid()
      ensures |indexes| <= |size| && 0 <= Flat(size[..|indexes|], indexes) < vars.Length ==>
        r == Success(vars[Flat(size[..|indexes|], indexes)])
      ensures !(|indexes| <= |size| && 0 <= Flat(size[..|indexes|], indexes) < vars.Length) ==>
        r == Failure(IndexOutOfBounds)
      ensures InBounds(size, indexes) ==> 0 <= Flat(size, indexes) < vars.Length && r == Success(vars[Flat(size, indexes)])
    {
      if InBounds(size, indexes) {
        FlatInRange(size, indexes);
        assert size[..|indexes|] == size;
      }
      if |indexes| > |size| {
        return Failure(IndexOutOfBounds);
      }
      var flat := FlatIndexFor(indexes);
      if !(0 <= flat < vars.Length) {
        return Failure(IndexOutOfBounds);
      }
      r := Success(vars[flat]);
    }

    /**
     * The range of every dimension, read group by group from the first '['
     * of the compact form; None when a group is missing or ill-formed.
     */
    method BuildIndexRanges(compactForm: string, parse: string -> IntegerEntity) returns (r: Option<seq<IntegerEntity>>)
      ensures r == IndexRanges(size, compactForm, parse)
    {
      var b := IndexOf(compactForm, '[');
      if b == -1 {
        return None;
      }
      var n := |size|;
      var t := new IntegerEntity[n](_ => Singleton(0));
      var suffix := compactForm[b..];
      ghost var target := ReadRanges(size, parse, suffix, 0, []);
      ghost var done: seq<IntegerEntity> := [];
      var i := 0;
      while i < n
        invariant 0 <= i <= n && |done| == i
        invariant forall k :: 0 <= k < i ==> t[k] == done[k]
        invariant target == ReadRanges(size, parse, suffix, i, done)
      {
        var pos := IndexOf(suffix, ']');
        if pos < 1 {
          ReadRangesFails(size, parse, suffix, pos, i, done);
          ReadIndexRanges(size, compactForm, parse);
          return None;
        }
        var tok := suffix[1..pos];
        var range := if |tok| == 0 then Interval(0, size[i] - 1) else parse(tok);
        ReadRangesNext(size, parse, suffix, pos, tok, suffix[pos + 1..], i, done, range);
        t[i] := range;
        done := done + [range];
        suffix := suffix[pos + 1..];
        i := i + 1;
      }
      assert t[..] == done;
      ReadIndexRanges(size, compactForm, parse);
      r := Some(t[..]);
    }

    /**
     * One odometer step over the ranges, from the last dimension: singleton
     * dimensions are skipped, a coordinate that passes its upper bound goes
     * back to its lower bound and carries. False when the carry passed the
     * first dimension.
     */
    method IncrementIndexes(indexes: array<int>, ranges: seq<IntegerEntity>) returns (more: bool)
      requires indexes.Length == |ranges|
      modifies indexes
      ensures (more, indexes[..]) == Next(ranges, old(indexes[..]))
    {
      ghost var v0 := indexes[..];
      var j := indexes.Length - 1;
      StepBegin(ranges, v0, indexes.Length);
      while j >= 0
        invariant -1 <= j < indexes.Length
        invariant Stepping(ranges, v0, j, indexes[..])
      {
        if ranges[j].Singleton? {
          StepSkips(ranges, v0, j, indexes[..]);
          j := j - 1;
        } else {
          var x := indexes[j] + 1;
          if x > ranges[j].sup {
            StepCarries(ranges, v0, j, indexes[..], x);
            indexes[j] := ranges[j].inf;
            j := j - 1;
          } else {
            StepStops(ranges, v0, j, indexes[..], x);
            indexes[j] := x;
            break;
          }
        }
      }
      if j < 0 {
        StepEnds(ranges, v0, indexes[..]);
      }
      more := j >= 0;
    }

    /**
     * Domain assignment for one `for` value: the keyword gives dom to every
     * cell still without a variable; otherwise every compact form of the list
     * must name this array, and each cell it addresses gets a new variable
     * with domain dom, in odometer order. The first failure ends the
     * assignment and keeps the variables written before it.
     */
    method SetDom(s: string, dom: Dom, parse: string -> IntegerEntity) returns (err: Option<Error>)
      requires Valid()
      modifies vars
      ensures (vars[..], err) == SetDomOutcome(old(vars[..]), id, varType, size, dom, parse, s)
    {
      if Trim(s) == OTHERS {
        BuildVarsWith(dom);
        return None;
      }
      ghost var target := SetDomOutcome(old(vars[..]), id, varType, size, dom, parse, s);
      var toks := Split(s);
      var k := 0;
      while k < |toks|
        invariant 0 <= k <= |toks|
        invariant target == ApplyTokens(vars[..], id, varType, size, dom, parse, toks[k..])
      {
        var tok := toks[k];
        assert toks[k..][1..] == toks[k + 1..];
        var b := IndexOf(tok, '[');
        if b == -1 {
          return Some(MalformedCompactForm);
        }
        if tok[..b] != id {
          return Some(IdMismatch);
        }
        var ranges := BuildIndexRanges(tok, parse);
        if ranges.None? {
          return Some(MalformedCompactForm);
        }
        ghost var cells := TokenCells(size, parse, tok);
        err := AssignCells(ranges.value, dom, cells);
        if err.Some? {
          return;
        }
        k := k + 1;
      }
      return None;
    }

    /**
     * The do-while loop of an explicit assignment: walks the cells that the
     * ranges address with the odometer, and gives each one a variable with
     * domain dom; stops at an offset outside the buffer or a slot that already
     * holds a variable.
     */
    method AssignCells(rs: seq<IntegerEntity>, dom: Dom, ghost cells: seq<seq<int>>) returns (err: Option<Error>)
      requires Valid() && |rs| == |size| && cells == Enumerate(rs)
      modifies vars
      ensures Shaped(size, cells)
      ensures (vars[..], err) == WriteCells(old(vars[..]), id, varType, size, dom, cells)
    {
      EnumerateStart(rs);
      ghost var target := WriteCells(old(vars[..]), id, varType, size, dom, cells);
      var indexes := new int[|rs|](d requires 0 <= d < |rs| => rs[d].Smallest());
      assert indexes[..] == Smallest(rs);
      ghost var c := 0;
      while true
        invariant 0 <= c < |cells|
        invariant indexes.Length == |rs|
        invariant indexes[..] == cells[c]
        invariant target == WriteCells(vars[..], id, varType, size, dom, cells[c..])
        decreases |cells| - c
      {
        var flat := FlatIndexFor(indexes[..]);
        WriteCellsAt(vars[..], id, varType, size, dom, cells, c, flat);
        if !(0 <= flat < vars.Length) {
          return Some(IndexOutOfBounds);
        }
        if vars[flat].Some? {
          return Some(TwoDomainDefinitions);
        }
        vars[flat] := Some(Entries.CellVar(id, varType, dom, indexes[..]));
        EnumerateStep(rs, c);
        var more := IncrementIndexes(indexes, rs);
        if !more {
          WriteCellsDone(vars[..], id, varType, size, dom, cells, c + 1);
          return None;
        }
        c := c + 1;
      }
    }

    /**
     * The slots of the cells addressed by a compact form, in odometer order;
     * the identifier before '[' is not checked.
     */
    method GetVarsFor(compactForm: string, parse: string -> IntegerEntity) returns (r: Result<seq<Slot<Dom>>, Error>)
      requires Valid()
      ensures r == VarsFor(vars[..], size, parse, compactForm)
    {
      var ranges := BuildIndexRanges(compactForm, parse);
      if ranges.None? {
        return Failure(MalformedCompactForm);
      }
      var rs := ranges.value;
      ghost var cells := TokenCells(size, parse, compactForm);
      EnumerateStart(rs);
      var indexes := new int[|rs|](d requires 0 <= d < |rs| => rs[d].Smallest());
      assert indexes[..] == Smallest(rs);
      var list: seq<Slot<Dom>> := [];
      ghost var c := 0;
      assert cells[..0] == [];
      while true
        invariant 0 <= c < |cells| && indexes.Length == |rs| && indexes[..] == cells[c]
        invariant Collect(vars[..], size, cells[..c]) == Success(list)
        decreases |cells| - c
      {
        var flat := FlatIndexFor(indexes[..]);
        assert size[..|size|] == size;
        if !(0 <= flat < vars.Length) {
          CollectOutside(vars[..], size, cells, c);
          return Failure(IndexOutOfBounds);
        }
        CollectSnoc(vars[..], size, cells, c, list);
        list := list + [vars[flat]];
        EnumerateStep(rs, c);
        var more := IncrementIndexes(indexes, rs);
        if !more {
          assert cells[..c + 1] == cells;
          return Success(list);
        }
        c := c + 1;
      }
    }
  }
}
