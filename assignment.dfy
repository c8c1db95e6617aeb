/**
 * What domain assignment and lookup do to the flat buffer of an array, stated
 * on the buffer's contents (a sequence of slots, each empty or holding one
 * variable). The array class runs these steps in place; here they are values.
 *
 * A failure keeps the writes made before it, as the buffer is changed in place
 * cell by cell and the failure aborts the rest.
 */
module Assignment {
  import opened Wrappers
  import opened Text
  import opened Ranges
  import opened RowMajor
  import opened Odometer
  import opened CompactForm
  import Entries

  datatype Error =
    | MalformedCompactForm   // a token without '[' or with too few closed bracket groups
    | IdMismatch             // the identifier before '[' is not the array's
    | TwoDomainDefinitions   // a cell addressed by an explicit token already holds a variable
    | IndexOutOfBounds       // an offset outside the buffer

  type Slot<Dom> = Option<Entries.Var<Dom>>

  /** The keyword that stands for every cell still empty. */
  const OTHERS := "others"

  /**
   * Every empty slot gets a variable with domain dom, named after the index
   * vector of its offset; slots that hold a variable keep it.
   */
  function Fill<Dom>(slots: seq<Slot<Dom>>, id: string, varType: Entries.TypeVar, size: seq<int>, dom: Dom): (r: seq<Slot<Dom>>)
    requires Positive(size)
    ensures |r| == |slots|
    ensures forall d :: 0 <= d < |r| ==> r[d].Some?
    ensures forall d :: 0 <= d < |r| && slots[d].Some? ==> r[d] == slots[d]
    ensures forall d :: 0 <= d < |r| && slots[d].None? ==> r[d].value.dom == dom
  {
    seq(|slots|, d requires 0 <= d < |slots| =>
      if slots[d].Some? then slots[d] else Some(Entries.CellVar(id, varType, dom, Decode(size, d))))
  }

  /** Fill done on the first i slots only: the state of the buffer part way through the fill. */
  function FillUpTo<Dom>(slots: seq<Slot<Dom>>, id: string, varType: Entries.TypeVar, size: seq<int>, dom: Dom, i: nat): (r: seq<Slot<Dom>>)
    requires Positive(size) && i <= |slots|
    ensures |r| == |slots| && r[i..] == slots[i..]
  {
    seq(|slots|, d requires 0 <= d < |slots| =>
      if d < i && slots[d].None? then Some(Entries.CellVar(id, varType, dom, Decode(size, d))) else slots[d])
  }

  /** Filling no slot changes nothing; filling every slot is Fill. */
  lemma FillUpToEnds<Dom>(slots: seq<Slot<Dom>>, id: string, varType: Entries.TypeVar, size: seq<int>, dom: Dom)
    requires Positive(size)
    ensures FillUpTo(slots, id, varType, size, dom, 0) == slots
    ensures FillUpTo(slots, id, varType, size, dom, |slots|) == Fill(slots, id, varType, size, dom)
  {
  }

  /** One more step of the fill writes slot i, if it is empty, with the variable of the vector v of offset i. */
  lemma FillUpToStep<Dom>(slots: seq<Slot<Dom>>, id: string, varType: Entries.TypeVar, size: seq<int>, dom: Dom, i: nat, v: seq<int>)
    requires Positive(size) && i < |slots| && Decode(size, i) == v
    ensures FillUpTo(slots, id, varType, size, dom, i + 1) ==
      (var cur := FillUpTo(slots, id, varType, size, dom, i);
       if slots[i].None? then cur[i := Some(Entries.CellVar(id, varType, dom, v))] else cur)
  {
  }

  /** A slot that Fill writes holds the variable of the one in-bounds vector whose offset is that slot. */
  lemma FillNames<Dom>(slots: seq<Slot<Dom>>, id: string, varType: Entries.TypeVar, size: seq<int>, dom: Dom, d: int)
    requires Positive(size) && |slots| == Product(size) && 0 <= d < |slots| && slots[d].None?
    ensures exists v :: (InBounds(size, v) && Flat(size, v) == d &&
      Fill(slots, id, varType, size, dom)[d] == Some(Entries.CellVar(id, varType, dom, v)))
  {
    FlatOfDecode(size, d);
    var v := Decode(size, d);
    assert InBounds(size, v) && Flat(size, v) == d;
  }

  /** Writes the variable of cell v, unless its offset is outside the buffer or its slot is taken. */
  function WriteCell<Dom>(slots: seq<Slot<Dom>>, id: string, varType: Entries.TypeVar, size: seq<int>, dom: Dom, v: seq<int>): (r: (seq<Slot<Dom>>, Option<Error>))
    requires |v| == |size|
  {
    var f := Flat(size, v);
    if !(0 <= f < |slots|) then (slots, Some(IndexOutOfBounds))
    else if slots[f].Some? then (slots, Some(TwoDomainDefinitions))
    else (slots[f := Some(Entries.CellVar(id, varType, dom, v))], None)
  }

  predicate Shaped(size: seq<int>, cells: seq<seq<int>>) {
    forall k :: 0 <= k < |cells| ==> |cells[k]| == |size|
  }

  /** Writes the cells in order and stops at the first failure. */
  function WriteCells<Dom>(slots: seq<Slot<Dom>>, id: string, varType: Entries.TypeVar, size: seq<int>, dom: Dom, cells: seq<seq<int>>): (r: (seq<Slot<Dom>>, Option<Error>))
    requires Shaped(size, cells)
    ensures |r.0| == |slots|
    decreases |cells|
  {
    if |cells| == 0 then (slots, None)
    else
      var w := WriteCell(slots, id, varType, size, dom, cells[0]);
      if w.1.Some? then w else WriteCells(w.0, id, varType, size, dom, cells[1..])
  }

  /**
   * Writing the cells from the c-th on, when the c-th lands at offset f: a
   * failure at an offset outside the buffer or at a slot already taken,
   * otherwise the cells after it written over the slots with that one set.
   */
  lemma WriteCellsAt<Dom>(slots: seq<Slot<Dom>>, id: string, varType: Entries.TypeVar, size: seq<int>, dom: Dom, cells: seq<seq<int>>, c: nat, f: int)
    requires Shaped(size, cells) && c < |cells| && f == Flat(size, cells[c])
    ensures !(0 <= f < |slots|) ==> WriteCells(slots, id, varType, size, dom, cells[c..]) == (slots, Some(IndexOutOfBounds))
    ensures 0 <= f < |slots| && slots[f].Some? ==> WriteCells(slots, id, varType, size, dom, cells[c..]) == (slots, Some(TwoDomainDefinitions))
    ensures 0 <= f < |slots| && slots[f].None? ==>
      WriteCells(slots, id, varType, size, dom, cells[c..]) == WriteCells(slots[f := Some(Entries.CellVar(id, varType, dom, cells[c]))], id, varType, size, dom, cells[c + 1..])
  {
    assert cells[c..][0] == cells[c];
    assert cells[c..][1..] == cells[c + 1..];
  }

  /** Once every cell is written, nothing is left to write. */
  lemma WriteCellsDone<Dom>(slots: seq<Slot<Dom>>, id: string, varType: Entries.TypeVar, size: seq<int>, dom: Dom, cells: seq<seq<int>>, c: nat)
    requires Shaped(size, cells) && c == |cells|
    ensures WriteCells(slots, id, varType, size, dom, cells[c..]) == (slots, None)
  {
    assert cells[c..] == [];
  }

  /** The cells that a compact form addresses, in odometer order (none when it does not parse). */
  function TokenCells(size: seq<int>, parse: string -> IntegerEntity, tok: string): (cells: seq<seq<int>>)
    ensures Shaped(size, cells)
  {
    match IndexRanges(size, tok, parse)
    case None => []
    case Some(rs) =>
      EnumerateStart(rs);
      Enumerate(rs)
  }

  /**
   * One explicit token: its identifier must be the array's, then every cell it
   * addresses gets a variable with domain dom.
   */
  function ApplyToken<Dom>(slots: seq<Slot<Dom>>, id: string, varType: Entries.TypeVar, size: seq<int>, dom: Dom, parse: string -> IntegerEntity, tok: string): (r: (seq<Slot<Dom>>, Option<Error>))
    ensures |r.0| == |slots|
  {
    var b := IndexOf(tok, '[');
    if b == -1 then (slots, Some(MalformedCompactForm))
    else if tok[..b] != id then (slots, Some(IdMismatch))
    else if IndexRanges(size, tok, parse).None? then (slots, Some(MalformedCompactForm))
    else WriteCells(slots, id, varType, size, dom, TokenCells(size, parse, tok))
  }

  /** The tokens in order, stopping at the first failure. */
  function ApplyTokens<Dom>(slots: seq<Slot<Dom>>, id: string, varType: Entries.TypeVar, size: seq<int>, dom: Dom, parse: string -> IntegerEntity, toks: seq<string>): (r: (seq<Slot<Dom>>, Option<Error>))
    ensures |r.0| == |slots|
    decreases |toks|
  {
    if |toks| == 0 then (slots, None)
    else
      var a := ApplyToken(slots, id, varType, size, dom, parse, toks[0]);
      if a.1.Some? then a else ApplyTokens(a.0, id, varType, size, dom, parse, toks[1..])
  }

  /** Domain assignment for one `for` value: the keyword fills every empty cell, anything else is a list of compact forms. */
  function SetDomOutcome<Dom>(slots: seq<Slot<Dom>>, id: string, varType: Entries.TypeVar, size: seq<int>, dom: Dom, parse: string -> IntegerEntity, s: string): (r: (seq<Slot<Dom>>, Option<Error>))
    requires Positive(size)
    ensures |r.0| == |slots|
  {
    if Trim(s) == OTHERS then (Fill(slots, id, varType, size, dom), None)
    else ApplyTokens(slots, id, varType, size, dom, parse, Split(s))
  }

  /** The slots of the cells, in order, or a failure when an offset is outside the buffer. */
  function Collect<Dom>(slots: seq<Slot<Dom>>, size: seq<int>, cells: seq<seq<int>>): (r: Result<seq<Slot<Dom>>, Error>)
    requires Shaped(size, cells)
    ensures r.Success? ==> |r.value| == |cells|
  {
    if forall k :: 0 <= k < |cells| ==> 0 <= Flat(size, cells[k]) < |slots|
    then Success(seq(|cells|, k requires 0 <= k < |cells| => slots[Flat(size, cells[k])]))
    else Failure(IndexOutOfBounds)
  }

  /** Collecting one more cell whose offset is inside the buffer appends its slot. */
  lemma CollectSnoc<Dom>(slots: seq<Slot<Dom>>, size: seq<int>, cells: seq<seq<int>>, c: int, got: seq<Slot<Dom>>)
    requires Shaped(size, cells) && 0 <= c < |cells|
    requires Collect(slots, size, cells[..c]) == Success(got)
    requires 0 <= Flat(size, cells[c]) < |slots|
    ensures Collect(slots, size, cells[..c + 1]) == Success(got + [slots[Flat(size, cells[c])]])
  {
    var pre, short := cells[..c + 1], cells[..c];
    assert forall k :: 0 <= k < c ==> pre[k] == short[k];
    assert forall k :: 0 <= k < c ==> 0 <= Flat(size, short[k]) < |slots|;
    assert forall k :: 0 <= k < c + 1 ==> 0 <= Flat(size, pre[k]) < |slots|;
    var all := seq(|pre|, k requires 0 <= k < |pre| => slots[Flat(size, pre[k])]);
    assert got == seq(|short|, k requires 0 <= k < |short| => slots[Flat(size, short[k])]);
    assert all == got + [slots[Flat(size, cells[c])]];
  }

  /** One cell whose offset is outside the buffer makes the whole collection fail. */
  lemma CollectOutside<Dom>(slots: seq<Slot<Dom>>, size: seq<int>, cells: seq<seq<int>>, c: int)
    requires Shaped(size, cells) && 0 <= c < |cells|
    requires !(0 <= Flat(size, cells[c]) < |slots|)
    ensures Collect(slots, size, cells) == Failure(IndexOutOfBounds)
  {
  }

  /** Lookup by compact form: the slots of the addressed cells in odometer order. */
  function VarsFor<Dom>(slots: seq<Slot<Dom>>, size: seq<int>, parse: string -> IntegerEntity, compactForm: string): Result<seq<Slot<Dom>>, Error> {
    if IndexRanges(size, compactForm, parse).None? then Failure(MalformedCompactForm)
    else Collect(slots, size, TokenCells(size, parse, compactForm))
  }

  // ---------------------------------------------------------------------------
  // Properties of explicit assignment

  /** The slot at offset d is not the target of any of the cells. */
  ghost predicate Unaddressed(size: seq<int>, cells: seq<seq<int>>, d: int)
    requires Shaped(size, cells)
  {
    forall k :: 0 <= k < |cells| ==> Flat(size, cells[k]) != d
  }

  /** The cells can all be written: offsets inside the buffer, slots empty, no offset twice. */
  ghost predicate Fits<Dom>(slots: seq<Slot<Dom>>, size: seq<int>, cells: seq<seq<int>>)
    requires Shaped(size, cells)
  {
    && (forall k :: 0 <= k < |cells| ==> 0 <= Flat(size, cells[k]) < |slots| && slots[Flat(size, cells[k])].None?)
    && (forall i, j :: 0 <= i < j < |cells| ==> Flat(size, cells[i]) != Flat(size, cells[j]))
  }

  /**
   * Writing never replaces a variable and never touches a slot that no cell
   * addresses, whether it succeeds or fails.
   */
  lemma {:induction false} WriteCellsFrame<Dom>(slots: seq<Slot<Dom>>, id: string, varType: Entries.TypeVar, size: seq<int>, dom: Dom, cells: seq<seq<int>>, d: int)
    requires Shaped(size, cells) && 0 <= d < |slots|
    requires slots[d].Some? || Unaddressed(size, cells, d)
    ensures WriteCells(slots, id, varType, size, dom, cells).0[d] == slots[d]
    decreases |cells|
  {
    if |cells| > 0 {
      var w := WriteCell(slots, id, varType, size, dom, cells[0]);
      if w.1.None? {
        assert w.0[d] == slots[d];
        WriteCellsFrame(w.0, id, varType, size, dom, cells[1..], d);
      }
    }
  }

  /** On success every addressed slot holds the variable of its cell. */
  lemma {:induction false} WriteCellsWritten<Dom>(slots: seq<Slot<Dom>>, id: string, varType: Entries.TypeVar, size: seq<int>, dom: Dom, cells: seq<seq<int>>, k: int)
    requires Shaped(size, cells) && 0 <= k < |cells|
    requires WriteCells(slots, id, varType, size, dom, cells).1.None?
    ensures 0 <= Flat(size, cells[k]) < |slots|
    ensures WriteCells(slots, id, varType, size, dom, cells).0[Flat(size, cells[k])] == Some(Entries.CellVar(id, varType, dom, cells[k]))
    decreases |cells|
  {
    var w := WriteCell(slots, id, varType, size, dom, cells[0]);
    if k == 0 {
      WriteCellsFrame(w.0, id, varType, size, dom, cells[1..], Flat(size, cells[0]));
    } else {
      WriteCellsWritten(w.0, id, varType, size, dom, cells[1..], k - 1);
    }
  }

  /** Writing the cells succeeds exactly when they fit. */
  lemma {:induction false} WriteCellsSucceeds<Dom>(slots: seq<Slot<Dom>>, id: string, varType: Entries.TypeVar, size: seq<int>, dom: Dom, cells: seq<seq<int>>)
    requires Shaped(size, cells)
    ensures WriteCells(slots, id, varType, size, dom, cells).1.None? <==> Fits(slots, size, cells)
    decreases |cells|
  {
    if |cells| > 0 {
      var w := WriteCell(slots, id, varType, size, dom, cells[0]);
      if w.1.None? {
        var rest := cells[1..];
        assert Shaped(size, rest);
        WriteCellsSucceeds(w.0, id, varType, size, dom, rest);
        if Fits(w.0, size, rest) {
          FitsCons(slots, id, varType, size, dom, cells);
        }
        if Fits(slots, size, cells) {
          FitsTail(slots, id, varType, size, dom, cells);
        }
      }
    }
  }

  /** A first cell that can be written, followed by cells that fit once it is, fit together. */
  lemma FitsCons<Dom>(slots: seq<Slot<Dom>>, id: string, varType: Entries.TypeVar, size: seq<int>, dom: Dom, cells: seq<seq<int>>)
    requires Shaped(size, cells) && |cells| > 0
    requires WriteCell(slots, id, varType, size, dom, cells[0]).1.None?
    requires Fits(WriteCell(slots, id, varType, size, dom, cells[0]).0, size, cells[1..])
    ensures Fits(slots, size, cells)
  {
    var rest := cells[1..];
    forall k | 0 <= k < |cells| ensures 0 <= Flat(size, cells[k]) < |slots| && slots[Flat(size, cells[k])].None? {
      if k > 0 { assert cells[k] == rest[k - 1]; }
    }
    forall i, j | 0 <= i < j < |cells| ensures Flat(size, cells[i]) != Flat(size, cells[j]) {
      assert cells[j] == rest[j - 1];
      if i > 0 { assert cells[i] == rest[i - 1]; }
    }
  }

  /** Cells that fit still fit, without the first, once the first is written. */
  lemma FitsTail<Dom>(slots: seq<Slot<Dom>>, id: string, varType: Entries.TypeVar, size: seq<int>, dom: Dom, cells: seq<seq<int>>)
    requires Shaped(size, cells) && |cells| > 0 && Fits(slots, size, cells)
    ensures WriteCell(slots, id, varType, size, dom, cells[0]).1.None?
    ensures Fits(WriteCell(slots, id, varType, size, dom, cells[0]).0, size, cells[1..])
  {
    var w := WriteCell(slots, id, varType, size, dom, cells[0]).0;
    var rest := cells[1..];
    forall k | 0 <= k < |rest| ensures 0 <= Flat(size, rest[k]) < |w| && w[Flat(size, rest[k])].None? {
      assert rest[k] == cells[k + 1];
    }
    forall i, j | 0 <= i < j < |rest| ensures Flat(size, rest[i]) != Flat(size, rest[j]) {
      assert rest[i] == cells[i + 1] && rest[j] == cells[j + 1];
    }
  }

  /** Writing fails only for an offset outside the buffer or a slot already taken, and never for the first when every offset is inside. */
  lemma {:induction false} WriteCellsFailures<Dom>(slots: seq<Slot<Dom>>, id: string, varType: Entries.TypeVar, size: seq<int>, dom: Dom, cells: seq<seq<int>>)
    requires Shaped(size, cells)
    ensures WriteCells(slots, id, varType, size, dom, cells).1 in {None, Some(IndexOutOfBounds), Some(TwoDomainDefinitions)}
    ensures (forall k :: 0 <= k < |cells| ==> 0 <= Flat(size, cells[k]) < |slots|) ==>
      WriteCells(slots, id, varType, size, dom, cells).1 != Some(IndexOutOfBounds)
    decreases |cells|
  {
    if |cells| > 0 {
      var w := WriteCell(slots, id, varType, size, dom, cells[0]);
      if w.1.None? {
        var rest := cells[1..];
        assert Shaped(size, rest);
        WriteCellsFailures(w.0, id, varType, size, dom, rest);
        if forall k :: 0 <= k < |cells| ==> 0 <= Flat(size, cells[k]) < |slots| {
          forall k | 0 <= k < |rest| ensures 0 <= Flat(size, rest[k]) < |w.0| {
            assert rest[k] == cells[k + 1];
          }
        }
      }
    }
  }

  /**
   * A token that addresses an in-bounds cell already written by an earlier
   * explicit token fails with a duplicate definition.
   */
  lemma NoDoubleAssignment<Dom>(slots: seq<Slot<Dom>>, id: string, varType: Entries.TypeVar, size: seq<int>, dom1: Dom, dom2: Dom, parse: string -> IntegerEntity, t1: string, t2: string, c: seq<int>)
    requires Positive(size) && |slots| == Product(size)
    requires ApplyToken(slots, id, varType, size, dom1, parse, t1).1.None?
    requires c in TokenCells(size, parse, t1) && c in TokenCells(size, parse, t2)
    requires '[' in t2 && t2[..IndexOf(t2, '[')] == id
    requires forall v :: v in TokenCells(size, parse, t2) ==> InBounds(size, v)
    ensures ApplyToken(ApplyToken(slots, id, varType, size, dom1, parse, t1).0, id, varType, size, dom2, parse, t2).1 == Some(TwoDomainDefinitions)
  {
    var cells1, cells2 := TokenCells(size, parse, t1), TokenCells(size, parse, t2);
    var s1 := ApplyToken(slots, id, varType, size, dom1, parse, t1).0;
    var k1 :| 0 <= k1 < |cells1| && cells1[k1] == c;
    var k2 :| 0 <= k2 < |cells2| && cells2[k2] == c;
    WriteCellsWritten(slots, id, varType, size, dom1, cells1, k1);
    assert s1[Flat(size, c)].Some?;
    forall k | 0 <= k < |cells2| ensures 0 <= Flat(size, cells2[k]) < |s1| {
      assert cells2[k] in cells2;
      FlatInRange(size, cells2[k]);
    }
    WriteCellsSucceeds(s1, id, varType, size, dom2, cells2);
    WriteCellsFailures(s1, id, varType, size, dom2, cells2);
    assert IndexRanges(size, t2, parse).Some?;
  }

  /**
   * Whatever its identifier and ranges, a token that addresses a cell already
   * written by an earlier explicit token fails.
   */
  lemma CellWrittenOnce<Dom>(slots: seq<Slot<Dom>>, id: string, varType: Entries.TypeVar, size: seq<int>, dom1: Dom, dom2: Dom, parse: string -> IntegerEntity, t1: string, t2: string, c: seq<int>)
    requires ApplyToken(slots, id, varType, size, dom1, parse, t1).1.None?
    requires c in TokenCells(size, parse, t1) && c in TokenCells(size, parse, t2)
    ensures ApplyToken(ApplyToken(slots, id, varType, size, dom1, parse, t1).0, id, varType, size, dom2, parse, t2).1.Some?
  {
    var cells1, cells2 := TokenCells(size, parse, t1), TokenCells(size, parse, t2);
    var s1 := ApplyToken(slots, id, varType, size, dom1, parse, t1).0;
    var k1 :| 0 <= k1 < |cells1| && cells1[k1] == c;
    var k2 :| 0 <= k2 < |cells2| && cells2[k2] == c;
    WriteCellsWritten(slots, id, varType, size, dom1, cells1, k1);
    assert s1[Flat(size, c)].Some?;
    WriteCellsSucceeds(s1, id, varType, size, dom2, cells2);
  }

  /** A token never replaces a variable and never touches a slot that none of its cells addresses. */
  lemma ApplyTokenFrame<Dom>(slots: seq<Slot<Dom>>, id: string, varType: Entries.TypeVar, size: seq<int>, dom: Dom, parse: string -> IntegerEntity, tok: string, d: int)
    requires 0 <= d < |slots|
    requires slots[d].Some? || Unaddressed(size, TokenCells(size, parse, tok), d)
    ensures ApplyToken(slots, id, varType, size, dom, parse, tok).0[d] == slots[d]
  {
    var b := IndexOf(tok, '[');
    if b != -1 && tok[..b] == id && IndexRanges(size, tok, parse).Some? {
      WriteCellsFrame(slots, id, varType, size, dom, TokenCells(size, parse, tok), d);
    }
  }

  /** No token of toks addresses the slot at offset d. */
  ghost predicate UntouchedBy(size: seq<int>, parse: string -> IntegerEntity, toks: seq<string>, d: int) {
    forall k :: 0 <= k < |toks| ==> Unaddressed(size, TokenCells(size, parse, toks[k]), d)
  }

  /** The same for a list of tokens: only empty slots that some token addresses can change. */
  lemma {:induction false} ApplyTokensFrame<Dom>(slots: seq<Slot<Dom>>, id: string, varType: Entries.TypeVar, size: seq<int>, dom: Dom, parse: string -> IntegerEntity, toks: seq<string>, d: int)
    requires 0 <= d < |slots|
    requires slots[d].Some? || UntouchedBy(size, parse, toks, d)
    ensures ApplyTokens(slots, id, varType, size, dom, parse, toks).0[d] == slots[d]
    decreases |toks|
  {
    if |toks| > 0 {
      assert slots[d].Some? || Unaddressed(size, TokenCells(size, parse, toks[0]), d);
      ApplyTokenFrame(slots, id, varType, size, dom, parse, toks[0], d);
      var a := ApplyToken(slots, id, varType, size, dom, parse, toks[0]);
      if a.1.None? {
        if !slots[d].Some? {
          forall k | 0 <= k < |toks| - 1 ensures Unaddressed(size, TokenCells(size, parse, toks[1..][k]), d) {
            assert toks[1..][k] == toks[k + 1];
          }
        }
        ApplyTokensFrame(a.0, id, varType, size, dom, parse, toks[1..], d);
      }
    }
  }

  /** Domain assignment never replaces a variable, whatever its outcome. */
  lemma SetDomKeepsVariables<Dom>(slots: seq<Slot<Dom>>, id: string, varType: Entries.TypeVar, size: seq<int>, dom: Dom, parse: string -> IntegerEntity, s: string, d: int)
    requires Positive(size) && 0 <= d < |slots| && slots[d].Some?
    ensures SetDomOutcome(slots, id, varType, size, dom, parse, s).0[d] == slots[d]
  {
    if Trim(s) != OTHERS {
      ApplyTokensFrame(slots, id, varType, size, dom, parse, Split(s), d);
    }
  }

  /** The keyword always succeeds and leaves no slot empty. */
  lemma OthersCompletes<Dom>(slots: seq<Slot<Dom>>, id: string, varType: Entries.TypeVar, size: seq<int>, dom: Dom, parse: string -> IntegerEntity, s: string)
    requires Positive(size) && Trim(s) == OTHERS
    ensures SetDomOutcome(slots, id, varType, size, dom, parse, s).1.None?
    ensures forall d :: 0 <= d < |slots| ==> SetDomOutcome(slots, id, varType, size, dom, parse, s).0[d].Some?
  {
  }

  // ---------------------------------------------------------------------------
  // Properties of lookup

  /** Each range lies inside its dimension. */
  predicate RangesWithin(rs: seq<IntegerEntity>, size: seq<int>) {
    |rs| == |size| && forall d :: 0 <= d < |rs| ==> rs[d].Within(size[d])
  }

  /** Ranges inside their dimensions address in-bounds cells only. */
  lemma EnumerateInBounds(rs: seq<IntegerEntity>, size: seq<int>, v: seq<int>)
    requires RangesWithin(rs, size) && v in Enumerate(rs)
    ensures InBounds(size, v)
  {
    EnumerateMembers(rs);
  }

  /**
   * A compact form whose ranges lie inside their dimensions yields one slot per
   * vector of the product of its ranges, in odometer order, each cell once.
   */
  lemma VarsForWithin<Dom>(slots: seq<Slot<Dom>>, size: seq<int>, parse: string -> IntegerEntity, compactForm: string)
    requires Positive(size) && |slots| == Product(size)
    requires IndexRanges(size, compactForm, parse).Some?
    requires RangesWithin(IndexRanges(size, compactForm, parse).value, size)
    ensures VarsFor(slots, size, parse, compactForm).Success?
    ensures |VarsFor(slots, size, parse, compactForm).value| == Count(IndexRanges(size, compactForm, parse).value)
    ensures forall i, j :: 0 <= i < j < |TokenCells(size, parse, compactForm)| ==>
      Flat(size, TokenCells(size, parse, compactForm)[i]) != Flat(size, TokenCells(size, parse, compactForm)[j])
  {
    var rs := IndexRanges(size, compactForm, parse).value;
    var cells := TokenCells(size, parse, compactForm);
    assert cells == Enumerate(rs);
    EnumerateCount(rs);
    forall k | 0 <= k < |cells| ensures InBounds(size, cells[k]) {
      EnumerateInBounds(rs, size, cells[k]);
    }
    forall k | 0 <= k < |cells| ensures 0 <= Flat(size, cells[k]) < |slots| {
      FlatInRange(size, cells[k]);
    }
    forall i, j | 0 <= i < j < |cells| ensures Flat(size, cells[i]) != Flat(size, cells[j]) {
      if Flat(size, cells[i]) == Flat(size, cells[j]) {
        FlatInjective(size, cells[i], cells[j]);
      }
    }
  }
}
