/**
 * Compact forms such as `x[1..3][][2]`: the identifier of an array followed by
 * one bracket group per dimension. An empty group stands for the whole extent
 * of its dimension; any other group is a token read by the instance's integer
 * parser (one value or an interval).
 */
module CompactForm {
  import opened Wrappers
  import opened Text
  import opened Ranges
  import Entries

  /**
   * Contents of the first n bracket groups of suffix, read group by group: the
   * characters from the second one up to the next ']', then the rest after it.
   * None when a group has no ']' or when ']' comes first.
   */
  function Groups(suffix: string, n: nat): (r: Option<seq<string>>)
    ensures r.Some? ==> |r.value| == n
    decreases n
  {
    if n == 0 then Some([])
    else
      var pos := IndexOf(suffix, ']');
      if pos < 1 then None
      else
        match Groups(suffix[pos + 1..], n - 1)
        case None => None
        case Some(gs) => Some([suffix[1..pos]] + gs)
  }

  /** The range of one dimension: the whole extent for an empty group, the parsed token otherwise. */
  function RangeFor(tok: string, extent: int, parse: string -> IntegerEntity): (r: IntegerEntity)
    ensures tok == [] && extent > 0 ==> r.Within(extent) && forall k :: 0 <= k < extent ==> r.Contains(k)
    ensures tok != [] ==> r == parse(tok)
  {
    if tok == [] then Interval(0, extent - 1) else parse(tok)
  }

  /** The range of every dimension, from the contents of its group. */
  function RangesOf(gs: seq<string>, size: seq<int>, parse: string -> IntegerEntity): (rs: seq<IntegerEntity>)
    requires |gs| == |size|
    ensures |rs| == |gs|
  {
    seq(|gs|, i requires 0 <= i < |gs| => RangeFor(gs[i], size[i], parse))
  }

  /**
   * One range per dimension, from the groups that follow the first '[' of the
   * compact form; None when the form has no '[' or too few groups.
   */
  function IndexRanges(size: seq<int>, compactForm: string, parse: string -> IntegerEntity): (r: Option<seq<IntegerEntity>>)
    ensures r.Some? ==> |r.value| == |size|
  {
    var b := IndexOf(compactForm, '[');
    if b == -1 then None
    else
      match Groups(compactForm[b..], |size|)
      case None => None
      case Some(gs) => Some(RangesOf(gs, size, parse))
  }

  /**
   * The ranges read one group at a time, the way a loop over the dimensions
   * does it: done holds the ranges of the first i dimensions, suffix starts
   * at the group of dimension i.
   */
  function ReadRanges(size: seq<int>, parse: string -> IntegerEntity, suffix: string, i: nat, done: seq<IntegerEntity>): Option<seq<IntegerEntity>>
    requires i <= |size|
    decreases |size| - i
  {
    if i == |size| then Some(done)
    else
      var pos := IndexOf(suffix, ']');
      if pos < 1 then None
      else ReadRanges(size, parse, suffix[pos + 1..], i + 1, done + [RangeFor(suffix[1..pos], size[i], parse)])
  }

  /** Reading one group, that ends at pos and holds tok, adds its range and moves past it. */
  lemma ReadRangesNext(size: seq<int>, parse: string -> IntegerEntity, suffix: string, pos: int, tok: string, rest: string, i: nat, done: seq<IntegerEntity>, r: IntegerEntity)
    requires i < |size| && pos == IndexOf(suffix, ']') >= 1 && tok == suffix[1..pos] && rest == suffix[pos + 1..]
    requires r == RangeFor(tok, size[i], parse)
    ensures ReadRanges(size, parse, suffix, i, done) == ReadRanges(size, parse, rest, i + 1, done + [r])
  {
    assert i != |size|;
  }

  /** A group with no ']', or with ']' first, cannot be read. */
  lemma ReadRangesFails(size: seq<int>, parse: string -> IntegerEntity, suffix: string, pos: int, i: nat, done: seq<IntegerEntity>)
    requires i < |size| && pos == IndexOf(suffix, ']') < 1
    ensures ReadRanges(size, parse, suffix, i, done) == None
  {
  }

  /** The range read from a first group, before the ranges of the groups after it. */
  lemma RangesOfCons(size: seq<int>, parse: string -> IntegerEntity, g: string, later: seq<string>, i: nat, done: seq<IntegerEntity>)
    requires i < |size| && |later| == |size| - (i + 1)
    ensures done + [RangeFor(g, size[i], parse)] + RangesOf(later, size[i + 1..], parse) == done + RangesOf([g] + later, size[i..], parse)
  {
    assert size[i..][1..] == size[i + 1..];
  }

  /**
   * Reading group by group, after the ranges done of the first i dimensions,
   * gives the ranges of the groups that are left, and fails when they cannot
   * be read.
   */
  ghost predicate ReadsGroups(size: seq<int>, parse: string -> IntegerEntity, suffix: string, i: nat, done: seq<IntegerEntity>)
    requires i <= |size|
  {
    match Groups(suffix, |size| - i)
    case None => ReadRanges(size, parse, suffix, i, done).None?
    case Some(gs) => ReadRanges(size, parse, suffix, i, done) == Some(done + RangesOf(gs, size[i..], parse))
  }

  /** Reading one more group keeps ReadsGroups. */
  lemma ReadsGroupsStep(size: seq<int>, parse: string -> IntegerEntity, suffix: string, pos: int, i: nat, done: seq<IntegerEntity>)
    requires i < |size| && pos == IndexOf(suffix, ']') >= 1
    requires ReadsGroups(size, parse, suffix[pos + 1..], i + 1, done + [RangeFor(suffix[1..pos], size[i], parse)])
    ensures ReadsGroups(size, parse, suffix, i, done)
  {
    var later := Groups(suffix[pos + 1..], |size| - (i + 1));
    if later.Some? {
      RangesOfCons(size, parse, suffix[1..pos], later.value, i, done);
    }
  }

  /** With every dimension done, the ranges read are those done. */
  lemma ReadsGroupsEnd(size: seq<int>, parse: string -> IntegerEntity, suffix: string, done: seq<IntegerEntity>)
    ensures ReadsGroups(size, parse, suffix, |size|, done)
  {
    assert done + RangesOf([], size[|size|..], parse) == done;
  }

  /** A group with no ']', or with ']' first, can be read neither way. */
  lemma ReadsGroupsStuck(size: seq<int>, parse: string -> IntegerEntity, suffix: string, i: nat, done: seq<IntegerEntity>)
    requires i < |size| && IndexOf(suffix, ']') < 1
    ensures ReadsGroups(size, parse, suffix, i, done)
  {
  }

  /** ReadsGroups holds for every suffix and every number of dimensions done. */
  lemma {:induction false} ReadRangesGroups(size: seq<int>, parse: string -> IntegerEntity, suffix: string, i: nat, done: seq<IntegerEntity>)
    requires i <= |size|
    ensures ReadsGroups(size, parse, suffix, i, done)
    decreases |size| - i
  {
    var pos := IndexOf(suffix, ']');
    if i == |size| {
      ReadsGroupsEnd(size, parse, suffix, done);
    } else if pos < 1 {
      ReadsGroupsStuck(size, parse, suffix, i, done);
    } else {
      ReadRangesGroups(size, parse, suffix[pos + 1..], i + 1, done + [RangeFor(suffix[1..pos], size[i], parse)]);
      ReadsGroupsStep(size, parse, suffix, pos, i, done);
    }
  }

  /** The ranges of a compact form, read group by group from its first '['. */
  lemma ReadIndexRanges(size: seq<int>, compactForm: string, parse: string -> IntegerEntity)
    requires IndexOf(compactForm, '[') >= 0
    ensures IndexRanges(size, compactForm, parse) == ReadRanges(size, parse, compactForm[IndexOf(compactForm, '[')..], 0, [])
  {
    var suffix := compactForm[IndexOf(compactForm, '[')..];
    ReadRangesGroups(size, parse, suffix, 0, []);
    assert size[0..] == size;
    if Groups(suffix, |size|).Some? {
      var gs := Groups(suffix, |size|).value;
      assert [] + RangesOf(gs, size, parse) == RangesOf(gs, size, parse);
    }
  }

  /** Bracket groups written out: `[g0][g1]...`. */
  function Render(gs: seq<string>): string {
    if |gs| == 0 then "" else "[" + gs[0] + "]" + Render(gs[1..])
  }

  /** Reading back groups that were written out gives them back, whatever follows. */
  lemma {:induction false} GroupsRender(gs: seq<string>, rest: string)
    requires forall k :: 0 <= k < |gs| ==> ']' !in gs[k]
    ensures Groups(Render(gs) + rest, |gs|) == Some(gs)
  {
    if |gs| > 0 {
      var g := gs[0];
      var s := Render(gs) + rest;
      var tail := Render(gs[1..]) + rest;
      assert s == "[" + g + "]" + tail;
      assert s[1..|g| + 1] == g && s[|g| + 1] == ']';
      assert forall j :: 0 <= j < |g| + 1 ==> s[j] != ']' by {
        forall j | 0 <= j < |g| + 1 ensures s[j] != ']' {
          if j > 0 { assert s[j] == g[j - 1]; }
        }
      }
      IndexOfAt(s, ']', |g| + 1);
      assert s[|g| + 2..] == tail;
      GroupsRender(gs[1..], rest);
      assert gs == [g] + gs[1..];
    }
  }

  /** The identifier of a cell (of rank one or more) is its array identifier followed by one group per index. */
  lemma {:induction false} CellNameGroups(parts: seq<string>)
    requires |parts| > 0
    ensures "[" + Join(parts, "][") + "]" == Render(parts)
  {
    if |parts| > 1 {
      CellNameGroups(parts[1..]);
    } else {
      assert parts[1..] == [];
    }
  }

  /**
   * A cell's own identifier, read as a compact form, addresses that cell alone
   * when the integer parser reads a decimal form as that single value.
   */
  lemma CellNameRanges(size: seq<int>, idArray: string, v: seq<int>, parse: string -> IntegerEntity)
    requires '[' !in idArray && |v| == |size| > 0
    requires forall k :: parse(DecimalString(k)) == Singleton(k)
    ensures IndexRanges(size, Entries.CellName(idArray, v), parse) == Some(seq(|v|, i requires 0 <= i < |v| => Singleton(v[i])))
  {
    var parts := Entries.IndexStrings(v);
    var name := Entries.CellName(idArray, v);
    NameGroups(idArray, v);
    var rs := seq(|size|, i requires 0 <= i < |size| => RangeFor(parts[i], size[i], parse));
    assert IndexRanges(size, name, parse) == Some(rs);
    forall i | 0 <= i < |v| ensures rs[i] == Singleton(v[i]) {
      assert parts[i] == DecimalString(v[i]);
    }
    assert rs == seq(|v|, i requires 0 <= i < |v| => Singleton(v[i]));
  }

  lemma NameGroups(idArray: string, v: seq<int>)
    requires '[' !in idArray && |v| > 0
    ensures IndexOf(Entries.CellName(idArray, v), '[') == |idArray|
    ensures Groups(Entries.CellName(idArray, v)[|idArray|..], |v|) == Some(Entries.IndexStrings(v))
  {
    var parts := Entries.IndexStrings(v);
    forall k | 0 <= k < |parts| ensures ']' !in parts[k] && parts[k] != [] {
      Entries.DecimalStringShape(v[k]);
    }
    var groups := Render(parts);
    NameIsGroups(idArray, v, parts);
    FirstBracket(idArray, groups);
    GroupsRender(parts, "");
    assert groups + "" == groups;
  }

  lemma NameIsGroups(idArray: string, v: seq<int>, parts: seq<string>)
    requires parts == Entries.IndexStrings(v) && |v| > 0
    ensures Entries.CellName(idArray, v) == idArray + Render(parts)
  {
    var j := Join(parts, "][");
    CellNameGroups(parts);
    assert idArray + "[" + j + "]" == idArray + ("[" + j + "]");
  }

  lemma FirstBracket(idArray: string, groups: string)
    requires '[' !in idArray && |groups| > 0 && groups[0] == '['
    ensures IndexOf(idArray + groups, '[') == |idArray|
    ensures (idArray + groups)[|idArray|..] == groups
  {
    var s := idArray + groups;
    assert s[..|idArray|] == idArray;
    assert s[|idArray|] == '[';
    IndexOfAt(s, '[', |idArray|);
  }
}
