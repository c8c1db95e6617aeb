/**
 * The entries of an instance: the kinds of variables, and the scalar
 * variables that fill the cells of an array, each named after the array and
 * its indexes.
 */
module Entries {
  import opened Text

  /** The kinds of variables. */
  datatype TypeVar =
    | Integer | Symbolic | Real | Stochastic | SymbolicStochastic
    | Set | SymbolicSet | UndirectedGraph | DirectedGraph
    | Point | Interval | Region
  {
    predicate IsStochastic() {
      this == Stochastic || this == SymbolicStochastic
    }

    /** Integer, symbolic, real or (symbolic) stochastic. */
    predicate IsBasic() {
      this == Integer || this == Symbolic || this == Real || IsStochastic()
    }

    predicate IsSet() {
      this == Set || this == SymbolicSet
    }

    predicate IsGraph() {
      this == UndirectedGraph || this == DirectedGraph
    }

    predicate IsComplex() {
      IsSet() || IsGraph()
    }

    predicate IsQualitative() {
      this == Point || this == Interval || this == Region
    }
  }

  /** Every kind is exactly one of basic, complex and qualitative; stochastic kinds are basic. */
  lemma Classification(t: TypeVar)
    ensures t.IsBasic() || t.IsComplex() || t.IsQualitative()
    ensures !(t.IsBasic() && t.IsComplex()) && !(t.IsBasic() && t.IsQualitative())
    ensures !(t.IsComplex() && t.IsQualitative())
    ensures t.IsStochastic() ==> t.IsBasic()
    ensures !(t.IsSet() && t.IsGraph())
  {
  }

  /** A scalar variable: its identifier, its kind and its domain. */
  datatype Var<Dom> = Var(id: string, varType: TypeVar, dom: Dom)

  /** Decimal forms of the indexes. */
  function IndexStrings(indexes: seq<int>): (parts: seq<string>)
    ensures |parts| == |indexes|
  {
    seq(|indexes|, i requires 0 <= i < |indexes| => DecimalString(indexes[i]))
  }

  /** Identifier of the cell at indexes of array idArray: `idArray[i0][i1]...`. */
  function CellName(idArray: string, indexes: seq<int>): string {
    idArray + "[" + Join(IndexStrings(indexes), "][") + "]"
  }

  /** The variable built for one cell of an array. */
  function CellVar<Dom>(idArray: string, varType: TypeVar, dom: Dom, indexes: seq<int>): (x: Var<Dom>)
    ensures x.varType == varType && x.dom == dom
  {
    Var(CellName(idArray, indexes), varType, dom)
  }

  lemma DecimalStringShape(k: int)
    ensures |DecimalString(k)| > 0 && ']' !in DecimalString(k)
  {
    var d := Digits(if k < 0 then -k else k);
    assert forall i :: 0 <= i < |d| ==> d[i] != ']';
    if k < 0 {
      assert DecimalString(k) == "-" + d;
    }
  }

  /** Two cells of one array have the same identifier only if they have the same indexes. */
  lemma CellNameInjective(idArray: string, v: seq<int>, w: seq<int>)
    requires CellName(idArray, v) == CellName(idArray, w)
    ensures v == w
  {
    var pv, pw := IndexStrings(v), IndexStrings(w);
    var jv, jw := Join(pv, "]["), Join(pw, "][");
    var n := |idArray| + 1;
    assert (idArray + "[" + jv + "]")[n..n + |jv|] == jv;
    assert (idArray + "[" + jw + "]")[n..n + |jw|] == jw;
    assert jv == jw;
    forall k | 0 <= k < |v| ensures |pv[k]| > 0 && ']' !in pv[k] {
      DecimalStringShape(v[k]);
    }
    forall k | 0 <= k < |w| ensures |pw[k]| > 0 && ']' !in pw[k] {
      DecimalStringShape(w[k]);
    }
    if |v| > 0 && |w| > 0 {
      UnjoinJoin(pv);
      UnjoinJoin(pw);
      assert pv == pw;
      forall k | 0 <= k < |v| ensures v[k] == w[k] {
        DecimalRoundTrip(v[k]);
        DecimalRoundTrip(w[k]);
        assert pv[k] == pw[k];
      }
    } else if |v| > 0 {
      JoinPrefix(pv, "][");
    } else if |w| > 0 {
      JoinPrefix(pw, "][");
    }
  }
}
