/** Small facts about slicing, updating and concatenating sequences of integers. */
module SeqFacts {

  /** Two vectors that agree up to j agree before j and at j. */
  lemma PrefixAgree(cur: seq<int>, v: seq<int>, j: nat)
    requires |cur| == |v| && j < |v| && cur[..j + 1] == v[..j + 1]
    ensures cur[..j] == v[..j] && cur[j] == v[j]
  {
    assert cur[..j] == cur[..j + 1][..j];
    assert v[..j] == v[..j + 1][..j];
    assert cur[j] == cur[..j + 1][j];
  }

  /** Replacing element j leaves the elements before it and splices x before those after it. */
  lemma UpdateSlices(s: seq<int>, j: nat, x: int)
    requires j < |s|
    ensures s[j := x][..j] == s[..j]
    ensures s[j := x][j..] == [x] + s[j + 1..]
  {
    assert s[j := x][..j] == s[..j];
    assert s[j := x][j..] == [x] + s[j + 1..];
  }

  /** Concatenation is associative. */
  lemma AppendAssoc(a: seq<int>, b: seq<int>, c: seq<int>)
    ensures a + b + c == a + (b + c)
  {
  }

  /** Element j sits between the elements before it and those after it. */
  lemma SliceSplit(s: seq<int>, j: nat)
    requires j < |s|
    ensures s[j..] == [s[j]] + s[j + 1..]
  {
  }

  /** Replacing element j is splicing a new element between the elements before and after it. */
  lemma UpdateSplit(s: seq<int>, j: nat, x: int)
    requires j < |s|
    ensures s[j := x] == s[..j] + [x] + s[j + 1..]
  {
  }
}
