/**
 * The string operations the array code relies on, with Java's meaning:
 * `indexOf` on one character, `trim`, `split("\\s+")`, the decimal form of an
 * int, and joining parts with a separator.
 */
module Text {

  /** Position of the first c in s, or -1 when s has none. */
  function IndexOf(s: string, c: char): (r: int)
    ensures -1 <= r < |s|
  {
    if |s| == 0 then -1
    else if s[0] == c then 0
    else
      var k := IndexOf(s[1..], c);
      if k == -1 then -1
      else k + 1
  }

  /** IndexOf finds the first c of s, and finds none only when s has none. */
  lemma {:induction false} IndexOfFirst(s: string, c: char)
    ensures IndexOf(s, c) == -1 <==> c !in s
    ensures IndexOf(s, c) >= 0 ==> s[IndexOf(s, c)] == c && c !in s[..IndexOf(s, c)]
  {
    if |s| > 0 && s[0] != c {
      IndexOfFirst(s[1..], c);
      var k := IndexOf(s[1..], c);
      if k >= 0 {
        assert s[..k + 1] == [s[0]] + s[1..][..k];
      } else {
        assert s == [s[0]] + s[1..];
      }
    }
  }

  /** The first c of s, found at i, is where IndexOf finds it. */
  lemma {:induction false} IndexOfAt(s: string, c: char, i: nat)
    requires i < |s| && s[i] == c && forall j :: 0 <= j < i ==> s[j] != c
    ensures IndexOf(s, c) == i
  {
    if i > 0 {
      IndexOfAt(s[1..], c, i - 1);
    }
  }

  /** Java's `trim` drops c at either end: c is a character up to U+0020. */
  predicate TrimDrops(c: char) {
    c <= ' '
  }

  function TrimStart(s: string): (r: string)
    ensures |r| <= |s| && r == s[|s| - |r|..]
    ensures r == [] || !TrimDrops(r[0])
    ensures forall i :: 0 <= i < |s| - |r| ==> TrimDrops(s[i])
  {
    if |s| > 0 && TrimDrops(s[0]) then TrimStart(s[1..]) else s
  }

  function TrimEnd(s: string): (r: string)
    ensures |r| <= |s| && r == s[..|r|]
    ensures r == [] || !TrimDrops(r[|r| - 1])
    ensures forall i :: |r| <= i < |s| ==> TrimDrops(s[i])
  {
    if |s| > 0 && TrimDrops(s[|s| - 1]) then TrimEnd(s[..|s| - 1]) else s
  }

  /**
   * Java's `trim`: the middle of s, between a start and an end made only of
   * characters up to U+0020, and neither starting nor ending with one.
   */
  function Trim(s: string): (r: string)
    ensures exists a :: TrimmedAt(s, a, r)
    ensures r == [] || (!TrimDrops(r[0]) && !TrimDrops(r[|r| - 1]))
  {
    var t := TrimStart(s);
    var r := TrimEnd(t);
    TrimMiddle(s, t, r, |s| - |t|);
    r
  }

  /** Dropping a start t from s, then an end from t, leaves the middle r of s. */
  lemma TrimMiddle(s: string, t: string, r: string, a: int)
    requires 0 <= a <= |s| && t == s[a..] && forall i :: 0 <= i < a ==> TrimDrops(s[i])
    requires t == [] || !TrimDrops(t[0])
    requires |r| <= |t| && r == t[..|r|] && forall i :: |r| <= i < |t| ==> TrimDrops(t[i])
    requires r == [] || !TrimDrops(r[|r| - 1])
    ensures TrimmedAt(s, a, r)
    ensures r == [] || (!TrimDrops(r[0]) && !TrimDrops(r[|r| - 1]))
  {
    MiddleOf(s, t, r, a);
    TrimEdges(t, r);
  }

  /** A prefix of t that keeps t's first character and ends on a kept one. */
  lemma TrimEdges(t: string, r: string)
    requires |r| <= |t| && r == t[..|r|] && (t == [] || !TrimDrops(t[0]))
    requires r == [] || !TrimDrops(r[|r| - 1])
    ensures r == [] || (!TrimDrops(r[0]) && !TrimDrops(r[|r| - 1]))
  {
    if |r| > 0 {
      assert r[0] == t[0];
    }
  }

  /** A prefix r of the suffix t = s[a..] is the middle of s when all around it is dropped. */
  lemma MiddleOf(s: string, t: string, r: string, a: int)
    requires 0 <= a <= |s| && t == s[a..] && forall i :: 0 <= i < a ==> TrimDrops(s[i])
    requires |r| <= |t| && r == t[..|r|] && forall i :: |r| <= i < |t| ==> TrimDrops(t[i])
    ensures TrimmedAt(s, a, r)
  {
    assert r == s[a..a + |r|];
    assert forall i :: a + |r| <= i < |s| ==> s[i] == t[i - a];
  }

  /** r is s[a..] up to its length, and everything of s outside it is dropped by `trim`. */
  predicate TrimmedAt(s: string, a: int, r: string) {
    && 0 <= a <= |s| - |r| && r == s[a..a + |r|]
    && (forall i :: 0 <= i < a ==> TrimDrops(s[i]))
    && (forall i :: a + |r| <= i < |s| ==> TrimDrops(s[i]))
  }

  /** The characters of the regular-expression class \s: space, and tab to carriage return. */
  predicate IsSpace(c: char) {
    c == ' ' || '\t' <= c <= '\r'
  }

  predicate NoSpace(s: string) {
    forall i :: 0 <= i < |s| ==> !IsSpace(s[i])
  }

  /** Index of the first space character of s, or |s|. */
  function WordEnd(s: string): (i: nat)
    ensures i <= |s| && NoSpace(s[..i])
    ensures i < |s| ==> IsSpace(s[i])
  {
    if |s| == 0 || IsSpace(s[0]) then 0
    else
      var k := WordEnd(s[1..]);
      assert s[..k + 1] == [s[0]] + s[1..][..k];
      k + 1
  }

  /** Index of the first non-space character of s, or |s|. */
  function SpaceEnd(s: string): (i: nat)
    ensures i <= |s| && forall j :: 0 <= j < i ==> IsSpace(s[j])
    ensures i < |s| ==> !IsSpace(s[i])
  {
    if |s| == 0 || !IsSpace(s[0]) then 0 else SpaceEnd(s[1..]) + 1
  }

  /** The pieces of s between runs of space characters, empty ones included. */
  function Pieces(s: string): (ps: seq<string>)
    ensures |ps| > 0
    ensures forall k :: 0 <= k < |ps| ==> NoSpace(ps[k])
    ensures forall k :: 0 < k < |ps| - 1 ==> ps[k] != []
    decreases |s|
  {
    var i := WordEnd(s);
    if i == |s| then [s]
    else
      var j := i + SpaceEnd(s[i..]);
      assert j > i;
      [s[..i]] + Pieces(s[j..])
  }

  /** Drops the empty strings at the end of ps. */
  function DropTrailingEmpty(ps: seq<string>): (r: seq<string>)
    ensures |r| <= |ps| && r == ps[..|r|]
    ensures r == [] || r[|r| - 1] != []
    ensures forall k :: |r| <= k < |ps| ==> ps[k] == []
  {
    if |ps| > 0 && ps[|ps| - 1] == [] then DropTrailingEmpty(ps[..|ps| - 1]) else ps
  }

  /**
   * Java's `split("\\s+")`: a string without a space character is its own only
   * token; otherwise the pieces between runs of spaces, without the empty
   * pieces at the end (so a leading run gives an empty first token).
   */
  function Split(s: string): (ts: seq<string>)
    ensures forall k :: 0 <= k < |ts| ==> NoSpace(ts[k])
    ensures forall k :: 0 < k < |ts| ==> ts[k] != []
    ensures NoSpace(s) ==> ts == [s]
  {
    if NoSpace(s) then [s]
    else
      var ps := Pieces(s);
      var r := DropTrailingEmpty(ps);
      assert forall k :: 0 <= k < |r| ==> r[k] == ps[k];
      r
  }

  /** The word ending at i: no space before i, and a space at i unless i is the end. */
  lemma WordEndAt(s: string, i: nat)
    requires i <= |s| && NoSpace(s[..i]) && (i < |s| ==> IsSpace(s[i]))
    ensures WordEnd(s) == i
  {
    var w := WordEnd(s);
    assert forall k :: 0 <= k < w ==> s[..w][k] == s[k];
    assert forall k :: 0 <= k < i ==> s[..i][k] == s[k];
  }

  /** Every character of s is a space character. */
  predicate AllSpace(s: string) {
    forall i :: 0 <= i < |s| ==> IsSpace(s[i])
  }

  /** Words to join: none holds a space, and every one but the first is non-empty. */
  predicate Words(ts: seq<string>) {
    && |ts| > 0
    && (forall k :: 0 <= k < |ts| ==> NoSpace(ts[k]))
    && (forall k :: 0 < k < |ts| ==> ts[k] != [])
  }

  /** Separators to join with: each a non-empty run of space characters. */
  predicate Runs(seps: seq<string>) {
    forall k :: 0 <= k < |seps| ==> |seps[k]| > 0 && AllSpace(seps[k])
  }

  /** The words with separator seps[k] between word k and word k + 1. */
  function Spaced(ts: seq<string>, seps: seq<string>): string
    requires |ts| > 0 && |seps| == |ts| - 1
    decreases |ts|
  {
    if |ts| == 1 then ts[0] else ts[0] + seps[0] + Spaced(ts[1..], seps[1..])
  }

  /** Spaces sep followed by a non-space: the run of spaces is sep. */
  lemma SpaceEndAt(sep: string, rest: string)
    requires |sep| > 0 && AllSpace(sep)
    requires |rest| > 0 && !IsSpace(rest[0])
    ensures SpaceEnd(sep + rest) == |sep|
  {
    assert forall k :: 0 <= k < |sep| ==> (sep + rest)[k] == sep[k];
    assert (sep + rest)[|sep|] == rest[0];
  }

  /** Joined words start with the first word. */
  lemma SpacedPrefix(ts: seq<string>, seps: seq<string>)
    requires |ts| > 0 && |seps| == |ts| - 1
    ensures |Spaced(ts, seps)| >= |ts[0]| && Spaced(ts, seps)[..|ts[0]|] == ts[0]
  {
  }

  /** A word, a run of spaces and a text that starts with a non-space: the word is the first piece. */
  lemma PiecesStep(s: string, p: string, sep: string, rest: string)
    requires s == p + sep + rest && NoSpace(p)
    requires |sep| > 0 && AllSpace(sep)
    requires |rest| > 0 && !IsSpace(rest[0])
    ensures Pieces(s) == [p] + Pieces(rest)
  {
    assert s[..|p|] == p;
    assert s[|p|] == sep[0];
    WordEndAt(s, |p|);
    assert s[|p|..] == sep + rest;
    SpaceEndAt(sep, rest);
    assert s[|p| + |sep|..] == rest;
  }

  /** A word and a trailing run of spaces: the word, then one empty piece. */
  lemma PiecesTail(s: string, p: string, tail: string)
    requires s == p + tail && NoSpace(p) && |tail| > 0 && AllSpace(tail)
    ensures Pieces(s) == [p, ""]
  {
    assert s[..|p|] == p;
    assert s[|p|] == tail[0];
    WordEndAt(s, |p|);
    assert s[|p|..] == tail;
    assert SpaceEnd(tail) == |tail|;
    assert s[|s|..] == "";
  }

  /** The piece that a trailing run of spaces leaves: one empty piece, or none without a run. */
  function TailPieces(tail: string): seq<string> {
    if tail == [] then [] else [""]
  }

  /** One word and a trailing run (maybe none). */
  lemma PiecesOne(ts: seq<string>, tail: string, s: string)
    requires |ts| == 1 && NoSpace(ts[0]) && AllSpace(tail) && s == ts[0] + tail
    ensures Pieces(s) == ts + TailPieces(tail)
  {
    if tail == [] {
      assert s == ts[0];
      assert s[..|s|] == s;
      WordEndAt(s, |s|);
    } else {
      PiecesTail(s, ts[0], tail);
    }
  }

  /** Joined words with a tail, unfolded once. */
  lemma SpacedUnfold(ts: seq<string>, seps: seq<string>, tail: string, rest: string)
    requires |ts| > 1 && |seps| == |ts| - 1 && rest == Spaced(ts[1..], seps[1..]) + tail
    ensures Spaced(ts, seps) + tail == ts[0] + seps[0] + rest
  {
  }

  /** Joined words whose first word is non-empty start with that word's first character. */
  lemma SpacedStart(ts: seq<string>, seps: seq<string>, tail: string, rest: string)
    requires |ts| > 0 && |seps| == |ts| - 1 && ts[0] != [] && rest == Spaced(ts, seps) + tail
    ensures |rest| > 0 && rest[0] == ts[0][0]
  {
    SpacedPrefix(ts, seps);
    assert Spaced(ts, seps)[..|ts[0]|][0] == ts[0][0];
  }

  /** The first word comes off, and the rest breaks as it did on its own. */
  lemma PiecesSpacedStep(ts: seq<string>, seps: seq<string>, tail: string, rest: string, x: seq<string>)
    requires Words(ts) && Runs(seps) && |ts| > 1 && |seps| == |ts| - 1
    requires rest == Spaced(ts[1..], seps[1..]) + tail && Pieces(rest) == ts[1..] + x
    ensures Pieces(Spaced(ts, seps) + tail) == ts + x
  {
    SpacedUnfold(ts, seps, tail, rest);
    assert ts[1..][0] == ts[1];
    SpacedStart(ts[1..], seps[1..], tail, rest);
    PiecesStep(Spaced(ts, seps) + tail, ts[0], seps[0], rest);
    ConsTail(ts, x);
  }

  /** The first element put back before the others. */
  lemma ConsTail(ts: seq<string>, x: seq<string>)
    requires |ts| > 0
    ensures [ts[0]] + (ts[1..] + x) == ts + x
  {
    assert [ts[0]] + ts[1..] == ts;
  }

  /**
   * Words joined by runs of spaces, then a trailing run (maybe none), break
   * back into those words, and one empty piece for a trailing run.
   */
  lemma {:induction false} PiecesSpaced(ts: seq<string>, seps: seq<string>, tail: string)
    requires Words(ts) && Runs(seps) && |seps| == |ts| - 1 && AllSpace(tail)
    ensures Pieces(Spaced(ts, seps) + tail) == ts + TailPieces(tail)
  {
    if |ts| == 1 {
      PiecesOne(ts, tail, Spaced(ts, seps) + tail);
    } else {
      PiecesSpaced(ts[1..], seps[1..], tail);
      PiecesSpacedStep(ts, seps, tail, Spaced(ts[1..], seps[1..]) + tail, TailPieces(tail));
    }
  }

  /** Dropping trailing empty pieces after a non-empty last word. */
  lemma DropAfterWord(ts: seq<string>)
    requires |ts| > 0 && ts[|ts| - 1] != []
    ensures DropTrailingEmpty(ts) == ts
    ensures DropTrailingEmpty(ts + [""]) == ts
  {
    assert (ts + [""])[..|ts|] == ts;
  }

  /**
   * Splitting words joined by runs of space characters, one run per gap, and
   * followed by a trailing run or none, gives the words back in order. Only the
   * first word may be empty, as a leading run makes it; a trailing run adds
   * nothing, unless the only word is empty.
   */
  lemma SplitSpaced(ts: seq<string>, seps: seq<string>, tail: string)
    requires Words(ts) && Runs(seps) && |seps| == |ts| - 1 && AllSpace(tail)
    requires tail == [] || ts[|ts| - 1] != []
    ensures Split(Spaced(ts, seps) + tail) == ts
  {
    var s := Spaced(ts, seps) + tail;
    if |ts| == 1 && tail == [] {
      assert s == ts[0];
    } else {
      SpacedHasSpace(ts, seps, tail, s);
      PiecesSpaced(ts, seps, tail);
      DropAfterWord(ts);
      if tail == [] {
        assert ts + [] == ts;
      }
      SplitOfPieces(s, ts);
    }
  }

  /** Two words or a trailing run put a space character in the text. */
  lemma SpacedHasSpace(ts: seq<string>, seps: seq<string>, tail: string, s: string)
    requires |ts| > 0 && Runs(seps) && |seps| == |ts| - 1 && AllSpace(tail)
    requires |ts| > 1 || tail != []
    requires s == Spaced(ts, seps) + tail
    ensures !NoSpace(s)
  {
    if |ts| > 1 {
      assert s == ts[0] + seps[0] + (Spaced(ts[1..], seps[1..]) + tail);
      assert s[|ts[0]|] == seps[0][0];
    } else {
      assert s == ts[0] + tail;
      assert s[|ts[0]|] == tail[0];
    }
  }

  /** A text with a space character splits into its pieces without the trailing empty ones. */
  lemma SplitOfPieces(s: string, ts: seq<string>)
    requires !NoSpace(s) && DropTrailingEmpty(Pieces(s)) == ts
    ensures Split(s) == ts
  {
  }

  function DigitChar(d: int): char
    requires 0 <= d < 10
  {
    "0123456789"[d]
  }

  function DigitValue(c: char): int {
    if '0' <= c <= '9' then c as int - '0' as int else 0
  }

  predicate IsDigits(s: string) {
    |s| > 0 && forall i :: 0 <= i < |s| ==> '0' <= s[i] <= '9'
  }

  /** Decimal digits of n, most significant first. */
  function Digits(n: nat): (s: string)
    ensures IsDigits(s)
  {
    if n < 10 then [DigitChar(n)] else Digits(n / 10) + [DigitChar(n % 10)]
  }

  /** Value of a string of decimal digits. */
  function DigitsValue(s: string): int {
    if |s| == 0 then 0 else DigitsValue(s[..|s| - 1]) * 10 + DigitValue(s[|s| - 1])
  }

  /** Java's decimal form of an int: a minus sign before the digits of a negative one. */
  function DecimalString(k: int): string {
    if k < 0 then "-" + Digits(-k) else Digits(k)
  }

  /** Reads back a string written by DecimalString. */
  function DecimalValue(s: string): int {
    if |s| > 0 && s[0] == '-' then -DigitsValue(s[1..]) else DigitsValue(s)
  }

  lemma {:induction false} DigitsRoundTrip(n: nat)
    ensures DigitsValue(Digits(n)) == n
  {
    var s := Digits(n);
    if n >= 10 {
      DigitsRoundTrip(n / 10);
      assert s[..|s| - 1] == Digits(n / 10);
    }
  }

  /** A minus sign before digits reads as the opposite of their value. */
  lemma MinusValue(d: string)
    requires IsDigits(d)
    ensures DecimalValue("-" + d) == -DigitsValue(d)
  {
    var t := "-" + d;
    assert t[0] == '-';
    assert t[1..] == d;
  }

  /** Digits alone read as their value. */
  lemma PlainValue(d: string)
    requires IsDigits(d)
    ensures DecimalValue(d) == DigitsValue(d)
  {
    assert '0' <= d[0];
  }

  /** The decimal form of an int reads back as that int. */
  lemma DecimalRoundTrip(k: int)
    ensures DecimalValue(DecimalString(k)) == k
  {
    if k < 0 {
      var n: nat := -k;
      DigitsRoundTrip(n);
      MinusValue(Digits(n));
      assert DecimalString(k) == "-" + Digits(n);
    } else {
      DigitsRoundTrip(k);
      PlainValue(Digits(k));
    }
  }

  /** The parts joined with sep between consecutive parts. */
  function Join(parts: seq<string>, sep: string): string {
    if |parts| == 0 then ""
    else if |parts| == 1 then parts[0]
    else parts[0] + sep + Join(parts[1..], sep)
  }

  /** Joined parts start with the first part. */
  lemma JoinPrefix(parts: seq<string>, sep: string)
    requires |parts| > 0
    ensures |Join(parts, sep)| >= |parts[0]| && Join(parts, sep)[..|parts[0]|] == parts[0]
  {
  }

  /** Splits at each "][" back into the parts that Join put together. */
  function Unjoin(s: string): seq<string>
    decreases |s|
  {
    var i := IndexOf(s, ']');
    if i == -1 || i + 2 > |s| then [s] else [s[..i]] + Unjoin(s[i + 2..])
  }

  /** Joining parts free of ']' with "][" loses nothing: splitting gives them back. */
  lemma {:induction false} UnjoinJoin(parts: seq<string>)
    requires |parts| > 0
    requires forall k :: 0 <= k < |parts| ==> ']' !in parts[k]
    ensures Unjoin(Join(parts, "][")) == parts
  {
    if |parts| > 1 {
      var p := parts[0];
      var s := Join(parts, "][");
      var rest := Join(parts[1..], "][");
      assert s == p + "][" + rest;
      assert s[..|p|] == p;
      IndexOfAt(s, ']', |p|);
      assert s[|p| + 2..] == rest;
      UnjoinJoin(parts[1..]);
    } else {
      IndexOfFirst(parts[0], ']');
    }
  }
}
