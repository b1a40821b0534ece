/** ColumnProjector: keeps the fixed set of column indices INCLUDED_COLUMNS, in ascending
    order, from the header and from every record; and the header's own split, which is
    java.lang.String.split(",") on one physical line. */
module ColumnProjection {
  import opened JavaText

  /** INCLUDED_COLUMNS. */
  const IncludedColumns: set<nat> := {0, 1, 2, 4, 5, 6, 9, 10, 11, 28, 29, 30, 31, 32, 33, 34, 35}

  /** The indices below `n` that are in `cols`, ascending. */
  function KeptBelow(cols: set<nat>, n: nat): (r: seq<nat>)
    ensures forall k :: 0 <= k < |r| ==> r[k] < n
  {
    if n == 0 then [] else KeptBelow(cols, n - 1) + (if n - 1 in cols then [n - 1] else [])
  }

  /** The included column indices below `n`: the indices filterIncludedColumns keeps
      from a row of `n` fields. */
  function IncludedBelow(n: nat): (r: seq<nat>)
    ensures forall k :: 0 <= k < |r| ==> r[k] < n
  {
    KeptBelow(IncludedColumns, n)
  }

  /** The fields at the given indices, in that order. */
  function Pick(fields: seq<string>, indices: seq<nat>): seq<string>
    requires forall k :: 0 <= k < |indices| ==> indices[k] < |fields|
  {
    seq(|indices|, k requires 0 <= k < |indices| => fields[indices[k]])
  }

  /** What filterIncludedColumns returns. */
  function Project(fields: seq<string>): seq<string> {
    Pick(fields, IncludedBelow(|fields|))
  }

  method FilterIncludedColumns(allFields: seq<string>) returns (filtered: seq<string>)
    ensures filtered == Project(allFields)
  {
    filtered := [];
    for i := 0 to |allFields|
      invariant filtered == Pick(allFields, IncludedBelow(i))
    {
      PickKeptSnoc(allFields, IncludedColumns, i);
      if i in IncludedColumns {
        filtered := filtered + [allFields[i]];
      }
    }
  }

  /** Looking at one more field adds it at the end when its index is kept. */
  lemma PickKeptSnoc(fields: seq<string>, cols: set<nat>, n: nat)
    requires n < |fields|
    ensures Pick(fields, KeptBelow(cols, n + 1)) ==
            Pick(fields, KeptBelow(cols, n)) + (if n in cols then [fields[n]] else [])
  {
    var before := KeptBelow(cols, n);
    if n in cols {
      assert KeptBelow(cols, n + 1) == before + [n];
      assert Pick(fields, before + [n])[..|before|] == Pick(fields, before);
    } else {
      assert KeptBelow(cols, n + 1) == before + [];
      assert before + [] == before;
    }
  }

  /** filterIncludedColumns keeps exactly the included indices that the row has, each
      once, in ascending order. */
  lemma IncludedBelowExactly(n: nat)
    ensures forall i :: i in IncludedBelow(n) <==> i < n && i in IncludedColumns
    ensures forall j, k :: 0 <= j < k < |IncludedBelow(n)| ==> IncludedBelow(n)[j] < IncludedBelow(n)[k]
  {
    KeptBelowExactly(IncludedColumns, n);
  }

  lemma {:induction false} KeptBelowExactly(cols: set<nat>, n: nat)
    ensures forall i :: i in KeptBelow(cols, n) <==> i < n && i in cols
    ensures forall j, k :: 0 <= j < k < |KeptBelow(cols, n)| ==> KeptBelow(cols, n)[j] < KeptBelow(cols, n)[k]
  {
    if n > 0 {
      KeptBelowExactly(cols, n - 1);
    }
  }

  /** In ascending order, the included columns are these seventeen. */
  const IncludedInOrder: seq<nat> := [0, 1, 2, 4, 5, 6, 9, 10, 11, 28, 29, 30, 31, 32, 33, 34, 35]

  lemma IncludedBelowAll()
    ensures IncludedBelow(36) == IncludedInOrder
  {
    var upTo32 := [0, 1, 2, 4, 5, 6, 9, 10, 11, 28, 29, 30, 31];
    IncludedBelowThirtyTwo();
    assert IncludedBelow(33) == upTo32 + [32];
    assert IncludedBelow(34) == upTo32 + [32, 33];
    assert IncludedBelow(35) == upTo32 + [32, 33, 34];
  }

  lemma IncludedBelowThirtyTwo()
    ensures IncludedBelow(32) == [0, 1, 2, 4, 5, 6, 9, 10, 11, 28, 29, 30, 31]
  {
    var upTo12 := [0, 1, 2, 4, 5, 6, 9, 10, 11];
    IncludedBelowTwentyEight();
    assert IncludedBelow(29) == upTo12 + [28];
    assert IncludedBelow(30) == upTo12 + [28, 29];
    assert IncludedBelow(31) == upTo12 + [28, 29, 30];
  }

  lemma IncludedBelowTwentyEight()
    ensures IncludedBelow(28) == [0, 1, 2, 4, 5, 6, 9, 10, 11]
  {
    IncludedBelowTwelve();
    NothingIncludedBetween(12, 28);
  }

  lemma IncludedBelowTwelve()
    ensures IncludedBelow(12) == [0, 1, 2, 4, 5, 6, 9, 10, 11]
  {
    assert IncludedBelow(1) == [0];
    assert IncludedBelow(2) == [0, 1];
    assert IncludedBelow(3) == [0, 1, 2];
    assert IncludedBelow(4) == [0, 1, 2];
    assert IncludedBelow(5) == [0, 1, 2, 4];
    assert IncludedBelow(6) == [0, 1, 2, 4, 5];
    assert IncludedBelow(7) == [0, 1, 2, 4, 5, 6];
    assert IncludedBelow(8) == [0, 1, 2, 4, 5, 6];
    assert IncludedBelow(9) == [0, 1, 2, 4, 5, 6];
    assert IncludedBelow(10) == [0, 1, 2, 4, 5, 6, 9];
    assert IncludedBelow(11) == [0, 1, 2, 4, 5, 6, 9, 10];
  }

  lemma {:induction false} NothingIncludedBetween(m: nat, n: nat)
    requires m <= n
    requires forall i :: m <= i < n ==> i !in IncludedColumns
    ensures IncludedBelow(n) == IncludedBelow(m)
    decreases n - m
  {
    if m < n {
      NothingIncludedBetween(m, n - 1);
    }
  }

  lemma {:induction false} IncludedBelowGrows(m: nat, n: nat)
    requires m <= n
    ensures |IncludedBelow(m)| <= |IncludedBelow(n)|
    ensures IncludedBelow(m) == IncludedBelow(n)[..|IncludedBelow(m)|]
    decreases n - m
  {
    if m < n {
      IncludedBelowGrows(m, n - 1);
    }
  }

  /** The projection keeps at most 17 fields; the k-th one is the field at the k-th
      included index; a row of 36 or more fields keeps exactly 17; column 0 always
      survives and comes first. */
  lemma ProjectShape(fields: seq<string>)
    ensures |Project(fields)| <= 17 &&
            forall k :: 0 <= k < |Project(fields)| ==>
              IncludedInOrder[k] < |fields| && Project(fields)[k] == fields[IncludedInOrder[k]]
    ensures |fields| >= 36 ==> |Project(fields)| == 17
    ensures |fields| >= 1 ==> |Project(fields)| >= 1 && Project(fields)[0] == fields[0]
  {
    var below := IncludedBelow(|fields|);
    IncludedPrefix(|fields|);
    assert forall k :: 0 <= k < |below| ==> below[k] == IncludedInOrder[k];
  }

  /** The included indices below `n` are a prefix of the seventeen, all of them from 36
      on, and never none once column 0 is there. */
  lemma IncludedPrefix(n: nat)
    ensures |IncludedBelow(n)| <= 17 && IncludedBelow(n) == IncludedInOrder[..|IncludedBelow(n)|]
    ensures n >= 36 ==> |IncludedBelow(n)| == 17
    ensures n >= 1 ==> |IncludedBelow(n)| >= 1
  {
    IncludedBelowAll();
    if n <= 36 {
      IncludedBelowGrows(n, 36);
    } else {
      NothingIncludedBetween(36, n);
    }
    if n >= 1 {
      IncludedBelowGrows(1, n);
      assert IncludedBelow(1) == [0];
    }
  }

  /** All the pieces of `s` between occurrences of `c`, empty ones included. */
  function SplitAll(s: string, c: char): (r: seq<string>)
    ensures r != []
    decreases |s|
  {
    if c !in s then [s]
    else
      IndexOfFirst(s, c);
      var i := IndexOf(s, c);
      [s[..i]] + SplitAll(s[i + 1..], c)
  }

  /** `parts` without its trailing empty strings. */
  function DropTrailingEmpty(parts: seq<string>): (r: seq<string>)
    ensures |r| <= |parts| && r == parts[..|r|]
    ensures r == [] || r[|r| - 1] != ""
    ensures forall k :: |r| <= k < |parts| ==> parts[k] == ""
  {
    if parts == [] || parts[|parts| - 1] != "" then parts
    else DropTrailingEmpty(parts[..|parts| - 1])
  }

  /** String.split with a one-char pattern and no limit: the string itself when the
      char does not occur, otherwise the pieces without the trailing empty ones. */
  function JavaSplit(s: string, c: char): seq<string> {
    if c !in s then [s] else DropTrailingEmpty(SplitAll(s, c))
  }

  lemma {:induction false} SplitAllJoin(parts: seq<string>, c: char)
    requires parts != []
    requires forall k :: 0 <= k < |parts| ==> c !in parts[k]
    ensures SplitAll(Join(parts, [c]), c) == parts
  {
    if |parts| > 1 {
      var rest := parts[1..];
      JoinCons(parts[0], rest, [c]);
      assert [parts[0]] + rest == parts;
      var s := Join(parts, [c]);
      assert s == parts[0] + [c] + Join(rest, [c]);
      assert s[|parts[0]|] == c;
      assert s[..|parts[0]|] == parts[0];
      IndexOfFirst(s, c);
      assert s[..|parts[0]|] == parts[0] && c !in parts[0];
      assert IndexOf(s, c) == |parts[0]|;
      assert s[|parts[0]| + 1..] == Join(rest, [c]);
      SplitAllJoin(rest, c);
    }
  }

  /** A header line written as names joined by commas splits back into those names, as
      long as no name holds a comma and the last name (of two or more) is not empty. */
  lemma HeaderSplitRoundTrip(names: seq<string>)
    requires names != []
    requires forall k :: 0 <= k < |names| ==> ',' !in names[k]
    requires |names| > 1 ==> names[|names| - 1] != ""
    ensures JavaSplit(Join(names, ","), ',') == names
  {
    SplitAllJoin(names, ',');
    assert "," == [','];
    if |names| > 1 {
      var n := |names| - 1;
      assert Join(names, ",") == Join(names[..n], ",") + "," + names[n];
      assert Join(names, ",")[|Join(names[..n], ",")|] == ',';
    }
  }
}
