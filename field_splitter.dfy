/** FieldSplitter: splits one logical record into fields at the commas met while the
    square-bracket depth is zero. Brackets stay in the field text; double quotes are
    not looked at, so a comma inside quoted text at depth zero still splits. */
module FieldSplitter {
  import opened JavaText
  import opened Scanning

  /** The loop state of parseLine: bracket depth, the field being built, the fields done. */
  datatype SplitState = SplitState(level: int, field: string, fields: seq<string>)

  const SplitStart := SplitState(0, "", [])

  function SplitStep(st: SplitState, c: char): SplitState {
    if c == '[' then st.(level := st.level + 1, field := st.field + [c])
    else if c == ']' then st.(level := st.level - 1, field := st.field + [c])
    else if c == ',' && st.level == 0 then st.(field := "", fields := st.fields + [Trim(st.field)])
    else st.(field := st.field + [c])
  }

  /** The fields parseLine returns for `line`. */
  function SplitFields(line: string): seq<string> {
    var st := Fold(SplitStep, SplitStart, line);
    st.fields + [Trim(st.field)]
  }

  method ParseLine(line: string) returns (fields: seq<string>)
    ensures fields == SplitFields(line)
  {
    fields := [];
    var field := "";
    var bracketLevel := 0;
    for i := 0 to |line|
      invariant Fold(SplitStep, SplitStart, line[..i]) == SplitState(bracketLevel, field, fields)
    {
      FoldStep(SplitStep, SplitStart, line, i);
      var character := line[i];
      if character == '[' {
        bracketLevel := bracketLevel + 1;
        field := field + [character];
      } else if character == ']' {
        bracketLevel := bracketLevel - 1;
        field := field + [character];
      } else if character == ',' && bracketLevel == 0 {
        fields := fields + [Trim(field)];
        field := "";
      } else {
        field := field + [character];
      }
    }
    assert line[..|line|] == line;
    fields := fields + [Trim(field)];
  }

  /** The bracket depth after `s`: one up per '[', one down per ']'; it may go negative. */
  function Level(s: string): int {
    Count(s, '[') - Count(s, ']')
  }

  /** The number of commas of `s` met at bracket depth exactly zero. */
  function TopCommas(s: string): nat {
    if s == [] then 0
    else TopCommas(s[..|s| - 1]) + (if s[|s| - 1] == ',' && Level(s[..|s| - 1]) == 0 then 1 else 0)
  }

  ghost predicate AllTrimmed(fields: seq<string>) {
    forall k :: 0 <= k < |fields| ==> IsTrimmed(fields[k])
  }

  lemma {:induction false} SplitScanState(s: string)
    ensures Fold(SplitStep, SplitStart, s).level == Level(s)
    ensures |Fold(SplitStep, SplitStart, s).fields| == TopCommas(s)
    ensures AllTrimmed(Fold(SplitStep, SplitStart, s).fields)
  {
    if s != [] {
      var n := |s| - 1;
      SplitScanState(s[..n]);
      FoldStep(SplitStep, SplitStart, s, n);
      assert s[..n + 1] == s;
    }
  }

  /** parseLine returns one field more than there are commas at depth zero, every one trimmed. */
  lemma {:induction false} FieldCount(line: string)
    ensures |SplitFields(line)| == TopCommas(line) + 1
    ensures AllTrimmed(SplitFields(line))
  {
    var st := Fold(SplitStep, SplitStart, line);
    SplitScanState(line);
    assert SplitFields(line) == st.fields + [Trim(st.field)];
  }

  /** A well-formed field: its brackets balance and it has no comma at depth zero. */
  predicate Cell(f: string) {
    Level(f) == 0 && TopCommas(f) == 0
  }

  /** A field that survives a join and a split unchanged: well-formed and trimmed. */
  predicate Splittable(f: string) {
    Cell(f) && IsTrimmed(f)
  }

  ghost predicate AllSplittable(fields: seq<string>) {
    forall k {:trigger Splittable(fields[k])} :: 0 <= k < |fields| ==> Splittable(fields[k])
  }

  lemma {:induction false} CellScan(f: string, done: seq<string>)
    requires TopCommas(f) == 0
    ensures Fold(SplitStep, SplitState(0, "", done), f) == SplitState(Level(f), f, done)
  {
    if f != [] {
      var n := |f| - 1;
      assert f[..n + 1] == f;
      CellScan(f[..n], done);
      FoldStep(SplitStep, SplitState(0, "", done), f, n);
    }
  }

  lemma {:induction false} JoinScan(fields: seq<string>)
    requires fields != []
    requires AllSplittable(fields)
    ensures Fold(SplitStep, SplitStart, Join(fields, ",")) ==
            SplitState(0, fields[|fields| - 1], fields[..|fields| - 1])
  {
    var n := |fields| - 1;
    if n == 0 {
      assert Splittable(fields[0]);
      CellScan(fields[0], []);
    } else {
      var init := fields[..n];
      assert AllSplittable(init) by {
        forall k | 0 <= k < |init|
          ensures Splittable(init[k])
        {
          assert init[k] == fields[k] && Splittable(fields[k]);
        }
      }
      JoinScan(init);
      InitLast(init);
      assert Splittable(init[n - 1]) && Splittable(fields[n]) by {
        assert init[n - 1] == fields[n - 1] && Splittable(fields[n - 1]);
      }
      FoldAppend(SplitStep, SplitStart, Join(init, ",") + ",", fields[n]);
      FoldAppend(SplitStep, SplitStart, Join(init, ","), ",");
      TrimKeepsTrimmed(init[n - 1]);
      CellScan(fields[n], init);
    }
  }

  /** Splitting the comma-join of well-formed trimmed fields gives those fields back:
      commas inside brackets never separate fields. */
  lemma {:induction false} JoinThenSplit(fields: seq<string>)
    requires fields != []
    requires AllSplittable(fields)
    ensures SplitFields(Join(fields, ",")) == fields
  {
    var n := |fields| - 1;
    JoinScan(fields);
    assert Splittable(fields[n]);
    TrimKeepsTrimmed(fields[n]);
    InitLast(fields);
  }

  /** Text without brackets or commas is a well-formed field. */
  lemma {:induction false} FlatCell(s: string)
    requires '[' !in s && ']' !in s && ',' !in s
    ensures Cell(s)
  {
    CountAbsent(s, '[');
    CountAbsent(s, ']');
    if s != [] {
      FlatCell(s[..|s| - 1]);
    }
  }

  lemma {:induction false} OpenBracketHidesCommas(t: string)
    requires '[' !in t && ']' !in t
    ensures Level("[" + t) == 1 && TopCommas("[" + t) == 0
  {
    CountAppend("[", t, '[');
    CountAppend("[", t, ']');
    CountAbsent(t, '[');
    CountAbsent(t, ']');
    assert "[" == [] + ['['];
    if t != [] {
      var n := |t| - 1;
      assert ("[" + t)[..|"[" + t| - 1] == "[" + t[..n];
      OpenBracketHidesCommas(t[..n]);
    }
  }

  /** Commas inside one bracket pair never separate fields: "[" + t + "]" is a well-formed field. */
  lemma BracketedCell(t: string)
    requires '[' !in t && ']' !in t
    ensures Cell("[" + t + "]")
  {
    OpenBracketHidesCommas(t);
    CountAppend("[" + t, "]", '[');
    CountAppend("[" + t, "]", ']');
    assert ("[" + t + "]")[..|"[" + t + "]"| - 1] == "[" + t;
  }

  /** A comma inside brackets stays in its field. */
  lemma BracketedCommaStays()
    ensures SplitFields("a,[1,2,3],b") == ["a", "[1,2,3]", "b"]
  {
    var fields := ["a", "[1,2,3]", "b"];
    FlatCell("a");
    FlatCell("b");
    BracketedCell("1,2,3");
    assert "[" + "1,2,3" + "]" == "[1,2,3]";
    assert Join(fields, ",") == "a,[1,2,3],b" by {
      assert fields[..2] == ["a", "[1,2,3]"];
      assert fields[..2][..1] == ["a"];
    }
    JoinThenSplit(fields);
  }

  /** Double quotes do not protect a comma: a quoted "x,y" is cut in two. */
  lemma QuotedCommaSplits()
    ensures SplitFields("\"x,y\",z") == ["\"x", "y\"", "z"]
  {
    var fields := ["\"x", "y\"", "z"];
    FlatCell("\"x");
    FlatCell("y\"");
    FlatCell("z");
    assert IsTrimmed("\"x") && IsTrimmed("y\"") && IsTrimmed("z");
    assert Join(fields, ",") == "\"x,y\",z" by {
      assert fields[..2] == ["\"x", "y\""];
      assert fields[..2][..1] == ["\"x"];
    }
    JoinThenSplit(fields);
  }
}
