/** RecordReader: groups physical lines into logical CSV records. A double quote
    flips an "inside quotes" flag, except that a doubled quote is skipped as an
    escape; a record ends after the first line at whose end the flag is off. */
module RecordReader {
  import opened JavaText

  predicate Odd(n: int) {
    n % 2 == 1
  }

  /** The quote scan over one physical line (the inner loop of readCsvLine). */
  method ScanQuotes(line: string, inQuotes: bool) returns (r: bool)
    ensures r == (inQuotes != Odd(Count(line, '"')))
  {
    r := inQuotes;
    var i := 0;
    while i < |line|
      invariant 0 <= i <= |line|
      invariant r == (inQuotes != Odd(Count(line[..i], '"')))
    {
      assert line[..i + 1][..i] == line[..i];
      if line[i] == '"' && i + 1 < |line| && line[i + 1] == '"' {
        // a doubled quote is an escaped quote: both chars are skipped and the flag stays
        assert line[..i + 2][..i + 1] == line[..i + 1];
        i := i + 2;
      } else {
        if line[i] == '"' {
          r := !r;
        }
        i := i + 1;
      }
    }
    assert line[..i] == line;
  }

  /** The number of double quotes in a run of physical lines. */
  function QuotesIn(lines: seq<string>): nat {
    if lines == [] then 0 else QuotesIn(lines[..|lines| - 1]) + Count(lines[|lines| - 1], '"')
  }

  lemma {:induction false} QuotesInCons(line: string, lines: seq<string>)
    ensures QuotesIn([line] + lines) == Count(line, '"') + QuotesIn(lines)
  {
    if lines != [] {
      assert ([line] + lines)[..|lines|] == [line] + lines[..|lines| - 1];
      QuotesInCons(line, lines[..|lines| - 1]);
    }
  }

  /** The newlines that join the lines of a record are not quotes. */
  lemma {:induction false} QuotesInJoin(lines: seq<string>)
    ensures Count(Join(lines, "\n"), '"') == QuotesIn(lines)
  {
    if |lines| > 1 {
      var init := lines[..|lines| - 1];
      assert init[..|init| - 1] == lines[..|lines| - 2];
      QuotesInJoin(init);
      CountAppend(Join(init, "\n"), "\n", '"');
      CountAppend(Join(init, "\n") + "\n", lines[|lines| - 1], '"');
      assert Count("\n", '"') == 0 by {
        assert "\n"[..0] == [];
      }
    } else if |lines| == 1 {
      assert lines[..0] == [];
    }
  }

  /** One past the last physical line of the record whose first line is `lines[pos]`,
      scanning with the quote flag `inQuotes`; the whole input when quotes never close. */
  function RecordEnd(lines: seq<string>, pos: nat, inQuotes: bool): nat
    requires pos <= |lines|
    decreases |lines| - pos
  {
    if pos == |lines| then pos
    else
      var stillQuoted := inQuotes != Odd(Count(lines[pos], '"'));
      if !stillQuoted then pos + 1 else RecordEnd(lines, pos + 1, true)
  }

  /** The record ends at the first line after which an even number of quotes (counted
      from the record's first line) has been seen, or at the end of the input. */
  lemma {:induction false} RecordEndIsFirstClosing(lines: seq<string>, pos: nat, inQuotes: bool)
    requires pos < |lines|
    ensures pos < RecordEnd(lines, pos, inQuotes) <= |lines|
    ensures forall j :: pos < j < RecordEnd(lines, pos, inQuotes) ==>
              inQuotes != Odd(QuotesIn(lines[pos..j]))
    ensures var e := RecordEnd(lines, pos, inQuotes);
              inQuotes != Odd(QuotesIn(lines[pos..e])) ==> e == |lines|
    decreases |lines| - pos
  {
    var e := RecordEnd(lines, pos, inQuotes);
    QuotesInFront(lines, pos, pos + 1);
    assert lines[pos + 1..pos + 1] == [];
    var stillQuoted := inQuotes != Odd(Count(lines[pos], '"'));
    if stillQuoted && pos + 1 < |lines| {
      RecordEndIsFirstClosing(lines, pos + 1, true);
      forall j | pos + 1 < j <= e
        ensures (inQuotes != Odd(QuotesIn(lines[pos..j]))) == (true != Odd(QuotesIn(lines[pos + 1..j])))
      {
        QuotesInFront(lines, pos, j);
        OddSum(Count(lines[pos], '"'), QuotesIn(lines[pos + 1..j]));
      }
    }
  }

  lemma OddSum(a: nat, b: nat)
    ensures Odd(a + b) == (Odd(a) != Odd(b))
  {
  }

  /** The quotes of a run of lines are those of its first line and those of the rest. */
  lemma QuotesInFront(lines: seq<string>, pos: nat, j: nat)
    requires pos < j <= |lines|
    ensures QuotesIn(lines[pos..j]) == Count(lines[pos], '"') + QuotesIn(lines[pos + 1..j])
  {
    assert lines[pos..j] == [lines[pos]] + lines[pos + 1..j];
    QuotesInCons(lines[pos], lines[pos + 1..j]);
  }

  /** What readCsvLine returns, and the reader's position after it: null (None) at the
      end of the input and when the record's text is empty, otherwise the consumed lines
      joined by newlines, quotes kept as they are. */
  function NextRecord(lines: seq<string>, pos: nat): (r: (Option<string>, nat))
    requires pos <= |lines|
    ensures pos <= r.1 <= |lines|
    ensures r.0.Some? ==> pos < r.1
    ensures r.0.None? <==> pos == |lines| || lines[pos] == ""
  {
    if pos == |lines| then (None, pos)
    else
      var e := RecordEnd(lines, pos, false);
      RecordEndIsFirstClosing(lines, pos, false);
      var text := Join(lines[pos..e], "\n");
      JoinKeepsFirst(lines[pos..e], "\n");
      assert lines[pos] == "" ==> e == pos + 1 && lines[pos..e] == [""];
      if text == "" then (None, e) else (Some(text), e)
  }

  /** A record holds an odd number of double quotes only when its quote never closed,
      which can happen only for the last record of the input. */
  lemma RecordQuotesBalanced(lines: seq<string>, pos: nat)
    requires pos <= |lines|
    requires NextRecord(lines, pos).0.Some?
    ensures Odd(Count(NextRecord(lines, pos).0.value, '"')) ==> NextRecord(lines, pos).1 == |lines|
  {
    var e := RecordEnd(lines, pos, false);
    RecordEndIsFirstClosing(lines, pos, false);
    QuotesInJoin(lines[pos..e]);
  }
}
