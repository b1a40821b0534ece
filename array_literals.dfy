/** ArrayLiteralParser: the Python-style list literals found inside CSV fields.
    `Clean` normalises one token; a flat list yields its tokens, a list of lists
    yields one group of tokens per inner list. */
module ArrayLiterals {
  import opened JavaText
  import opened Scanning

  /** The one column whose value is a list of lists, emitted as <Sentence> groups. */
  const SentenceColumn := "LabelsLocalizationsBySentence"

  /** One `open` char dropped from the front, then one `close` char from the back. */
  function StripOuter(s: string, open: char, close: char): (r: string)
    ensures |s| - 2 <= |r| <= |s|
    ensures (s == [] || (s[0] != open && s[|s| - 1] != close)) ==> r == s
  {
    var a := if |s| > 0 && s[0] == open then s[1..] else s;
    if |a| > 0 && a[|a| - 1] == close then a[..|a| - 1] else a
  }

  /** clean: trim; drop one leading '[' and one trailing ']'; drop one leading and one
      trailing single quote; trim again; any casing of "None" becomes empty. */
  function Clean(s: string): (r: string)
    ensures IsTrimmed(r)
    ensures !EqualsIgnoreCase(r, "None")
  {
    var v := Trim(StripOuter(StripOuter(Trim(s), '[', ']'), '\'', '\''));
    if EqualsIgnoreCase(v, "None") then "" else v
  }

  /** getSubTagName: the element name of one token of a flat list. */
  function SubTagName(tagName: string): (r: string)
    ensures r != tagName
    ensures tagName !in {"Labels", "Localizations", SentenceColumn, "labelCUIS", "LocalizationsCUIS"} ==>
              r == tagName + "Item"
  {
    if tagName == "Labels" then "Label"
    else if tagName == "Localizations" then "Localization"
    else if tagName == SentenceColumn then "Sentence"
    else if tagName == "labelCUIS" then "labelCUI"
    else if tagName == "LocalizationsCUIS" then "LocalizationsCUI"
    else tagName + "Item"
  }

  /** A cleaned token that is written out: not empty, not padded, not "None". */
  predicate Emitted(v: string) {
    v != "" && IsTrimmed(v) && !EqualsIgnoreCase(v, "None")
  }

  ghost predicate AllEmitted(vs: seq<string>) {
    forall k :: 0 <= k < |vs| ==> Emitted(vs[k])
  }

  /** The cleaned token as a list of zero or one elements: empty tokens are dropped. */
  function Keep(v: string): seq<string> {
    if v == "" then [] else [v]
  }

  lemma KeepEmits(s: string)
    ensures AllEmitted(Keep(Clean(s)))
  {
  }

  // ---------------------------------------------------------------------------
  // Flat lists (handleSimpleArray)

  /** The loop state of handleSimpleArray: quote flag, current token, tokens written. */
  datatype FlatScan = FlatScan(inQuotes: bool, token: string, tokens: seq<string>)

  const FlatStart := FlatScan(false, "", [])

  function FlatStep(st: FlatScan, c: char): FlatScan {
    if c == '\'' then st.(inQuotes := !st.inQuotes)
    else if c == ',' && !st.inQuotes then FlatScan(st.inQuotes, "", st.tokens + Keep(Clean(st.token)))
    else st.(token := st.token + [c])
  }

  lemma {:induction false} FlatScanEmits(st: FlatScan, s: string)
    requires AllEmitted(st.tokens)
    ensures AllEmitted(Fold(FlatStep, st, s).tokens)
    decreases |s|
  {
    if s != [] {
      FlatStepEmits(st, s[0]);
      FlatScanEmits(FlatStep(st, s[0]), s[1..]);
    }
  }

  lemma FlatStepEmits(st: FlatScan, c: char)
    requires AllEmitted(st.tokens)
    ensures AllEmitted(FlatStep(st, c).tokens)
  {
    if c != '\'' && c == ',' && !st.inQuotes {
      KeepEmits(st.token);
      AllEmittedAppend(st.tokens, Keep(Clean(st.token)));
    }
  }

  /** The tokens handleSimpleArray writes, one element each, in this order. */
  function FlatTokens(content: string): seq<string> {
    var st := Fold(FlatStep, FlatStart, content);
    st.tokens + Keep(Clean(st.token))
  }

  /** Every token handleSimpleArray writes is non-empty, trimmed and not "None". */
  lemma FlatTokensEmitted(content: string)
    ensures AllEmitted(FlatTokens(content))
  {
    var st := Fold(FlatStep, FlatStart, content);
    FlatScanEmits(FlatStart, content);
    KeepEmits(st.token);
    AllEmittedAppend(st.tokens, Keep(Clean(st.token)));
  }

  // ---------------------------------------------------------------------------
  // Lists of lists (handleArrayOfArrays)

  /** handleArrayOfArrays trims a token before cleaning it; cleaning trims first anyway,
      so the step below cleans the token as it stands. */
  lemma CleanIgnoresTrim(s: string)
    ensures Clean(Trim(s)) == Clean(s)
  {
    TrimKeepsTrimmed(Trim(s));
  }

  /** The loop state of handleArrayOfArrays: quote flag, bracket depth, current token,
      the tokens of the current inner list, and the groups written so far. */
  datatype NestedScan = NestedScan(inQuotes: bool, depth: int, token: string,
                                   group: seq<string>, groups: seq<seq<string>>)

  const NestedStart := NestedScan(false, 0, "", [], [])

  function NestedStep(st: NestedScan, c: char): NestedScan {
    if c == '\'' then st.(inQuotes := !st.inQuotes)
    else if !st.inQuotes && c == '[' then st.(depth := st.depth + 1)
    else if !st.inQuotes && c == ']' then
      if st.depth == 2 then
        var group := st.group + Keep(Clean(st.token));
        NestedScan(false, st.depth - 1, "", [], st.groups + (if group == [] then [] else [group]))
      else st.(depth := st.depth - 1)
    else if !st.inQuotes && c == ',' && st.depth == 2 then
      st.(token := "", group := st.group + Keep(Clean(st.token)))
    else if st.depth == 2 then st.(token := st.token + [c])
    else st
  }

  /** Every group is non-empty and holds only written tokens. */
  ghost predicate GoodGroups(groups: seq<seq<string>>) {
    forall k :: 0 <= k < |groups| ==> groups[k] != [] && AllEmitted(groups[k])
  }

  lemma AllEmittedAppend(a: seq<string>, b: seq<string>)
    requires AllEmitted(a) && AllEmitted(b)
    ensures AllEmitted(a + b)
  {
  }

  lemma GoodGroupsAppend(gs: seq<seq<string>>, g: seq<string>)
    requires GoodGroups(gs) && AllEmitted(g)
    ensures GoodGroups(gs + (if g == [] then [] else [g]))
  {
  }

  lemma NestedStepGroups(st: NestedScan, c: char)
    requires AllEmitted(st.group) && GoodGroups(st.groups)
    ensures AllEmitted(NestedStep(st, c).group) && GoodGroups(NestedStep(st, c).groups)
  {
    var flushed := st.group + Keep(Clean(st.token));
    KeepEmits(st.token);
    AllEmittedAppend(st.group, Keep(Clean(st.token)));
    if c == '\'' {
    } else if !st.inQuotes && c == '[' {
    } else if !st.inQuotes && c == ']' {
      if st.depth == 2 {
        GoodGroupsAppend(st.groups, flushed);
        assert NestedStep(st, c).groups == st.groups + (if flushed == [] then [] else [flushed]);
        assert NestedStep(st, c).group == [];
      }
    } else if !st.inQuotes && c == ',' && st.depth == 2 {
      assert NestedStep(st, c).group == flushed;
    }
  }

  lemma {:induction false} NestedScanGroups(st: NestedScan, s: string)
    requires AllEmitted(st.group) && GoodGroups(st.groups)
    ensures GoodGroups(Fold(NestedStep, st, s).groups)
    decreases |s|
  {
    if s != [] {
      NestedStepGroups(st, s[0]);
      NestedScanGroups(NestedStep(st, s[0]), s[1..]);
    }
  }

  /** The groups handleArrayOfArrays writes as <Sentence> elements, in this order:
      first token the label, the others the localizations. */
  function NestedGroups(content: string): seq<seq<string>> {
    Fold(NestedStep, NestedStart, content).groups
  }

  /** Every <Sentence> handleArrayOfArrays writes has a label, and every token in it is
      non-empty, trimmed and not "None". */
  lemma NestedGroupsGood(content: string)
    ensures GoodGroups(NestedGroups(content))
  {
    NestedScanGroups(NestedStart, content);
  }

  // ---------------------------------------------------------------------------
  // Writing lists back out, and reading them again

  /** A token that survives quoting unchanged: no single quote, no padding, and no
      bracket at the edge that `Clean` would strip. */
  predicate Plain(x: string) {
    '\'' !in x && IsTrimmed(x) && (x != [] ==> x[0] != '[' && x[|x| - 1] != ']')
  }

  /** Tokens that cleaning empties: the empty one and any casing of "None". */
  predicate Dropped(x: string) {
    x == "" || EqualsIgnoreCase(x, "None")
  }

  /** A separator as a list literal writes it: a comma, then blanks. */
  predicate Separator(sep: string) {
    |sep| >= 1 && sep[0] == ',' && AllTrimmable(sep[1..])
  }

  function Quoted(x: string): string {
    "'" + x + "'"
  }

  function JoinQuoted(xs: seq<string>, sep: string): string {
    if |xs| == 0 then ""
    else if |xs| == 1 then Quoted(xs[0])
    else JoinQuoted(xs[..|xs| - 1], sep) + sep + Quoted(xs[|xs| - 1])
  }

  /** A flat list literal, such as ['a', 'b']. */
  function RenderFlat(xs: seq<string>, sep: string): string {
    "[" + JoinQuoted(xs, sep) + "]"
  }

  function JoinLists(groups: seq<seq<string>>, innerSep: string, outerSep: string): string {
    if |groups| == 0 then ""
    else if |groups| == 1 then RenderFlat(groups[0], innerSep)
    else JoinLists(groups[..|groups| - 1], innerSep, outerSep) + outerSep + RenderFlat(groups[|groups| - 1], innerSep)
  }

  /** A list of lists, such as [['a', 'b'], ['c']]. */
  function RenderNested(groups: seq<seq<string>>, innerSep: string, outerSep: string): string {
    "[" + JoinLists(groups, innerSep, outerSep) + "]"
  }

  lemma {:induction false} JoinQuotedLength(xs: seq<string>, sep: string)
    ensures xs != [] ==> |JoinQuoted(xs, sep)| >= 2
    ensures xs == [] ==> JoinQuoted(xs, sep) == ""
  {
    if |xs| > 1 {
      JoinQuotedLength(xs[..|xs| - 1], sep);
    }
  }

  /** A rendered list is bracketed, and is "[]" only when it has no element. */
  lemma RenderFlatShape(xs: seq<string>, sep: string)
    ensures var r := RenderFlat(xs, sep);
            |r| >= 2 && r[0] == '[' && r[|r| - 1] == ']' && (r == "[]" <==> xs == [])
  {
    JoinQuotedLength(xs, sep);
    assert "[" + "" + "]" == "[]";
  }

  lemma {:induction false} JoinListsLength(gs: seq<seq<string>>, innerSep: string, outerSep: string)
    ensures gs != [] ==> |JoinLists(gs, innerSep, outerSep)| >= 2
    ensures gs == [] ==> JoinLists(gs, innerSep, outerSep) == ""
  {
    if |gs| > 1 {
      JoinListsLength(gs[..|gs| - 1], innerSep, outerSep);
    } else if |gs| == 1 {
      RenderFlatShape(gs[0], innerSep);
    }
  }

  lemma RenderNestedShape(gs: seq<seq<string>>, innerSep: string, outerSep: string)
    ensures var r := RenderNested(gs, innerSep, outerSep);
            |r| >= 2 && r[0] == '[' && r[|r| - 1] == ']' && (r == "[]" <==> gs == [])
  {
    JoinListsLength(gs, innerSep, outerSep);
    assert "[" + "" + "]" == "[]";
  }

  /** The tokens that are not dropped, in order. */
  function Survivors(xs: seq<string>): seq<string> {
    if xs == [] then []
    else Survivors(xs[..|xs| - 1]) + (if Dropped(xs[|xs| - 1]) then [] else [xs[|xs| - 1]])
  }

  /** The non-empty survivor lists, in order. */
  function Groups(groups: seq<seq<string>>): seq<seq<string>> {
    if groups == [] then []
    else
      var last := Survivors(groups[|groups| - 1]);
      Groups(groups[..|groups| - 1]) + (if last == [] then [] else [last])
  }

  ghost predicate AllPlain(xs: seq<string>) {
    forall k :: 0 <= k < |xs| ==> Plain(xs[k])
  }

  /** Cleaning a plain token, with an opening bracket or blanks in front and possibly a
      closing bracket behind, gives the token back, or empty if it is dropped. */
  lemma TrimPlain(p: string, x: string, q: string)
    requires Plain(x)
    requires p == "[" || AllTrimmable(p)
    requires q == "" || q == "]"
    ensures Trim(p + x + q) == if p == "[" then p + x + q else x + q
  {
    assert IsTrimmed(x + q);
    if p == "[" {
      assert p + x + q == "[" + (x + q);
      TrimKeepsTrimmed(p + x + q);
    } else {
      assert p + x + q == p + (x + q);
      TrimSkipsLeadingSpace(p, x + q);
      TrimKeepsTrimmed(x + q);
    }
  }

  /** StripOuter in two steps: the front first, then the back of what is left. */
  lemma StripOuterSteps(s: string, open: char, close: char, a: string)
    requires a == if |s| > 0 && s[0] == open then s[1..] else s
    ensures StripOuter(s, open, close) == if |a| > 0 && a[|a| - 1] == close then a[..|a| - 1] else a
  {
  }

  /** A plain token loses an opening bracket in front and a closing one behind. */
  lemma StripPlain(p: string, x: string, q: string)
    requires Plain(x)
    requires p == "[" || p == ""
    requires q == "" || q == "]"
    ensures StripOuter(p + x + q, '[', ']') == x
  {
    var s := p + x + q;
    var a := x + q;
    if p == "[" {
      assert s[0] == '[' && s[1..] == a;
    } else if x == [] {
      assert s == a && a == q;
    } else {
      assert s == a && a[0] == x[0];
    }
    StripOuterSteps(s, '[', ']', a);
    if q == "]" {
      assert a[|a| - 1] == ']' && a[..|a| - 1] == x;
    } else {
      assert a == x;
    }
  }

  /** A plain token has no quote to lose. */
  lemma StripQuotesPlain(x: string)
    requires Plain(x)
    ensures StripOuter(x, '\'', '\'') == x
  {
    if x != [] {
      assert x[0] in x && x[|x| - 1] in x;
    }
  }

  lemma CleanOf(s: string, x: string)
    requires Trim(StripOuter(StripOuter(Trim(s), '[', ']'), '\'', '\'')) == x
    ensures Clean(s) == if Dropped(x) then "" else x
  {
  }

  lemma CleanPlain(p: string, x: string, q: string)
    requires Plain(x)
    requires p == "[" || AllTrimmable(p)
    requires q == "" || q == "]"
    ensures Clean(p + x + q) == if Dropped(x) then "" else x
  {
    var t := Trim(p + x + q);
    TrimPlain(p, x, q);
    if p == "[" {
      StripPlain(p, x, q);
    } else {
      StripPlain("", x, q);
      assert "" + x + q == x + q;
    }
    assert StripOuter(t, '[', ']') == x;
    StripQuotesPlain(x);
    TrimKeepsTrimmed(x);
    assert Trim(StripOuter(StripOuter(t, '[', ']'), '\'', '\'')) == x;
    CleanOf(p + x + q, x);
  }

  // Flat lists

  /** Flushing a plain token with an opening bracket or blanks in front. */
  lemma FlushPlain(p: string, x: string)
    requires Plain(x)
    requires p == "[" || AllTrimmable(p)
    ensures Keep(Clean(p + x)) == if Dropped(x) then [] else [x]
  {
    CleanPlain(p, x, "");
    assert p + x + "" == p + x;
  }

  lemma FlatOpen()
    ensures Fold(FlatStep, FlatStart, "[") == FlatScan(false, "[", [])
  {
    FoldOne(FlatStep, FlatStart, '[');
  }

  lemma FlatComma(t: string, done: seq<string>)
    ensures Fold(FlatStep, FlatScan(false, t, done), ",") == FlatScan(false, "", done + Keep(Clean(t)))
  {
    FoldOne(FlatStep, FlatScan(false, t, done), ',');
  }

  lemma FlatClose(t: string, done: seq<string>)
    ensures Fold(FlatStep, FlatScan(false, t, done), "]") == FlatScan(false, t + "]", done)
  {
    FoldOne(FlatStep, FlatScan(false, t, done), ']');
  }

  lemma {:induction false} FlatAppendRun(st: FlatScan, s: string)
    requires '\'' !in s
    requires st.inQuotes || ',' !in s
    ensures Fold(FlatStep, st, s) == st.(token := st.token + s)
    decreases |s|
  {
    if s == [] {
      assert st.token + s == st.token;
    } else {
      FlatAppendRun(FlatStep(st, s[0]), s[1..]);
      assert st.token + [s[0]] + s[1..] == st.token + s;
    }
  }

  lemma FlatQuotedRun(t: string, done: seq<string>, x: string)
    requires '\'' !in x
    ensures Fold(FlatStep, FlatScan(false, t, done), Quoted(x)) == FlatScan(false, t + x, done)
  {
    var st := FlatScan(false, t, done);
    FoldOne(FlatStep, st, '\'');
    FoldAppend(FlatStep, st, "'", x);
    FlatAppendRun(FlatScan(true, t, done), x);
    FoldAppend(FlatStep, st, "'" + x, "'");
    FoldOne(FlatStep, FlatScan(true, t + x, done), '\'');
  }

  lemma SeparatorChars(sep: string)
    requires Separator(sep)
    ensures '\'' !in sep[1..] && ',' !in sep[1..] && '[' !in sep[1..] && ']' !in sep[1..]
    ensures sep == "," + sep[1..]
    ensures '\'' !in sep && '[' !in sep && ']' !in sep
  {
    assert sep == [sep[0]] + sep[1..];
  }

  lemma {:induction false} FlatRun(xs: seq<string>, sep: string)
    requires xs != [] && AllPlain(xs) && Separator(sep)
    ensures Fold(FlatStep, FlatStart, "[" + JoinQuoted(xs, sep)) ==
            FlatScan(false, (if |xs| == 1 then "[" else sep[1..]) + xs[|xs| - 1], Survivors(xs[..|xs| - 1]))
  {
    var n := |xs| - 1;
    FlatOpen();
    if n == 0 {
      FlatQuotedRun("[", [], xs[0]);
      FoldChain(FlatStep, FlatStart, "[", FlatScan(false, "[", []), Quoted(xs[0]), FlatScan(false, "[" + xs[0], []));
    } else {
      var init := xs[..n];
      assert xs[..n] == init;
      FlatRun(init, sep);
      FlatRunStep(init, xs[n], sep);
      assert xs == init + [xs[n]];
    }
  }

  lemma FlatRunStep(init: seq<string>, last: string, sep: string)
    requires init != [] && AllPlain(init) && Plain(last) && Separator(sep)
    requires Fold(FlatStep, FlatStart, "[" + JoinQuoted(init, sep)) ==
             FlatScan(false, (if |init| == 1 then "[" else sep[1..]) + init[|init| - 1], Survivors(init[..|init| - 1]))
    ensures Fold(FlatStep, FlatStart, "[" + JoinQuoted(init + [last], sep)) ==
            FlatScan(false, sep[1..] + last, Survivors(init))
  {
    var n := |init|;
    var pad := sep[1..];
    var text := "[" + JoinQuoted(init, sep);
    var done := Survivors(init);
    var afterComma := FlatScan(false, "", done);
    assert Fold(FlatStep, FlatStart, text + ",") == afterComma by {
      var prefix := if n == 1 then "[" else pad;
      var before := FlatScan(false, prefix + init[n - 1], Survivors(init[..n - 1]));
      FlatComma(prefix + init[n - 1], Survivors(init[..n - 1]));
      FlushPlain(prefix, init[n - 1]);
      FoldChain(FlatStep, FlatStart, text, before, ",", afterComma);
    }
    assert Fold(FlatStep, FlatStart, text + "," + pad) == FlatScan(false, pad, done) by {
      SeparatorChars(sep);
      FlatAppendRun(afterComma, pad);
      assert "" + pad == pad;
      FoldChain(FlatStep, FlatStart, text + ",", afterComma, pad, FlatScan(false, pad, done));
    }
    assert Fold(FlatStep, FlatStart, text + "," + pad + Quoted(last)) == FlatScan(false, pad + last, done) by {
      FlatQuotedRun(pad, done, last);
      FoldChain(FlatStep, FlatStart, text + "," + pad, FlatScan(false, pad, done), Quoted(last), FlatScan(false, pad + last, done));
    }
    JoinQuotedSnoc(init, last, sep);
  }

  lemma JoinQuotedSnoc(init: seq<string>, last: string, sep: string)
    requires init != [] && Separator(sep)
    ensures JoinQuoted(init + [last], sep) == JoinQuoted(init, sep) + ("," + sep[1..] + Quoted(last))
    ensures "[" + JoinQuoted(init + [last], sep) == "[" + JoinQuoted(init, sep) + "," + sep[1..] + Quoted(last)
  {
    var j := JoinQuoted(init, sep);
    var q := Quoted(last);
    assert (init + [last])[..|init|] == init;
    assert JoinQuoted(init + [last], sep) == j + sep + q;
    assert sep == "," + sep[1..];
    assert j + sep + q == j + ("," + sep[1..] + q);
    assert "[" + (j + sep + q) == "[" + j + "," + sep[1..] + q;
  }

  /** Reading a flat list literal written from plain tokens gives back exactly the
      tokens that are not empty or "None", in their order. */
  lemma FlatRoundTrip(xs: seq<string>, sep: string)
    requires AllPlain(xs) && Separator(sep)
    ensures FlatTokens(RenderFlat(xs, sep)) == Survivors(xs)
  {
    FlatOpen();
    if xs == [] {
      assert RenderFlat(xs, sep) == "[" + "]";
      FlatClose("[", []);
      FoldAppend(FlatStep, FlatStart, "[", "]");
      CleanPlain("[", "", "]");
      assert "[" + "" + "]" == "[" + "]";
    } else {
      var n := |xs| - 1;
      var prefix := if n == 0 then "[" else sep[1..];
      FlatRun(xs, sep);
      FlatClose(prefix + xs[n], Survivors(xs[..n]));
      FoldAppend(FlatStep, FlatStart, "[" + JoinQuoted(xs, sep), "]");
      CleanPlain(prefix, xs[n], "]");
    }
  }

  // Lists of lists

  lemma NestedOpen(st: NestedScan)
    requires !st.inQuotes
    ensures Fold(NestedStep, st, "[") == st.(depth := st.depth + 1)
  {
    FoldOne(NestedStep, st, '[');
  }

  lemma NestedComma(t: string, group: seq<string>, groups: seq<seq<string>>)
    ensures Fold(NestedStep, NestedScan(false, 2, t, group, groups), ",") ==
            NestedScan(false, 2, "", group + Keep(Clean(t)), groups)
  {
    FoldOne(NestedStep, NestedScan(false, 2, t, group, groups), ',');
  }

  lemma NestedCloseInner(t: string, group: seq<string>, groups: seq<seq<string>>)
    ensures var g := group + Keep(Clean(t));
            Fold(NestedStep, NestedScan(false, 2, t, group, groups), "]") ==
            NestedScan(false, 1, "", [], groups + (if g == [] then [] else [g]))
  {
    FoldOne(NestedStep, NestedScan(false, 2, t, group, groups), ']');
  }

  lemma NestedCloseOuter(groups: seq<seq<string>>)
    ensures Fold(NestedStep, NestedScan(false, 1, "", [], groups), "]") == NestedScan(false, 0, "", [], groups)
  {
    FoldOne(NestedStep, NestedScan(false, 1, "", [], groups), ']');
  }

  lemma {:induction false} NestedAppendRun(st: NestedScan, s: string)
    requires st.depth == 2 && '\'' !in s
    requires st.inQuotes || ('[' !in s && ']' !in s && ',' !in s)
    ensures Fold(NestedStep, st, s) == st.(token := st.token + s)
    decreases |s|
  {
    if s == [] {
      assert st.token + s == st.token;
    } else {
      NestedAppendRun(NestedStep(st, s[0]), s[1..]);
      assert st.token + [s[0]] + s[1..] == st.token + s;
    }
  }

  lemma {:induction false} NestedIdleRun(st: NestedScan, s: string)
    requires !st.inQuotes && st.depth != 2
    requires '\'' !in s && '[' !in s && ']' !in s
    ensures Fold(NestedStep, st, s) == st
    decreases |s|
  {
    if s != [] {
      NestedIdleRun(NestedStep(st, s[0]), s[1..]);
    }
  }

  lemma NestedQuotedRun(st: NestedScan, x: string)
    requires !st.inQuotes && st.depth == 2 && '\'' !in x
    ensures Fold(NestedStep, st, Quoted(x)) == st.(token := st.token + x)
  {
    FoldOne(NestedStep, st, '\'');
    FoldAppend(NestedStep, st, "'", x);
    NestedAppendRun(st.(inQuotes := true), x);
    FoldAppend(NestedStep, st, "'" + x, "'");
    FoldOne(NestedStep, st.(inQuotes := true, token := st.token + x), '\'');
  }

  /** Flushing a plain item with blanks in front. */
  lemma FlushPaddedPlain(pad: string, x: string)
    requires Plain(x) && AllTrimmable(pad)
    ensures Keep(Clean(pad + x)) == if Dropped(x) then [] else [x]
  {
    CleanPlain(pad, x, "");
    assert pad + x + "" == pad + x;
  }

  lemma {:induction false} NestedInnerRun(xs: seq<string>, sep: string, groups: seq<seq<string>>)
    requires xs != [] && AllPlain(xs) && Separator(sep)
    ensures Fold(NestedStep, NestedScan(false, 2, "", [], groups), JoinQuoted(xs, sep)) ==
            NestedScan(false, 2, (if |xs| == 1 then "" else sep[1..]) + xs[|xs| - 1], Survivors(xs[..|xs| - 1]), groups)
  {
    var n := |xs| - 1;
    if n == 0 {
      NestedQuotedRun(NestedScan(false, 2, "", [], groups), xs[0]);
      assert "" + xs[0] == xs[0];
    } else {
      var init := xs[..n];
      assert xs[..n] == init;
      NestedInnerRun(init, sep, groups);
      NestedInnerStep(init, xs[n], sep, groups);
      assert xs == init + [xs[n]];
    }
  }

  /** After an item: the comma flushes the token, the blanks are taken into the next
      token, and the next quoted item follows them. */
  lemma NestedTail(t: string, done: seq<string>, groups: seq<seq<string>>, pad: string, last: string)
    requires '\'' !in pad && '[' !in pad && ']' !in pad && ',' !in pad && '\'' !in last
    ensures Fold(NestedStep, NestedScan(false, 2, t, done, groups), "," + pad + Quoted(last)) ==
            NestedScan(false, 2, pad + last, done + Keep(Clean(t)), groups)
  {
    var st := NestedScan(false, 2, t, done, groups);
    var afterComma := NestedScan(false, 2, "", done + Keep(Clean(t)), groups);
    NestedComma(t, done, groups);
    NestedAppendRun(afterComma, pad);
    assert "" + pad == pad;
    FoldChain(NestedStep, st, ",", afterComma, pad, afterComma.(token := pad));
    NestedQuotedRun(afterComma.(token := pad), last);
    FoldChain(NestedStep, st, "," + pad, afterComma.(token := pad), Quoted(last), afterComma.(token := pad + last));
  }

  lemma NestedInnerStep(init: seq<string>, last: string, sep: string, groups: seq<seq<string>>)
    requires init != [] && AllPlain(init) && Plain(last) && Separator(sep)
    requires Fold(NestedStep, NestedScan(false, 2, "", [], groups), JoinQuoted(init, sep)) ==
             NestedScan(false, 2, (if |init| == 1 then "" else sep[1..]) + init[|init| - 1], Survivors(init[..|init| - 1]), groups)
    ensures Fold(NestedStep, NestedScan(false, 2, "", [], groups), JoinQuoted(init + [last], sep)) ==
            NestedScan(false, 2, sep[1..] + last, Survivors(init), groups)
  {
    var n := |init|;
    var pad := sep[1..];
    var prefix := if n == 1 then "" else pad;
    SeparatorChars(sep);
    NestedTail(prefix + init[n - 1], Survivors(init[..n - 1]), groups, pad, last);
    FlushPaddedPlain(prefix, init[n - 1]);
    FoldChain(NestedStep, NestedScan(false, 2, "", [], groups), JoinQuoted(init, sep),
              NestedScan(false, 2, prefix + init[n - 1], Survivors(init[..n - 1]), groups),
              "," + pad + Quoted(last), NestedScan(false, 2, pad + last, Survivors(init), groups));
    JoinQuotedSnoc(init, last, sep);
  }

  lemma NestedListRun(xs: seq<string>, sep: string, groups: seq<seq<string>>)
    requires AllPlain(xs) && Separator(sep)
    ensures Fold(NestedStep, NestedScan(false, 1, "", [], groups), RenderFlat(xs, sep)) ==
            NestedScan(false, 1, "", [], groups + (if Survivors(xs) == [] then [] else [Survivors(xs)]))
  {
    var start := NestedScan(false, 1, "", [], groups);
    var inner := NestedScan(false, 2, "", [], groups);
    NestedOpen(start);
    FoldAppend(NestedStep, start, "[", JoinQuoted(xs, sep));
    FoldAppend(NestedStep, start, "[" + JoinQuoted(xs, sep), "]");
    if xs == [] {
      assert JoinQuoted(xs, sep) == "";
      assert "[" + "" == "[";
      NestedCloseInner("", [], groups);
      FlushPaddedPlain("", "");
      assert "" + "" == "";
    } else {
      var n := |xs| - 1;
      NestedInnerRun(xs, sep, groups);
      var prefix := if n == 0 then "" else sep[1..];
      NestedCloseInner(prefix + xs[n], Survivors(xs[..n]), groups);
      FlushPaddedPlain(prefix, xs[n]);
    }
  }

  lemma {:induction false} NestedListsRun(gs: seq<seq<string>>, innerSep: string, outerSep: string)
    requires gs != [] && Separator(innerSep) && Separator(outerSep)
    requires forall k :: 0 <= k < |gs| ==> AllPlain(gs[k])
    ensures Fold(NestedStep, NestedScan(false, 1, "", [], []), JoinLists(gs, innerSep, outerSep)) ==
            NestedScan(false, 1, "", [], Groups(gs))
  {
    var start := NestedScan(false, 1, "", [], []);
    var n := |gs| - 1;
    if n == 0 {
      NestedListRun(gs[0], innerSep, []);
      assert gs[..0] == [];
    } else {
      var init := gs[..n];
      var text := JoinLists(init, innerSep, outerSep);
      var item := RenderFlat(gs[n], innerSep);
      var last := Survivors(gs[n]);
      var mid := NestedScan(false, 1, "", [], Groups(init));
      var end := NestedScan(false, 1, "", [], Groups(init) + (if last == [] then [] else [last]));
      assert AllPlain(gs[n]);
      assert forall k :: 0 <= k < |init| ==> AllPlain(init[k]) by {
        assert forall k :: 0 <= k < |init| ==> init[k] == gs[k];
      }
      NestedListsRun(init, innerSep, outerSep);
      SeparatorChars(outerSep);
      NestedIdleRun(mid, outerSep);
      FoldChain(NestedStep, start, text, mid, outerSep, mid);
      NestedListRun(gs[n], innerSep, Groups(init));
      FoldChain(NestedStep, start, text + outerSep, mid, item, end);
      assert JoinLists(gs, innerSep, outerSep) == text + outerSep + item;
      assert Groups(gs) == Groups(init) + (if last == [] then [] else [last]);
    }
  }

  lemma NestedBodyRun(gs: seq<seq<string>>, innerSep: string, outerSep: string)
    requires Separator(innerSep) && Separator(outerSep)
    requires forall k :: 0 <= k < |gs| ==> AllPlain(gs[k])
    ensures Fold(NestedStep, NestedScan(false, 1, "", [], []), JoinLists(gs, innerSep, outerSep)) ==
            NestedScan(false, 1, "", [], Groups(gs))
  {
    if gs != [] {
      NestedListsRun(gs, innerSep, outerSep);
    } else {
      assert JoinLists(gs, innerSep, outerSep) == [];
    }
  }

  lemma NestedRender(gs: seq<seq<string>>, innerSep: string, outerSep: string)
    requires Fold(NestedStep, NestedScan(false, 1, "", [], []), JoinLists(gs, innerSep, outerSep)) ==
             NestedScan(false, 1, "", [], Groups(gs))
    ensures Fold(NestedStep, NestedStart, RenderNested(gs, innerSep, outerSep)) == NestedScan(false, 0, "", [], Groups(gs))
  {
    var body := JoinLists(gs, innerSep, outerSep);
    var open := NestedScan(false, 1, "", [], []);
    var inner := NestedScan(false, 1, "", [], Groups(gs));
    assert Fold(NestedStep, NestedStart, "[" + body) == inner by {
      NestedOpen(NestedStart);
      FoldChain(NestedStep, NestedStart, "[", open, body, inner);
    }
    NestedCloseOuter(Groups(gs));
    FoldChain(NestedStep, NestedStart, "[" + body, inner, "]", NestedScan(false, 0, "", [], Groups(gs)));
  }

  /** Reading a list of lists written from plain tokens gives, per inner list in order,
      its surviving tokens; an inner list with no survivor gives no group. */
  lemma NestedRoundTrip(gs: seq<seq<string>>, innerSep: string, outerSep: string)
    requires Separator(innerSep) && Separator(outerSep)
    requires forall k :: 0 <= k < |gs| ==> AllPlain(gs[k])
    ensures NestedGroups(RenderNested(gs, innerSep, outerSep)) == Groups(gs)
  {
    NestedBodyRun(gs, innerSep, outerSep);
    NestedRender(gs, innerSep, outerSep);
  }
}
