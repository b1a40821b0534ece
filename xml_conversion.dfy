/** XmlConversion: what the converter writes for a CSV input, as pure functions over
    the input lines. The output is a sequence of writes; each write is one string as
    the writer receives it. */
module XmlConversion {
  import opened JavaText
  import opened Scanning
  import opened RecordReader
  import opened FieldSplitter
  import opened ColumnProjection
  import opened ArrayLiterals

  const RootElement := "Images"
  const XmlDeclaration := "<?xml version=\"1.0\" encoding=\"UTF-8\"?>\n"
  const DocumentType := "<!DOCTYPE Images SYSTEM \"../structures/images.dtd\">\n"

  /** Why a conversion stopped early. */
  datatype ConversionError =
    | MissingHeader      // the input has no first line to read the column names from
    | HeaderTooShort     // a record has more kept fields than the header has names

  datatype Outcome = Completed | Failed(error: ConversionError)

  // ---------------------------------------------------------------------------
  // What one write looks like

  /** getIndentation: one tab per level of depth; none when the depth is not positive. */
  function Indent(d: int): (r: string)
    ensures |r| == (if d > 0 then d else 0)
    decreases if d > 0 then d else 0
  {
    if d <= 0 then "" else Indent(d - 1) + "\t"
  }

  /** write: the content behind the indentation of the current depth. */
  function Line(d: int, content: string): string {
    Indent(d) + content
  }

  function OpenTag(name: string): string {
    "<" + name + ">\n"
  }

  function CloseTag(name: string): string {
    "</" + name + ">\n"
  }

  function ElementLine(name: string, value: string): string {
    "<" + name + ">" + value + "</" + name + ">\n"
  }

  /** An opening tag carrying the record's identifier as its Identifiant attribute. */
  function AttributeOpenTag(name: string, id: string): string {
    "<" + name + " Identifiant=\"" + id + "\">\n"
  }

  // ---------------------------------------------------------------------------
  // What one field becomes

  /** One element per token, all at depth `d`, in order. */
  function ItemLines(tokens: seq<string>, name: string, d: int): (r: seq<string>)
    ensures |r| == |tokens|
  {
    if tokens == [] then []
    else ItemLines(tokens[..|tokens| - 1], name, d) + [Line(d, ElementLine(name, tokens[|tokens| - 1]))]
  }

  /** One <Sentence> block: its first token as the <Label>, the others as <Localization>s. */
  function SentenceLines(group: seq<string>, d: int): seq<string> {
    if group == [] then []
    else [Line(d, OpenTag("Sentence")), Line(d + 1, ElementLine("Label", group[0]))] +
         ItemLines(group[1..], "Localization", d + 1) + [Line(d, CloseTag("Sentence"))]
  }

  function SentencesLines(groups: seq<seq<string>>, d: int): seq<string> {
    if groups == [] then []
    else SentencesLines(groups[..|groups| - 1], d) + SentenceLines(groups[|groups| - 1], d)
  }

  /** The list literal inside a field: from the first '[' to the last ']', trimmed;
      None when there is no such pair or when it is the empty list "[]". */
  function ArrayContent(value: string): Option<string> {
    var s := IndexOf(value, '[');
    var e := LastIndexOf(value, ']');
    if s == -1 || e == -1 || e <= s then None
    else
      var content := Trim(value[s..e + 1]);
      if content == "[]" then None else Some(content)
  }

  /** The list content is a bracketed literal other than "[]": the trim never cuts
      into it, since it starts with '[' and ends with ']'. */
  lemma ArrayContentShape(value: string)
    ensures var r := ArrayContent(value);
            r.Some? ==> |r.value| >= 2 && r.value[0] == '[' && r.value[|r.value| - 1] == ']' && r.value != "[]"
  {
    var s := IndexOf(value, '[');
    var e := LastIndexOf(value, ']');
    if !(s == -1 || e == -1 || e <= s) {
      var slice := value[s..e + 1];
      assert slice[0] == '[' && slice[|slice| - 1] == ']';
      TrimKeepsTrimmed(slice);
    }
  }

  /** The children of a list-valued field: <Sentence> blocks for the sentence column,
      one element per token otherwise. */
  function Children(value: string, tag: string, d: int): seq<string> {
    match ArrayContent(value)
    case None => []
    case Some(content) =>
      if tag == SentenceColumn then SentencesLines(NestedGroups(content), d)
      else ItemLines(FlatTokens(content), SubTagName(tag), d)
  }

  /** The children of a field whose list literal is `content`. */
  lemma ChildrenOf(value: string, tag: string, d: int, content: string)
    requires ArrayContent(value) == Some(content)
    ensures Children(value, tag, d) ==
            if tag == SentenceColumn then SentencesLines(NestedGroups(content), d)
            else ItemLines(FlatTokens(content), SubTagName(tag), d)
  {
  }

  /** A field without a list literal has no children. */
  lemma ChildrenOfNone(value: string, tag: string, d: int)
    requires ArrayContent(value).None?
    ensures Children(value, tag, d) == []
  {
  }

  /** handleSubElements: a wrapper element named after the column around the children. */
  function SubElementLines(value: string, tag: string, d: int): seq<string> {
    [Line(d, OpenTag(tag))] + Children(value, tag, d + 1) + [Line(d, CloseTag(tag))]
  }

  /** formatFieldForXml, with the write the caller makes: a field without '[' is one
      element holding the field as it stands, even when it is empty. */
  function FieldLines(value: string, tag: string, d: int): seq<string> {
    if '[' !in value then [Line(d, ElementLine(tag, value))] else SubElementLines(value, tag, d)
  }

  // ---------------------------------------------------------------------------
  // What one record and the whole input become

  /** The fields from position `i` on, each under the header name at its position; the
      flag is false when a field has no header name, where the source fails. */
  function FieldsFrom(headers: seq<string>, fields: seq<string>, i: nat, d: int): (seq<string>, bool)
    decreases |fields| - i
  {
    if i >= |fields| then ([], true)
    else if i >= |headers| then ([], false)
    else
      var rest := FieldsFrom(headers, fields, i + 1, d);
      (FieldLines(fields[i], headers[i], d) + rest.0, rest.1)
  }

  /** One <image> element: its first kept field as the Identifiant attribute, every
      other kept field inside it. No closing tag when a field has no header name. */
  function ImageLines(headers: seq<string>, fields: seq<string>, d: int): (seq<string>, bool)
    requires fields != []
  {
    var body := FieldsFrom(headers, fields, 1, d + 1);
    ([Line(d, AttributeOpenTag("image", fields[0]))] + body.0 + (if body.1 then [Line(d, CloseTag("image"))] else []), body.1)
  }

  /** The kept fields of a record. */
  function RecordFields(record: string): (r: seq<string>)
    ensures r != [] && r[0] == SplitFields(record)[0]
  {
    ProjectShape(SplitFields(record));
    Project(SplitFields(record))
  }

  /** The images of the records from line `pos` on, up to the end of the input or the
      first blank record; the flag is false when some record failed. */
  function Body(lines: seq<string>, pos: nat, headers: seq<string>): (seq<string>, bool)
    requires pos <= |lines|
    decreases |lines| - pos
  {
    var next := NextRecord(lines, pos);
    if next.0.None? then ([], true)
    else
      var image := ImageLines(headers, RecordFields(next.0.value), 1);
      if !image.1 then image
      else
        var rest := Body(lines, next.1, headers);
        (image.0 + rest.0, rest.1)
  }

  /** The header: the kept names of the first line split at every comma. */
  function Headers(lines: seq<string>): seq<string>
    requires lines != []
  {
    Project(JavaSplit(lines[0], ','))
  }

  function Prologue(): seq<string> {
    [XmlDeclaration, DocumentType, Line(0, OpenTag(RootElement))]
  }

  /** performConversion on a fresh converter: every write it makes, and how it ends. */
  function Conversion(lines: seq<string>): (seq<string>, Outcome) {
    if lines == [] then ([], Failed(MissingHeader))
    else
      var body := Body(lines, 1, Headers(lines));
      if body.1 then (Prologue() + body.0 + [Line(0, CloseTag(RootElement))], Completed)
      else (Prologue() + body.0, Failed(HeaderTooShort))
  }

  /** One more token is one more element after the others. */
  lemma ItemLinesSnoc(tokens: seq<string>, v: string, name: string, d: int)
    ensures ItemLines(tokens + [v], name, d) == ItemLines(tokens, name, d) + [Line(d, ElementLine(name, v))]
  {
    assert (tokens + [v])[..|tokens|] == tokens;
  }

  /** The indentation is made of tabs only. */
  lemma {:induction false} IndentTabs(d: int)
    ensures forall k :: 0 <= k < |Indent(d)| ==> Indent(d)[k] == '\t'
    decreases if d > 0 then d else 0
  {
    if d > 0 {
      IndentTabs(d - 1);
      assert Indent(d) == Indent(d - 1) + "\t";
    }
  }

  /** The k-th element line holds the k-th token. */
  lemma {:induction false} ItemLinesAt(tokens: seq<string>, name: string, d: int)
    ensures forall k :: 0 <= k < |tokens| ==> ItemLines(tokens, name, d)[k] == Line(d, ElementLine(name, tokens[k]))
  {
    if tokens != [] {
      var init := tokens[..|tokens| - 1];
      ItemLinesAt(init, name, d);
      assert forall k :: 0 <= k < |init| ==> init[k] == tokens[k];
    }
  }

  /** One more token written after `before` is one more element at the end. */
  lemma ItemLinesAfter(before: seq<string>, tokens: seq<string>, v: string, name: string, d: int)
    ensures before + ItemLines(tokens + [v], name, d) == before + ItemLines(tokens, name, d) + [Line(d, ElementLine(name, v))]
  {
    ItemLinesSnoc(tokens, v, name, d);
  }

  /** A <Sentence> block written after `before`, piece by piece. */
  lemma SentenceLinesAfter(before: seq<string>, group: seq<string>, d: int)
    requires group != []
    ensures before + SentenceLines(group, d) ==
            before + [Line(d, OpenTag("Sentence"))] + [Line(d + 1, ElementLine("Label", group[0]))] +
            ItemLines(group[1..], "Localization", d + 1) + [Line(d, CloseTag("Sentence"))]
  {
    var o := Line(d, OpenTag("Sentence"));
    var l := Line(d + 1, ElementLine("Label", group[0]));
    var items := ItemLines(group[1..], "Localization", d + 1);
    var c := [Line(d, CloseTag("Sentence"))];
    assert [o, l] == [o] + [l];
    assert SentenceLines(group, d) == [o] + [l] + items + c;
    AppendFour(before, [o], [l], items, c);
  }

  /** Kept tokens are written one element each, in order, after what was written before. */
  lemma ItemLinesKeep(before: seq<string>, tokens: seq<string>, v: string, name: string, d: int)
    ensures before + ItemLines(tokens + Keep(v), name, d) ==
            before + ItemLines(tokens, name, d) + (if v == "" then [] else [Line(d, ElementLine(name, v))])
  {
    if v == "" {
      assert tokens + Keep(v) == tokens;
    } else {
      ItemLinesSnoc(tokens, v, name, d);
    }
  }

  /** A group that is emitted adds its <Sentence> block after the others; an empty one adds nothing. */
  lemma SentencesLinesSnoc(before: seq<string>, groups: seq<seq<string>>, g: seq<string>, d: int)
    ensures before + SentencesLines(groups + (if g == [] then [] else [g]), d) ==
            before + SentencesLines(groups, d) + SentenceLines(g, d)
  {
    if g == [] {
      assert groups + [] == groups;
    } else {
      assert (groups + [g])[..|groups|] == groups;
    }
  }

  /** The list literal found between the first '[' at `s` and the last ']' at `e`. */
  lemma ArrayContentAt(value: string, s: int, e: int)
    requires s == IndexOf(value, '[') && e == LastIndexOf(value, ']')
    ensures s == -1 || e == -1 || e <= s ==> ArrayContent(value) == None
    ensures !(s == -1 || e == -1 || e <= s) ==>
              ArrayContent(value) == if Trim(value[s..e + 1]) == "[]" then None else Some(Trim(value[s..e + 1]))
  {
  }

  /** A wrapper element written after `before`: its opening tag, its children, its closing tag. */
  lemma SubElementLinesAfter(before: seq<string>, value: string, tag: string, d: int)
    ensures before + SubElementLines(value, tag, d) ==
            before + [Line(d, OpenTag(tag))] + Children(value, tag, d + 1) + [Line(d, CloseTag(tag))]
  {
    AppendThree(before, [Line(d, OpenTag(tag))], Children(value, tag, d + 1), [Line(d, CloseTag(tag))]);
  }

  /** A field written after `before` comes before the fields that follow it. */
  lemma FieldsFromStep(before: seq<string>, headers: seq<string>, fields: seq<string>, i: nat, d: int)
    requires i < |fields| && i < |headers|
    ensures before + FieldsFrom(headers, fields, i, d).0 ==
            before + FieldLines(fields[i], headers[i], d) + FieldsFrom(headers, fields, i + 1, d).0
    ensures FieldsFrom(headers, fields, i, d).1 == FieldsFrom(headers, fields, i + 1, d).1
  {
    var rest := FieldsFrom(headers, fields, i + 1, d).0;
    assert FieldsFrom(headers, fields, i, d).0 == FieldLines(fields[i], headers[i], d) + rest;
    AppendTwo(before, FieldLines(fields[i], headers[i], d), rest);
  }

  /** Past the last field nothing more is written; at a field without a header name
      nothing more is written either, and the record fails. */
  lemma FieldsFromEnd(headers: seq<string>, fields: seq<string>, i: nat, d: int)
    requires i >= |fields| || i >= |headers|
    ensures FieldsFrom(headers, fields, i, d) == ([], i >= |fields|)
  {
  }

  /** formatFieldForXml's two cases: the one element it returns, or the wrapper it writes. */
  lemma FieldLinesCases(value: string, tag: string, d: int)
    ensures '[' !in value ==> FieldLines(value, tag, d) == [Line(d, ElementLine(tag, value))]
    ensures '[' in value ==> FieldLines(value, tag, d) == SubElementLines(value, tag, d)
  {
  }

  /** An <image> written after `before`: the opening tag, the fields, and the closing tag
      when every field had a header name. */
  lemma ImageLinesAfter(before: seq<string>, headers: seq<string>, fields: seq<string>, d: int)
    requires fields != []
    ensures var body := FieldsFrom(headers, fields, 1, d + 1);
            var open := [Line(d, AttributeOpenTag("image", fields[0]))];
            ImageLines(headers, fields, d).1 == body.1 &&
            (body.1 ==> before + ImageLines(headers, fields, d).0 == before + open + body.0 + [Line(d, CloseTag("image"))]) &&
            (!body.1 ==> before + ImageLines(headers, fields, d).0 == before + open + body.0)
  {
    var body := FieldsFrom(headers, fields, 1, d + 1);
    var open := [Line(d, AttributeOpenTag("image", fields[0]))];
    if body.1 {
      AppendThree(before, open, body.0, [Line(d, CloseTag("image"))]);
    } else {
      assert ImageLines(headers, fields, d).0 == open + body.0 + [];
      assert open + body.0 + [] == open + body.0;
      AppendTwo(before, open, body.0);
    }
  }

  /** The record at `pos` written after `before`, then the records after it. */
  lemma BodyStep(before: seq<string>, lines: seq<string>, pos: nat, headers: seq<string>)
    requires pos <= |lines| && NextRecord(lines, pos).0.Some?
    ensures var next := NextRecord(lines, pos);
            var image := ImageLines(headers, RecordFields(next.0.value), 1);
            (image.1 ==> before + Body(lines, pos, headers).0 == before + image.0 + Body(lines, next.1, headers).0 &&
                         Body(lines, pos, headers).1 == Body(lines, next.1, headers).1) &&
            (!image.1 ==> Body(lines, pos, headers) == image)
  {
  }

  // ---------------------------------------------------------------------------
  // Properties of the output

  /** Every line starts with the indentation of depth `d`. */
  ghost predicate Indented(ls: seq<string>, d: int) {
    forall k :: 0 <= k < |ls| ==> Indent(d) <= ls[k]
  }

  lemma IndentedAppend(a: seq<string>, b: seq<string>, d: int)
    requires Indented(a, d) && Indented(b, d)
    ensures Indented(a + b, d)
  {
  }

  /** A deeper indentation starts with a shallower one. */
  lemma {:induction false} IndentPrefix(d: int, e: int)
    requires d <= e
    ensures Indent(d) <= Indent(e)
    decreases e - d
  {
    if d < e {
      IndentPrefix(d, e - 1);
      if e > 0 {
        assert Indent(e) == Indent(e - 1) + "\t";
      }
    }
  }

  lemma LineIndented(d: int, e: int, content: string)
    requires d <= e
    ensures Indent(d) <= Line(e, content)
  {
    IndentPrefix(d, e);
  }

  lemma ItemLinesIndented(tokens: seq<string>, name: string, d: int, e: int)
    requires d <= e
    ensures Indented(ItemLines(tokens, name, e), d)
  {
    IndentPrefix(d, e);
  }

  lemma SentenceLinesIndented(group: seq<string>, d: int, e: int)
    requires d <= e
    ensures Indented(SentenceLines(group, e), d)
  {
    if group != [] {
      LineIndented(d, e, OpenTag("Sentence"));
      LineIndented(d, e + 1, ElementLine("Label", group[0]));
      LineIndented(d, e, CloseTag("Sentence"));
      var head := [Line(e, OpenTag("Sentence")), Line(e + 1, ElementLine("Label", group[0]))];
      var items := ItemLines(group[1..], "Localization", e + 1);
      ItemLinesIndented(group[1..], "Localization", d, e + 1);
      IndentedAppend(head, items, d);
      IndentedAppend(head + items, [Line(e, CloseTag("Sentence"))], d);
    }
  }

  lemma {:induction false} SentencesLinesIndented(groups: seq<seq<string>>, d: int, e: int)
    requires d <= e
    ensures Indented(SentencesLines(groups, e), d)
  {
    if groups != [] {
      var n := |groups| - 1;
      SentencesLinesIndented(groups[..n], d, e);
      SentenceLinesIndented(groups[n], d, e);
    }
  }

  /** Nothing a field writes is indented less than the field itself: a leaf is one line
      at its depth, a list is a wrapper at its depth around children one level deeper. */
  lemma FieldLinesIndented(value: string, tag: string, d: int)
    ensures Indented(FieldLines(value, tag, d), d)
    ensures |FieldLines(value, tag, d)| >= 1
    ensures '[' in value ==>
              FieldLines(value, tag, d)[0] == Line(d, OpenTag(tag)) &&
              FieldLines(value, tag, d)[|FieldLines(value, tag, d)| - 1] == Line(d, CloseTag(tag)) &&
              Indented(FieldLines(value, tag, d)[1..|FieldLines(value, tag, d)| - 1], d + 1)
  {
    LineIndented(d, d, ElementLine(tag, value));
    if '[' in value {
      var children := Children(value, tag, d + 1);
      ChildrenIndented(value, tag, d + 1);
      IndentedDeeper(children, d, d + 1);
      LineIndented(d, d, OpenTag(tag));
      LineIndented(d, d, CloseTag(tag));
      IndentedAppend([Line(d, OpenTag(tag))], children, d);
      IndentedAppend([Line(d, OpenTag(tag))] + children, [Line(d, CloseTag(tag))], d);
      var ls := [Line(d, OpenTag(tag))] + children + [Line(d, CloseTag(tag))];
      assert ls[1..|ls| - 1] == children;
    }
  }

  lemma ChildrenIndented(value: string, tag: string, d: int)
    ensures Indented(Children(value, tag, d), d)
  {
    match ArrayContent(value)
    case None =>
    case Some(content) =>
      if tag == SentenceColumn {
        SentencesLinesIndented(NestedGroups(content), d, d);
      } else {
        ItemLinesIndented(FlatTokens(content), SubTagName(tag), d, d);
      }
  }

  lemma IndentedDeeper(ls: seq<string>, d: int, e: int)
    requires d <= e && Indented(ls, e)
    ensures Indented(ls, d)
  {
    IndentPrefix(d, e);
  }

  /** A record fits the header when every kept field after the first has a header name. */
  predicate Fits(headers: seq<string>, fields: seq<string>) {
    |fields| <= |headers| || |fields| == 1
  }

  /** The fields from position `i` on are written completely exactly when none of them
      lacks a header name. */
  lemma {:induction false} FieldsFromCompletes(headers: seq<string>, fields: seq<string>, i: nat, d: int)
    ensures FieldsFrom(headers, fields, i, d).1 <==> i >= |fields| || |fields| <= |headers|
    decreases |fields| - i
  {
    if i < |fields| && i < |headers| {
      FieldsFromCompletes(headers, fields, i + 1, d);
    }
  }

  lemma {:induction false} FieldsFromIndented(headers: seq<string>, fields: seq<string>, i: nat, d: int)
    ensures Indented(FieldsFrom(headers, fields, i, d).0, d)
    decreases |fields| - i
  {
    if i < |fields| && i < |headers| {
      var rest := FieldsFrom(headers, fields, i + 1, d);
      FieldsFromIndented(headers, fields, i + 1, d);
      FieldLinesIndented(fields[i], headers[i], d);
      IndentedAppend(FieldLines(fields[i], headers[i], d), rest.0, d);
      assert FieldsFrom(headers, fields, i, d).0 == FieldLines(fields[i], headers[i], d) + rest.0;
    }
  }

  /** An image opens with the record's first kept field as its Identifiant and, when the
      record fits the header, closes after its fields; its fields sit one level deeper. */
  lemma ImageShape(headers: seq<string>, fields: seq<string>, d: int)
    requires fields != []
    ensures var image := ImageLines(headers, fields, d);
            image.0 != [] && image.0[0] == Line(d, AttributeOpenTag("image", fields[0])) &&
            (image.1 <==> Fits(headers, fields)) &&
            (image.1 ==> |image.0| >= 2 && image.0[|image.0| - 1] == Line(d, CloseTag("image"))) &&
            Indented(image.0[1..|image.0| - (if image.1 then 1 else 0)], d + 1)
  {
    FieldsFromCompletes(headers, fields, 1, d + 1);
    FieldsFromIndented(headers, fields, 1, d + 1);
    var body := FieldsFrom(headers, fields, 1, d + 1);
    var image := ImageLines(headers, fields, d);
    assert image.0[1..|image.0| - (if image.1 then 1 else 0)] == body.0;
  }

  /** The records readCsvLine returns from line `pos` on, up to the first null. */
  function Records(lines: seq<string>, pos: nat): seq<string>
    requires pos <= |lines|
    decreases |lines| - pos
  {
    var next := NextRecord(lines, pos);
    if next.0.None? then [] else [next.0.value] + Records(lines, next.1)
  }

  /** Every record of `records` fits the header. */
  ghost predicate AllFit(headers: seq<string>, records: seq<string>) {
    records == [] || (Fits(headers, RecordFields(records[0])) && AllFit(headers, records[1..]))
  }

  lemma AllFitCons(headers: seq<string>, record: string, records: seq<string>)
    ensures AllFit(headers, [record] + records) <==> Fits(headers, RecordFields(record)) && AllFit(headers, records)
  {
    assert ([record] + records)[1..] == records;
  }

  /** The body completes exactly when every record read fits the header. */
  lemma {:induction false} BodyCompletes(lines: seq<string>, pos: nat, headers: seq<string>)
    requires pos <= |lines|
    ensures Body(lines, pos, headers).1 <==> AllFit(headers, Records(lines, pos))
    decreases |lines| - pos
  {
    var next := NextRecord(lines, pos);
    if next.0.Some? {
      ImageShape(headers, RecordFields(next.0.value), 1);
      BodyCompletes(lines, next.1, headers);
      AllFitCons(headers, next.0.value, Records(lines, next.1));
    }
  }

  /** A conversion fails for want of a header exactly when the input is empty; it
      completes exactly when every record fits the header, and then its writes are the
      prologue, the images, and the closing root tag. */
  lemma ConversionOutcome(lines: seq<string>)
    ensures Conversion(lines).1 == Failed(MissingHeader) <==> lines == []
    ensures Conversion(lines).1 == Completed <==>
            lines != [] && AllFit(Headers(lines), Records(lines, 1))
    ensures Conversion(lines).1 == Completed ==>
            var out := Conversion(lines).0;
            |out| >= 4 && out[..3] == Prologue() && out[|out| - 1] == Line(0, CloseTag(RootElement))
  {
    if lines != [] {
      BodyCompletes(lines, 1, Headers(lines));
    }
  }

  /** A field holding a flat list literal of plain tokens, in a column other than the
      sentence column, becomes a wrapper element with one child per token that is not
      empty or "None", in order. */
  lemma FlatFieldRoundTrip(xs: seq<string>, sep: string, tag: string, d: int)
    requires AllPlain(xs) && Separator(sep) && tag != SentenceColumn
    ensures FieldLines(RenderFlat(xs, sep), tag, d) ==
            [Line(d, OpenTag(tag))] + ItemLines(Survivors(xs), SubTagName(tag), d + 1) + [Line(d, CloseTag(tag))]
  {
    RenderFlatShape(xs, sep);
    ArrayContentOfList(RenderFlat(xs, sep));
    FlatRoundTrip(xs, sep);
  }

  /** A sentence-column field holding a list of lists of plain tokens becomes a wrapper
      element with one <Sentence> per inner list that keeps a token. */
  lemma SentenceFieldRoundTrip(gs: seq<seq<string>>, innerSep: string, outerSep: string, d: int)
    requires Separator(innerSep) && Separator(outerSep)
    requires forall k :: 0 <= k < |gs| ==> AllPlain(gs[k])
    ensures FieldLines(RenderNested(gs, innerSep, outerSep), SentenceColumn, d) ==
            [Line(d, OpenTag(SentenceColumn))] + SentencesLines(Groups(gs), d + 1) + [Line(d, CloseTag(SentenceColumn))]
  {
    RenderNestedShape(gs, innerSep, outerSep);
    ArrayContentOfList(RenderNested(gs, innerSep, outerSep));
    NestedRoundTrip(gs, innerSep, outerSep);
  }

  /** A field that is itself a list literal is its own list content. */
  lemma ArrayContentOfList(value: string)
    requires |value| >= 2 && value[0] == '[' && value[|value| - 1] == ']'
    ensures '[' in value
    ensures ArrayContent(value) == if value == "[]" then None else Some(value)
  {
    assert value[0] == '[';
    assert IndexOf(value, '[') == 0;
    assert LastIndexOf(value, ']') == |value| - 1;
    assert value[0..|value|] == value;
    TrimKeepsTrimmed(value);
  }
}
