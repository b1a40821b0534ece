/** The converter object itself: it reads physical lines through a cursor, appends every
    write to its output and keeps the current indentation depth. Each method is proved
    against the functions of XmlConversion that say what it reads and writes. */
module CsvConverter {
  import opened JavaText
  import opened Scanning
  import opened RecordReader
  import opened FieldSplitter
  import opened ColumnProjection
  import opened ArrayLiterals
  import opened XmlConversion

  class CsvToXmlConverter {
    /** The physical lines of the CSV input, as the buffered reader returns them. */
    const lines: seq<string>
    /** The index of the next line the reader returns. */
    var cursor: nat
    /** Every write made to the XML writer, in order. */
    var out: seq<string>
    var depth: int

    ghost predicate Valid()
      reads this
    {
      cursor <= |lines|
    }

    constructor (input: seq<string>)
      ensures lines == input && cursor == 0 && out == [] && depth == 0
      ensures Valid()
    {
      lines := input;
      cursor := 0;
      out := [];
      depth := 0;
    }

    // -------------------------------------------------------------------------
    // Writing

    method GetIndentation() returns (s: string)
      ensures s == Indent(depth)
    {
      s := "";
      var i := 0;
      while i < depth
        invariant 0 <= i <= (if depth > 0 then depth else 0)
        invariant s == Indent(i)
      {
        s := s + "\t";
        i := i + 1;
      }
    }

    method Write(content: string)
      modifies this
      ensures out == old(out) + [Line(depth, content)]
      ensures depth == old(depth) && cursor == old(cursor)
    {
      var indentation := GetIndentation();
      out := out + [indentation + content];
    }

    /** The XML declaration and the document type, written without indentation. */
    method WriteXmlHeader()
      modifies this
      ensures out == old(out) + [XmlDeclaration, DocumentType]
      ensures depth == old(depth) && cursor == old(cursor)
    {
      out := out + [XmlDeclaration];
      out := out + [DocumentType];
    }

    method WriteOpeningTag(name: string)
      modifies this
      ensures out == old(out) + [Line(old(depth), OpenTag(name))]
      ensures depth == old(depth) + 1 && cursor == old(cursor)
    {
      Write("<" + name + ">\n");
      depth := depth + 1;
    }

    method WriteOpeningTagWithAttribute(name: string, value: string)
      modifies this
      ensures out == old(out) + [Line(old(depth), AttributeOpenTag(name, value))]
      ensures depth == old(depth) + 1 && cursor == old(cursor)
    {
      Write("<" + name + " Identifiant=\"" + value + "\">\n");
      depth := depth + 1;
    }

    /** The closing tag goes one level out, then is written at that level. */
    method WriteClosingTag(name: string)
      modifies this
      ensures out == old(out) + [Line(old(depth) - 1, CloseTag(name))]
      ensures depth == old(depth) - 1 && cursor == old(cursor)
    {
      depth := depth - 1;
      Write("</" + name + ">\n");
    }

    // -------------------------------------------------------------------------
    // Reading

    /** readHeader: the kept names of the next line split at every comma, or None at
        the end of the input. */
    method ReadHeader() returns (headers: Option<seq<string>>)
      requires Valid()
      modifies this
      ensures Valid()
      ensures old(cursor) == |lines| ==> headers == None && cursor == old(cursor)
      ensures old(cursor) < |lines| ==>
                headers == Some(Project(JavaSplit(lines[old(cursor)], ','))) && cursor == old(cursor) + 1
      ensures out == old(out) && depth == old(depth)
    {
      if cursor == |lines| {
        return None;
      }
      var line := lines[cursor];
      cursor := cursor + 1;
      var allFields := JavaSplit(line, ',');
      var filtered := FilterIncludedColumns(allFields);
      headers := Some(filtered);
    }

    /** readCsvLine: reads physical lines until the quotes seen since the record's first
        line are closed, joining them with newlines; None when nothing was read or the
        first line read is empty. */
    method ReadCsvLine() returns (record: Option<string>)
      requires Valid()
      modifies this
      ensures Valid()
      ensures (record, cursor) == NextRecord(lines, old(cursor))
      ensures out == old(out) && depth == old(depth)
    {
      var builder := "";
      var inQuotes := false;
      var done := false;
      ghost var start := cursor;
      while !done && cursor < |lines|
        invariant start <= cursor <= |lines|
        invariant builder == Join(lines[start..cursor], "\n")
        invariant cursor == start ==> !inQuotes && !done
        invariant !done && cursor > start ==> lines[start] != ""
        invariant !done ==> RecordEnd(lines, start, false) == RecordEnd(lines, cursor, inQuotes)
        invariant done ==> cursor == RecordEnd(lines, start, false)
        invariant out == old(out) && depth == old(depth)
        decreases |lines| - cursor
      {
        var line := lines[cursor];
        ReadStep(start, cursor, builder);
        if |builder| > 0 {
          builder := builder + "\n";
        }
        builder := builder + line;
        inQuotes := ScanQuotes(line, inQuotes);
        cursor := cursor + 1;
        if !inQuotes {
          done := true;
        }
      }
      if |builder| == 0 {
        record := None;
      } else {
        record := Some(builder);
      }
    }

    /** The text read so far grows by one line, behind a newline unless it is still empty. */
    lemma ReadStep(start: nat, i: nat, builder: string)
      requires start <= i < |lines|
      requires builder == Join(lines[start..i], "\n")
      requires i > start ==> lines[start] != ""
      ensures i == start ==> builder == "" && Join(lines[start..i + 1], "\n") == lines[i]
      ensures i > start ==> |builder| > 0 && Join(lines[start..i + 1], "\n") == builder + "\n" + lines[i]
    {
      assert lines[start..i + 1][..i - start] == lines[start..i];
      if i > start {
        JoinKeepsFirst(lines[start..i], "\n");
      }
    }

    // -------------------------------------------------------------------------
    // Fields

    /** formatFieldForXml: a field without '[' comes back as one element for the caller
        to write; any other field is written here as a wrapper element and "" comes back. */
    method FormatFieldForXml(value: string, tag: string) returns (xml: string)
      modifies this
      ensures '[' !in value ==> xml == ElementLine(tag, value) && out == old(out)
      ensures '[' in value ==> xml == "" && out == old(out) + SubElementLines(value, tag, old(depth))
      ensures depth == old(depth) && cursor == old(cursor)
    {
      if '[' !in value {
        return "<" + tag + ">" + value + "</" + tag + ">\n";
      }
      HandleSubElements(value, tag);
      return "";
    }

    method HandleSubElements(value: string, tag: string)
      modifies this
      ensures out == old(out) + SubElementLines(value, tag, old(depth))
      ensures depth == old(depth) && cursor == old(cursor)
    {
      SubElementLinesAfter(old(out), value, tag, depth);
      WriteOpeningTag(tag);
      WriteChildrenAndClose(value, tag);
    }

    /** The rest of handleSubElements once the wrapper is open: every way out writes the
        closing tag, after the list items when there is a non-empty list literal. */
    method WriteChildrenAndClose(value: string, tag: string)
      modifies this
      ensures out == old(out) + Children(value, tag, old(depth)) + [Line(old(depth) - 1, CloseTag(tag))]
      ensures depth == old(depth) - 1 && cursor == old(cursor)
    {
      var startIdx := IndexOf(value, '[');
      var endIdx := LastIndexOf(value, ']');
      ArrayContentAt(value, startIdx, endIdx);
      if startIdx == -1 || endIdx == -1 || endIdx <= startIdx {
        ChildrenOfNone(value, tag, depth);
        WriteClosingTag(tag);
        return;
      }
      var arrayContent := Trim(value[startIdx..endIdx + 1]);
      if arrayContent == "[]" {
        ChildrenOfNone(value, tag, depth);
        WriteClosingTag(tag);
        return;
      }
      ChildrenOf(value, tag, depth, arrayContent);
      WriteListItems(arrayContent, tag);
      WriteClosingTag(tag);
    }

    /** The dispatch at the end of handleSubElements: the sentence column holds a list of
        lists, every other list-valued column a flat list. */
    method WriteListItems(arrayContent: string, tag: string)
      modifies this
      ensures out == old(out) +
                     if tag == SentenceColumn then SentencesLines(NestedGroups(arrayContent), old(depth))
                     else ItemLines(FlatTokens(arrayContent), SubTagName(tag), old(depth))
      ensures depth == old(depth) && cursor == old(cursor)
    {
      if tag == SentenceColumn {
        HandleArrayOfArrays(arrayContent);
      } else {
        var subTagName := SubTagName(tag);
        HandleSimpleArray(arrayContent, subTagName);
      }
    }

    /** handleSimpleArray: one element per token of a flat list literal. */
    method HandleSimpleArray(content: string, subTagName: string)
      modifies this
      ensures out == old(out) + ItemLines(FlatTokens(content), subTagName, old(depth))
      ensures depth == old(depth) && cursor == old(cursor)
    {
      var inQuotes := false;
      var token := "";
      ghost var written: seq<string> := [];
      for i := 0 to |content|
        invariant Fold(FlatStep, FlatStart, content[..i]) == FlatScan(inQuotes, token, written)
        invariant out == old(out) + ItemLines(written, subTagName, depth)
        invariant depth == old(depth) && cursor == old(cursor)
      {
        FoldStep(FlatStep, FlatStart, content, i);
        var character := content[i];
        if character == '\'' {
          inQuotes := !inQuotes;
        } else if character == ',' && !inQuotes {
          var value := Clean(token);
          token := "";
          ItemLinesKeep(old(out), written, value, subTagName, depth);
          WriteItem(value, subTagName);
          written := written + Keep(value);
        } else {
          token := token + [character];
        }
      }
      assert content[..|content|] == content;
      var lastElement := Clean(token);
      ItemLinesKeep(old(out), written, lastElement, subTagName, depth);
      WriteItem(lastElement, subTagName);
    }

    /** One list item: an element named `subTagName` unless the cleaned token is empty. */
    method WriteItem(value: string, subTagName: string)
      modifies this
      ensures out == old(out) + (if value == "" then [] else [Line(depth, ElementLine(subTagName, value))])
      ensures depth == old(depth) && cursor == old(cursor)
    {
      if value != "" {
        Write("<" + subTagName + ">" + value + "</" + subTagName + ">\n");
      }
    }

    /** handleArrayOfArrays: one <Sentence> block per inner list of a nested list literal. */
    method HandleArrayOfArrays(content: string)
      modifies this
      ensures out == old(out) + SentencesLines(NestedGroups(content), old(depth))
      ensures depth == old(depth) && cursor == old(cursor)
    {
      var inQuotes := false;
      var bracketDepth := 0;
      var currentToken := "";
      var sentenceElements: seq<string> := [];
      ghost var groups: seq<seq<string>> := [];
      for i := 0 to |content|
        invariant Fold(NestedStep, NestedStart, content[..i]) ==
                  NestedScan(inQuotes, bracketDepth, currentToken, sentenceElements, groups)
        invariant out == old(out) + SentencesLines(groups, depth)
        invariant depth == old(depth) && cursor == old(cursor)
      {
        FoldStep(NestedStep, NestedStart, content, i);
        var character := content[i];
        if character == '\'' {
          inQuotes := !inQuotes;
        } else if !inQuotes && character == '[' {
          bracketDepth := bracketDepth + 1;
        } else if !inQuotes && character == ']' {
          if bracketDepth == 2 {
            var value := Clean(Trim(currentToken));
            CleanIgnoresTrim(currentToken);
            currentToken := "";
            sentenceElements := sentenceElements + Keep(value);
            SentencesLinesSnoc(old(out), groups, sentenceElements, depth);
            WriteSentence(sentenceElements);
            groups := groups + (if sentenceElements == [] then [] else [sentenceElements]);
            sentenceElements := [];
          }
          bracketDepth := bracketDepth - 1;
        } else if !inQuotes && character == ',' && bracketDepth == 2 {
          var value := Clean(Trim(currentToken));
          CleanIgnoresTrim(currentToken);
          currentToken := "";
          sentenceElements := sentenceElements + Keep(value);
        } else if bracketDepth == 2 {
          currentToken := currentToken + [character];
        }
      }
      assert content[..|content|] == content;
    }

    /** The <Sentence> block of one inner list: nothing when the list kept no token. */
    method WriteSentence(elements: seq<string>)
      modifies this
      ensures out == old(out) + SentenceLines(elements, old(depth))
      ensures depth == old(depth) && cursor == old(cursor)
    {
      if elements != [] {
        SentenceLinesAfter(old(out), elements, depth);
        Write(OpenTag("Sentence"));
        depth := depth + 1;
        Write(ElementLine("Label", elements[0]));
        ghost var head := out;
        for k := 1 to |elements|
          invariant out == head + ItemLines(elements[1..k], "Localization", depth)
          invariant depth == old(depth) + 1 && cursor == old(cursor)
        {
          ItemLinesAfter(head, elements[1..k], elements[k], "Localization", depth);
          SliceSnoc(elements, 1, k);
          Write(ElementLine("Localization", elements[k]));
        }
        assert elements[1..|elements|] == elements[1..];
        depth := depth - 1;
        Write(CloseTag("Sentence"));
      }
    }

    // -------------------------------------------------------------------------
    // Records and the whole conversion

    /** The body of performConversion's record loop: the <image> element of one record.
        It stops with false, leaving the image open, at the first kept field that has no
        header name. */
    method ConvertRecord(record: string, headers: seq<string>) returns (ok: bool)
      modifies this
      ensures var image := ImageLines(headers, RecordFields(record), old(depth));
              out == old(out) + image.0 && ok == image.1
      ensures depth == (if ok then old(depth) else old(depth) + 1) && cursor == old(cursor)
    {
      var completeFields := ParseLine(record);
      var filteredFields := FilterIncludedColumns(completeFields);
      assert filteredFields == RecordFields(record);
      ok := WriteImage(filteredFields, headers);
    }

    /** The <image> element of one record's kept fields. */
    method WriteImage(filteredFields: seq<string>, headers: seq<string>) returns (ok: bool)
      requires filteredFields != []
      modifies this
      ensures var image := ImageLines(headers, filteredFields, old(depth));
              out == old(out) + image.0 && ok == image.1
      ensures depth == (if ok then old(depth) else old(depth) + 1) && cursor == old(cursor)
    {
      ghost var d := depth + 1;
      ghost var body := FieldsFrom(headers, filteredFields, 1, d);
      ImageLinesAfter(old(out), headers, filteredFields, depth);
      WriteOpeningTagWithAttribute("image", filteredFields[0]);
      ghost var afterOpen := out;
      var i := 1;
      // headers[i] fails for the first field past the end of the header
      while i < |filteredFields| && i < |headers|
        invariant 1 <= i <= |filteredFields|
        invariant depth == d && cursor == old(cursor)
        invariant out + FieldsFrom(headers, filteredFields, i, d).0 == afterOpen + body.0
        invariant FieldsFrom(headers, filteredFields, i, d).1 == body.1
        decreases |filteredFields| - i
      {
        ghost var before := out;
        FieldsFromStep(before, headers, filteredFields, i, d);
        ConvertField(filteredFields[i], headers[i]);
        assert out + FieldsFrom(headers, filteredFields, i + 1, d).0 == afterOpen + body.0;
        i := i + 1;
      }
      FieldsFromEnd(headers, filteredFields, i, d);
      assert out + [] == out;
      if i < |filteredFields| {
        return false;
      }
      WriteClosingTag("image");
      return true;
    }

    /** One kept field of a record, as performConversion's field loop writes it: the
        element formatFieldForXml returns, or the wrapper it has written itself. */
    method ConvertField(value: string, tag: string)
      modifies this
      ensures out == old(out) + FieldLines(value, tag, old(depth))
      ensures depth == old(depth) && cursor == old(cursor)
    {
      FieldLinesCases(value, tag, depth);
      var xmlContent := FormatFieldForXml(value, tag);
      if xmlContent != "" {
        Write(xmlContent);
      }
    }

    /** performConversion on a fresh converter: the writes it makes are those of the
        conversion of the input, and it ends as that conversion does. When it completes,
        every element it opened is closed again. */
    method PerformConversion() returns (outcome: Outcome)
      requires cursor == 0 && depth == 0
      modifies this
      ensures out == old(out) + Conversion(lines).0
      ensures outcome == Conversion(lines).1
      ensures outcome == Completed ==> depth == 0
    {
      var headers := ReadHeader();
      if headers.None? {
        return Failed(MissingHeader);
      }
      var names := headers.value;
      assert names == Headers(lines);
      WriteXmlHeader();
      WriteOpeningTag(RootElement);
      ghost var body := Body(lines, 1, names);
      ghost var prefix := old(out) + Prologue();
      assert out == prefix by {
        assert Prologue() == [XmlDeclaration, DocumentType] + [Line(0, OpenTag(RootElement))];
        AppendTwo(old(out), [XmlDeclaration, DocumentType], [Line(0, OpenTag(RootElement))]);
      }
      assert cursor == 1;
      assert Body(lines, cursor, names) == body;
      while true
        invariant Valid() && 1 <= cursor
        invariant depth == 1
        invariant out + Body(lines, cursor, names).0 == prefix + body.0
        invariant Body(lines, cursor, names).1 == body.1
        decreases |lines| - cursor
      {
        ghost var pos := cursor;
        ghost var before := out;
        var line := ReadCsvLine();
        if line.None? {
          assert Body(lines, pos, names) == ([], true);
          assert out + [] == out;
          break;
        }
        BodyStep(before, lines, pos, names);
        var ok := ConvertRecord(line.value, names);
        if !ok {
          AppendTwo(old(out), Prologue(), body.0);
          return Failed(HeaderTooShort);
        }
      }
      WriteClosingTag(RootElement);
      AppendThree(old(out), Prologue(), body.0, [Line(0, CloseTag(RootElement))]);
      return Completed;
    }
  }
}
