# PadChest CSV-to-XML converter and SAX statistics, in Dafny

This project models two parts of a small Java code base built around the PadChest chest X-ray dataset.

**The CSV-to-XML converter** (`CsvToXmlConverter`). It streams the dataset's CSV file into an XML document with this structure:

- an `<Images>` root;
- one `<image Identifiant="…">` element per CSV record;
- one child element per kept column.

Columns whose value is a Python-style list literal become wrapper elements with one child per list item. The `LabelsLocalizationsBySentence` column holds a list of lists, and each of its inner lists becomes a `<Sentence>` with a `<Label>` and `<Localization>`s. The converter does its work in five steps:

1. It groups physical lines into records, following double quotes that span lines.
2. It splits a record at the commas outside square brackets.
3. It keeps a fixed set of 17 column indices.
4. It parses the list literals.
5. It writes indented XML while it keeps an indentation depth.

**The SAX content handler** (`SAXValidator.ImageHandler`). It counts the `<image>` elements and the images that have a "loc right" localization. It also counts how often each label text occurs inside an image, and reports the ten most frequent labels.

## How the model is built

- **Pure parts.** The parts of the source that only compute a value are Dafny functions. These are: trimming, searching, splitting, cleaning a token, the sub-tag names, and what a field or record turns into.
- **Loops.** Every loop of the source is a method with a loop and invariants:
  - the quote scan of `readCsvLine`;
  - `parseLine`;
  - `filterIncludedColumns`;
  - `getIndentation`;
  - the two list-literal scanners;
  - the record and field loops of `performConversion`.

  Each of these methods is proved against a specification function: a left fold of a one-character step over the input, or the list of writes the loop makes.
- **Objects.** The two objects whose fields change are classes:
  - `CsvConverter.CsvToXmlConverter` holds the input lines, a read cursor, the sequence of writes made so far, and the depth.
  - `SaxStatistics.ImageHandler` holds the handler's six fields.

  Every method states the class's new state in terms of the specification functions. For the handler, that function is `Handle`, the reaction to one SAX event, and `Run` replays a stream of events.
- **Properties.** The properties are lemmas about those functions:
  - round trips: a list literal written from tokens reads back as those tokens; fields joined with commas split back into the same fields; a header line does the same;
  - quote parity, the column projection, and the indentation of the output;
  - when a conversion completes and when it fails;
  - the counters of the SAX handler and the top-ten list.

Files:

| file | module | models |
|---|---|---|
| java_text.dfy | `JavaText` | `String.trim`, `indexOf`, `lastIndexOf`, ASCII case folding, `equalsIgnoreCase`, joining |
| scanning.dfy | `Scanning` | left fold of a character step, sequence append lemmas |
| record_reader.dfy | `RecordReader` | the record grouping of `readCsvLine` |
| field_splitter.dfy | `FieldSplitter` | `parseLine` |
| column_projection.dfy | `ColumnProjection` | `INCLUDED_COLUMNS`, `filterIncludedColumns`, `String.split(",")` |
| array_literals.dfy | `ArrayLiterals` | `clean`, `getSubTagName`, the token scanners of `handleSimpleArray` and `handleArrayOfArrays`, list-literal renderers for the round trips |
| xml_conversion.dfy | `XmlConversion` | what each write is, what a field, a record and a whole input become, and how a conversion ends |
| converter.dfy | `CsvConverter` | the class `CsvToXmlConverter`, one method per Java method |
| sax_statistics.dfy | `SaxStatistics` | the class `ImageHandler`, its event semantics and its statistics |

### Behaviour of the code worth knowing

The model reproduces each of these behaviours of the code:

- **Empty leaf fields.** A field without `[` is written as `<name>value</name>` even when its value is empty. `formatFieldForXml` never returns an empty string for such a field, so the caller always writes it.
- **The `Identifiant` attribute.** It is column 0 as `parseLine` leaves it, trimmed but not passed through `clean`.
- **The wrapper element.** Its opening and closing tags are written as two separate lines, even when the list is `[]`.
- **Blank lines.** A blank physical line where a record starts makes `readCsvLine` return `null`, and the conversion ends there, even if more lines follow.
- **The header.** It is one physical line, split with `String.split(",")`: brackets and quotes are not considered, and trailing empty names are dropped.
- **Doubled quotes.** They only keep the quote flag from changing. They are not unescaped: every quote stays in the record text.
- **Too many fields.** A record with more kept fields than the header has names makes `headers[i]` throw at the first field without a name. The conversion stops there with the `<image>` still open. The model reports this as the `HeaderTooShort` error.
- **Empty input.** An input with no header line ends with the `MissingHeader` error, and nothing is written.

## Model

Source paths are relative to the repository root.

| member | source | states |
|---|---|---|
| JavaText.Trim | src/main/java/org/example/conversion/CsvToXmlConverter.java:168 | the result of `trim` has no char ≤ U+0020 at either end and is no longer than the input |
| JavaText.TrimRemovesOnlyTrimmable | src/main/java/org/example/conversion/CsvToXmlConverter.java:168 | `trim` returns an infix of the input; everything it drops, in front and behind, is a char ≤ U+0020 |
| JavaText.IndexOf | src/main/java/org/example/conversion/CsvToXmlConverter.java:235 | `indexOf` returns -1 or an index holding the char |
| JavaText.IndexOfFirst | src/main/java/org/example/conversion/CsvToXmlConverter.java:235 | `indexOf` is -1 exactly when the char is absent; otherwise no earlier position holds it |
| JavaText.LastIndexOf | src/main/java/org/example/conversion/CsvToXmlConverter.java:236 | `lastIndexOf` returns -1 or an index holding the char |
| JavaText.LastIndexOfLast | src/main/java/org/example/conversion/CsvToXmlConverter.java:236 | `lastIndexOf` is -1 exactly when the char is absent; otherwise no later position holds it |
| JavaText.EqualsIgnoreCaseLower | src/main/java/org/example/conversion/CsvToXmlConverter.java:359 | two strings are equal ignoring case exactly when their lower-cased forms are equal |
| RecordReader.ScanQuotes | src/main/java/org/example/conversion/CsvToXmlConverter.java:134-143 | after scanning one line, the quote flag has flipped exactly when the line holds an odd number of double quotes; a doubled quote leaves it unchanged |
| RecordReader.QuotesInJoin | src/main/java/org/example/conversion/CsvToXmlConverter.java:129-132 | the newlines that join a record's lines add no quote: the record holds the quotes of its lines |
| RecordReader.RecordEndIsFirstClosing | src/main/java/org/example/conversion/CsvToXmlConverter.java:128-148 | a record ends after the first line at which the number of quotes seen since its first line is even, or at the end of the input when that never happens |
| RecordReader.NextRecord | src/main/java/org/example/conversion/CsvToXmlConverter.java:123-151 | `readCsvLine` returns null exactly at the end of the input or on a blank first line; otherwise it consumes at least one line and never reads past the input |
| RecordReader.RecordQuotesBalanced | src/main/java/org/example/conversion/CsvToXmlConverter.java:128-150 | a record with an odd number of quotes is the unterminated last record of the input |
| FieldSplitter.ParseLine | src/main/java/org/example/conversion/CsvToXmlConverter.java:153-177 | the loop returns the fields of the fold specification `SplitFields` |
| FieldSplitter.SplitScanState | src/main/java/org/example/conversion/CsvToXmlConverter.java:158-173 | after any prefix, the bracket level is the count of `[` minus the count of `]`, and one field has been completed per comma met at level zero, every one trimmed |
| FieldSplitter.FieldCount | src/main/java/org/example/conversion/CsvToXmlConverter.java:158-176 | `parseLine` returns one field more than the line has commas at bracket level zero, every field trimmed |
| FieldSplitter.JoinThenSplit | src/main/java/org/example/conversion/CsvToXmlConverter.java:153-177 | splitting the comma-join of trimmed fields whose brackets balance and which have no comma at level zero gives those fields back |
| FieldSplitter.BracketedCell | src/main/java/org/example/conversion/CsvToXmlConverter.java:161-167 | the commas inside one pair of brackets never separate fields |
| FieldSplitter.BracketedCommaStays | src/main/java/org/example/conversion/CsvToXmlConverter.java:161-168 | `a,[1,2,3],b` splits into three fields, the middle one `[1,2,3]` |
| FieldSplitter.QuotedCommaSplits | src/main/java/org/example/conversion/CsvToXmlConverter.java:167-168 | double quotes do not protect a comma: `"x,y",z` splits into three fields |
| ColumnProjection.FilterIncludedColumns | src/main/java/org/example/conversion/CsvToXmlConverter.java:180-188 | the loop returns the fields at the included indices the row has, in ascending order (`Project`) |
| ColumnProjection.IncludedBelowExactly | src/main/java/org/example/conversion/CsvToXmlConverter.java:182-186 | the kept indices are exactly the included indices below the row length, each once, strictly ascending |
| ColumnProjection.IncludedBelowAll | src/main/java/org/example/conversion/CsvToXmlConverter.java:12-30 | in ascending order the included columns are 0, 1, 2, 4, 5, 6, 9, 10, 11 and 28 to 35 |
| ColumnProjection.ProjectShape | src/main/java/org/example/conversion/CsvToXmlConverter.java:180-188 | the projection keeps at most 17 fields, the k-th being the field at the k-th included index; exactly 17 from 36 fields on; column 0 always comes first |
| ColumnProjection.SplitAll | src/main/java/org/example/conversion/CsvToXmlConverter.java:117 | the pieces between the commas of a line are never an empty list |
| ColumnProjection.DropTrailingEmpty | src/main/java/org/example/conversion/CsvToXmlConverter.java:117 | `split` drops exactly the trailing empty pieces: the result is a prefix, its last piece is not empty, and every dropped piece is empty |
| ColumnProjection.SplitAllJoin | src/main/java/org/example/conversion/CsvToXmlConverter.java:117 | cutting the join of comma-free names at every comma gives the names back |
| ColumnProjection.HeaderSplitRoundTrip | src/main/java/org/example/conversion/CsvToXmlConverter.java:114-118 | a header line written as comma-free names joined by commas splits back into those names, as long as the last of two or more names is not empty |
| ArrayLiterals.StripOuter | src/main/java/org/example/conversion/CsvToXmlConverter.java:354-357 | dropping an optional leading and trailing char removes at most two chars, and removes none when neither end matches |
| ArrayLiterals.Clean | src/main/java/org/example/conversion/CsvToXmlConverter.java:352-360 | a cleaned token has no padding and is never "None" in any casing |
| ArrayLiterals.SubTagName | src/main/java/org/example/conversion/CsvToXmlConverter.java:362-371 | the sub-tag always differs from the column name, and is the name plus `Item` for any column outside the five special ones |
| ArrayLiterals.CleanIgnoresTrim | src/main/java/org/example/conversion/CsvToXmlConverter.java:311 | trimming a token before cleaning it changes nothing |
| ArrayLiterals.CleanPlain | src/main/java/org/example/conversion/CsvToXmlConverter.java:352-360 | cleaning a quote-free, unpadded token with an opening bracket or blanks before it and maybe a closing bracket after it gives the token back, or empty when it is empty or "None" |
| ArrayLiterals.FlatTokensEmitted | src/main/java/org/example/conversion/CsvToXmlConverter.java:259-287 | every token of a flat list that gets an element is non-empty, unpadded and not "None" |
| ArrayLiterals.FlatRoundTrip | src/main/java/org/example/conversion/CsvToXmlConverter.java:259-287 | reading a flat list literal written from plain tokens gives back exactly the tokens that are not empty or "None", in order |
| ArrayLiterals.NestedGroupsGood | src/main/java/org/example/conversion/CsvToXmlConverter.java:289-350 | every `<Sentence>` written has a label, and each of its tokens is non-empty, unpadded and not "None" |
| ArrayLiterals.NestedRoundTrip | src/main/java/org/example/conversion/CsvToXmlConverter.java:289-350 | reading a list of lists written from plain tokens gives one group per inner list that keeps a token, holding its surviving tokens in order |
| XmlConversion.Indent | src/main/java/org/example/conversion/CsvToXmlConverter.java:215-221 | the indentation has one char per level of a positive depth, none otherwise |
| XmlConversion.IndentTabs | src/main/java/org/example/conversion/CsvToXmlConverter.java:217-219 | the indentation is made of tabs only |
| XmlConversion.ItemLines | src/main/java/org/example/conversion/CsvToXmlConverter.java:274-286 | one write per token |
| XmlConversion.ItemLinesAt | src/main/java/org/example/conversion/CsvToXmlConverter.java:275 | the k-th item written is the element holding the k-th token |
| XmlConversion.RecordFields | src/main/java/org/example/conversion/CsvToXmlConverter.java:95-98 | a record always keeps at least one field, and its first kept field is its first parsed field, so `filteredFields[0]` always exists |
| XmlConversion.ArrayContentShape | src/main/java/org/example/conversion/CsvToXmlConverter.java:235-247 | the list content taken from a field starts with `[`, ends with `]` and is not `[]` |
| XmlConversion.FieldLinesIndented | src/main/java/org/example/conversion/CsvToXmlConverter.java:223-257 | a field writes at least one line and nothing indented less than itself; a list field is a wrapper at its depth around children one level deeper |
| XmlConversion.FieldsFromCompletes | src/main/java/org/example/conversion/CsvToXmlConverter.java:100-105 | the field loop finishes exactly when no kept field lacks a header name |
| XmlConversion.ImageShape | src/main/java/org/example/conversion/CsvToXmlConverter.java:98-107 | an image opens with its first kept field as `Identifiant`; it is closed exactly when the record fits the header; its fields sit one level deeper |
| XmlConversion.BodyCompletes | src/main/java/org/example/conversion/CsvToXmlConverter.java:94-108 | the record loop finishes exactly when every record read fits the header |
| XmlConversion.ConversionOutcome | src/main/java/org/example/conversion/CsvToXmlConverter.java:84-111 | a conversion fails for want of a header exactly on empty input and completes exactly when every record fits; a completed output starts with the declaration, the doctype and `<Images>` and ends with `</Images>` |
| XmlConversion.FlatFieldRoundTrip | src/main/java/org/example/conversion/CsvToXmlConverter.java:232-287 | a flat list field of plain tokens becomes a wrapper with one sub-element per surviving token, in order |
| XmlConversion.SentenceFieldRoundTrip | src/main/java/org/example/conversion/CsvToXmlConverter.java:232-350 | a sentence-column field holding a list of lists becomes a wrapper with one `<Sentence>` per inner list that keeps a token |
| CsvConverter.CsvToXmlConverter.constructor | src/main/java/org/example/conversion/CsvToXmlConverter.java:34-37 | a fresh converter is at the first line, has written nothing, and is at depth 0 |
| CsvConverter.CsvToXmlConverter.GetIndentation | src/main/java/org/example/conversion/CsvToXmlConverter.java:215-221 | the loop builds the indentation of the current depth |
| CsvConverter.CsvToXmlConverter.Write | src/main/java/org/example/conversion/CsvToXmlConverter.java:211-213 | one write: the content behind the current indentation |
| CsvConverter.CsvToXmlConverter.WriteXmlHeader | src/main/java/org/example/conversion/CsvToXmlConverter.java:191-194 | the XML declaration and the doctype, without indentation |
| CsvConverter.CsvToXmlConverter.WriteOpeningTag | src/main/java/org/example/conversion/CsvToXmlConverter.java:196-199 | the opening tag at the current depth, then one level deeper |
| CsvConverter.CsvToXmlConverter.WriteOpeningTagWithAttribute | src/main/java/org/example/conversion/CsvToXmlConverter.java:201-204 | the opening tag with its `Identifiant` attribute, then one level deeper |
| CsvConverter.CsvToXmlConverter.WriteClosingTag | src/main/java/org/example/conversion/CsvToXmlConverter.java:206-209 | one level out, then the closing tag at that level |
| CsvConverter.CsvToXmlConverter.ReadHeader | src/main/java/org/example/conversion/CsvToXmlConverter.java:114-121 | null at the end of the input; otherwise the kept names of the next line split at commas, one line consumed |
| CsvConverter.CsvToXmlConverter.ReadCsvLine | src/main/java/org/example/conversion/CsvToXmlConverter.java:123-151 | the loop returns the record and leaves the reader where `NextRecord` says |
| CsvConverter.CsvToXmlConverter.FormatFieldForXml | src/main/java/org/example/conversion/CsvToXmlConverter.java:223-230 | a field without `[` is returned as one element and nothing is written; any other field is written as a wrapper and "" is returned |
| CsvConverter.CsvToXmlConverter.HandleSubElements | src/main/java/org/example/conversion/CsvToXmlConverter.java:232-257 | writes the wrapper: the opening tag, the children of the list literal, the closing tag; the depth is back where it was |
| CsvConverter.CsvToXmlConverter.WriteChildrenAndClose | src/main/java/org/example/conversion/CsvToXmlConverter.java:235-256 | every exit path of `handleSubElements` writes the closing tag, after the children when there is a non-empty list literal |
| CsvConverter.CsvToXmlConverter.WriteListItems | src/main/java/org/example/conversion/CsvToXmlConverter.java:249-254 | the sentence column is read as a list of lists, every other column as a flat list |
| CsvConverter.CsvToXmlConverter.HandleSimpleArray | src/main/java/org/example/conversion/CsvToXmlConverter.java:259-287 | the loop writes one element per surviving token of the flat list (`FlatTokens`), in order |
| CsvConverter.CsvToXmlConverter.WriteItem | src/main/java/org/example/conversion/CsvToXmlConverter.java:272-276 | an item is written unless its cleaned token is empty |
| CsvConverter.CsvToXmlConverter.HandleArrayOfArrays | src/main/java/org/example/conversion/CsvToXmlConverter.java:289-350 | the loop writes one `<Sentence>` block per group of the list of lists (`NestedGroups`), in order |
| CsvConverter.CsvToXmlConverter.WriteSentence | src/main/java/org/example/conversion/CsvToXmlConverter.java:317-329 | a `<Sentence>` with the first token as `<Label>` and the rest as `<Localization>`s one level deeper; nothing for an empty group |
| CsvConverter.CsvToXmlConverter.ConvertRecord | src/main/java/org/example/conversion/CsvToXmlConverter.java:95-107 | one record becomes its `<image>` element; false, with the image left open, when a kept field has no header name |
| CsvConverter.CsvToXmlConverter.WriteImage | src/main/java/org/example/conversion/CsvToXmlConverter.java:98-107 | the loop writes the opening tag, each field under its header name, and the closing tag, stopping at the first field without a name |
| CsvConverter.CsvToXmlConverter.ConvertField | src/main/java/org/example/conversion/CsvToXmlConverter.java:101-104 | one field is written once, as an element or as a wrapper |
| CsvConverter.CsvToXmlConverter.PerformConversion | src/main/java/org/example/conversion/CsvToXmlConverter.java:84-111 | the writes and the outcome are those of `Conversion`; when it completes, every element it opened is closed (depth 0) |
| SaxStatistics.Merge | src/main/java/org/example/validation/SAXValidator.java:156 | `merge(content, 1, sum)` adds the key, adds one to its count and leaves every other count as it was |
| SaxStatistics.MergeSum | src/main/java/org/example/validation/SAXValidator.java:156 | one merge adds exactly one to the sum of all counts |
| SaxStatistics.HandleConsistent | src/main/java/org/example/validation/SAXValidator.java:131-165 | every event keeps the handler consistent: "loc right" images never outnumber images, the per-image flag is set only inside an image, and no label is empty |
| SaxStatistics.EndEffects | src/main/java/org/example/validation/SAXValidator.java:141-165 | the end of an element empties the text, counts a "loc right" localization or a label exactly in the source's cases, moves no counter outside an image, and leaves any image it closes with the flag cleared |
| SaxStatistics.RunConsistent | src/main/java/org/example/validation/SAXValidator.java:133-151 | over any event stream, the number of "loc right" images never exceeds the number of images |
| SaxStatistics.RunImageCount | src/main/java/org/example/validation/SAXValidator.java:133-137 | `imageCount` grows by the number of start events named `image` in any case |
| SaxStatistics.LocRightOncePerImage | src/main/java/org/example/validation/SAXValidator.java:146-151 | while no image starts, `locRightCount` grows by at most one, and only if the open image has not been counted yet |
| SaxStatistics.HandleLabels | src/main/java/org/example/validation/SAXValidator.java:153-158 | an event changes the label map only by merging the label it counts, which is never empty |
| SaxStatistics.RunLabelCounts | src/main/java/org/example/validation/SAXValidator.java:153-158 | after any stream, each label's count is its earlier count plus the number of times it was counted, the keys are exactly the labels seen, and none is empty |
| SaxStatistics.RunLabelSum | src/main/java/org/example/validation/SAXValidator.java:153-158 | the counts add up to the number of labels counted |
| SaxStatistics.FromScratch | src/main/java/org/example/validation/SAXValidator.java:122-165 | from a fresh handler: `imageCount` is the number of image starts, "loc right" images are no more than images, no label is empty, and the counts sum to the number of counted labels |
| SaxStatistics.TopLabelsEntries | src/main/java/org/example/validation/SAXValidator.java:177-180 | the top list has min(10, size) entries, each a label of the map with its own count, no label twice |
| SaxStatistics.TopLabelsSorted | src/main/java/org/example/validation/SAXValidator.java:178 | the top list is sorted by count, largest first |
| SaxStatistics.TopLabelsTop | src/main/java/org/example/validation/SAXValidator.java:177-179 | a label left out of the top list is never more frequent than one in it |
| SaxStatistics.ImageHandler.constructor | src/main/java/org/example/validation/SAXValidator.java:122-128 | counters zero, map and text empty, outside any image; the handler starts consistent |
| SaxStatistics.ImageHandler.StartElement | src/main/java/org/example/validation/SAXValidator.java:131-138 | the text is emptied; an `image` start in any case counts one image, enters it and clears the flag; nothing else changes |
| SaxStatistics.ImageHandler.EndElement | src/main/java/org/example/validation/SAXValidator.java:141-165 | the fields become `Handle` of the end event: the exact effects listed under `EndEffects`, and consistency is kept |
| SaxStatistics.ImageHandler.Characters | src/main/java/org/example/validation/SAXValidator.java:168-170 | the chunk is appended to the text and no counter changes |
| SaxStatistics.ImageHandler.GetImageCount | src/main/java/org/example/validation/SAXValidator.java:172 | returns the image count |
| SaxStatistics.ImageHandler.GetLocRightCount | src/main/java/org/example/validation/SAXValidator.java:173 | returns the "loc right" count |
| SaxStatistics.ImageHandler.GetTotalUniqueLabels | src/main/java/org/example/validation/SAXValidator.java:174 | the number of distinct labels is the size of the map |
| SaxStatistics.ImageHandler.GetTop10Labels | src/main/java/org/example/validation/SAXValidator.java:176-181 | ten entries, or all when fewer; each a label with its count; sorted by count, largest first; no label left out is more frequent than one kept |

## Left out

- `main`, `convert`, `openFiles` and `closeFiles` (CsvToXmlConverter.java:39-82). These cover file paths, the reader and writer, console messages and exception handling. The input is given as its physical lines, with line terminators already removed as `readLine` does. The output is the sequence of strings passed to the writer.
- I/O exceptions of the reader and writer. The only failures modelled are the missing header and the header that is too short.
- Java `int` arithmetic. The depth and all counters are unbounded integers, so no overflow is modelled.
- Strings. They are modelled as sequences of Unicode scalar values, not of UTF-16 code units. A character outside the Basic Multilingual Plane is one char in the model and two in Java, so `length`, `indexOf`, `lastIndexOf` and `substring` positions differ for such input. Every delimiter the converter compares is ASCII, so the text written is the same.
- Case folding. `toLowerCase` and `equalsIgnoreCase` are modelled on ASCII letters only. Non-ASCII characters whose case maps onto ASCII letters in Java are not modelled.
- SaxStatistics.ImageHandler.GetTop10Labels: does not fix the order of labels with equal counts. Java's stable sort keeps the `HashMap`'s iteration order, which is unspecified. The model picks some label with the largest count at each step, and its contract holds for every such choice. It is a ghost function because a compiled function's `:|` choice must have a unique value; the order among equal counts is left open.
- The SAX parser itself, `SAXValidator.validate` and `main` (SAXValidator.java:55-117), which set up parsing and print the statistics. The handler sees `startElement`, `endElement` and `characters` as `Event` values. The URI, local name and attributes are not modelled, because the handler never reads them.
- `characters(ch, start, length)`: the chunk `ch[start..start+length]` is given as a string.
- `DOMValidator`, `PerformanceComparator`, `XmlToHtmlExpert` and `transformeBsex` are not part of this model.
- Some methods of the model have no Java method of their own. Each is a stretch of the Java method named in its row, split out so the proofs stay small:
  - `ConvertRecord`, `WriteImage` and `ConvertField` are parts of `performConversion`;
  - `WriteChildrenAndClose` and `WriteListItems` are parts of `handleSubElements`;
  - `WriteItem` is part of `handleSimpleArray`;
  - `WriteSentence` is part of `handleArrayOfArrays`.
- The XML itself. Nothing is escaped, in the source or in the model. The XML declaration and doctype are constant strings, and whether the output is well formed is not modelled beyond the indentation and open/close properties above.
