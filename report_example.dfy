/** The worked example of the extraction: one table whose header row is followed by two rows
    naming vocabulary entries and one row naming nothing known. */
module ReportExample {
  import opened Wrappers
  import opened Text
  import opened Registry
  import opened Matcher
  import opened Extraction

  const Header: Row := ["Objeto Analizado", "Rango", "Valor Obtenido"]
  const Viscosity: Row := ["Viscosidad de la Sangre", "ref", "72.211"]
  const Cholesterol: Row := ["Cristal de colesterol", "ref", "71.326"]
  const Unknown: Row := ["Unknown Thing", "ref", "5"]

  /** A vocabulary whose first two entries are those of `RelevantObjects`. */
  predicate HeadEntries(registry: seq<string>) {
    |registry| >= 2 && registry[0] == "Viscosidad de la Sangre" && registry[1] == "Cristal de Colesterol"
  }

  /** The first two entries of the source's vocabulary. */
  lemma VocabularyHead(registry: seq<string>)
    requires registry == RelevantObjects
    ensures HeadEntries(registry)
  {
    VocabularyShape(registry);
  }

  /** The first two entries stay distinct once lower-cased (their lengths differ). */
  lemma VocabularyHeadDistinct(registry: seq<string>)
    requires HeadEntries(registry)
    ensures ToLower(registry[0]) != ToLower(registry[1])
  {
    assert |ToLower(registry[0])| == 23 && |ToLower(registry[1])| == 21;
  }

  /** The first body row's label, a sequence of words with single spaces. */
  lemma ViscosityCollapsed(cell: string)
    requires cell == "Viscosidad de la Sangre"
    ensures IsCollapsed(cell)
  {
  }

  /** The second body row's label. */
  lemma CholesterolCollapsed(cell: string)
    requires cell == "Cristal de colesterol"
    ensures IsCollapsed(cell)
  {
  }

  /** The third body row's label. */
  lemma UnknownCollapsed(cell: string)
    requires cell == "Unknown Thing"
    ensures IsCollapsed(cell)
  {
  }

  /** The second body row's label differs from the second entry only in the case of one letter. */
  lemma CholesterolLower(cell: string, entry: string)
    requires cell == "Cristal de colesterol" && entry == "Cristal de Colesterol"
    ensures ToLower(cell) == ToLower(entry)
  {
    assert ToLower(cell) == "cristal de colesterol";
  }

  lemma UnknownLower(cell: string)
    requires cell == "Unknown Thing"
    ensures ToLower(cell) == "unknown thing"
  {
  }

  /** The value cells carry no surrounding whitespace. */
  lemma ValueTrimmed(value: string)
    requires value == "72.211" || value == "71.326"
    ensures Strip(value) == value
  {
    TrimmedIsFixedPoint(value);
  }

  /** The cells of the first body row as the extraction sees them: the label is typed as in the
      vocabulary, so it normalises to the first entry's lower-case form. */
  lemma ViscosityCells(row: Row)
    requires row == Viscosity
    ensures |row| >= 3 && NormalizeLabel(row[0]) == ToLower("Viscosidad de la Sangre")
    ensures Strip(row[2]) == "72.211"
  {
    ViscosityCollapsed(row[0]);
    NormalizeCollapsed(row[0]);
    ValueTrimmed(row[2]);
  }

  /** A label typed as in the vocabulary yields the vocabulary entry and the value. */
  lemma ViscosityRow(row: Row, registry: seq<string>, closeMatch: CloseMatcher)
    requires IsCloseMatcher(closeMatch)
    requires row == Viscosity && HeadEntries(registry)
    ensures RowEntry(row, registry, closeMatch) == Some(Entry("Viscosidad de la Sangre", "72.211"))
  {
    ViscosityCells(row);
    ExactLabelRecognised(row, registry, closeMatch, 0);
  }

  /** The cells of the second body row as the extraction sees them: the label normalises to the
      second entry's lower-case form. */
  lemma CholesterolCells(row: Row)
    requires row == Cholesterol
    ensures |row| >= 3 && NormalizeLabel(row[0]) == ToLower("Cristal de Colesterol")
    ensures Strip(row[2]) == "71.326"
  {
    CholesterolCollapsed(row[0]);
    NormalizeCollapsed(row[0]);
    CholesterolLower(row[0], "Cristal de Colesterol");
    ValueTrimmed(row[2]);
  }

  /** A label differing from the vocabulary only in letter case yields the vocabulary's spelling. */
  lemma CholesterolRow(row: Row, registry: seq<string>, closeMatch: CloseMatcher)
    requires IsCloseMatcher(closeMatch)
    requires row == Cholesterol && HeadEntries(registry)
    ensures RowEntry(row, registry, closeMatch) == Some(Entry("Cristal de Colesterol", "71.326"))
  {
    CholesterolCells(row);
    VocabularyHeadDistinct(registry);
    SecondEntryRecognised(row, registry, closeMatch, "71.326");
  }

  /** A row whose label normalises to the second entry's lower-case form, which the first entry
      does not share, yields the second entry. */
  lemma SecondEntryRecognised(row: Row, registry: seq<string>, closeMatch: CloseMatcher, value: string)
    requires IsCloseMatcher(closeMatch) && |row| >= 3 && |registry| >= 2
    requires NormalizeLabel(row[0]) == ToLower(registry[1]) && ToLower(registry[0]) != ToLower(registry[1])
    requires Strip(row[2]) == value && value != ""
    ensures RowEntry(row, registry, closeMatch) == Some(Entry(registry[1], value))
  {
    assert forall j :: 0 <= j < 1 ==> ToLower(registry[j]) != ToLower(registry[1]);
    ExactLabelRecognised(row, registry, closeMatch, 1);
  }

  /** The third body row's label normalises to "unknown thing". */
  lemma UnknownCells(row: Row)
    requires row == Unknown
    ensures |row| >= 3 && NormalizeLabel(row[0]) == "unknown thing"
  {
    UnknownCollapsed(row[0]);
    NormalizeCollapsed(row[0]);
    UnknownLower(row[0]);
  }

  /** A label the matcher finds nothing close to is dropped. */
  lemma UnknownRow(row: Row, registry: seq<string>, closeMatch: CloseMatcher)
    requires IsCloseMatcher(closeMatch)
    requires row == Unknown
    requires closeMatch("unknown thing", Lowered(registry)) == None
    ensures RowEntry(row, registry, closeMatch) == None
  {
    UnknownCells(row);
  }

  /** The entries of three rows, unfolded. */
  lemma ThreeRowsEntries(rows: seq<Row>, registry: seq<string>, closeMatch: CloseMatcher)
    requires IsCloseMatcher(closeMatch) && |rows| == 3
    ensures RowsEntries(rows, registry, closeMatch) ==
      EntrySeq(RowEntry(rows[0], registry, closeMatch)) + EntrySeq(RowEntry(rows[1], registry, closeMatch))
      + EntrySeq(RowEntry(rows[2], registry, closeMatch))
  {
    var s0 := EntrySeq(RowEntry(rows[0], registry, closeMatch));
    var s1 := EntrySeq(RowEntry(rows[1], registry, closeMatch));
    assert rows[..0] == [];
    RowsEntriesPrefix(rows, 0, registry, closeMatch);
    assert RowsEntries(rows[..1], registry, closeMatch) == s0;
    RowsEntriesPrefix(rows, 1, registry, closeMatch);
    assert RowsEntries(rows[..2], registry, closeMatch) == s0 + s1;
    RowsEntriesPrefix(rows, 2, registry, closeMatch);
    assert rows[..3] == rows;
  }

  /** Two recognised rows followed by a dropped one contribute their two entries. */
  lemma TwoOfThree(o0: Option<Entry>, o1: Option<Entry>, o2: Option<Entry>, e1: Entry, e2: Entry)
    requires o0 == Some(e1) && o1 == Some(e2) && o2 == None
    ensures EntrySeq(o0) + EntrySeq(o1) + EntrySeq(o2) == [e1, e2]
  {
  }

  /** Three rows of which the first two are recognised and the last is dropped. */
  lemma ThreeRows(rows: seq<Row>, registry: seq<string>, closeMatch: CloseMatcher, e1: Entry, e2: Entry)
    requires IsCloseMatcher(closeMatch) && |rows| == 3
    requires RowEntry(rows[0], registry, closeMatch) == Some(e1)
    requires RowEntry(rows[1], registry, closeMatch) == Some(e2)
    requires RowEntry(rows[2], registry, closeMatch) == None
    ensures RowsEntries(rows, registry, closeMatch) == [e1, e2]
  {
    ThreeRowsEntries(rows, registry, closeMatch);
    TwoOfThree(RowEntry(rows[0], registry, closeMatch), RowEntry(rows[1], registry, closeMatch),
      RowEntry(rows[2], registry, closeMatch), e1, e2);
  }

  /** The body rows of the example table, scanned in order. */
  lemma ExampleRows(rows: seq<Row>, registry: seq<string>, closeMatch: CloseMatcher)
    requires IsCloseMatcher(closeMatch)
    requires |rows| == 3 && rows[0] == Viscosity && rows[1] == Cholesterol && rows[2] == Unknown
    requires HeadEntries(registry)
    requires closeMatch("unknown thing", Lowered(registry)) == None
    ensures RowsEntries(rows, registry, closeMatch)
         == [Entry("Viscosidad de la Sangre", "72.211"), Entry("Cristal de Colesterol", "71.326")]
  {
    ViscosityRow(rows[0], registry, closeMatch);
    CholesterolRow(rows[1], registry, closeMatch);
    UnknownRow(rows[2], registry, closeMatch);
    ThreeRows(rows, registry, closeMatch, Entry("Viscosidad de la Sangre", "72.211"), Entry("Cristal de Colesterol", "71.326"));
  }

  /** A document with a single table appends that table's body rows. */
  lemma SingleTable(tables: seq<Table>, registry: seq<string>, closeMatch: CloseMatcher)
    requires IsCloseMatcher(closeMatch) && |tables| == 1
    ensures Appended(tables, registry, closeMatch) == RowsEntries(BodyRows(tables[0]), registry, closeMatch)
  {
    assert tables[..0] == [];
  }

  /** The entries appended while scanning the example table. */
  lemma ExampleAppended(tables: seq<Table>, registry: seq<string>, closeMatch: CloseMatcher)
    requires IsCloseMatcher(closeMatch)
    requires |tables| == 1 && |tables[0]| == 4 && tables[0][0] == Header
    requires tables[0][1] == Viscosity && tables[0][2] == Cholesterol && tables[0][3] == Unknown
    requires HeadEntries(registry)
    requires closeMatch("unknown thing", Lowered(registry)) == None
    ensures Appended(tables, registry, closeMatch)
         == [Entry("Viscosidad de la Sangre", "72.211"), Entry("Cristal de Colesterol", "71.326")]
  {
    var rows := BodyRows(tables[0]);
    assert |rows| == 3 && rows[0] == Viscosity && rows[1] == Cholesterol && rows[2] == Unknown;
    ExampleRows(rows, registry, closeMatch);
    SingleTable(tables, registry, closeMatch);
  }

  lemma ExampleNamesDistinct()
    ensures NoDuplicateNames([Entry("Viscosidad de la Sangre", "72.211"), Entry("Cristal de Colesterol", "71.326")])
  {
  }

  /** On the example table, with the source's vocabulary and any matcher that finds nothing close
      to "unknown thing", the report holds the two known parameters, spelled as in the vocabulary,
      with their values, in document order. */
  lemma ExampleReport(tables: seq<Table>, registry: seq<string>, closeMatch: CloseMatcher)
    requires IsCloseMatcher(closeMatch)
    requires |tables| == 1 && |tables[0]| == 4 && tables[0][0] == Header
    requires tables[0][1] == Viscosity && tables[0][2] == Cholesterol && tables[0][3] == Unknown
    requires registry == RelevantObjects
    requires closeMatch("unknown thing", Lowered(registry)) == None
    ensures ReportEntries(tables, registry, closeMatch)
         == [Entry("Viscosidad de la Sangre", "72.211"), Entry("Cristal de Colesterol", "71.326")]
  {
    VocabularyHead(registry);
    ExampleAppended(tables, registry, closeMatch);
    ExampleNamesDistinct();
    ReportOfDistinctNames(tables, registry, closeMatch);
  }
}
