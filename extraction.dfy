/**
 `extract_data_from_html`: scan every table of a parsed HTML report, skip each table's header
 row, turn each row of at least three cells into a `[parameter, value]` pair when its first
 cell fuzzily names a vocabulary entry and its third cell is not blank, then keep the
 registered parameters, drop repeated parameters keeping the first, and number the rows from 1.

 The HTML has already been parsed: a report is its tables, a table its `<tr>` rows, a row the
 texts of its `<td>` cells.
 */
module Extraction {
  import opened Wrappers
  import opened Text
  import opened Registry
  import opened Matcher

  /** The texts of a row's `<td>` cells, left to right. */
  type Row = seq<string>

  /** The `<tr>` rows of a table, header first. */
  type Table = seq<Row>

  /** One `[original_match, valor_obtenido]` pair appended to `data`. */
  datatype Entry = Entry(name: string, value: string)

  /** One row of the returned frame: its index and its two columns. */
  datatype ReportRow = ReportRow(index: nat, name: string, value: string)

  /** `table.find_all('tr')[1:]`: every row but the first. */
  function BodyRows(table: Table): seq<Row> {
    if table == [] then [] else table[1..]
  }

  /** What the loop body makes of one row: `None` when nothing is appended. */
  function RowEntry(row: Row, registry: seq<string>, closeMatch: CloseMatcher): (e: Option<Entry>)
    requires IsCloseMatcher(closeMatch)
    ensures e.Some? ==> |row| >= 3
    ensures e.Some? ==> e.value.name in registry
    ensures e.Some? ==> QuickRatioAtLeastCutoff(NormalizeLabel(row[0]), ToLower(e.value.name))
    ensures e.Some? ==> e.value.value == Strip(row[2]) && e.value.value != "" && IsTrimmed(e.value.value)
  {
    if |row| < 3 then None
    else
      var name := NormalizeLabel(row[0]);
      var value := Strip(row[2]);
      StripProperties(row[2]);
      var matches := closeMatch(name, Lowered(registry));
      if matches.Some? && value != "" then
        var original := Canonical(registry, matches.value);
        assert QuickRatioAtLeastCutoff(name, ToLower(original));
        Some(Entry(original, value))
      else None
  }

  /** The entry as a sequence of zero or one element. */
  function EntrySeq(e: Option<Entry>): seq<Entry> {
    if e.Some? then [e.value] else []
  }

  /** The entries appended while scanning `rows`, in row order. */
  function RowsEntries(rows: seq<Row>, registry: seq<string>, closeMatch: CloseMatcher): seq<Entry>
    requires IsCloseMatcher(closeMatch)
  {
    if rows == [] then []
    else RowsEntries(rows[..|rows| - 1], registry, closeMatch) + EntrySeq(RowEntry(rows[|rows| - 1], registry, closeMatch))
  }

  /** `data` once the nested loops have scanned `tables`: tables in document order, and within
      each table the rows after the header in row order. */
  function Appended(tables: seq<Table>, registry: seq<string>, closeMatch: CloseMatcher): seq<Entry>
    requires IsCloseMatcher(closeMatch)
  {
    if tables == [] then []
    else Appended(tables[..|tables| - 1], registry, closeMatch) + RowsEntries(BodyRows(tables[|tables| - 1]), registry, closeMatch)
  }

  /** `df[df['Objeto Analizado'].isin(registry)]`. */
  function KeepRegistered(data: seq<Entry>, registry: seq<string>): seq<Entry> {
    if data == [] then []
    else
      var e := data[|data| - 1];
      KeepRegistered(data[..|data| - 1], registry) + (if e.name in registry then [e] else [])
  }

  /** The parameter names occurring in `s`. */
  function Names(s: seq<Entry>): set<string> {
    set e | e in s :: e.name
  }

  /** `df.drop_duplicates(subset='Objeto Analizado', keep='first')`. */
  function DropDuplicateNames(data: seq<Entry>): (d: seq<Entry>)
    ensures Names(d) == Names(data)
  {
    if data == [] then []
    else
      var d := DropDuplicateNames(data[..|data| - 1]);
      var e := data[|data| - 1];
      NamesSnoc(data[..|data| - 1], e);
      NamesSnoc(d, e);
      assert data == data[..|data| - 1] + [e];
      if e.name in Names(d) then d else d + [e]
  }

  /** The entries of the returned frame, in order, before numbering. */
  function ReportEntries(tables: seq<Table>, registry: seq<string>, closeMatch: CloseMatcher): seq<Entry>
    requires IsCloseMatcher(closeMatch)
  {
    DropDuplicateNames(KeepRegistered(Appended(tables, registry, closeMatch), registry))
  }

  lemma NamesSnoc(s: seq<Entry>, e: Entry)
    ensures Names(s + [e]) == Names(s) + {e.name}
  {
    assert forall x :: x in s + [e] <==> x in s || x == e;
  }

  /** No parameter name occurs twice. */
  predicate NoDuplicateNames(s: seq<Entry>) {
    forall p, q :: 0 <= p < q < |s| ==> s[p].name != s[q].name
  }

  /** The position of the first entry of `s` named `name`. */
  function FirstIndexWithName(s: seq<Entry>, name: string): (i: nat)
    requires name in Names(s)
    ensures i < |s| && s[i].name == name
    ensures forall j :: 0 <= j < i ==> s[j].name != name
  {
    if s[0].name == name then 0
    else
      assert name in Names(s[1..]) by {
        var e :| e in s && e.name == name;
        assert e in s[1..] by {
          var k :| 0 <= k < |s| && s[k] == e;
          assert k != 0;
          assert s[1..][k - 1] == e;
        }
      }
      1 + FirstIndexWithName(s[1..], name)
  }

  /** Extending a sequence at the end does not move the first occurrence of a name it already has. */
  lemma FirstIndexSnoc(s: seq<Entry>, e: Entry, name: string)
    requires name in Names(s)
    ensures name in Names(s + [e])
    ensures FirstIndexWithName(s + [e], name) == FirstIndexWithName(s, name)
  {
    NamesSnoc(s, e);
    var i := FirstIndexWithName(s, name);
    var i' := FirstIndexWithName(s + [e], name);
    assert forall j :: 0 <= j < |s| ==> (s + [e])[j] == s[j];
  }

  /** The first occurrence of a name that only the new last entry has is that entry. */
  lemma FirstIndexSnocNew(s: seq<Entry>, e: Entry)
    requires e.name !in Names(s)
    ensures e.name in Names(s + [e])
    ensures FirstIndexWithName(s + [e], e.name) == |s|
  {
    NamesSnoc(s, e);
    forall j | 0 <= j < |s| ensures (s + [e])[j].name != e.name {
      assert (s + [e])[j] == s[j] && s[j] in s;
    }
  }

  /** What `drop_duplicates(keep='first')` promises of `d` against its input `s`: no name twice;
      each kept row is the first row of the input with its name; the kept rows appear in the
      order of those first occurrences (so `d` is a subsequence of `s`). */
  predicate KeepsFirstOccurrences(s: seq<Entry>, d: seq<Entry>) {
    NoDuplicateNames(d) &&
    (forall k :: 0 <= k < |d| ==> d[k].name in Names(s) && d[k] == s[FirstIndexWithName(s, d[k].name)]) &&
    (forall p, q :: 0 <= p < q < |d| ==>
       d[p].name in Names(s) && d[q].name in Names(s) &&
       FirstIndexWithName(s, d[p].name) < FirstIndexWithName(s, d[q].name))
  }

  /** `DropDuplicateNames` keeps the first occurrences. With `Names(d) == Names(s)` from the
      function's contract, this determines the result. */
  lemma {:induction false} DropDuplicateNamesSpec(s: seq<Entry>)
    ensures KeepsFirstOccurrences(s, DropDuplicateNames(s))
  {
    if s != [] {
      var init, e := s[..|s| - 1], s[|s| - 1];
      assert s == init + [e];
      DropDuplicateNamesSpec(init);
      var d := DropDuplicateNames(init);
      if e.name in Names(d) {
        KeepsFirstOccurrencesSnocOld(init, e, d);
      } else {
        KeepsFirstOccurrencesSnocNew(init, e, d);
      }
    }
  }

  /** A last entry whose name was seen before changes nothing kept. */
  lemma KeepsFirstOccurrencesSnocOld(s: seq<Entry>, e: Entry, d: seq<Entry>)
    requires KeepsFirstOccurrences(s, d) && e.name in Names(s)
    ensures KeepsFirstOccurrences(s + [e], d)
  {
    assert forall k :: 0 <= k < |d| ==> d[k].name in Names(s);
    forall k | 0 <= k < |d|
      ensures d[k].name in Names(s + [e])
      ensures FirstIndexWithName(s + [e], d[k].name) == FirstIndexWithName(s, d[k].name)
    {
      FirstIndexSnoc(s, e, d[k].name);
    }
  }

  /** A last entry with a new name is kept, after everything kept before. */
  lemma KeepsFirstOccurrencesSnocNew(s: seq<Entry>, e: Entry, d: seq<Entry>)
    requires KeepsFirstOccurrences(s, d) && Names(d) == Names(s) && e.name !in Names(s)
    ensures KeepsFirstOccurrences(s + [e], d + [e])
  {
    var s', d' := s + [e], d + [e];
    forall k | 0 <= k < |d|
      ensures d[k].name in Names(s')
      ensures FirstIndexWithName(s', d[k].name) == FirstIndexWithName(s, d[k].name) < |s|
      ensures d[k].name != e.name && d'[k] == d[k]
    {
      FirstIndexSnoc(s, e, d[k].name);
    }
    FirstIndexSnocNew(s, e);
    assert d'[|d|] == e && s'[|s|] == e;
    assert NoDuplicateNames(d') by {
      forall p, q | 0 <= p < q < |d'| ensures d'[p].name != d'[q].name {
        if q < |d| {
          assert d[p].name != d[q].name;
        }
      }
    }
    forall k | 0 <= k < |d'|
      ensures d'[k].name in Names(s') && d'[k] == s'[FirstIndexWithName(s', d'[k].name)]
    {
      if k < |d| {
        assert s'[FirstIndexWithName(s, d[k].name)] == s[FirstIndexWithName(s, d[k].name)];
      }
    }
  }

  /** Dropping duplicates leaves a sequence that has none unchanged. */
  lemma {:induction false} DropDuplicateNamesNoOp(s: seq<Entry>)
    requires NoDuplicateNames(s)
    ensures DropDuplicateNames(s) == s
  {
    if s != [] {
      var init, e := s[..|s| - 1], s[|s| - 1];
      assert NoDuplicateNames(init) by {
        forall p, q | 0 <= p < q < |init| ensures init[p].name != init[q].name {
          assert init[p] == s[p] && init[q] == s[q];
        }
      }
      DropDuplicateNamesNoOp(init);
      assert e.name !in Names(init) by {
        forall x | x in init ensures x.name != e.name {
          var k :| 0 <= k < |init| && init[k] == x;
          assert s[k] == x;
        }
      }
      assert s == init + [e];
    }
  }

  /** De-duplicating twice is de-duplicating once. */
  lemma DropDuplicateNamesIdempotent(s: seq<Entry>)
    ensures DropDuplicateNames(DropDuplicateNames(s)) == DropDuplicateNames(s)
  {
    DropDuplicateNamesSpec(s);
    DropDuplicateNamesNoOp(DropDuplicateNames(s));
  }

  /** The `isin` filter keeps exactly the entries whose name is registered, and changes nothing
      when every name is. */
  lemma KeepRegisteredSpec(data: seq<Entry>, registry: seq<string>)
    ensures forall e :: e in KeepRegistered(data, registry) <==> e in data && e.name in registry
    ensures (forall k :: 0 <= k < |data| ==> data[k].name in registry) ==> KeepRegistered(data, registry) == data
  {
    KeepRegisteredMembers(data, registry);
    if forall k :: 0 <= k < |data| ==> data[k].name in registry {
      KeepRegisteredAll(data, registry);
    }
  }

  /** The `isin` mask decides row by row: the filter keeps or drops each entry on its own name,
      so it keeps the order of the entries and every copy of a kept one. */
  lemma KeepRegisteredOrder(a: seq<Entry>, b: seq<Entry>, registry: seq<string>)
    ensures KeepRegistered(a + b, registry) == KeepRegistered(a, registry) + KeepRegistered(b, registry)
    ensures forall e :: KeepRegistered([e], registry) == if e.name in registry then [e] else []
  {
    KeepRegisteredAppend(a, b, registry);
    forall e ensures KeepRegistered([e], registry) == if e.name in registry then [e] else [] {
      assert [e][..0] == [];
    }
  }

  lemma {:induction false} KeepRegisteredAppend(a: seq<Entry>, b: seq<Entry>, registry: seq<string>)
    ensures KeepRegistered(a + b, registry) == KeepRegistered(a, registry) + KeepRegistered(b, registry)
    decreases |b|
  {
    if b == [] {
      assert a + b == a;
    } else {
      var init, e := b[..|b| - 1], b[|b| - 1];
      var last := if e.name in registry then [e] else [];
      assert (a + b)[..|a + b| - 1] == a + init && (a + b)[|a + b| - 1] == e;
      assert KeepRegistered(a + b, registry) == KeepRegistered(a + init, registry) + last;
      KeepRegisteredAppend(a, init, registry);
      assert KeepRegistered(b, registry) == KeepRegistered(init, registry) + last;
    }
  }

  lemma {:induction false} KeepRegisteredMembers(data: seq<Entry>, registry: seq<string>)
    ensures forall e :: e in KeepRegistered(data, registry) <==> e in data && e.name in registry
  {
    if data != [] {
      var init, e := data[..|data| - 1], data[|data| - 1];
      KeepRegisteredMembers(init, registry);
      assert data == init + [e];
    }
  }

  lemma {:induction false} KeepRegisteredAll(data: seq<Entry>, registry: seq<string>)
    requires forall k :: 0 <= k < |data| ==> data[k].name in registry
    ensures KeepRegistered(data, registry) == data
  {
    if data != [] {
      var init, e := data[..|data| - 1], data[|data| - 1];
      assert forall k :: 0 <= k < |init| ==> init[k] == data[k];
      KeepRegisteredAll(init, registry);
      assert data == init + [e];
    }
  }

  /** An appended entry names a vocabulary entry and carries a non-blank, stripped value. */
  predicate WellFormedEntry(e: Entry, registry: seq<string>) {
    e.name in registry && e.value != "" && IsTrimmed(e.value)
  }

  /** Every appended entry is well formed. */
  lemma {:induction false} AppendedWellFormed(tables: seq<Table>, registry: seq<string>, closeMatch: CloseMatcher)
    requires IsCloseMatcher(closeMatch)
    ensures forall e :: e in Appended(tables, registry, closeMatch) ==> WellFormedEntry(e, registry)
  {
    if tables != [] {
      AppendedWellFormed(tables[..|tables| - 1], registry, closeMatch);
      RowsEntriesWellFormed(BodyRows(tables[|tables| - 1]), registry, closeMatch);
    }
  }

  lemma {:induction false} RowsEntriesWellFormed(rows: seq<Row>, registry: seq<string>, closeMatch: CloseMatcher)
    requires IsCloseMatcher(closeMatch)
    ensures forall e :: e in RowsEntries(rows, registry, closeMatch) ==> WellFormedEntry(e, registry)
  {
    if rows != [] {
      RowsEntriesWellFormed(rows[..|rows| - 1], registry, closeMatch);
    }
  }

  /** The `isin` filter at app.py:79 never removes anything: every appended name already comes
      from the vocabulary. */
  lemma FilterIsNoOp(tables: seq<Table>, registry: seq<string>, closeMatch: CloseMatcher)
    requires IsCloseMatcher(closeMatch)
    ensures KeepRegistered(Appended(tables, registry, closeMatch), registry) == Appended(tables, registry, closeMatch)
  {
    var data := Appended(tables, registry, closeMatch);
    AppendedWellFormed(tables, registry, closeMatch);
    assert forall k :: 0 <= k < |data| ==> data[k] in data;
    KeepRegisteredSpec(data, registry);
  }

  /** When no parameter is named twice in the document, the report is exactly the recognised
      rows, in document order: the filter and the de-duplication change nothing. */
  lemma ReportOfDistinctNames(tables: seq<Table>, registry: seq<string>, closeMatch: CloseMatcher)
    requires IsCloseMatcher(closeMatch)
    requires NoDuplicateNames(Appended(tables, registry, closeMatch))
    ensures ReportEntries(tables, registry, closeMatch) == Appended(tables, registry, closeMatch)
  {
    FilterIsNoOp(tables, registry, closeMatch);
    DropDuplicateNamesNoOp(Appended(tables, registry, closeMatch));
  }

  /** The report, stated against the appended entries: every name is a vocabulary entry, no name
      occurs twice, every row is the earliest appended row with its name, rows keep processing
      order, every appended name is reported, and the values are stripped and non-blank. */
  lemma ReportSpec(tables: seq<Table>, registry: seq<string>, closeMatch: CloseMatcher)
    requires IsCloseMatcher(closeMatch)
    ensures var data, rep := Appended(tables, registry, closeMatch), ReportEntries(tables, registry, closeMatch);
      && NoDuplicateNames(rep)
      && Names(rep) == Names(data)
      && (forall k :: 0 <= k < |rep| ==> WellFormedEntry(rep[k], registry))
      && (forall k :: 0 <= k < |rep| ==> rep[k].name in Names(data) && rep[k] == data[FirstIndexWithName(data, rep[k].name)])
      && (forall p, q :: 0 <= p < q < |rep| ==>
            rep[p].name in Names(data) && rep[q].name in Names(data) &&
            FirstIndexWithName(data, rep[p].name) < FirstIndexWithName(data, rep[q].name))
  {
    var data := Appended(tables, registry, closeMatch);
    FilterIsNoOp(tables, registry, closeMatch);
    DropDuplicateNamesSpec(data);
    AppendedWellFormed(tables, registry, closeMatch);
    var rep := ReportEntries(tables, registry, closeMatch);
    forall k | 0 <= k < |rep| ensures WellFormedEntry(rep[k], registry) {
      assert data[FirstIndexWithName(data, rep[k].name)] in data;
    }
  }

  /** The report is empty exactly when no row of any table, header rows aside, yields an entry:
      a report without tables or without a recognisable row is empty, not an error. */
  lemma ReportEmptyIff(tables: seq<Table>, registry: seq<string>, closeMatch: CloseMatcher)
    requires IsCloseMatcher(closeMatch)
    ensures ReportEntries(tables, registry, closeMatch) == [] <==> Appended(tables, registry, closeMatch) == []
  {
    var data := Appended(tables, registry, closeMatch);
    FilterIsNoOp(tables, registry, closeMatch);
    if data != [] {
      assert data[0] in data;
      assert data[0].name in Names(data);
    }
  }

  /** The cells that influence the result: rows after the header, whether they have three
      cells, and then only their first and third cells. */
  predicate SameUsedCells(r1: Row, r2: Row) {
    (|r1| >= 3 <==> |r2| >= 3) && (|r1| >= 3 ==> r1[0] == r2[0] && r1[2] == r2[2])
  }

  predicate SameUsedRows(rows1: seq<Row>, rows2: seq<Row>) {
    |rows1| == |rows2| && forall r :: 0 <= r < |rows1| ==> SameUsedCells(rows1[r], rows2[r])
  }

  predicate SameUsedTables(tables1: seq<Table>, tables2: seq<Table>) {
    |tables1| == |tables2| && forall t :: 0 <= t < |tables1| ==> SameUsedRows(BodyRows(tables1[t]), BodyRows(tables2[t]))
  }

  /** Header rows, the second cell, the cells past the third and the content of rows with fewer
      than three cells never influence what is appended. */
  lemma {:induction false} OnlyUsedCellsMatter(tables1: seq<Table>, tables2: seq<Table>, registry: seq<string>, closeMatch: CloseMatcher)
    requires IsCloseMatcher(closeMatch)
    requires SameUsedTables(tables1, tables2)
    ensures Appended(tables1, registry, closeMatch) == Appended(tables2, registry, closeMatch)
  {
    if tables1 != [] {
      var n := |tables1| - 1;
      OnlyUsedCellsMatter(tables1[..n], tables2[..n], registry, closeMatch);
      RowsOnlyUsedCellsMatter(BodyRows(tables1[n]), BodyRows(tables2[n]), registry, closeMatch);
    }
  }

  lemma {:induction false} RowsOnlyUsedCellsMatter(rows1: seq<Row>, rows2: seq<Row>, registry: seq<string>, closeMatch: CloseMatcher)
    requires IsCloseMatcher(closeMatch)
    requires SameUsedRows(rows1, rows2)
    ensures RowsEntries(rows1, registry, closeMatch) == RowsEntries(rows2, registry, closeMatch)
  {
    if rows1 != [] {
      var n := |rows1| - 1;
      RowsOnlyUsedCellsMatter(rows1[..n], rows2[..n], registry, closeMatch);
      assert SameUsedCells(rows1[n], rows2[n]);
    }
  }

  /** A row with fewer than three cells, or whose third cell is blank, appends nothing. */
  lemma RowWithoutValueIgnored(row: Row, registry: seq<string>, closeMatch: CloseMatcher)
    requires IsCloseMatcher(closeMatch)
    requires |row| < 3 || forall i :: 0 <= i < |row[2]| ==> IsSpace(row[2][i])
    ensures RowEntry(row, registry, closeMatch) == None
  {
    if |row| >= 3 {
      StripProperties(row[2]);
    }
  }

  /** A row of three or more cells for whose label the matcher finds nothing appends nothing,
      whatever its value cell holds: the `matches` half of the guard. */
  lemma RowWithoutMatchIgnored(row: Row, registry: seq<string>, closeMatch: CloseMatcher)
    requires IsCloseMatcher(closeMatch) && |row| >= 3
    requires closeMatch(NormalizeLabel(row[0]), Lowered(registry)) == None
    ensures RowEntry(row, registry, closeMatch) == None
  {
  }

  /** A row appends an entry exactly when it has three cells, the matcher answers its label and
      its value cell is not blank. */
  lemma RowEntryPresent(row: Row, registry: seq<string>, closeMatch: CloseMatcher)
    requires IsCloseMatcher(closeMatch)
    ensures RowEntry(row, registry, closeMatch).Some? <==>
      |row| >= 3 && closeMatch(NormalizeLabel(row[0]), Lowered(registry)).Some? && Strip(row[2]) != ""
  {
  }

  /** A row whose first cell normalises to the lower-case form of a vocabulary entry, and whose
      third cell is not blank, is always recognised: the name reported is spelled as a vocabulary
      entry with that lower-case form, and it is that very entry when no two entries differ only
      in case. */
  lemma ExactLabelRecognised(row: Row, registry: seq<string>, closeMatch: CloseMatcher, k: nat)
    requires IsCloseMatcher(closeMatch)
    requires |row| >= 3 && k < |registry| && NormalizeLabel(row[0]) == ToLower(registry[k])
    requires Strip(row[2]) != ""
    ensures RowEntry(row, registry, closeMatch).Some?
    ensures ToLower(RowEntry(row, registry, closeMatch).value.name) == ToLower(registry[k])
    ensures RowEntry(row, registry, closeMatch).value.value == Strip(row[2])
    ensures (forall j :: 0 <= j < k ==> ToLower(registry[j]) != ToLower(registry[k])) ==>
      RowEntry(row, registry, closeMatch) == Some(Entry(registry[k], Strip(row[2])))
    ensures LowerDistinct(registry) ==> RowEntry(row, registry, closeMatch) == Some(Entry(registry[k], Strip(row[2])))
  {
    var m := ToLower(registry[k]);
    assert Lowered(registry)[k] == m;
    RowEntryOfMatch(row, registry, closeMatch, m);
    if forall j :: 0 <= j < k ==> ToLower(registry[j]) != m {
      CanonicalIsFirst(registry, m, k);
    }
    if LowerDistinct(registry) {
      CanonicalOfEntry(registry, k);
    }
  }

  /** A row whose normalised label the matcher answers with `m`, and whose value is not blank,
      yields the vocabulary's spelling of `m` with the stripped value. */
  lemma RowEntryOfMatch(row: Row, registry: seq<string>, closeMatch: CloseMatcher, m: string)
    requires IsCloseMatcher(closeMatch)
    requires |row| >= 3 && m in Lowered(registry) && Strip(row[2]) != ""
    requires closeMatch(NormalizeLabel(row[0]), Lowered(registry)) == Some(m)
    ensures RowEntry(row, registry, closeMatch) == Some(Entry(Canonical(registry, m), Strip(row[2])))
  {
  }

  lemma RowsEntriesPrefix(rows: seq<Row>, r: nat, registry: seq<string>, closeMatch: CloseMatcher)
    requires IsCloseMatcher(closeMatch) && r < |rows|
    ensures RowsEntries(rows[..r + 1], registry, closeMatch)
         == RowsEntries(rows[..r], registry, closeMatch) + EntrySeq(RowEntry(rows[r], registry, closeMatch))
  {
    assert rows[..r + 1][..r] == rows[..r];
  }

  lemma AppendedPrefix(tables: seq<Table>, t: nat, registry: seq<string>, closeMatch: CloseMatcher)
    requires IsCloseMatcher(closeMatch) && t < |tables|
    ensures Appended(tables[..t + 1], registry, closeMatch)
         == Appended(tables[..t], registry, closeMatch) + RowsEntries(BodyRows(tables[t]), registry, closeMatch)
  {
    assert tables[..t + 1][..t] == tables[..t];
  }

  /** Every entry of a table's scan comes from one of its rows, and every row that yields an
      entry contributes it. */
  lemma RowsEntriesFrom(rows: seq<Row>, registry: seq<string>, closeMatch: CloseMatcher, e: Entry)
    requires IsCloseMatcher(closeMatch)
    ensures e in RowsEntries(rows, registry, closeMatch) <==>
      exists r :: 0 <= r < |rows| && RowEntry(rows[r], registry, closeMatch) == Some(e)
  {
    if e in RowsEntries(rows, registry, closeMatch) {
      var r := RowOfEntry(rows, registry, closeMatch, e);
    }
    forall r | 0 <= r < |rows| && RowEntry(rows[r], registry, closeMatch) == Some(e)
      ensures e in RowsEntries(rows, registry, closeMatch)
    {
      RowContributes(rows, r, registry, closeMatch, e);
    }
  }

  /** The row an entry of a table's scan comes from. */
  lemma {:induction false} RowOfEntry(rows: seq<Row>, registry: seq<string>, closeMatch: CloseMatcher, e: Entry)
      returns (r: nat)
    requires IsCloseMatcher(closeMatch) && e in RowsEntries(rows, registry, closeMatch)
    ensures r < |rows| && RowEntry(rows[r], registry, closeMatch) == Some(e)
    decreases |rows|
  {
    var n := |rows| - 1;
    var init := rows[..n];
    SnocMember(RowsEntries(init, registry, closeMatch), RowEntry(rows[n], registry, closeMatch), e);
    if e in RowsEntries(init, registry, closeMatch) {
      r := RowOfEntry(init, registry, closeMatch, e);
      assert init[r] == rows[r];
    } else {
      r := n;
    }
  }

  /** A row that yields an entry puts it into the table's scan. */
  lemma {:induction false} RowContributes(rows: seq<Row>, r: nat, registry: seq<string>, closeMatch: CloseMatcher, e: Entry)
    requires IsCloseMatcher(closeMatch) && r < |rows| && RowEntry(rows[r], registry, closeMatch) == Some(e)
    ensures e in RowsEntries(rows, registry, closeMatch)
    decreases |rows|, 1
  {
    if r < |rows| - 1 {
      EarlierRowContributes(rows, r, registry, closeMatch, e);
    } else {
      RowsEntriesLast(rows, registry, closeMatch, e);
    }
  }

  /** `RowContributes` for a row before the last one. */
  lemma {:induction false} EarlierRowContributes(rows: seq<Row>, r: nat, registry: seq<string>, closeMatch: CloseMatcher, e: Entry)
    requires IsCloseMatcher(closeMatch) && r < |rows| - 1 && RowEntry(rows[r], registry, closeMatch) == Some(e)
    ensures e in RowsEntries(rows, registry, closeMatch)
    decreases |rows|, 0
  {
    var init := rows[..|rows| - 1];
    assert init[r] == rows[r];
    RowContributes(init, r, registry, closeMatch, e);
    RowsEntriesKeep(rows, registry, closeMatch, e);
  }

  /** An entry of a table's scan stays there when one more row is scanned. */
  lemma RowsEntriesKeep(rows: seq<Row>, registry: seq<string>, closeMatch: CloseMatcher, e: Entry)
    requires IsCloseMatcher(closeMatch) && rows != [] && e in RowsEntries(rows[..|rows| - 1], registry, closeMatch)
    ensures e in RowsEntries(rows, registry, closeMatch)
  {
    var x := RowEntry(rows[|rows| - 1], registry, closeMatch);
    SnocMember(RowsEntries(rows[..|rows| - 1], registry, closeMatch), x, e);
  }

  /** The entry of the last row scanned is in the table's scan. */
  lemma RowsEntriesLast(rows: seq<Row>, registry: seq<string>, closeMatch: CloseMatcher, e: Entry)
    requires IsCloseMatcher(closeMatch) && rows != [] && RowEntry(rows[|rows| - 1], registry, closeMatch) == Some(e)
    ensures e in RowsEntries(rows, registry, closeMatch)
  {
    var x := RowEntry(rows[|rows| - 1], registry, closeMatch);
    SnocMember(RowsEntries(rows[..|rows| - 1], registry, closeMatch), x, e);
  }

  /** Membership after appending zero or one entry. */
  lemma SnocMember(a: seq<Entry>, x: Option<Entry>, e: Entry)
    ensures e in a + EntrySeq(x) <==> e in a || x == Some(e)
  {
  }

  /** Every appended entry comes from a row after the header row of one of the tables, and every
      such row that yields an entry contributes it. */
  lemma AppendedFrom(tables: seq<Table>, registry: seq<string>, closeMatch: CloseMatcher, e: Entry)
    requires IsCloseMatcher(closeMatch)
    ensures e in Appended(tables, registry, closeMatch) <==>
      exists t, r :: 0 <= t < |tables| && 1 <= r < |tables[t]| && RowEntry(tables[t][r], registry, closeMatch) == Some(e)
  {
    AppendedFromBodyRows(tables, registry, closeMatch, e);
    BodyRowsShift(tables, registry, closeMatch, e);
  }

  /** `AppendedFrom` with the rows counted in `BodyRows`. */
  lemma AppendedFromBodyRows(tables: seq<Table>, registry: seq<string>, closeMatch: CloseMatcher, e: Entry)
    requires IsCloseMatcher(closeMatch)
    ensures e in Appended(tables, registry, closeMatch) <==>
      exists t, k :: 0 <= t < |tables| && 0 <= k < |BodyRows(tables[t])| && RowEntry(BodyRows(tables[t])[k], registry, closeMatch) == Some(e)
  {
    if e in Appended(tables, registry, closeMatch) {
      var t, k := TableRowOfEntry(tables, registry, closeMatch, e);
    }
    forall t, k | 0 <= t < |tables| && 0 <= k < |BodyRows(tables[t])| && RowEntry(BodyRows(tables[t])[k], registry, closeMatch) == Some(e)
      ensures e in Appended(tables, registry, closeMatch)
    {
      TableRowContributes(tables, t, k, registry, closeMatch, e);
    }
  }

  /** Row `k` of a table's `BodyRows` is row `k + 1` of the table. */
  lemma BodyRowsShift(tables: seq<Table>, registry: seq<string>, closeMatch: CloseMatcher, e: Entry)
    requires IsCloseMatcher(closeMatch)
    ensures (exists t, k :: 0 <= t < |tables| && 0 <= k < |BodyRows(tables[t])| && RowEntry(BodyRows(tables[t])[k], registry, closeMatch) == Some(e))
        <==> (exists t, r :: 0 <= t < |tables| && 1 <= r < |tables[t]| && RowEntry(tables[t][r], registry, closeMatch) == Some(e))
  {
    if exists t, k :: 0 <= t < |tables| && 0 <= k < |BodyRows(tables[t])| && RowEntry(BodyRows(tables[t])[k], registry, closeMatch) == Some(e) {
      var t, k :| 0 <= t < |tables| && 0 <= k < |BodyRows(tables[t])| && RowEntry(BodyRows(tables[t])[k], registry, closeMatch) == Some(e);
      assert BodyRows(tables[t])[k] == tables[t][k + 1];
    }
    if exists t, r :: 0 <= t < |tables| && 1 <= r < |tables[t]| && RowEntry(tables[t][r], registry, closeMatch) == Some(e) {
      var t, r :| 0 <= t < |tables| && 1 <= r < |tables[t]| && RowEntry(tables[t][r], registry, closeMatch) == Some(e);
      assert BodyRows(tables[t])[r - 1] == tables[t][r];
    }
  }

  /** The table and the body row an appended entry comes from. */
  lemma {:induction false} TableRowOfEntry(tables: seq<Table>, registry: seq<string>, closeMatch: CloseMatcher, e: Entry)
      returns (t: nat, k: nat)
    requires IsCloseMatcher(closeMatch) && e in Appended(tables, registry, closeMatch)
    ensures t < |tables| && k < |BodyRows(tables[t])| && RowEntry(BodyRows(tables[t])[k], registry, closeMatch) == Some(e)
    decreases |tables|, 1
  {
    AppendedSplit(tables, registry, closeMatch, e);
    if e in Appended(tables[..|tables| - 1], registry, closeMatch) {
      t, k := EarlierTableRowOfEntry(tables, registry, closeMatch, e);
    } else {
      t := |tables| - 1;
      k := RowOfEntry(BodyRows(tables[t]), registry, closeMatch, e);
    }
  }

  /** An appended entry comes from the earlier tables or from the last one. */
  lemma AppendedSplit(tables: seq<Table>, registry: seq<string>, closeMatch: CloseMatcher, e: Entry)
    requires IsCloseMatcher(closeMatch) && tables != [] && e in Appended(tables, registry, closeMatch)
    ensures e in Appended(tables[..|tables| - 1], registry, closeMatch)
         || e in RowsEntries(BodyRows(tables[|tables| - 1]), registry, closeMatch)
  {
  }

  /** `TableRowOfEntry` for an entry the earlier tables appended. */
  lemma {:induction false} EarlierTableRowOfEntry(tables: seq<Table>, registry: seq<string>, closeMatch: CloseMatcher, e: Entry)
      returns (t: nat, k: nat)
    requires IsCloseMatcher(closeMatch) && tables != []
    requires e in Appended(tables[..|tables| - 1], registry, closeMatch)
    ensures t < |tables| && k < |BodyRows(tables[t])| && RowEntry(BodyRows(tables[t])[k], registry, closeMatch) == Some(e)
    decreases |tables|, 0
  {
    var init := tables[..|tables| - 1];
    t, k := TableRowOfEntry(init, registry, closeMatch, e);
    assert init[t] == tables[t];
  }

  /** A body row that yields an entry puts it into the appended data. */
  lemma {:induction false} TableRowContributes(tables: seq<Table>, t: nat, k: nat, registry: seq<string>,
                                               closeMatch: CloseMatcher, e: Entry)
    requires IsCloseMatcher(closeMatch) && t < |tables| && k < |BodyRows(tables[t])|
    requires RowEntry(BodyRows(tables[t])[k], registry, closeMatch) == Some(e)
    ensures e in Appended(tables, registry, closeMatch)
    decreases |tables|, 1
  {
    if t < |tables| - 1 {
      EarlierTableRowContributes(tables, t, k, registry, closeMatch, e);
    } else {
      RowContributes(BodyRows(tables[t]), k, registry, closeMatch, e);
      AppendedLast(tables, registry, closeMatch, e);
    }
  }

  /** `TableRowContributes` for a table before the last one. */
  lemma {:induction false} EarlierTableRowContributes(tables: seq<Table>, t: nat, k: nat, registry: seq<string>,
                                                      closeMatch: CloseMatcher, e: Entry)
    requires IsCloseMatcher(closeMatch) && t < |tables| - 1 && k < |BodyRows(tables[t])|
    requires RowEntry(BodyRows(tables[t])[k], registry, closeMatch) == Some(e)
    ensures e in Appended(tables, registry, closeMatch)
    decreases |tables|, 0
  {
    var init := tables[..|tables| - 1];
    assert init[t] == tables[t];
    TableRowContributes(init, t, k, registry, closeMatch, e);
    AppendedKeep(tables, registry, closeMatch, e);
  }

  /** An appended entry stays appended when one more table is scanned. */
  lemma AppendedKeep(tables: seq<Table>, registry: seq<string>, closeMatch: CloseMatcher, e: Entry)
    requires IsCloseMatcher(closeMatch) && tables != [] && e in Appended(tables[..|tables| - 1], registry, closeMatch)
    ensures e in Appended(tables, registry, closeMatch)
  {
  }

  /** An entry of the last table's scan is appended. */
  lemma AppendedLast(tables: seq<Table>, registry: seq<string>, closeMatch: CloseMatcher, e: Entry)
    requires IsCloseMatcher(closeMatch) && tables != []
    requires e in RowsEntries(BodyRows(tables[|tables| - 1]), registry, closeMatch)
    ensures e in Appended(tables, registry, closeMatch)
  {
  }

  lemma AppendRowsStep(data: seq<Entry>, rows: seq<Row>, r: nat, registry: seq<string>, closeMatch: CloseMatcher)
    requires IsCloseMatcher(closeMatch) && r < |rows|
    ensures var entry := RowEntry(rows[r], registry, closeMatch);
      data + RowsEntries(rows[..r + 1], registry, closeMatch)
      == (data + RowsEntries(rows[..r], registry, closeMatch)) + (if entry.Some? then [entry.value] else [])
  {
    RowsEntriesPrefix(rows, r, registry, closeMatch);
  }

  /** The frame's rows after `reset_index(drop=True)` and `index += 1` (app.py:81-82): the entries
      in order, labelled 1, 2, ... with no gap. */
  function Renumbered(entries: seq<Entry>): (rows: seq<ReportRow>)
    ensures |rows| == |entries|
    ensures forall k :: 0 <= k < |rows| ==> rows[k] == ReportRow(k + 1, entries[k].name, entries[k].value)
  {
    seq(|entries|, k requires 0 <= k < |entries| => ReportRow(k + 1, entries[k].name, entries[k].value))
  }

  /** `extract_data_from_html` on a parsed report. The nested loops append to `data` what each row
      after a header yields; the frame built from `data` is then filtered to the vocabulary, rid of
      repeated names and numbered from 1. The rows returned are the report entries numbered from 1;
      every name is a vocabulary entry and no name occurs twice. */
  method ExtractDataFromHtml(tables: seq<Table>, registry: seq<string>, closeMatch: CloseMatcher)
    returns (report: seq<ReportRow>)
    requires IsCloseMatcher(closeMatch)
    ensures |report| == |ReportEntries(tables, registry, closeMatch)|
    ensures forall k :: 0 <= k < |report| ==>
      report[k].index == k + 1 &&
      Entry(report[k].name, report[k].value) == ReportEntries(tables, registry, closeMatch)[k]
    ensures forall k :: 0 <= k < |report| ==> report[k].name in registry
    ensures forall p, q :: 0 <= p < q < |report| ==> report[p].name != report[q].name
  {
    var data: seq<Entry> := [];
    for t := 0 to |tables|
      invariant data == Appended(tables[..t], registry, closeMatch)
    {
      var rows := BodyRows(tables[t]);
      ghost var done := data;
      for r := 0 to |rows|
        invariant data == done + RowsEntries(rows[..r], registry, closeMatch)
      {
        var entry := RowEntry(rows[r], registry, closeMatch);
        AppendRowsStep(done, rows, r, registry, closeMatch);
        if entry.Some? {
          data := data + [entry.value];
        }
      }
      assert rows[..|rows|] == rows;
      AppendedPrefix(tables, t, registry, closeMatch);
    }
    assert tables[..|tables|] == tables;

    var df := KeepRegistered(data, registry);
    df := DropDuplicateNames(df);
    report := Renumbered(df);
    ReportSpec(tables, registry, closeMatch);
  }
}
