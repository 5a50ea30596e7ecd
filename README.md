# Medical report extraction, modelled in Dafny

The application reads a patient's analysis report, uploaded as HTML. It extracts the clinical
parameters it recognises, each with its measured value. `extract_data_from_html` (app.py:57-83)
works in steps:

- It walks every table of the parsed document and skips each table's header row.
- Each remaining row with at least three cells yields a candidate:
  - the label is the first cell, whitespace-collapsed, stripped and lower-cased;
  - the value is the third cell, stripped.
- The label is matched fuzzily against the lower-cased vocabulary `RELEVANT_OBJECTS` (app.py:19-46,
  69 names), using `difflib.get_close_matches` with `n=1` and `cutoff=0.8`.
- When there is a match and the value is not blank, the vocabulary entry is appended to `data`,
  spelled as in the vocabulary, together with the value.
- The resulting frame is then filtered to the vocabulary, rid of repeated parameters (the first
  occurrence is kept) and numbered from 1.

The project has six modules:

- `Wrappers` (wrappers.dfy) holds the `Option` datatype.
- `Text` (text.dfy) models the pieces of the label normalisation: Python's `str.split()`,
  `' '.join`, `str.strip()` and `str.lower()`. The whitespace class is Python's in full. The case
  mapping is Python's on U+0000..U+00FF and leaves other characters alone.
- `Registry` (registry.dfy) holds:
  - the vocabulary `RelevantObjects`, with the source's 69 names in the source's order, written
    as the consecutive runs of the list that concern one organ system each;
  - `list.index`, and the lookup from a lower-cased match back to the vocabulary's spelling.
- `Matcher` (matcher.dfy) states the contract the pipeline relies on from the fuzzy lookup:
  - the answer is one of the candidates;
  - the answer clears the cutoff 4/5 on difflib's `quick_ratio` upper bound of the similarity;
  - a word that is itself a candidate is answered with itself.
- `Extraction` (extraction.dfy) models the pipeline:
  - `ExtractDataFromHtml` is a method with the source's nested loops over tables and rows. It
    builds `data`, then filters, de-duplicates and renumbers.
  - It is proved against specification functions: `Appended`, `KeepRegistered`,
    `DropDuplicateNames` and `Renumbered`.
  - The lemmas about those functions are what the source promises.
- `ReportExample` (report_example.dfy) works through one table: a header row, two known
  parameters and one unknown label.

The HTML has already been parsed on input. A document is its tables, a table its `<tr>` rows, and
a row the texts of its `<td>` cells. The fuzzy matcher is a parameter `closeMatch` constrained
by `IsCloseMatcher`. The vocabulary is a parameter `registry`; the source's value is
`Registry.RelevantObjects`.

Two facts about the code shape what the model promises:

- **Similarity measure.** difflib's ratio is 2·M/T, where M is the number of matched characters and
  T the total length of the two strings. It is not an edit distance. The model states the matcher's
  contract on difflib's `quick_ratio`, the upper bound of that ratio which the library checks before the full ratio.
- **Which entry's spelling is returned.** `get_close_matches(..., n=1)` returns only the single best
  candidate. A label within 0.8 of one entry can therefore be reported under another entry. The
  model promises only the following:
  - a label whose normalised form is an entry's lower-case form gets that entry's spelling;
  - a label reported under an entry clears the cutoff, on `quick_ratio`, against that entry's
    lower-case form.

## Model

| member | source | states |
|---|---|---|
| Text.LowerCharIdempotent | app.py:67 | `LowerChar`, the `str.lower()` of one character: lower-casing twice is lower-casing once, and it maps whitespace (`IsSpace`, Python's `str.isspace()`) to whitespace and nothing else to whitespace |
| Text.ToLowerIdempotent | app.py:67 | `ToLower` (`str.lower()`): lower-casing an already lower-cased label changes nothing |
| Text.TrimLeft | app.py:67-68 | the result is a suffix of the input; everything removed is whitespace; the result is empty or starts with non-whitespace |
| Text.TrimRight | app.py:67-68 | the result is a prefix of the input; everything removed is whitespace; the result is empty or ends with non-whitespace |
| Text.StripProperties | app.py:68 | `Strip` (`str.strip()`) leaves no outer whitespace, is empty exactly when the cell is all whitespace, and is idempotent |
| Text.TrimmedIsFixedPoint | app.py:68 | `strip()` leaves a string without outer whitespace unchanged |
| Text.Split | app.py:67 | `split()` yields only non-empty runs of non-whitespace characters |
| Text.SplitSeparates | app.py:67 | every whitespace character separates words: splitting two pieces of text with any whitespace character between them gives the words of the first followed by the words of the second. With `SplitJoinSpace` on a single word, this determines `split()` |
| Text.SplitKeepsText | app.py:67 | the words of `split()`, glued together, are exactly the input's non-whitespace characters in order: the split drops whitespace and nothing else |
| Text.JoinSpaceCollapsed | app.py:67 | `JoinSpace` (`' '.join`) of words gives a string with no outer whitespace and only single plain spaces inside |
| Text.NonSpaceJoinSpace | app.py:67 | `' '.join` adds only whitespace: dropping the whitespace of the join gives the words glued together |
| Text.SplitJoinSpace | app.py:67 | splitting a space-joined list of words gives the words back |
| Text.JoinSpaceSplit | app.py:67 | joining the words of a collapsed string gives the string back |
| Text.ToLowerCollapsed | app.py:67 | lower-casing keeps a string collapsed |
| Text.NonSpaceToLower | app.py:67 | lower-casing commutes with dropping whitespace |
| Text.NormalizeLabelProperties | app.py:67 | `NormalizeLabel`, the key `' '.join(text.split()).strip().lower()`, has no outer whitespace and no two whitespace characters in a row, and normalising twice is normalising once |
| Text.NormalizeKeepsText | app.py:67 | the key keeps the cell's text: its non-whitespace characters are the cell's non-whitespace characters, lower-cased, in order, however irregular the cell's whitespace |
| Text.NormalizeSeparates | app.py:67 | any whitespace character in a cell (tab, newline, no-break space, …) normalises as a single plain space would |
| Text.StripAfterJoinIsNoOp | app.py:67 | the `.strip()` applied after the join never changes anything |
| Text.NormalizeCollapsed | app.py:67 | an already collapsed label normalises to its lower-case form |
| Registry.VocabularyShape | app.py:19-46 | `RelevantObjects` holds the source's 69 names, from "Viscosidad de la Sangre" and "Cristal de Colesterol" to "Boro" |
| Registry.LoweredMembers | app.py:71-74 | `Lowered` (`[obj.lower() for obj in RELEVANT_OBJECTS]`) has one string per name; a string is in it exactly when it is some name's lower-case form; each is already lower case |
| Registry.IndexOf | app.py:74 | `list.index` returns the position of the first occurrence |
| Registry.Canonical | app.py:74 | the looked-up name is a vocabulary entry whose lower-case form is the match |
| Registry.CanonicalIsFirst | app.py:74 | the name chosen is the first entry whose lower-case form is the match |
| Registry.CanonicalOfEntry | app.py:74 | when no two entries differ only in case, an entry's lower-case form leads back to that entry |
| Matcher.QuickRatioReflexive | app.py:71 | a word always clears the cutoff against itself |
| Matcher.NoCloseCandidateNoMatch | app.py:71-72 | when no candidate clears the cutoff, there is no match |
| Matcher.ExactMatchIsCloseMatcher | app.py:71 | the matcher contract is satisfiable: exact look-up meets it |
| Extraction.RowEntry | app.py:66-75 | a row yields an entry only when it has at least three cells; the entry's name is a vocabulary entry whose lower-case form clears the cutoff against the normalised label; its value is the stripped third cell, not blank |
| Extraction.RowEntryOfMatch | app.py:71-74 | when the matcher answers `m` for the normalised label and the value is not blank, the row yields the vocabulary's spelling of `m` (the first entry whose lower-case form is `m`) with the stripped value |
| Extraction.RowWithoutMatchIgnored | app.py:71-72 | a row of three or more cells whose label the matcher answers with nothing yields nothing, whatever its value |
| Extraction.RowEntryPresent | app.py:66-75 | a row yields an entry exactly when it has three or more cells, the matcher answers its normalised label, and its stripped third cell is not blank |
| Extraction.RowWithoutValueIgnored | app.py:66-72 | a row with fewer than three cells, or a blank third cell, yields nothing |
| Extraction.ExactLabelRecognised | app.py:67-74 | a label normalising to an entry's lower-case form, with a non-blank value, always yields an entry of that lower-case form; it yields that very entry when no earlier entry shares its lower-case form |
| Extraction.OnlyUsedCellsMatter | app.py:62-68 | `BodyRows` (`find_all('tr')[1:]`) drops each table's header row: header rows, the second cell, the cells past the third and the contents of short rows never influence the appended data |
| Extraction.RowsOnlyUsedCellsMatter | app.py:64-68 | within a table (`RowsEntries`), only the row count, each row's cell-count class and its first and third cells matter |
| Extraction.RowsEntriesFrom | app.py:64-75 | `RowsEntries`, the entries one table's rows append: an entry is among them exactly when some row yields it |
| Extraction.AppendedFrom | app.py:62-75 | `Appended`, the list `data`: an entry is in it exactly when some row after the header row of some table yields it |
| Extraction.AppendedWellFormed | app.py:62-75 | every entry of `Appended` names a vocabulary entry and carries a non-blank, stripped value |
| Extraction.RowsEntriesWellFormed | app.py:64-75 | the same for `RowsEntries`, the rows of one table |
| Extraction.KeepRegisteredSpec | app.py:79 | `KeepRegistered`, the `isin` filter: an entry is in the filtered data exactly when it is in the data and its name is registered; when every name is registered the filter changes nothing |
| Extraction.KeepRegisteredOrder | app.py:79 | the filter decides entry by entry: filtering a concatenation concatenates the filtered parts, and one entry is kept exactly when its name is registered, so order and repeated entries are kept |
| Extraction.FilterIsNoOp | app.py:74-79 | the `isin` filter never removes an appended entry |
| Extraction.FirstIndexWithName | app.py:80 | the position returned is the first entry with that name |
| Extraction.DropDuplicateNames | app.py:80 | de-duplication keeps the same set of names |
| Extraction.DropDuplicateNamesSpec | app.py:80 | after de-duplication:<br>• no name occurs twice;<br>• each kept entry is the first input entry with its name;<br>• kept entries follow the order of those first occurrences |
| Extraction.DropDuplicateNamesNoOp | app.py:80 | de-duplicating a sequence without repeated names changes nothing |
| Extraction.DropDuplicateNamesIdempotent | app.py:80 | de-duplicating twice is de-duplicating once |
| Extraction.ReportOfDistinctNames | app.py:78-80 | when no parameter is named twice, the report is exactly the appended entries in order |
| Extraction.ReportSpec | app.py:62-80 | the report entries (`ReportEntries`: filter, then de-duplicate, the appended data):<br>• name only vocabulary entries and never repeat a name;<br>• cover every appended name;<br>• are each the earliest appended entry with their name;<br>• keep processing order;<br>• carry stripped, non-blank values |
| Extraction.ReportEmptyIff | app.py:59-80 | the report is empty exactly when no row yields an entry (in particular with no tables): an empty report, never an error |
| Extraction.Renumbered | app.py:81-82 | the frame's rows are the entries in order, indexed 1, 2, … with no gap |
| Extraction.ExtractDataFromHtml | app.py:57-83 | the rows returned are the report entries, indexed 1..n; every name is a vocabulary entry, and no name occurs twice |
| ReportExample.ViscosityRow | app.py:66-75 | a label typed as in the vocabulary yields the vocabulary entry and its value |
| ReportExample.CholesterolRow | app.py:67-75 | a label differing only in letter case is reported in the vocabulary's spelling |
| ReportExample.UnknownRow | app.py:71-72 | a label the matcher finds nothing close to is dropped |
| ReportExample.ExampleReport | app.py:57-80 | the example table reports exactly ("Viscosidad de la Sangre", "72.211") then ("Cristal de Colesterol", "71.326") |

## Left out

- HTML parsing with BeautifulSoup (app.py:58-65): the input is the already extracted cell texts.
  Entity decoding, nested tables and `.text` concatenation are not modelled.
- The ISO-8859-1 decoding of the upload (app.py:136) is boundary I/O. It turns the document's
  bytes into characters in U+0000..U+00FF. Character references in the HTML (`&#8195;`,
  `&Omega;`) still put other characters into a cell's text, and the model's strings admit them.
- difflib's `SequenceMatcher` is abstracted as the parameter `closeMatch`. The model does not
  state which candidate is the best, how ties are broken, or the exact ratio. Only
  `quick_ratio >= 4/5` is stated, and it is a necessary condition for a match, not a sufficient
  one.
- The float cutoff `0.8` is the rational 4/5. At the boundary the two agree, because a ratio of
  exactly 4/5 rounds to the same double as the literal `0.8`.
- Text.LowerChar: Python's `str.lower()` is modelled on U+0000..U+00FF only. On any other
  character `LowerChar` returns the character unchanged. Python lower-cases many of them: U+03A9,
  which `&Omega;` produces, becomes U+03C9. U+0130 even becomes two characters. On a label
  holding such a character the model's key differs from the source's. `IsSpace`, by contrast,
  is Python's whitespace class in full.
- Extraction.ExactLabelRecognised: its "that very entry" conclusion needs a hypothesis. Either no
  earlier entry shares the label's lower-case form, or `LowerDistinct(registry)` holds. That the
  69 names of `RelevantObjects` are distinct ignoring case is not proved here, because a
  pairwise check over the whole vocabulary is too costly for the verifier.
- ReportExample.ExampleReport: the lemma takes as a hypothesis that the matcher finds nothing
  close to "unknown thing". This follows from `IsCloseMatcher`'s quick-ratio clause. Proving it
  needs a character count of "unknown thing" against each lower-case name of length 9 to 19,
  and that count is not carried out here. The numbered report for this example
  follows from `Extraction.ExtractDataFromHtml`'s contract and is not restated.
- Extraction.ExtractDataFromHtml:
  - The pandas calls (`DataFrame`, `isin`, `drop_duplicates`, `reset_index`, `index += 1`) are
    specification functions applied to the sequence of pairs, not in-place updates of a frame.
    The frame's column names are not modelled.
  - The lower-cased vocabulary is one value, `Lowered(registry)`. The source rebuilds the same
    list for each row.
- The PDF path (app.py:49-54, 128-134) calls pdfplumber, and its result is a hard-coded
  three-row table, so it is not modelled.
- `generate_pdf` (app.py:86-112), text-to-speech (app.py:115-119, 151-183, tts.py), the chat with
  the language-model API (app.py:192-218) and the Streamlit UI are not modelled. All of them are
  external services, file I/O or UI.
- Re-running the extraction on the same input yields the same report because every model member
  is a deterministic function. No separate lemma states this.
