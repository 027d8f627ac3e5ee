# Clinical record reconciliation, modelled in Dafny

The analyser reads clinical PDF reports. It splits their text into chunks, has each chunk turned into a partial JSON record, and fuses those records into one record per document. It then repairs that record with deterministic heuristics: date normalisation, fiscal-code detection, specialty inference and canonical specialty names. Around it sit the routines that give files and patients stable names:
- patient identifiers and per-patient aggregates;
- removal of duplicate downloads and duplicate result files;
- free-name probing when a file is copied or uploaded;
- sanitized upload names, zip arcnames and object-store paths.

This project models that record-reconciliation core as Dafny functions, over records whose text fields are strings (blank meaning `""`) and whose list fields are `seq<string>`. It proves what the code promises of it.

Where the code is a Python loop that mutates a list, a dict or a counter, the model is a `method` with a `while`/`for` loop and its invariants. Each such method is proved equal to a specification function, and the properties are lemmas about that function. Pure Python helpers become functions.

I/O is replaced by inputs:
- a directory is a map from file name to size, or a listing of (name, size) or (name, mtime) in the order the code visits it;
- a PDF page is the three candidate texts it can supply;
- the clock is a timestamp parameter;
- an AI answer is a sequence of chunk records.

Modules, one per component of the program:

| module | what it models |
|---|---|
| `Wrappers`, `Strings`, `Lists` | Option; the ASCII behaviour of the Python string operations the code uses (`strip`, `lower`, `split`, `splitlines`, `os.path.basename`/`splitext`, `str`/`int` on digits); ordered de-duplication, the `extend` loop, "first per key" passes |
| `Taxonomy` | `CATEGORY_CHOICES`, `SPECIALTY_KEYWORDS` (in dictionary order) and `MEDICAL_SPECIALTIES` as constant sequences |
| `Dates` | `normalize_date_token`, the search patterns and `extract_iso_date` |
| `PageText` | `normalize_page_text`, the page selection ladder of `extract_text_pdf`, `split_chunks` |
| `Records` | the record, `make_empty_record`, `merge_record_with_fallback`, `normalize_specialty_field` |
| `Fusion` | the chunk fusion of `analyze_pdfs` and the `date_rilevanti` rewrite, the OCR note and the document-date entry |
| `Names` | `strip_copy_suffix`, `str.capitalize`/`str.title`, `normalize_name` |
| `Heuristics` | the fiscal-code grammar, candidate scoring and selection, `enrich_record_with_heuristics`, `infer_specialty_from_text` and its use |
| `Analysis` | the whole tail of `analyze_pdfs` after the chunk records are known |
| `Profiles` | `slugify`, `build_patient_id`, `unique`, `select_speciality`, `compute_aggregates` |
| `Duplicates` | `normalize_base_name`/`remove_duplicate_pdfs`, `_normalize_result_name`/`remove_duplicate_results` |
| `Probing` | the free-name `while os.path.exists(...)` loops and the probing of `scan_local_folder` |
| `Uploads` | `sanitize_filename`, the upload loops, `_copy_downloads_to_patient`, the zip arcnames |
| `Storage` | `_normalize_filename`, `build_storage_path` |

In the chunk fusion, `make_empty_record` seeds `documento.specialita` with `"altro"`, and `pick_field` leaves a truthy target alone. So the chunks' specialty is never picked. `Fusion.Fuse` follows the code as written. The same file treats `"altro"` as a placeholder that a truthy value replaces (`merge_record_with_fallback`, medical_ai_backend/analyze_pdf_ai.py:393), so the seeded `"altro"` evidently is not meant to block the pick, and `Fusion.FuseIntended` corrects it. The analysis pipeline (`Analysis.Analyze`, `Analysis.AnalyzeChunks`) takes a flag choosing the fusion as written or as corrected, and its lemmas hold for both; see "## Findings".

Python quirks the model reproduces on purpose:
- The chunk category is `max(set(cats), key=cats.count)`, and `"altro"` takes part in it.
- The summary is the first longest one, stripped afterwards.
- `normalize_name` splits on the class `[\\s]`, that is on runs of backslashes and the letter `s`, not on whitespace. `Names.NormalizeNameAtS` shows the `'s'` being lost.
- The scoring loop applies `\b` to a line stripped of everything but letters and digits. So a candidate is found only when that whole compacted line is a fiscal code (`Heuristics.CandidatesOfCompactLine`).
- `unique` turns a whitespace-only item into one `""`.
- `"referto-2023.pdf"` and `"referto-2024.pdf"` share a duplicate key.

## Model

| member | source | states |
|---|---|---|
| Dates.DaysInMonth | medical_ai_backend/analyze_pdf_ai.py:590 | the calendar `datetime` accepts: every month has 28 to 31 days |
| Dates.Pad2 | medical_ai_backend/analyze_pdf_ai.py:593 | `%02d` writes two digits that read back as the number |
| Dates.Pad4 | medical_ai_backend/analyze_pdf_ai.py:593 | the year is written on four digits that read back as the number |
| Dates.Pad2OfDecValue | medical_ai_backend/analyze_pdf_ai.py:593 | a two-digit numeral is the padded form of its own value (the inverse of `Pad2`) |
| Dates.Pad4OfDecValue | medical_ai_backend/analyze_pdf_ai.py:593 | a four-digit numeral is the padded form of its own value |
| Dates.IsoDate | medical_ai_backend/analyze_pdf_ai.py:590-593 | `strftime("%Y-%m-%d")` of a valid date has ten characters |
| Dates.IsoDateIsIso | medical_ai_backend/analyze_pdf_ai.py:590-593 | the formatted date has the ISO shape: four digits, '-', two digits, '-', two digits, and denotes a valid date |
| Dates.NormalizeDateToken | medical_ai_backend/analyze_pdf_ai.py:571-593 | a result is always an ISO date, and exists only for a non-blank token that cleans into three parts with a four-character first or last part |
| Dates.DatePartsOfGroups | medical_ai_backend/analyze_pdf_ai.py:576-579 | three numerals joined by '/', '-' or '.' clean and split back into exactly those three parts |
| Dates.DayMonthYearForm | medical_ai_backend/analyze_pdf_ai.py:586-587 | a token whose last part has four characters reads as day, month, year |
| Dates.YearMonthDayForm | medical_ai_backend/analyze_pdf_ai.py:584-585 | a token whose first part has four characters reads as year, month, day |
| Dates.NormalizeIso | medical_ai_backend/analyze_pdf_ai.py:571-593 | an ISO date is its own normal form |
| Dates.NormalizeIdempotent | medical_ai_backend/analyze_pdf_ai.py:571-593 | the output of the normaliser is a fixed point of it |
| Dates.NormalizeExampleSlashes | medical_ai_backend/analyze_pdf_ai.py:571-593 | "05/03/2024" gives "2024-03-05" |
| Dates.NormalizeExampleDashes | medical_ai_backend/analyze_pdf_ai.py:571-593 | "05-03-2024" gives "2024-03-05" |
| Dates.NormalizeExampleDots | medical_ai_backend/analyze_pdf_ai.py:571-593 | "05.03.2024" gives "2024-03-05" |
| Dates.NormalizeExampleShort | medical_ai_backend/analyze_pdf_ai.py:571-593 | "5/3/2024" gives "2024-03-05" |
| Dates.NormalizeExampleIso | medical_ai_backend/analyze_pdf_ai.py:571-593 | "2024-03-05" gives itself |
| Dates.NormalizeExampleNoSuchDay | medical_ai_backend/analyze_pdf_ai.py:590-592 | "31-02-2024" is not a calendar date: None |
| Dates.Search | medical_ai_backend/analyze_pdf_ai.py:602 | `re.search` returns a span the pattern matches, with no match starting further left; None only when no position matches |
| Dates.ExtractWith | medical_ai_backend/analyze_pdf_ai.py:601-608 | the ISO date returned is the normal form of the matched text, which occurs in the value |
| Dates.ExtractIsoDate | medical_ai_backend/analyze_pdf_ai.py:600-608 | the result is an ISO date, the normal form of a fragment that occurs in the value |
| Dates.ExtractOfIso | medical_ai_backend/analyze_pdf_ai.py:545-546 | an ISO date is found whole by the first search pattern |
| PageText.CapRunsShape | medical_ai_backend/analyze_pdf_ai.py:807-808 | capping runs of a character leaves no run of three, keeps every other character, and creates no new pair of another character |
| PageText.CapRunsFixed | medical_ai_backend/analyze_pdf_ai.py:808 | a text without three newlines in a row is left as it is |
| PageText.NormalizePageTextShape | medical_ai_backend/analyze_pdf_ai.py:803-809 | every normalised page has no '\r', no tab, no two spaces in a row, no three newlines in a row, and nothing to strip |
| PageText.NormalizePageTextFixed | medical_ai_backend/analyze_pdf_ai.py:803-809 | a tidy, stripped text is its own normal form |
| PageText.NormalizePageTextIdempotent | medical_ai_backend/analyze_pdf_ai.py:803-809 | normalising twice is normalising once |
| PageText.PagePickSource | medical_ai_backend/analyze_pdf_ai.py:823-853 | a page contributes its normalised text layer, its block text or its normalised OCR text |
| PageText.PagePickLongest | medical_ai_backend/analyze_pdf_ai.py:825-851 | the contribution is at least as long as every candidate the page considers (block text only under 80 characters, OCR only when enabled and under 200) |
| PageText.PagePickEmpty | medical_ai_backend/analyze_pdf_ai.py:834-853 | a page contributes nothing exactly when every candidate it considers is empty |
| PageText.PagePickTidy | medical_ai_backend/analyze_pdf_ai.py:823-853 | every contribution has the normalised shape |
| PageText.ExtractTextJoin | medical_ai_backend/analyze_pdf_ai.py:855-856 | the document text is the newline join of the non-empty contributions, cut at `max_chars` |
| PageText.ExtractTextBound | medical_ai_backend/analyze_pdf_ai.py:855-856 | the document text is never longer than the cap and is a prefix of the join |
| PageText.ExtractTextPdf | medical_ai_backend/analyze_pdf_ai.py:820-856 | the page loop that appends and revises `text_chunks` computes the specified document text |
| PageText.GroupsCover | medical_ai_backend/analyze_pdf_ai.py:859-874 | the chunks' line lists, concatenated in order, are `text.splitlines()` |
| PageText.ChunksEmpty | medical_ai_backend/analyze_pdf_ai.py:872-874 | empty text gives no chunk and any other text at least one |
| PageText.ChunkBound | medical_ai_backend/analyze_pdf_ai.py:865-871 | a chunk of two or more lines is shorter than `max_len` |
| PageText.EmptyGroupFirst | medical_ai_backend/analyze_pdf_ai.py:865-868 | a chunk made of no line at all (the string "") can only be the first, and is there exactly when the first line plus one exceeds `max_len`; a one-line chunk holding an empty line also reads "" and may come later |
| PageText.ChunksGreedy | medical_ai_backend/analyze_pdf_ai.py:865-871 | each chunk but the last was closed because the next line did not fit |
| PageText.ScanGreedy | medical_ai_backend/analyze_pdf_ai.py:864-871 | the loop state: each closed group was closed on a line that did not fit |
| PageText.ScanCovers | medical_ai_backend/analyze_pdf_ai.py:862-871 | the loop invariant: closed groups and the buffer cover the lines seen, and `cur` is the buffer's cost |
| PageText.ScanEmptyGroups | medical_ai_backend/analyze_pdf_ai.py:865-868 | only the first closed group can be empty, exactly when the first line does not fit |
| PageText.JoinLength | medical_ai_backend/analyze_pdf_ai.py:866 | a group joined by newlines is one shorter than what it costs `cur` |
| PageText.SplitChunks | medical_ai_backend/analyze_pdf_ai.py:859-874 | the `buf`/`cur` loop computes the specified chunks |
| Records.MakeEmptyRecord | medical_ai_backend/analyze_pdf_ai.py:437-464 | name and path set, every list empty, `specialita` and `categoria` "altro", every other text field blank |
| Records.MergeFieldsAt | medical_ai_backend/analyze_pdf_ai.py:386-394 | per key: a present value that is not a replaceable "altro" specialty stays, else a truthy fallback value wins |
| Records.MergeKeepsPrimary | medical_ai_backend/analyze_pdf_ai.py:386-394 | a non-empty `documento`/`paziente` value is never replaced, except `documento.specialita` reading "altro" in any case |
| Records.MergeTopFields | medical_ai_backend/analyze_pdf_ai.py:396-420 | `categoria`, `riassunto`, `medico_ente` change only from "" or "altro" and to a truthy fallback value; `file`, `path` only from "" |
| Records.MergeListsShape | medical_ai_backend/analyze_pdf_ai.py:401-415 | each list is the primary list followed by the fallback's truthy new items in order: a prefix, nothing truthy lost, no new duplicate |
| Records.MergeNoFallback | medical_ai_backend/analyze_pdf_ai.py:383-384 | a fallback that is not a dict leaves the primary as it is |
| Records.MergeIdempotent | medical_ai_backend/analyze_pdf_ai.py:382-422 | merging the same fallback again changes nothing |
| Records.MergeFieldsIdempotent | medical_ai_backend/analyze_pdf_ai.py:386-394 | the nested merge is idempotent |
| Records.MergeListsIdempotent | medical_ai_backend/analyze_pdf_ai.py:411-415 | the list merge is idempotent |
| Records.MergeNested | medical_ai_backend/analyze_pdf_ai.py:389-394 | the nested loop over `src.items()` computes the specified merge of one object |
| Records.MergeTopField | medical_ai_backend/analyze_pdf_ai.py:397-399 | the body of the top-field loop computes the specified update |
| Records.MergeBlankField | medical_ai_backend/analyze_pdf_ai.py:417-420 | the `file`/`path` update computes the specified value |
| Records.MergeListFields | medical_ai_backend/analyze_pdf_ai.py:411-415 | the append loops compute the specified lists |
| Records.MergeRecordWithFallback | medical_ai_backend/analyze_pdf_ai.py:382-422 | the whole in-place merge computes the specified record |
| Records.FindKnown | medical_ai_backend/analyze_pdf_ai.py:375-378 | a hit is a known specialty whose lower case equals the value; a miss means none matches |
| Records.FindKnownAt | medical_ai_backend/analyze_pdf_ai.py:375-378 | the first matching entry is the one found |
| Records.CanonicalSpecialtyIs | medical_ai_backend/analyze_pdf_ai.py:372-379 | the canonical specialty reads as the stripped lower-cased value ("altro" when blank), has nothing to strip, and is a known specialty when one matches |
| Records.CanonicalSpecialtyIdempotent | medical_ai_backend/analyze_pdf_ai.py:372-379 | normalising the specialty twice is normalising it once |
| Records.CanonicalSpecialtyForm | medical_ai_backend/analyze_pdf_ai.py:372-379 | the canonical specialty is never blank, has nothing to strip, and is its own canonical form |
| Records.NormalizedDocumentoKeeps | medical_ai_backend/analyze_pdf_ai.py:372-379 | only `specialita` changes |
| Lists.ExtendList | medical_ai_backend/analyze_pdf_ai.py:412-415 | the loop `if item and item not in existing: append` computes the specified extension |
| Lists.ExtendProperties | medical_ai_backend/analyze_pdf_ai.py:412-415 | the old list is a prefix, every truthy item is present, no new duplicate appears |
| Lists.ExtendExample | medical_ai_backend/analyze_pdf_ai.py:412-415 | ["A","B"] extended by ["B","C"] is ["A","B","C"] |
| Lists.ExtendIdempotent | medical_ai_backend/analyze_pdf_ai.py:412-415 | extending twice by the same items is extending once |
| Lists.ExtendDedup | medical_ai_backend/analyze_pdf_ai.py:1243-1250 | folding lists one by one into an empty list gives the first-seen de-duplication of all their truthy items |
| Lists.Dedup | medical_ai_backend/analyze_pdf_ai.py:1324 | `dict.fromkeys`: no duplicates, the same members, never longer |
| Lists.DedupFirstOccurrence | medical_ai_backend/analyze_pdf_ai.py:1324 | values appear in the order of their first occurrences |
| Lists.DedupOfNoDup | medical_ai_backend/analyze_pdf_ai.py:1324 | a list without duplicates is unchanged |
| Lists.KeepFirstPerKey | medical_ai_backend/download_pdfs.py:75-89 | the `seen`/`removed` loop keeps exactly the first element of each key and counts the rest |
| Lists.FirstByKey | medical_ai_backend/download_pdfs.py:76-88 | the kept elements come from the input, have distinct keys, and cover every key |
| Lists.FirstByKeyIsFirst | medical_ai_backend/download_pdfs.py:80-88 | each kept element is the first element of the input with its key |
| Lists.FirstByKeyOfDistinct | medical_ai_backend/download_pdfs.py:80-88 | when all keys differ, everything is kept |
| Lists.FirstByKeyOrdered | medical_ai_backend/analyze_pdf_ai.py:478-492 | in an ordered input, the kept element of a key comes, in that order, before every other element with the key |
| Fusion.ModeUpTo | medical_ai_backend/analyze_pdf_ai.py:1255 | among the first `n`, a value of maximal count, the first such |
| Fusion.Mode | medical_ai_backend/analyze_pdf_ai.py:1255 | a value of the list whose count is maximal; among equally frequent values, the first seen |
| Fusion.FusedCategoryIs | medical_ai_backend/analyze_pdf_ai.py:1253-1256 | the fused category is never blank, is "altro" without chunks, and otherwise a chunk category of maximal count |
| Fusion.LongestUpTo | medical_ai_backend/analyze_pdf_ai.py:1260 | `max(key=len, default="")` is the first of the longest |
| Fusion.FusedSummaryIs | medical_ai_backend/analyze_pdf_ai.py:1259-1260 | the summary is the strip of the first longest chunk summary, "" without chunks |
| Fusion.FuseSummary | medical_ai_backend/analyze_pdf_ai.py:1259-1260 | the fused record carries that summary |
| Fusion.FusedListIs | medical_ai_backend/analyze_pdf_ai.py:1243-1250 | a fused list has no duplicates and holds exactly the truthy items of the chunks' lists |
| Fusion.FuseLists | medical_ai_backend/analyze_pdf_ai.py:1262-1269 | every list field of the fused record is the fused list of that field |
| Fusion.FirstValueIs | medical_ai_backend/analyze_pdf_ai.py:1281-1285 | the value picked is that of the first candidate with a truthy value; None when there is none |
| Fusion.PickFieldGet | medical_ai_backend/analyze_pdf_ai.py:1278-1285 | `pick_field` changes only its key, and only when the target is blank (or, corrected, a replaceable "altro") |
| Fusion.FusePatient | medical_ai_backend/analyze_pdf_ai.py:1289-1290 | each patient field is the first truthy chunk value, blank when there is none |
| Fusion.FuseDocument | medical_ai_backend/analyze_pdf_ai.py:1287-1288 | `tipologia` and `data_documento` are the first truthy chunk values, blank when there is none |
| Fusion.FirstTruthyIs | medical_ai_backend/analyze_pdf_ai.py:1295-1299 | the string found is the first truthy one |
| Fusion.FuseMedico | medical_ai_backend/analyze_pdf_ai.py:1295-1299 | `medico_ente` is the first truthy chunk value, blank when there is none |
| Fusion.PickedSpecialty | medical_ai_backend/analyze_pdf_ai.py:1287-1288 | before normalising, the specialty is "altro" as written, and the first truthy chunk specialty (else "altro") as corrected |
| Fusion.FuseSpecialtyAltro | medical_ai_backend/analyze_pdf_ai.py:1278-1292 | as written, the fused `specialita` is always "altro" |
| Fusion.FuseDropsChunkSpecialty | medical_ai_backend/analyze_pdf_ai.py:1278-1292 | a single chunk with specialty "cardiologia" is fused to "altro" as written, and not as corrected |
| Fusion.FuseIntendedSpecialty | medical_ai_backend/analyze_pdf_ai.py:1287-1292 | corrected, the fused `specialita` is the canonical form of the first truthy chunk specialty, "altro" when there is none |
| Fusion.ExtendFromChunks | medical_ai_backend/analyze_pdf_ai.py:1243-1250 | `extend_list` computes the fused list |
| Fusion.FusedListSnoc | medical_ai_backend/analyze_pdf_ai.py:1245-1250 | one more chunk extends the fused list by that chunk's list |
| Fusion.PickFieldLoop | medical_ai_backend/analyze_pdf_ai.py:1278-1285 | the loop with `break` computes the specified pick |
| Fusion.FirstMedico | medical_ai_backend/analyze_pdf_ai.py:1295-1299 | the `medico_ente` loop finds the first truthy value |
| Fusion.FuseListFields | medical_ai_backend/analyze_pdf_ai.py:1262-1269 | one `extend_list` per list field gives the fused lists |
| Fusion.FuseChunks | medical_ai_backend/analyze_pdf_ai.py:1241-1299 | the fusion steps, one after the other, compute the specified fused record (as written or corrected) |
| Fusion.RewriteDates | medical_ai_backend/analyze_pdf_ai.py:1302-1324 | the new `date_rilevanti` has no duplicates |
| Fusion.RewriteDatesMembers | medical_ai_backend/analyze_pdf_ai.py:1302-1324 | it holds the rewrite of every truthy entry and nothing else |
| Fusion.RewriteEntryShape | medical_ai_backend/analyze_pdf_ai.py:1307-1322 | every rewritten entry is "<ISO date> - <description>", unless no date was found, when it is the entry stripped |
| Fusion.RewriteCanonical | medical_ai_backend/analyze_pdf_ai.py:1307-1311 | a canonical entry is rewritten to itself |
| Fusion.RewriteEntryStable | medical_ai_backend/analyze_pdf_ai.py:1307-1311 | an entry whose date came before " - " becomes canonical, and the rewrite is stable on it |
| Fusion.RewriteDatesFixed | medical_ai_backend/analyze_pdf_ai.py:1302-1324 | distinct canonical entries are a fixed point of the rewrite |
| Fusion.RewriteDateList | medical_ai_backend/analyze_pdf_ai.py:1302-1324 | the loop computes the specified list |
| Fusion.AddOcrNote | medical_ai_backend/analyze_pdf_ai.py:1326-1329 | the OCR note is put first unless present; nothing is lost |
| Fusion.AddDocumentDate | medical_ai_backend/analyze_pdf_ai.py:1378-1384 | adding the document date loses nothing and adds no duplicate |
| Fusion.AddDocumentDateIs | medical_ai_backend/analyze_pdf_ai.py:1378-1384 | a document date that normalises ends up in the list as a canonical "<iso> - data documento" entry |
| Names.CounterPrefix | medical_ai_backend/analyze_pdf_ai.py:567 | group 1 of the copy-counter regex holds no newline and is shorter than the value |
| Names.CounterPrefixOf | medical_ai_backend/analyze_pdf_ai.py:566-568 | a " (n)" counter appended to a name is removed, whatever n |
| Names.StripCopySuffixNone | medical_ai_backend/analyze_pdf_ai.py:566-568 | without a final ')' nothing is removed |
| Names.StripCopySuffixExample | medical_ai_backend/patient_profiles.py:691-693 | "referto (2)" gives "referto" |
| Names.Capitalize | medical_ai_backend/analyze_pdf_ai.py:616 | `capitalize`: the first character upper case, the others lower case |
| Names.TitleIdempotent | medical_ai_backend/analyze_pdf_ai.py:748 | title-casing twice is title-casing once |
| Names.LongParts | medical_ai_backend/analyze_pdf_ai.py:615 | what is kept are parts of the split longer than one character |
| Names.NormalizeNameWhole | medical_ai_backend/analyze_pdf_ai.py:611-616 | a name without a backslash or an 's' is only capitalised |
| Names.NormalizeNameAtS | medical_ai_backend/analyze_pdf_ai.py:611-616 | a name cut by one 's' loses the 's' and gives its two parts capitalised |
| Heuristics.FiscalCodeAlnum | medical_ai_backend/analyze_pdf_ai.py:552 | a fiscal code is made of letters and digits |
| Heuristics.FiscalCodeUpper | medical_ai_backend/analyze_pdf_ai.py:552 | an upper-cased code is sixteen capitals and digits |
| Heuristics.FindAllCf | medical_ai_backend/analyze_pdf_ai.py:636 | `findall` yields only fiscal codes |
| Heuristics.SearchCf | medical_ai_backend/analyze_pdf_ai.py:653-700 | `search` yields the leftmost `\b`-delimited fiscal code of the string, and nothing exactly when there is none |
| Heuristics.Compact | medical_ai_backend/analyze_pdf_ai.py:635 | the compacted string holds only capitals and digits |
| Heuristics.CandidatesOfCompactLine | medical_ai_backend/analyze_pdf_ai.py:635-636 | on a compacted line a code is found exactly when the whole line is one |
| Heuristics.Score | medical_ai_backend/analyze_pdf_ai.py:637-644 | the score lies between -2 and 5 |
| Heuristics.LineCandidates | medical_ai_backend/analyze_pdf_ai.py:627-645 | each candidate of a line carries that line and an upper-case code |
| Heuristics.LineCandidatesExact | medical_ai_backend/analyze_pdf_ai.py:628-645 | a line yields the one candidate (score, line, compacted line) exactly when it is non-blank and compacts to a fiscal code |
| Heuristics.Candidates | medical_ai_backend/analyze_pdf_ai.py:627-645 | the candidates of the lines seen, with upper-case codes |
| Heuristics.Best | medical_ai_backend/analyze_pdf_ai.py:688-689 | the first candidate of the sort by (-score, line) is a candidate that none precedes |
| Heuristics.LabelledCf | medical_ai_backend/analyze_pdf_ai.py:647-655 | the labelled code, when found, is upper case |
| Heuristics.FiscalCodeOf | medical_ai_backend/analyze_pdf_ai.py:619-702 | the code found is upper case |
| Heuristics.FiscalCodeChoice | medical_ai_backend/analyze_pdf_ai.py:687-691 | the best candidate wins unless its score is negative and a labelled code exists; then the labelled code stays |
| Heuristics.FiscalCodeOfShape | medical_ai_backend/analyze_pdf_ai.py:619-702 | empty text gives nothing; a code found is sixteen capitals and digits |
| Heuristics.ExtractFiscalCode | medical_ai_backend/analyze_pdf_ai.py:624-702 | the fiscal-code part of the metadata extraction computes the specified code |
| Heuristics.ScanFiscalCodes | medical_ai_backend/analyze_pdf_ai.py:627-655 | the line loop gathers the specified candidates and labelled code |
| Heuristics.ScoreLine | medical_ai_backend/analyze_pdf_ai.py:636-645 | the inner loop over `findall` computes the line's candidates |
| Heuristics.EnrichFillsOnlyBlanks | medical_ai_backend/analyze_pdf_ai.py:745-753 | only blank `codice_fiscale`, `nome`, `data_nascita`, `data_documento` may change; nothing else does |
| Heuristics.EnrichFills | medical_ai_backend/analyze_pdf_ai.py:745-753 | a blank field with a truthy metadata value gets it: the code upper-cased, the name title-cased |
| Heuristics.EnrichIdempotent | medical_ai_backend/analyze_pdf_ai.py:737-753 | enriching twice with the same metadata is enriching once |
| Heuristics.FillBlankFixed | medical_ai_backend/analyze_pdf_ai.py:745-753 | a field already set, or a falsy value, changes nothing |
| Heuristics.FirstSpecialty | medical_ai_backend/analyze_pdf_ai.py:366-369 | None exactly when no entry has a keyword in the text; otherwise the first entry that has one |
| Heuristics.FirstSpecialtyAt | medical_ai_backend/analyze_pdf_ai.py:366-368 | an entry with a keyword and no earlier matching entry wins |
| Heuristics.TiroideIsEndocrinologia | medical_ai_backend/analyze_pdf_ai.py:362-369 | "tiroide" without an ematologia, cardiologia or gastroenterologia keyword gives "endocrinologia" |
| Heuristics.InferredCategory | medical_ai_backend/analyze_pdf_ai.py:1339-1343 | the category is a `CATEGORY_CHOICES` entry or the specialty itself |
| Heuristics.InferredCategoryJoin | medical_ai_backend/analyze_pdf_ai.py:1339-1341 | two words joined by a space map to the category that joins them by '_' |
| Heuristics.MedicinaGeneraleCategory | medical_ai_backend/analyze_pdf_ai.py:1339-1341 | "medicina generale" maps to "medicina_generale" |
| Heuristics.ApplyInferredFrame | medical_ai_backend/analyze_pdf_ai.py:1333-1343 | the inference changes nothing but `specialita` and `categoria` |
| Heuristics.ApplyInferredSpecialty | medical_ai_backend/analyze_pdf_ai.py:1333-1337 | a changed specialty was ""/"altro" and is now the inferred one |
| Heuristics.ApplyInferredCategory | medical_ai_backend/analyze_pdf_ai.py:1338-1343 | a changed category was ""/"altro" and is now a category or the inferred specialty |
| Heuristics.ApplyInferredKeepsKnown | medical_ai_backend/analyze_pdf_ai.py:1333-1334 | a known specialty is never overridden |
| Analysis.RewrittenNotes | medical_ai_backend/analyze_pdf_ai.py:1302-1329 | the rewrite touches only the dates and, with OCR, the notes |
| Analysis.InferredFrame | medical_ai_backend/analyze_pdf_ai.py:1331-1343 | the enrichment and the specialty inference change no list and no identity field |
| Analysis.InferredLists | medical_ai_backend/analyze_pdf_ai.py:1331-1343 | the enrichment and the specialty inference keep every list |
| Analysis.InferredKeepsPatient | medical_ai_backend/analyze_pdf_ai.py:1331-1343 | a patient field already set survives the enrichment and the inference |
| Analysis.SettledIs | medical_ai_backend/analyze_pdf_ai.py:1371-1375 | the missing-model warning, when due, is appended to the notes and the specialty is normalised; nothing else changes |
| Analysis.SettledLists | medical_ai_backend/analyze_pdf_ai.py:1371-1375 | the warning and the normalisation touch no list but the notes |
| Analysis.SettledNotes | medical_ai_backend/analyze_pdf_ai.py:1371-1373 | the warning is appended to the notes exactly when it is due |
| Analysis.ClassifiedDates | medical_ai_backend/analyze_pdf_ai.py:1331-1375 | from the enrichment to the normalisation, `date_rilevanti` is left alone |
| Analysis.ClassifiedIdentity | medical_ai_backend/analyze_pdf_ai.py:1331-1375 | from the enrichment to the normalisation, only `documento`, `paziente`, `categoria` and the lists change |
| Analysis.ClassifiedNotes | medical_ai_backend/analyze_pdf_ai.py:1345-1373 | the notes gain the missing-model warning exactly when the fallback is enabled, the specialty or the patient is unknown, and no vision model is configured |
| Analysis.StampedKeeps | medical_ai_backend/analyze_pdf_ai.py:1376-1384 | stamping sets the timestamp and touches no list but `date_rilevanti` |
| Analysis.StampedDates | medical_ai_backend/analyze_pdf_ai.py:1378-1384 | the document date keeps the rewritten dates free of duplicates and loses none |
| Analysis.FinishKeepsPatient | medical_ai_backend/analyze_pdf_ai.py:1302-1384 | a patient field set by the fusion survives the rest of the analysis |
| Analysis.FinishSpecialtyCanonical | medical_ai_backend/analyze_pdf_ai.py:1375 | the final specialty is never blank, has nothing to strip, and normalising it again changes nothing |
| Analysis.FinishDates | medical_ai_backend/analyze_pdf_ai.py:1302-1384 | the final `date_rilevanti` has no duplicates and holds the rewrite of every truthy fused entry |
| Analysis.FinishDocumentDate | medical_ai_backend/analyze_pdf_ai.py:1378-1384 | a document date that normalises is in the final dates as a canonical entry |
| Analysis.FinishNotes | medical_ai_backend/analyze_pdf_ai.py:1326-1373 | the final notes are the fused ones, with the OCR note put first when OCR was used, followed by the missing-model warning exactly when it is due |
| Analysis.FinishOcrNote | medical_ai_backend/analyze_pdf_ai.py:1326-1329 | with OCR the OCR note is among the final notes |
| Analysis.FinishIdentity | medical_ai_backend/analyze_pdf_ai.py:1376 | the final record carries the analysis timestamp and keeps name and path |
| Analysis.ConcludedIs | medical_ai_backend/analyze_pdf_ai.py:1345-1386 | there is no record exactly when the vision branch is entered, and otherwise the record is the finished one |
| Analysis.OutcomeWithoutVision | medical_ai_backend/analyze_pdf_ai.py:1349-1373 | with the fallback disabled or no vision model configured, the analysis always yields the finished record |
| Analysis.KnownRecordCompletes | medical_ai_backend/analyze_pdf_ai.py:1333-1349 | a fused record with a fiscal code and a specialty other than ""/"altro" never enters the vision branch, whatever the heuristics find |
| Analysis.UnknownPatientFails | medical_ai_backend/analyze_pdf_ai.py:1345-1370 | with the fallback enabled and a vision model configured, a record whose fiscal code and name neither the fusion nor the heuristics find enters the vision branch, and no record results |
| Analysis.Conclude | medical_ai_backend/analyze_pdf_ai.py:1345-1386 | the steps after the inference, run as the `if`/`elif` of the code, give no record when the vision branch is entered and otherwise the warned, normalised and stamped record |
| Analysis.AnalyzeChunks | medical_ai_backend/analyze_pdf_ai.py:1240-1386 | the steps after the chunk analysis, run in order, compute the specified outcome |
| Profiles.Kept | medical_ai_backend/patient_profiles.py:621-627 | the `keep` list holds only lower-case letters, digits and '-' |
| Profiles.SingleHyphens | medical_ai_backend/patient_profiles.py:628-629 | the collapsed slug is never longer, keeps the first character and adds no new character |
| Profiles.ReplacePairShorter | medical_ai_backend/patient_profiles.py:628-629 | each replacement shortens a slug holding "--": the loop ends |
| Profiles.HalveHyphens | medical_ai_backend/patient_profiles.py:629 | one replacement leaves the collapsed form unchanged |
| Profiles.SingleHyphensNoPair | medical_ai_backend/patient_profiles.py:628-629 | after the loop no two hyphens are adjacent |
| Profiles.SlugShape | medical_ai_backend/patient_profiles.py:620-630 | a slug has only lower-case letters, digits and single hyphens, no hyphen at either end, and is never empty |
| Profiles.SlugOfSlug | medical_ai_backend/patient_profiles.py:620-630 | a slug is its own slug |
| Profiles.SlugIdempotent | medical_ai_backend/patient_profiles.py:620-630 | `slugify` is idempotent |
| Profiles.KeptPointwise | medical_ai_backend/patient_profiles.py:622-626 | on letters, digits and separators `keep` works character by character, separators becoming '-' |
| Profiles.SlugOfAlnum | medical_ai_backend/patient_profiles.py:620-630 | an alphanumeric value slugs to its lower case |
| Profiles.SlugOfWords | medical_ai_backend/patient_profiles.py:620-630 | words separated by single separators slug to the words lower-cased and hyphenated |
| Profiles.Slugify | medical_ai_backend/patient_profiles.py:620-630 | the `keep` loop, the replace loop and the strip compute the specified slug |
| Profiles.IdParts | medical_ai_backend/patient_profiles.py:745-753 | the parts to join are never empty |
| Profiles.PatientIdShape | medical_ai_backend/patient_profiles.py:740-754 | every patient id is a slug |
| Profiles.PatientIdByCode | medical_ai_backend/patient_profiles.py:741-743 | with a fiscal code, name, birth date and fallback do not matter |
| Profiles.PatientIdOfFiscalCode | medical_ai_backend/patient_profiles.py:741-743 | a code of the fiscal-code grammar gives the code in lower case |
| Profiles.PatientIdDistinct | medical_ai_backend/patient_profiles.py:741-743 | two fiscal codes give the same id exactly when they agree up to case |
| Profiles.PatientIdOfNameAndBirth | medical_ai_backend/patient_profiles.py:744-754 | without a code, name and birth date give "name-birth", each hyphenated ("Mario Rossi", "1980-01-01" give "mario-rossi-1980-01-01") |
| Profiles.PatientIdOfFallback | medical_ai_backend/patient_profiles.py:744-754 | without code, name or birth date, "referto (2)" gives "referto" |
| Profiles.Unique | medical_ai_backend/patient_profiles.py:717-727 | the output has no duplicates |
| Profiles.UniqueMembers | medical_ai_backend/patient_profiles.py:717-727 | the output holds exactly the stripped truthy items |
| Profiles.UniqueSnoc | medical_ai_backend/patient_profiles.py:720-726 | an item is skipped when falsy or already seen once stripped, otherwise appended stripped: first occurrences in order |
| Profiles.UniqueOfBlank | medical_ai_backend/patient_profiles.py:721-726 | a whitespace-only item gives one "" |
| Profiles.CollectUnique | medical_ai_backend/patient_profiles.py:717-727 | the `seen`/`out` loop computes the specified list |
| Profiles.SelectSpecialityIs | medical_ai_backend/patient_profiles.py:730-737 | None, "" or whitespace give "altro"; otherwise a known specialty when one matches case-insensitively, else the stripped lower-cased value |
| Profiles.SelectSpecialityAgrees | medical_ai_backend/patient_profiles.py:730-737 | the profiles file a document under the specialty the analyser writes back |
| Profiles.PerSpecialitaIs | medical_ai_backend/patient_profiles.py:766-788 | a key for every known specialty and every document's specialty, no other; under each key the entries of exactly its documents, in order |
| Profiles.CollectedMembers | medical_ai_backend/patient_profiles.py:771-775 | every item of a document's list is in the collected list |
| Profiles.MainExamsFolded | medical_ai_backend/patient_profiles.py:773-793 | every truthy `esami_principali` item, stripped, is among the laboratory aggregates |
| Profiles.CollectDocuments | medical_ai_backend/patient_profiles.py:770-788 | the loop computes the specified lists and `per_specialita` |
| Profiles.ComputeAggregates | medical_ai_backend/patient_profiles.py:761-796 | the loop and the `unique` calls compute the specified aggregates |
| Duplicates.TailStartIs | medical_ai_backend/download_pdfs.py:67-69 | a `$`-anchored suffix match is found exactly when one exists, and it is the leftmost |
| Duplicates.NormalizeBaseName | medical_ai_backend/download_pdfs.py:59-70 | the key has no upper-case letter |
| Duplicates.BaseStemOfMarked | medical_ai_backend/download_pdfs.py:61-69 | for a stem of letters, the three stages reduce each of its counter-marked forms back to the stem |
| Duplicates.CopiesShareBaseName | medical_ai_backend/download_pdfs.py:59-70 | for a letters-only stem g and extension e, "g.e", "g (n).e", "g--n-.e", "g_n.e", "g-n.e" all have the key "g.e" lower-cased |
| Duplicates.BaseNameOfReportCopy | medical_ai_backend/download_pdfs.py:59-70 | "Report_2.PDF" gives "report.pdf" |
| Duplicates.BaseNameOfYear | medical_ai_backend/download_pdfs.py:69 | a year after a hyphen reads as a copy counter |
| Duplicates.ResultStemOfMarked | medical_ai_backend/analyze_pdf_ai.py:469-471 | for a stem of letters, the result-name stages reduce each of its counter-marked forms back to the stem |
| Duplicates.CopiesShareResultName | medical_ai_backend/analyze_pdf_ai.py:467-472 | for a letters-only stem and extension, each counter-marked copy of a result file has the lower-cased original's key |
| Duplicates.ResultNameOfReportCopy | medical_ai_backend/analyze_pdf_ai.py:467-472 | "Report (1).json" and "report.json" share the key "report.json" |
| Duplicates.NotAfterAt | medical_ai_backend/download_pdfs.py:76 | strings that first differ at a position are ordered by their characters there |
| Duplicates.RemoveDuplicatePdfs | medical_ai_backend/download_pdfs.py:73-89 | one PDF survives per (name key, size), taken from the listing; the count removed is the rest |
| Duplicates.SecondPdfPassRemovesNothing | medical_ai_backend/download_pdfs.py:76-88 | after one pass a second removes nothing |
| Duplicates.DistinctPdfsSurvive | medical_ai_backend/download_pdfs.py:76-88 | files whose keys all differ, e.g. equal names with different sizes, all survive |
| Duplicates.SurvivorSortsFirst | medical_ai_backend/download_pdfs.py:76-88 | in the sorted listing the survivor of a key is its first file by name |
| Duplicates.PairSurvivors | medical_ai_backend/download_pdfs.py:76-88 | of two PDFs the second is removed exactly when their keys agree |
| Duplicates.ReportKeys | medical_ai_backend/download_pdfs.py:59-70 | "report (1).pdf" and "report.pdf" share a name key |
| Duplicates.YearKeys | medical_ai_backend/download_pdfs.py:69 | reports differing only in a trailing year share a name key |
| Duplicates.CopyKeptOverOriginal | medical_ai_backend/download_pdfs.py:76-88 | "report (1).pdf" sorts first and is the one kept |
| Duplicates.YearsCollide | medical_ai_backend/download_pdfs.py:69-88 | "referto-2023.pdf" and "referto-2024.pdf" are duplicates at equal size and both survive otherwise |
| Duplicates.RemoveDuplicateResults | medical_ai_backend/analyze_pdf_ai.py:475-493 | one result file survives per key, taken from the listing; the count removed is the rest |
| Duplicates.NewestResultSurvives | medical_ai_backend/analyze_pdf_ai.py:478-492 | sorted newest first, each survivor has the greatest mtime of its key |
| Duplicates.SecondResultPassRemovesNothing | medical_ai_backend/analyze_pdf_ai.py:483-492 | after one pass a second removes nothing |
| Probing.CandidateInjective | backend/main.py:271 | different counters give different names |
| Probing.Variants | backend/main.py:265-272 | the names numbered 1 to k are k distinct names |
| Probing.VariantsBound | backend/main.py:265-272 | a folder holding the variants 1 to k has at least k names: the probing stops |
| Probing.FirstFree | backend/main.py:644-648 | the first number from k on whose name is free, bounded by the folder size |
| Probing.FreeNameIsFirstFree | backend/main.py:644-648 | the chosen name is new, and every name probed before it exists |
| Probing.FreeNameOfFree | backend/main.py:644-648 | a free name is kept as it is |
| Probing.FirstFreeUnique | backend/main.py:644-648 | only one number can be the first free one |
| Probing.FreeName | backend/main.py:644-648 | the `while os.path.exists` loop stops at the first free candidate |
| Probing.FirstSettling | medical_ai_backend/download_pdfs.py:115-121 | the first candidate at which probing stops, bounded by the folder size |
| Probing.ProbeOutcomeIs | medical_ai_backend/download_pdfs.py:108-124 | a copy goes to the first free name, never over a file; a skip points at an existing file of equal size |
| Probing.ProbeCopiesWithoutEqualSize | medical_ai_backend/download_pdfs.py:115-124 | with no equal-size file among the candidates, the file is copied to the first free name |
| Probing.ProbeSkipsEqualName | medical_ai_backend/download_pdfs.py:108-110 | a file whose own name holds a file of its size is skipped |
| Probing.Probe | medical_ai_backend/download_pdfs.py:112-124 | the probing loop computes the specified outcome |
| Probing.ScanFile | medical_ai_backend/download_pdfs.py:102-131 | one file of the walk: the specified step of folder and counters |
| Probing.ScanLocalFolder | medical_ai_backend/download_pdfs.py:92-139 | a missing folder changes nothing; otherwise the counts are the walk's, the folder is the walk's with the duplicate PDFs of the closing `remove_duplicate_pdfs` pass removed, and no two PDFs left share a name key and a size |
| Probing.PrunedKeysDistinct | medical_ai_backend/download_pdfs.py:136 | after the closing duplicate removal, no two PDFs left in the folder share a name key and a size |
| Probing.ScanKeepsExisting | medical_ai_backend/download_pdfs.py:101-131 | every file already in the output folder stays, with its size |
| Probing.ScanCounts | medical_ai_backend/download_pdfs.py:126-131 | the folder grows by exactly the number of files counted |
| Probing.ScanCoversSources | medical_ai_backend/download_pdfs.py:101-131 | every PDF met has a file of its size under its name or a numbered variant |
| Uploads.ReplaceUnsafe | backend/main.py:216-221 | the `safe_chars` loop computes the specified replacement |
| Uploads.SanitizeFilename | backend/main.py:212-223 | the loop and the expressions around it compute the specified name |
| Uploads.SanitizedShape | backend/main.py:212-223 | never empty, only alphanumerics and ".", "_", "-", an alphanumeric at each end |
| Uploads.SanitizedPdfSuffix | backend/main.py:213-223 | the result ends in ".pdf", in any case, exactly when the stem holds an alphanumeric |
| Uploads.SanitizedOfClean | backend/main.py:212-223 | a clean name ending in ".pdf" is a fixed point |
| Uploads.SanitizeIdempotent | backend/main.py:212-223 | sanitising twice is sanitising once when the stem has an alphanumeric |
| Uploads.SanitizeEmpty | backend/main.py:213-223 | "" gives "document.pdf" |
| Uploads.SanitizeDotPdf | backend/main.py:213-223 | ".pdf" and "   " give "pdf" |
| Uploads.UploadPatientDocument | backend/main.py:641-648 | the sanitized name or its first free numbered variant, never an existing name |
| Uploads.UploadDownloadPdfs | backend/main.py:1101-1124 | no files is an error; the uploads are sanitized, refused when not a PDF, and saved under free names |
| Uploads.SaveAllStops | backend/main.py:1112-1114 | once an upload is refused, the later ones are not looked at |
| Uploads.SaveAllOrder | backend/main.py:1110-1124 | uploads are saved in order; an error names the first refused upload |
| Uploads.SaveAllFresh | backend/main.py:1116-1122 | no upload overwrites: saved names are distinct and new, old files stay |
| Uploads.SaveAllSizes | backend/main.py:1120-1123 | each saved name holds its upload's size |
| Uploads.CopyOne | backend/main.py:253-280 | the loop body for one name computes the specified step |
| Uploads.CopyDownloadsToPatient | backend/main.py:247-280 | the loop computes the specified report and folder |
| Uploads.CopyAllFresh | backend/main.py:253-280 | the copy never overwrites; every skipped name is a file of the folder |
| Uploads.CopySkipsEqual | backend/main.py:263-270 | a name whose sanitized name holds a file of its size is reported as skipped |
| Uploads.ArcNameClash | backend/main.py:606-614 | as written, ["a/x_3.pdf", "b/x.pdf", "c/x.pdf"] gives the arcnames "x_3.pdf", "x.pdf", "x_3.pdf" twice over |
| Uploads.ArcNames | backend/main.py:606-614 | the corrected arcnames are distinct |
| Uploads.ArcNamesAgree | backend/main.py:606-614 | where the written names are already distinct, the correction changes none |
| Uploads.ZipArcNames | backend/main.py:606-615 | the corrected zip loop writes distinct arcnames |
| Storage.PathName | backend/storage_service.py:18 | `Path(p).name` holds no '/' and is never "." |
| Storage.SegmentClean | backend/storage_service.py:17-25 | a segment holds no '/' or '\' and is never "." |
| Storage.SegmentOfClean | backend/storage_service.py:17-18 | a clean name is its own segment |
| Storage.SegmentIdempotent | backend/storage_service.py:17-18 | normalising twice is normalising once |
| Storage.SlugShape | backend/storage_service.py:22 | the patient slug holds no space and no capital |
| Storage.StoragePathShape | backend/storage_service.py:21-27 | the path is slug/folder/file or slug/file; no segment holds a slash, the slug no space |
| Storage.PatientPrefix | backend/storage_service.py:21-27 | every path of a patient starts with the slug and '/' |
| Storage.EmptyNamePath | backend/storage_service.py:21-27 | the empty file name gives the prefix slug + "/" |
| Storage.StoredNameRoundTrip | backend/storage_service.py:21-27 | the name of the stored path is the clean file name it was stored under |

## Left out

- Characters are ASCII: `isalnum`, `lower`, `upper`, `title`, `isspace` and the `À-ÖÙ-Ý` regex ranges are not modelled beyond ASCII.
- Dates.NormalizeDateToken: `int()` is applied only to digit strings. The code's `int()` also accepts a sign, surrounding blanks and '_' separators; those tokens are outside the model.
- Dates.IsoDate: the year is written on four digits, so years below 1000 come out zero-padded, as on platforms that pad `%Y`.
- PDF reading and OCR: a page is given as its text layer, block texts and OCR text.
- The AI calls, the chunk prompts and JSON decoding: the chunk records are given. A non-list value under a list key is read as an empty list, and a missing dict field as blank.
- Fusion.Chunk: a chunk record is a dict whose fields are strings, lists of strings or absent. The code takes the unchecked `json.loads` result (medical_ai_backend/analyze_pdf_ai.py:1108), and malformed AI output makes the fusion raise, which the model does not capture: a chunk result that is not a dict fails at `r.get` in `extend_list` (line 1246) and in the `medico_ente` loop (line 1296); a `"riassunto": null` fails in `max(summaries, key=len)` (line 1260); a `"documento": null` or `"paziente": null` fails at `cand.get(key)` (line 1282).
- The vision fallback of `analyze_pdfs` (medical_ai_backend/analyze_pdf_ai.py:1349-1370) is modelled only as far as its outcome. The branch is entered when the fallback is enabled, a vision model is configured (the default `VISION_MODEL` is "gpt-4o") and the specialty or the patient is unknown. Line 1370 sits after the `except` block, so it names `vision_exc`, which is never bound there: the analysis of the document raises. The model gives no record in that case, and the vision call and the merge of its result (lines 1356-1368) are not modelled.
- Heuristics.ExtractMeta: the name, birth-date and document-date label regexes (medical_ai_backend/analyze_pdf_ai.py:553-564, 657-685, 704-727) are given as their matched values. The fiscal code and the document-date fallback are modelled.
- Fusion.Mode: `max(set(cats), key=cats.count)` visits the set in hash order, so among equally frequent categories any may win. The model fixes the first seen.
- `datetime.now()` is an input timestamp, and the file modification times are input numbers.
- Globbing and sorting: the listings of `remove_duplicate_pdfs` and `remove_duplicate_results` are given in the order the code visits them. For both, lemmas state what that order implies.
- A failing `os.remove`, `shutil.copy2` or file write is not modelled: every removal and copy succeeds.
- The zip is not written and temporary copies are not cleaned up: only the arcnames are modelled.
- `_build_storage_filename` (backend/main.py:226-232) draws random hex and reads the clock, so it is not modelled.
- Uploads.UploadDownloadPdfs: the copy into the patient's folder that follows the uploads (backend/main.py:1128-1131) is modelled separately as `Uploads.CopyDownloadsToPatient`, and not composed with the uploads.
- Probing.ScanLocalFolder: the sorted listing of the output folder that the closing `remove_duplicate_pdfs` pass visits is an input, required to list each file of the folder once in name order.
- Paths: `os.path.join(dir, name)` is modelled by the name alone inside a folder map, since every name probed is a basename.
- The object-store upload, download, deletion and signed URLs (backend/storage_service.py:30-62) are remote calls and are not modelled.
- Authorisation, session checks and patient-folder creation around the routes are not modelled.
- The Supabase registry, credentials, sessions and the other database code of `patient_profiles.py`, and the Selenium browsing of `download_pdfs.py`, are I/O and are not modelled.

## Findings

| source | as written | input that shows it | evidently intended | confidence | as-written member | corrected member |
|---|---|---|---|---|---|---|
| medical_ai_backend/analyze_pdf_ai.py:1278-1292 | `make_empty_record` seeds `documento.specialita` with "altro", and `pick_field` returns at once on a truthy target. So the chunks' specialty is never picked and the fused specialty is always "altro" | one chunk whose `documento.specialita` is "cardiologia" | the first truthy chunk specialty, kept only when the target is blank or the placeholder "altro" (the rule `merge_record_with_fallback` applies at line 393) | not executed | Fusion.FuseSpecialtyAltro, Fusion.FuseDropsChunkSpecialty | Fusion.FuseIntendedSpecialty, Fusion.FuseChunks |
| backend/main.py:606-614 | a clashing arcname is renamed to "base_idx" once, and the new name is not checked against the names already written | the files "a/x_3.pdf", "b/x.pdf", "c/x.pdf": the third becomes "x_3.pdf", the first one's name | every arcname in the archive distinct | not executed | Uploads.ArcNameClash | Uploads.ZipArcNames, Uploads.ArcNamesAgree |
