# doc-ia ingestion and retrieval core, modelled in Dafny

doc-ia is a retrieval-augmented assistant over medical guidelines. This
project models the parts of it that are plain sequence and string logic once
the foreign libraries are taken out:

- **Text pipeline** (`DocumentProcessor`):
  - whitespace normalization (`_clean_text`);
  - greedy packing of blank-line separated paragraphs into chunks under a
    600-token budget, with a running section label (`_split_by_sections`);
  - the four-step title inference (`_extract_title`);
  - the page loop of `extract_from_pdf` and the slide loop of
    `extract_from_ppt`.
- **Indexing bookkeeping** (`RAGSystem`):
  - document and chunk ids;
  - the per-chunk metadata dictionary and its defaults;
  - batches of 100 records;
  - the distance-to-relevance step function;
  - result formatting in `search`;
  - the distinct-document count of `get_collection_stats`;
  - whole-document deletion.
- **Correction log** (`CorrectionsDatabase`):
  - appending with sequential ids;
  - the most recent N by timestamp;
  - per-type and per-instructor counts.
- **Markup escaping** (`PDFExporter._clean_text`): the three `str.replace`
  calls.

## How the model is built

Modules follow the source files:

| module | file | models |
|---|---|---|
| `Wrappers` | `pystr.dfy` | `Option` and `Flatten` |
| `PyStr` | `pystr.dfy` | the Python string built-ins the code uses |
| `TextClean` | `text_clean.dfy` | `DocumentProcessor._clean_text` |
| `Chunker` | `chunker.dfy` | `_split_by_sections` |
| `Extractors` | `extractors.dfy` | `_extract_title`, `extract_from_pdf` and `extract_from_ppt` |
| `RagSystem` | `rag.dfy` | `rag_system.py` |
| `CorrectionsDb` | `corrections.dfy` | `utils/corrections_db.py` |
| `PdfExport` | `pdf_export.dfy` | `PDFExporter._clean_text` |

The Python built-ins in `PyStr` are:

- `strip`, with the full `str.isspace` character set;
- `split` and `join`;
- `replace`, leftmost and non-overlapping;
- slicing;
- `endswith`;
- `lower`;
- `str(int)` and `f"{i:04d}"`;
- string `<=`.

Outside inputs become parameters:

- **Token counter.** It is an arbitrary function `count: string -> nat`. Nothing is assumed about it, so no property relies on monotonicity or additivity.
- **PDF.** A file is its pages' text plus the metadata title.
- **PowerPoint.** A file is the core title plus, per slide, the title placeholder's text and every shape's text.
- **Unreadable input.** A file that cannot be opened is `None`. A PDF with no pages has no page 1, so its title inference falls through to "Documento sin título", as the `except` around `doc[0]` does.
- **Chroma.**
  - The collection is a `seq<Record>` of (id, text, metadata).
  - A `query` is a function from the `where` clause to an optional response, where `None` stands for an exception.
  - The success of a metadata fetch or of a delete is a boolean.
  - In `add_document`, where `encode` or a `collection.add` raises is the parameter `failAt`: the index of the failing batch, or `None`.
- **Clocks.** `datetime.now()` becomes a `stamp` string, or a `clock: nat -> string` giving each chunk's `upload_date`.
- **Correction file.** The JSON file is `Option<seq<Correction>>`. It is `None` when it cannot be read or parsed.

Some facts about the code that the model follows as written:

- `search` does not sort the store's answer. `Search` keeps the store's order and claims nothing about distances being sorted.
- `rag_system.py` has no user scoping: there is no `uploaded_by`, no `user_id` filter and no `get_user_documents`.
- The metadata key for the token count is `tokens`.
- The document id defaults the specialty to `general`, while the stored metadata defaults it to `cardiologia`. Both defaults are modelled as written.

## Model

| member | source | states |
|---|---|---|
| TextClean.Clean | document_processor.py:148-161 | the normalized text has no two consecutive spaces, no run of three newlines and no whitespace at either end |
| TextClean.CleanKeeps | document_processor.py:152-159 | normalizing only deletes characters (the output is a subsequence of the input) and keeps every non-whitespace character in order |
| TextClean.CleanIdempotent | document_processor.py:148-161 | normalizing a normalized text changes nothing |
| TextClean.CleanEmptyIff | document_processor.py:59-62 | the normalized text is empty exactly when the input has no non-whitespace character, so exactly such pages and slides are skipped |
| TextClean.CollapseSpaces | document_processor.py:153 | `re.sub(r' +', ' ')` leaves no two consecutive spaces and keeps the first character |
| TextClean.CollapseSpacesOnlySpaces | document_processor.py:153 | collapsing spaces deletes spaces and nothing else: with every space removed, input and output are equal |
| TextClean.CollapseSpacesKeepsSpace | document_processor.py:153 | a run of spaces is never removed entirely: the output has a space exactly when the input has one |
| TextClean.CollapseSpacesRun | document_processor.py:153 | deleting one space of a double space does not change the result |
| TextClean.CollapseSpacesUnique | document_processor.py:153 | any function that leaves texts without a double space alone and ignores the deletion of one space of a double space is `re.sub(r' +', ' ')`: each run of spaces keeps exactly one space |
| TextClean.CollapseSpacesAppend | document_processor.py:153 | two texts that do not meet in a double space collapse separately |
| TextClean.CollapseSpacesLast | document_processor.py:153 | collapsing spaces keeps the last character |
| TextClean.CollapseSpacesBlankLine | document_processor.py:153 | collapsing spaces keeps every blank line |
| TextClean.CollapseNewlines | document_processor.py:156 | `re.sub(r'\n\n+', '\n\n')` leaves no three consecutive newlines, keeps the absence of double spaces and never lengthens the text |
| TextClean.CollapseNewlinesOnlyNewlines | document_processor.py:156 | collapsing newlines deletes newlines and nothing else: with every newline removed, input and output are equal |
| TextClean.CollapseNewlinesRun | document_processor.py:156 | deleting one newline of a triple newline does not change the result |
| TextClean.CollapseNewlinesUnique | document_processor.py:156 | any function that leaves texts without a triple newline alone and ignores the deletion of one newline of a triple newline is `re.sub(r'\n\n+', '\n\n')`: each run of two or more newlines keeps exactly two |
| TextClean.CollapseNewlinesAppend | document_processor.py:156 | two texts that do not meet in a run of newlines collapse separately |
| TextClean.CollapseNewlinesLast | document_processor.py:156 | collapsing newlines keeps the last character |
| TextClean.CollapseNewlinesBlankLine | document_processor.py:156 | collapsing newlines keeps a blank line wherever there was one |
| TextClean.CleanFixedIff | document_processor.py:148-161 | a text is left unchanged by the normalizer exactly when it has no double space, no run of three newlines and no whitespace at either end |
| TextClean.CleanStripFirst | document_processor.py:152-159 | stripping first and collapsing afterwards gives the same text, so the whitespace at the ends never reaches the result |
| TextClean.CleanKeepsBlankLine | document_processor.py:152-159 | a blank line between two non-whitespace characters of the input survives normalization, so paragraphs stay apart |
| PyStr.Strip | document_processor.py:159 | the stripped text has no whitespace at either end and is no longer than the input |
| PyStr.StripSpec | document_processor.py:159 | `strip` removes only leading and trailing whitespace: the result is an infix of the input and everything around it is whitespace |
| PyStr.StripEmptyIff | document_processor.py:61 | `not text.strip()` holds exactly when every character is whitespace |
| PyStr.JoinSplit | document_processor.py:178 | joining the pieces of `split(sep)` with `sep` gives back the text |
| Chunker.Paragraphs | document_processor.py:178 | every kept paragraph is stripped and non-empty, and none holds a blank line: the text is cut at every one |
| PyStr.SplitNoSep | document_processor.py:178 | no piece of `s.split(sep)` contains `sep` |
| Chunker.KeepStrippedNoOccur | document_processor.py:178 | stripping pieces and dropping blank ones never creates an occurrence of a pattern |
| Chunker.KeepStrippedVisible | document_processor.py:178 | stripping the pieces and dropping the blank ones keeps every non-whitespace character of their join by any whitespace separator, in order |
| Chunker.ParagraphsVisible | document_processor.py:178 | the paragraphs joined by a blank line have exactly the page's non-whitespace characters, in order |
| Chunker.SplitSections | document_processor.py:169-175 | a text under 600 tokens becomes exactly one chunk with the text unchanged, labelled "Página N" and carrying its own token count; every chunk carries the page number |
| Chunker.GroupingSpec | document_processor.py:182-209 | the packing loop splits the paragraphs into consecutive groups (their concatenation is the paragraph list); the packing is greedy: every paragraph after the first of a group made a test chunk under 600 tokens, and every later group opens with a paragraph whose test chunk with the group before reached 600; a group of two or more paragraphs is under 600 tokens; the first group carries the initial label, and a later group is relabelled only when its first paragraph is a heading (shorter than 100 characters, not ending in '.') and otherwise inherits the previous label |
| Chunker.GroupingCharacterized | document_processor.py:182-218 | a grouping is the loop's exactly when it partitions the paragraphs, is greedy and is labelled from the initial label: the loop's result is the only one with these properties |
| Chunker.StepAccepts | document_processor.py:190-193 | a paragraph whose test chunk is under the budget joins the open chunk: the finished groups are unchanged except that the last one grows by the paragraph; the packing invariant is kept |
| Chunker.StepFlushes | document_processor.py:194-209 | a paragraph that does not fit closes the open chunk under the label in force and opens a group of its own, labelled with the paragraph if it looks like a heading and with the old label otherwise; the packing invariant is kept |
| Chunker.PackedChunksGroups | document_processor.py:188-218 | chunk i is the i-th group joined by a blank line, stripped already, on the page, labelled with the group's section and carrying the token count of its own text |
| Chunker.PackedChunksSpec | document_processor.py:178-218 | in the multi-chunk path the chunk texts joined by a blank line equal the paragraphs joined by a blank line (order kept, nothing lost or repeated), and have exactly the page's non-whitespace characters; every chunk is non-empty, has tokens equal to the count of its text, and is under 600 tokens unless it is a single paragraph; there are no more chunks than paragraphs; the first chunk carries the initial label |
| Chunker.SplitSectionsLong | document_processor.py:163-220 | the same facts for `_split_by_sections` on a page of 600 tokens or more |
| Chunker.SplitSectionsVisible | document_processor.py:163-220 | on either path, the chunk texts joined by a blank line differ from the page only in whitespace |
| Extractors.Lines | document_processor.py:235 | every kept line of page 1 is stripped, non-empty and holds no newline: the page is cut at every one |
| Extractors.LinesVisible | document_processor.py:235 | the lines joined by newlines have exactly the page's non-whitespace characters, in order |
| Extractors.FirstTitleLike | document_processor.py:239-241 | it returns the position of the first line with 10 < length < 150 not ending in '.', and when it returns none there is no such line |
| Extractors.ExtractTitle | document_processor.py:226-248 | the precedence: a metadata title whose lower case is not a placeholder; else the first title-like line among the first five lines; else the first line cut to 100 characters; else "Documento sin título"; the title is never empty |
| Extractors.PageChunks | document_processor.py:55-66 | a page contributes no chunk exactly when it has no non-whitespace character, every chunk carries the page's number, and the chunk texts joined by a blank line have exactly the page's non-whitespace characters, in order |
| Extractors.OnPageFlatten | document_processor.py:54-66 | in the per-page blocks laid end to end, the chunks numbered `start + j` are exactly block `j` |
| Extractors.PdfPagePinned | document_processor.py:54-66 | the chunks numbered j + 1 are exactly those page j yields on its own |
| Extractors.PdfChunksSpec | document_processor.py:54-66 | PDF chunk page numbers are 1-based, do not decrease and never name a blank page; every non-blank page has a chunk; the chunks numbered j + 1 are exactly those page j yields, and joined they hold page j's non-whitespace characters in order |
| Extractors.ExtractFromPdf | document_processor.py:35-78 | an unreadable file gives no metadata and no chunks; otherwise the metadata holds the inferred title, the page count and type "guideline", and the chunks fit the pages as above |
| Extractors.SlideChunk | document_processor.py:111-136 | a slide gives at most one chunk, none exactly when its normalized text is empty, holding the whole normalized text, the slide number, the title or "Slide N" as section, type "slide" and the token count |
| Extractors.SlideChunksSpec | document_processor.py:111-136 | the slide chunks are in strictly increasing slide order, no more than the slides, each the chunk of the slide its page number names, and every slide with text has one |
| Extractors.ExtractFromPpt | document_processor.py:92-146 | an unreadable file gives no metadata and no chunks; otherwise the metadata holds the core title, or "Presentación sin título" when it is missing or empty, the slide count and type "presentation"; the chunks are at most one per slide in strictly increasing slide order, each is the chunk of the slide its number names, and every slide with text has one |
| Extractors.SlideTitleRepeated | document_processor.py:113-124 | when the title placeholder is among the shapes, the slide title opens the slide text and occurs again after the blank line |
| RagSystem.SafeTitle | rag_system.py:51 | the safe title is at most 30 characters, is the title's first 30 characters with each space and slash turned into '_', and contains no space or slash |
| PyStr.ZeroPadParse | rag_system.py:61 | `f"{i:04d}"` is at least four digits long and reads back as `i` |
| RagSystem.ChunkIdInjective | rag_system.py:61 | two chunk positions of one document never share an id |
| RagSystem.ChunkMetadata | rag_system.py:65-75 | each metadata record has exactly the nine keys and carries the document id and title |
| RagSystem.MetadataDefaults | rag_system.py:65-75 | the defaults of the missing optional keys are 'guideline', 'cardiologia', '2024', '0', 'Sin sección' and '0' |
| RagSystem.ChunkMetadataReadBack | rag_system.py:71-73 | page and token count are stored as decimal strings that read back as the chunk's numbers, and the section is stored as is |
| RagSystem.YearReadBack | rag_system.py:70 | the stored year reads back as the given year, or 2024 when none is given |
| RagSystem.DocRecords | rag_system.py:60-77 | one (id, text, metadata) record per chunk, in chunk order |
| RagSystem.DocRecordsIds | rag_system.py:60-77 | the records of one document have pairwise distinct ids and all carry the document id |
| RagSystem.BatchesFrom | rag_system.py:91-99 | the batches from an offset cover the rest of the list in order, each holds 1 to 100 records, all but the last hold exactly 100, and their count is (n - i - 1) // 100 + 1 |
| RagSystem.BatchesSpec | rag_system.py:88-101 | the batches partition the whole list in order with the sizes above; an empty list makes no batch |
| RagSystem.AddBatchesAppends | rag_system.py:91-99 | adding the batches one by one appends exactly the concatenated batches to the store |
| RagSystem.BatchesPrefix | rag_system.py:91-99 | the first k batches together are exactly the first k * 100 records |
| RagSystem.AddDocument | rag_system.py:48-106 | when nothing raises, the id (specialty, safe title and stamp joined by '_') is returned and the store grows by exactly the document's records in chunk order; when `encode` or the add of batch k raises, no id is returned and exactly the first k * 100 records stay added |
| RagSystem.WhereClause | rag_system.py:129 | there is no `where` clause exactly when the filter is missing or empty; otherwise it is the filter |
| RagSystem.DistanceToScore | rag_system.py:156-170 | the relevance score is always one of 2, 4, 6, 8, 10 |
| RagSystem.DistanceToScoreMonotone | rag_system.py:156-170 | a smaller distance never scores lower |
| RagSystem.DistanceToScoreBands | rag_system.py:161-170 | each score is taken exactly on its half-open band with strict-'<' breakpoints at 0.4, 0.6, 0.8 and 1.0 |
| RagSystem.Search | rag_system.py:129-154 | a store failure gives no hits; otherwise one hit per returned id in the store's order, carrying that id's text, distance and metadata, scored from its own distance |
| RagSystem.SearchScoresConsistent | rag_system.py:151 | of two hits, the closer one never has the lower relevance score |
| RagSystem.DocIdSet | rag_system.py:180 | the set holds the document id of every record (missing ones as 'unknown') and nothing else, so it has no more members than there are records |
| RagSystem.CollectionStats | rag_system.py:172-187 | the total is the record count; the distinct-document count is the number of distinct document ids, is 0 exactly when the store is empty or the fetch fails, and never exceeds the total |
| RagSystem.MatchingIds | rag_system.py:193-195 | the ids found are exactly those of the records carrying the document id |
| RagSystem.RemoveIds | rag_system.py:198 | deleting by ids keeps exactly the records whose id is not listed |
| RagSystem.DeleteDocument | rag_system.py:189-207 | it reports success exactly when the store works and some record carries the document id; on failure the store is unchanged; afterwards no record carries the id and nothing is added |
| RagSystem.RemoveExactly | rag_system.py:193-198 | when the listed ids are exactly those of the document's records, deleting them leaves the other documents' records in order |
| RagSystem.DeleteKeepsOthers | rag_system.py:189-200 | with unique ids, a delete keeps every record of every other document, in order |
| CorrectionsDb.AddCorrection | utils/corrections_db.py:21-55 | on a readable file one record is appended with id length + 1, the given fields and timestamp, instructor, user level and feedback type defaulting to 'Dianik', 'estudiante' and 'incorrecta' when left out, earlier records kept, and `True` returned; an unreadable file gives `False` and stays unchanged; sequential ids stay sequential |
| CorrectionsDb.GetAll | utils/corrections_db.py:57-64 | the stored list, or the empty list when the file cannot be read |
| CorrectionsDb.SortNewestFirst | utils/corrections_db.py:69 | sorting is a permutation of the records |
| PyStr.StrLessTrichotomy | utils/corrections_db.py:69 | Python's string order is total: `a < b` fails exactly when `b <= a` |
| CorrectionsDb.SortIsNewestFirst | utils/corrections_db.py:69 | the sorted records have non-increasing timestamps |
| PyStr.SliceTo | utils/corrections_db.py:69 | the Python slice `[:n]` is a prefix of length min(n, len) for n >= 0, and len + n (at least 0) for negative n |
| CorrectionsDb.RecentCorrections | utils/corrections_db.py:66-69 | the recent records are a prefix of the newest-first sort, of length min(n, total) for n >= 0, and contain only stored records |
| CorrectionsDb.RecentNewestFirst | utils/corrections_db.py:66-69 | the recent records have non-increasing timestamps |
| CorrectionsDb.RecentAreNewest | utils/corrections_db.py:66-69 | no stored record left out of the recent ones is newer than the last of them |
| CorrectionsDb.Tally | utils/corrections_db.py:85-90 | the counts of a tally add up to the number of keys counted |
| CorrectionsDb.BumpAt | utils/corrections_db.py:87 | `d[k] = d.get(k, 0) + 1` adds one to k's count or appends k with count 1, and leaves every other entry alone |
| CorrectionsDb.TallySpec | utils/corrections_db.py:85-90 | the tally's keys are distinct and are exactly the keys counted, and each count is the number of occurrences of its key |
| CorrectionsDb.GetStats | utils/corrections_db.py:71-96 | the total is the number of records, both tallies add up to it, and an empty or unreadable log has empty tallies |
| CorrectionsDb.GetStatsByType | utils/corrections_db.py:85-87 | each feedback-type count is the number of records of that type, a missing type counting as 'desconocido', and every type present has an entry |
| CorrectionsDb.GetStatsByInstructor | utils/corrections_db.py:89-90 | each instructor count is the number of records by that instructor, a missing one counting as 'desconocido', and every instructor present has an entry |
| PdfExport.CleanTextSpec | utils/pdf_exporter.py:131-133 | the three replacements equal the per-character escape `&` to `&amp;`, `<` to `&lt;`, `>` to `&gt;`, other characters kept; the entities inserted for `&` are not escaped again |
| PdfExport.EscapeStep | utils/pdf_exporter.py:131-133 | each `replace` call moves the text from one escape stage to the next |
| PdfExport.CleanTextRoundTrip | utils/pdf_exporter.py:129-134 | undoing the three replacements in reverse order recovers the input |
| PdfExport.CleanTextInjective | utils/pdf_exporter.py:129-134 | two different texts never escape to the same text |
| PdfExport.CleanTextProperties | utils/pdf_exporter.py:129-134 | the output has no `<` or `>`; its length is the input's plus 4 per `&` and 3 per `<` or `>`; an input without `&`, `<` or `>` is returned unchanged |

## Left out

- File I/O: opening PDF and PowerPoint files, `get_text`, JSON reading and writing, and progress printing. Inputs are given as values, as described above.
- The tokenizer (tiktoken). It is the parameter `count`, about which nothing is assumed.
- The embedding model, the kNN ranking inside Chroma, and Chroma's persistence. `search` takes the store's answer as an input. The embeddings passed to `collection.add` are not modelled, because they do not affect which records are stored.
- Chroma's behaviour on an `add` with an id already present. Two uploads of the same title and specialty within the same second get the same document id; what the store then does is not modelled.
- `n_results` in `search`. How many answers the store returns is part of the store's answer.
- The reportlab document building of `export_conversation`. Only `_clean_text` of the PDF exporter is modelled.
- The Streamlit application (`app.py`) and the Gemini agent (`docia_agent_gemini.py`). They are UI and network code.
- User-scoped features: `uploaded_by`, `user_id` and `get_user_documents`. The application calls them, but `rag_system.py` does not define them.
- Floating point. Distances are `real`, and the code only compares them with constants.
- Unicode. `lower` maps ASCII and Latin-1 capitals only, which covers the three placeholder titles; other case mappings are not modelled.
- `_clean_text` of the document processor is defined directly as a string function, not through a regex engine.
- CorrectionsDb.SortNewestFirst: states a permutation with non-increasing timestamps but not Python's sort stability, although the insertion it uses keeps equal timestamps in list order.
- CorrectionsDb.AddCorrection: a failure of the write after a successful read is not modelled. Such a write returns `False` with the file in an unknown state; only the read failure is modelled.
- CorrectionsDb.RecentCorrections: every stored record is assumed to have a `timestamp`; the `KeyError` of a record without one is not modelled.
- RagSystem.DeleteDocument: `ok == false` covers an exception from either the lookup or the delete, and the store is then taken to be unchanged.
- RagSystem.DeleteKeepsOthers: requires unique ids, which Chroma guarantees for a collection, because deleting by id removes every record with that id.
- RagSystem.YearReadBack: stated for years that are not negative; `str` of a negative year is modelled by `IntToString` but not read back.
- RagSystem.Search: requires every column of the store's answer to be at least as long as the id column. Chroma always answers with aligned columns; the `IndexError` a misaligned answer would raise outside the `try` is not modelled.
- RagSystem.DocId: has no contract of its own. It is used by `AddDocument`, and its parts are stated by `SafeTitle`.
