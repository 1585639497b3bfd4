# RAG document Q&A: a verified model of the pipeline's own logic

This project models, in Dafny, the parts of the RAG-DOCUCHAT question-answering
pipeline that the repository implements itself rather than delegating to a
library:

- **Document loading** (`pdf_handler.py`): the extension is taken with
  `os.path.splitext` semantics and lower-cased; `.pdf` goes to the PDF page
  extractor, `.txt` to a plain read, anything else yields `None`. A PDF's text
  is each page's text followed by a blank line, in page order; a missing file
  or any read error yields `None`.
- **Ingestion** (`embed_document`): a falsy load (`None` or `""`) reports zero
  chunks and reaches nothing else; otherwise the splitter's chunks are embedded
  and handed to the collection under ids `doc_chunk_0 … doc_chunk_{n-1}`, and
  `n` is reported.
- **Retrieval shaping** (`retrieve_relevant_chunks`): each distance `d` becomes
  the similarity `1 - d`, position by position.
- **Prompt assembly and generation** (`generate_answer_with_ollama`): the
  chunks are labelled `Context 1:`, `Context 2:` …, joined by blank lines and
  framed by the fixed instructions and the `Question: … Answer:` tail; a failed
  request becomes the text `Error connecting to Ollama: … Make sure Ollama is
  running.` instead of an exception.
- **Question loops** (`interactive_qa_session` and the test-query loop of the
  program's main block): lines are stripped; a line that lower-cases to `quit`,
  `exit` or `q` ends the session, a blank line is skipped, and every other
  line costs one retrieval of three chunks and one answer over exactly those
  chunks. The test-query loop runs the same cycle with two chunks for every
  query as written.

The external collaborators (file system, PDF parser, splitter, embedding
model, vector collection, generation backend) are opaque total functions held
in the `Files` and `Services` datatypes, so every operation is a pure function
of its inputs. Similarities are exact reals, not floating point; `strip` and
`lower` cover ASCII (Python's ASCII whitespace includes 0x1C–0x1F); paths use
the POSIX `/` separator only.

Modules: `Wrappers` (Option, Result), `Text` (strip, lower, join, decimal
rendering), `Collaborators` (external-call types), `Paths` (splitext),
`PdfHandler`, `Retrieval`, `Answer`, `Ingestion`, `Session`.

Facts about the code that the model keeps:

- Chunk ids are `doc_chunk_<i>`, for positions 0 to n-1 (`rag_qa_system.py:42`).
- A failed or empty load makes `embed_document` return 0 before anything else
  runs (`rag_qa_system.py:29-31`); the loader itself signals failure by
  returning `None` (`pdf_handler.py:50-57`, `pdf_handler.py:91-97`).
- The collection is reset once, by `create_or_get_collection` in the main
  block (`rag_qa_system.py:225`), before `embed_document` runs; that reset
  belongs to the vector-store code and is not modelled.
- The test-query loop (`rag_qa_system.py:251-263`) neither strips its queries
  nor skips blank ones.
- At end of input `input()` raises `EOFError`, which nothing in the
  interactive loop catches (`rag_qa_system.py:176`); the model ends the
  session there with the ending `InputExhausted`.

## Model

| member | source | states |
|---|---|---|
| Text.StripLeftSpec | rag_qa_system.py:176 | dropping leading whitespace keeps the longest suffix not starting with whitespace and removes only whitespace |
| Text.StripRightSpec | rag_qa_system.py:176 | dropping trailing whitespace keeps the longest prefix not ending with whitespace and removes only whitespace |
| Text.StripEnds | rag_qa_system.py:176 | a stripped line is no longer than the line and neither starts nor ends with whitespace |
| Text.StripDecomposes | rag_qa_system.py:176 | every line is its stripped form with whitespace-only padding on each side |
| Text.StripPadded | rag_qa_system.py:176 | stripping a whitespace-padded core that has no whitespace at its ends gives back exactly that core |
| Text.StripEmptyIffAllSpace | rag_qa_system.py:184-185 | a line strips to the empty string exactly when it is whitespace only |
| Text.Strip | rag_qa_system.py:176 | `str.strip` over ASCII whitespace: trims leading then trailing whitespace; what it keeps and drops is stated by StripLeftSpec, StripRightSpec, StripEnds, StripDecomposes and StripPadded |
| Text.LowerIsCaseVariant | rag_qa_system.py:179 | for a word with no upper-case letter, lower-casing a text gives that word exactly when each character of the text is the word's character or, for a letter, its upper-case counterpart |
| Text.Lower | rag_qa_system.py:179 | `str.lower` over ASCII: same length, each upper-case letter mapped to its lower-case letter; LowerIsCaseVariant characterises when it yields a given word |
| Text.Join | rag_qa_system.py:99 | `sep.join(items)`: the items in order with one separator between neighbours; JoinLength and JoinPlacesItems state its length and where each item sits |
| Text.JoinLength | rag_qa_system.py:99 | a join of n items has the items' total length plus n-1 separators |
| Text.JoinPlacesItems | rag_qa_system.py:99 | every item occurs verbatim in the join at its offset, in input order, with exactly one separator before the next item |
| Text.DecimalString | rag_qa_system.py:42 | `str(i)` for i >= 0: a non-empty string of decimal digits with no leading zero (other than `0` itself) |
| Text.DecimalRoundTrip | rag_qa_system.py:42 | reading back the decimal rendering of i gives i |
| Text.DecimalInjective | rag_qa_system.py:42 | different numbers render to different decimal strings |
| Paths.RFind | pdf_handler.py:71 | the last-occurrence search returns -1 or an index holding the character, with no occurrence after it |
| Paths.SplitExt | pdf_handler.py:71 | root and extension concatenate back to the path |
| Paths.ExtensionSound | pdf_handler.py:71 | a non-empty extension starts at the last dot, has no slash after it, and the final component has a non-dot before it |
| Paths.ExtensionComplete | pdf_handler.py:71 | wherever such an extension start exists, splitext cuts the path exactly there |
| Paths.ExtStartUnique | pdf_handler.py:71 | a path has at most one extension start |
| Paths.NoExtensionAfterOnlyDots | pdf_handler.py:71 | a name made of leading dots and a dot-free suffix has no extension |
| Paths.HiddenFileExamples | pdf_handler.py:71 | `.pdf` and `..pdf` have no extension |
| Paths.ExtensionOfMixedCaseName | pdf_handler.py:71 | `Report.PDF` has the extension `.PDF` |
| Paths.ExtensionOfDoubleSuffix | pdf_handler.py:71 | only the last dot starts the extension: `archive.tar.gz` has `.gz` |
| PdfHandler.ConcatPages | pdf_handler.py:34-38 | the PDF text's length is the sum of page lengths plus two per page, and it ends in a blank line when there is a page |
| PdfHandler.ConcatPagesAppend | pdf_handler.py:34-38 | assembling pages distributes over splitting the page list, so the text is the in-order concatenation |
| PdfHandler.ConcatPagesEmptyIff | pdf_handler.py:34-38 | the PDF text is empty exactly when the document has no pages |
| PdfHandler.PageInPlace | pdf_handler.py:34-38 | page i followed by a blank line occurs right after the text of the pages before it |
| PdfHandler.ExtractTextFromPdf | pdf_handler.py:6-57 | a missing path gives None before any parsing, any read exception gives None, otherwise the assembled page text |
| PdfHandler.Route | pdf_handler.py:71-83 | a path is read as a PDF exactly when its splitext extension is `.pdf` in some mix of cases, and as text exactly when it is `.txt` in some mix of cases |
| PdfHandler.LoadDocument | pdf_handler.py:59-97 | PDF routes to the extractor, text routes to a read whose failure gives None, any other extension gives None for every file system |
| PdfHandler.ExtensionMatchesSuffix | pdf_handler.py:71-83 | the lower-cased extension equals `.pdf`/`.txt`-like e exactly when the path ends in a case variant of e preceded in its component by a non-dot |
| PdfHandler.RoutesToPdfIff | pdf_handler.py:71-82 | routing to the PDF reader, stated on the path's spelling alone, in both directions |
| PdfHandler.RoutesToTextIff | pdf_handler.py:71-84 | routing to the text reader, stated on the path's spelling alone, in both directions |
| PdfHandler.UpperCasePdfRoutesToPdf | pdf_handler.py:71-82 | `Report.PDF` is read as a PDF |
| PdfHandler.TextFileRoutesToText | pdf_handler.py:71-84 | `notes.txt` is read as text |
| PdfHandler.HiddenPdfIsUnsupported | pdf_handler.py:71-97 | a file named `.pdf` is rejected as unsupported |
| PdfHandler.UnknownExtensionIsUnsupported | pdf_handler.py:94-97 | `slides.pptx` is rejected as unsupported |
| Retrieval.Similarities | rag_qa_system.py:82 | one score per distance, same length and order, score i is 1 minus distance i |
| Retrieval.NearestFirstIsMostSimilarFirst | rag_qa_system.py:80-84 | distances in ascending order give similarities in descending order, and conversely |
| Retrieval.SimilaritiesInvertible | rag_qa_system.py:82 | converting the scores back recovers the distances |
| Retrieval.SimilarityBounds | rag_qa_system.py:82 | distances in [0, 2] give similarities in [-1, 1] |
| Retrieval.SimilarityAnchoredAndDecreasing | rag_qa_system.py:82 | distance 0 scores 1 and a larger distance always scores strictly less |
| Retrieval.RetrieveRelevantChunks | rag_qa_system.py:71-84 | the chunks and scores are the collection's hits for the embedded query, same count and order, each score 1 minus its distance |
| Answer.BuildContext | rag_qa_system.py:99 | the context is empty exactly when there are no chunks; EmptyContext, SingleChunkContext and PromptPlacesChunks state its layout |
| Answer.EmptyContext | rag_qa_system.py:99 | no chunks give an empty context |
| Answer.SingleChunkContext | rag_qa_system.py:99 | one chunk gives `Context 1:` and the chunk, with no separator |
| Answer.BuildPrompt | rag_qa_system.py:102-111 | the fixed instructions, the context and the question tail, in that order; PromptFrame and PromptPlacesChunks state where each part sits |
| Answer.PromptFrame | rag_qa_system.py:102-111 | the prompt starts with the fixed instructions and ends with the question between its label and the answer cue, right after the context |
| Answer.PromptPlacesChunks | rag_qa_system.py:99-111 | every chunk occurs verbatim under its `Context i+1:` label, chunks appear in input order, and all come before the question |
| Answer.GenerateAnswer | rag_qa_system.py:114-133 | one non-streamed request with the prompt; success returns the response text unchanged, a failure returns the error text carrying the failure |
| Answer.ErrorAnswer | rag_qa_system.py:133 | the text returned for a failed request carries the failure description, which can be read back from it unchanged |
| Ingestion.ChunkIdInjective | rag_qa_system.py:42 | two positions with the same id are the same position |
| Ingestion.ChunkIds | rag_qa_system.py:42 | n chunks get n ids, the i-th being `doc_chunk_` followed by i in decimal, no two of them equal |
| Ingestion.EmbedDocument | rag_qa_system.py:29-55 | the collection receives a call exactly when the load is non-empty; then it gets every chunk in order with id `doc_chunk_i` and its embedding and the count is returned; otherwise 0 |
| Ingestion.FailedLoadConsultsNothing | rag_qa_system.py:29-31 | after a falsy load the outcome is zero chunks whatever the splitter, model and collection would do |
| Ingestion.EmptyPdfIngestsNothing | rag_qa_system.py:29-31 | a PDF without pages loads as the empty text and ingests zero chunks |
| Ingestion.NonEmptyPdfIsIngested | rag_qa_system.py:29-55 | a PDF with pages always reaches the splitter and reports the splitter's chunk count |
| Ingestion.MissingOrUnsupportedIngestsNothing | rag_qa_system.py:29-31 | a missing PDF or an unsupported file type ingests zero chunks |
| Session.PaddedSentinelStops | rag_qa_system.py:176-181 | quit, exit or q in any case, padded by any whitespace, stops the session |
| Session.StopIsPaddedSentinel | rag_qa_system.py:176-181 | every stopping line is a quit word in some case padded by whitespace |
| Session.SkipIffBlank | rag_qa_system.py:184-185 | a line is skipped exactly when it is whitespace only |
| Session.Classify | rag_qa_system.py:176-185 | a line that is asked yields its stripped text, which is non-empty and lower-cases to no quit word |
| Session.ClassifyExamples | rag_qa_system.py:176-181 | `  QUIT ` and `Q` stop; `quitting` is asked |
| Session.Cycle | rag_qa_system.py:191-196 | one retrieval of n chunks for the question, and one answer generated with the default model from exactly the retrieved chunks |
| Session.Questions | rag_qa_system.py:184-191 | the asked questions are no more than the lines, each non-empty and not a quit word |
| Session.QuestionsCount | rag_qa_system.py:184-191 | before a quit word, every line but the blank ones yields exactly one question |
| Session.FirstStop | rag_qa_system.py:174-181 | the first stopping line is found, with no stopping line before it; none is reported only when no line stops |
| Session.FirstStopAt | rag_qa_system.py:174-181 | a stopping line with no stopping line before it is the one where the session stops |
| Session.LinesAfterStopIgnored | rag_qa_system.py:179-181 | input after the first stopping line changes neither where the session stops nor what it asked |
| Session.InteractiveQaSession | rag_qa_system.py:174-201 | the session stops at the first stopping line (or at end of input) and its exchanges are exactly one three-chunk cycle per question before it |
| Session.RunTestQueries | rag_qa_system.py:251-263 | every test query, as written, gets one two-chunk cycle, in order |
| Session.SessionScenario | rag_qa_system.py:174-199 | a blank line, a padded question, `QUIT` and a further line give one stripped question and a stop at the third line |

## Left out

- Ingestion.EmbedDocument: treats the splitter, the encoder and `collection.add` as total; in the source an exception from `split_into_chunks`, `model.encode` or `collection.add` (`rag_qa_system.py:34-48`) is caught nowhere and ends the program with a traceback, so no count is reported then.
- Session.InteractiveQaSession: treats retrieval as total; in the source an exception from `model.encode` or `collection.query` inside `retrieve_relevant_chunks` (`rag_qa_system.py:71-77`) is caught neither there nor in the loop (`rag_qa_system.py:191`) and ends the program with a traceback, whereas the model always goes on to the next line.
- Session.RunTestQueries: the same holds for the test-query loop (`rag_qa_system.py:257`): an exception from retrieval ends the program, whereas the model always answers every test query.
- Text splitting (`split_into_chunks`, `document_loader.py`): the recursive-separator algorithm lives in the langchain splitter; the model takes the splitter as the opaque `split` function, so chunk-size, overlap and coverage invariants are not stated.
- The vector store (`embeddings_storage.py`): model loading, client creation, the drop-and-recreate reset and nearest-neighbour search belong to sentence-transformers and chromadb; the query is the opaque `search` function and its ordering and tie-breaking are not stated.
- Batch embedding: the model assumes that `model.encode(chunks)` (`rag_qa_system.py:38`) returns one vector per chunk, in order, each the vector `embed` gives that chunk alone; this is an assumption about the embedding library, not something the repository's code establishes.
- Retrieval.RetrieveRelevantChunks: does not state that the scores descend, since the hits' order comes from the collection; NearestFirstIsMostSimilarFirst states the implication.
- Answer.GenerateAnswer: the backend result is the `response` field or the text of a request exception; a reply without a `response` field (a `KeyError`, which the source does not catch) is not modelled.
- HTTP and JSON transport to the generation backend, and pypdf's page-text extraction: opaque functions.
- Console I/O: `print`, `display_answer_with_sources`, the file-path prompt, the yes/no prompt before the interactive session, and the exit code of the program's main block.
- Floating point: distances and similarities are exact reals; `{similarity:.2%}` formatting is not modelled.
- Unicode: `strip` and `lower` cover ASCII only; splitext covers the POSIX separator only.
- `test_setup.py`: import and network probes only.
