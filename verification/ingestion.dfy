/**
 * Document ingestion: load, split, embed and hand the chunks to the vector
 * collection under sequential ids. A failed or empty load reports zero chunks
 * and reaches neither the splitter, the embedding model nor the collection.
 */
module Ingestion {
  import opened Wrappers
  import opened Text
  import opened Collaborators
  import opened PdfHandler

  const IdPrefix: string := "doc_chunk_"

  function ChunkId(i: nat): string {
    IdPrefix + DecimalString(i)
  }

  /** Chunk ids never collide: different positions get different ids. */
  lemma ChunkIdInjective(i: nat, j: nat)
    requires ChunkId(i) == ChunkId(j)
    ensures i == j
  {
    assert DecimalString(i) == ChunkId(i)[|IdPrefix|..];
    assert DecimalString(j) == ChunkId(j)[|IdPrefix|..];
    DecimalInjective(i, j);
  }

  /** The ids of `n` chunks, `doc_chunk_0` up to `doc_chunk_{n-1}`: one per
      chunk, each the prefix followed by its position in decimal, and no two
      alike. */
  function ChunkIds(n: nat): (ids: seq<string>)
    ensures |ids| == n
    ensures forall i :: 0 <= i < n ==> ids[i] == IdPrefix + DecimalString(i)
    ensures forall i, j :: 0 <= i < j < n ==> ids[i] != ids[j]
  {
    DistinctIds(n);
    seq(n, i requires 0 <= i < n => ChunkId(i))
  }

  lemma DistinctIds(n: nat)
    ensures forall i, j :: 0 <= i < j < n ==> ChunkId(i) != ChunkId(j)
  {
    forall i, j | 0 <= i < j < n
      ensures ChunkId(i) != ChunkId(j)
    {
      if ChunkId(i) == ChunkId(j) {
        ChunkIdInjective(i, j);
      }
    }
  }

  /** The one `collection.add` call: parallel lists of ids, texts, vectors. */
  datatype AddCall = AddCall(ids: seq<string>, documents: seq<string>, embeddings: seq<Embedding>)

  /** The reported chunk count, and the `add` call made, if any. */
  datatype Ingested = Ingested(chunkCount: nat, stored: Option<AddCall>)

  /** Python truthiness of the loader's result: `None` and `""` are false. */
  predicate Loaded(text: Option<string>) {
    text.Some? && text.value != ""
  }

  /** `embed_document(file_path, model, collection, chunk_size, chunk_overlap)`.
      The collection receives something exactly when the load produced
      non-empty text; then it receives every chunk the splitter produced, in
      order, each under its positional id with its own embedding, and the
      chunk count is reported. Otherwise zero is reported. */
  function EmbedDocument(path: string, files: Files, svc: Services,
                         chunkSize: nat, chunkOverlap: nat): (out: Ingested)
    ensures out.stored.Some? <==> Loaded(LoadDocument(path, files))
    ensures out.stored.None? ==> out.chunkCount == 0
    ensures out.stored.Some? ==>
      var call := out.stored.value;
      && call.documents == svc.split(LoadDocument(path, files).value, chunkSize, chunkOverlap)
      && |call.ids| == |call.documents| == |call.embeddings| == out.chunkCount
      && (forall i :: 0 <= i < out.chunkCount ==>
            call.ids[i] == IdPrefix + DecimalString(i)
            && call.embeddings[i] == svc.embed(call.documents[i]))
  {
    var text := LoadDocument(path, files);
    if !Loaded(text) then Ingested(0, None)
    else
      var chunks := svc.split(text.value, chunkSize, chunkOverlap);
      Ingested(|chunks|, Some(AddCall(ChunkIds(|chunks|), chunks, EmbedAll(svc.embed, chunks))))
  }

  /** A failed load gives the same outcome whatever the splitter, embedding
      model and collection would have done: none of them is consulted. */
  lemma FailedLoadConsultsNothing(path: string, files: Files, svc1: Services, svc2: Services,
                                  size: nat, overlap: nat)
    requires !Loaded(LoadDocument(path, files))
    ensures EmbedDocument(path, files, svc1, size, overlap) == Ingested(0, None)
    ensures EmbedDocument(path, files, svc2, size, overlap) == EmbedDocument(path, files, svc1, size, overlap)
  {
  }

  /** A PDF with no pages loads as the empty text, which counts as a failed
      load: zero chunks are reported. */
  lemma EmptyPdfIngestsNothing(path: string, files: Files, svc: Services, size: nat, overlap: nat)
    requires Route(path) == PdfDocument
    requires files.pathExists(path) && files.pdfPages(path) == Success([])
    ensures EmbedDocument(path, files, svc, size, overlap) == Ingested(0, None)
  {
    assert LoadDocument(path, files) == Some("");
  }

  /** A PDF with at least one page always yields non-empty text, so it reaches
      the splitter, and every chunk it yields is stored. */
  lemma NonEmptyPdfIsIngested(path: string, files: Files, svc: Services, size: nat, overlap: nat)
    requires Route(path) == PdfDocument
    requires files.pathExists(path) && files.pdfPages(path).Success?
    requires |files.pdfPages(path).value| > 0
    ensures var text := ConcatPages(files.pdfPages(path).value);
      EmbedDocument(path, files, svc, size, overlap).chunkCount == |svc.split(text, size, overlap)|
  {
    ConcatPagesEmptyIff(files.pdfPages(path).value);
  }

  /** A missing file, or any file of an unsupported type, reports zero. */
  lemma MissingOrUnsupportedIngestsNothing(path: string, files: Files, svc: Services, size: nat, overlap: nat)
    requires Route(path) == Unsupported || (Route(path) == PdfDocument && !files.pathExists(path))
    ensures EmbedDocument(path, files, svc, size, overlap) == Ingested(0, None)
  {
  }
}
