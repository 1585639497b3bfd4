/**
 * The external collaborators the pipeline calls but does not implement: the
 * sentence-embedding model, the recursive text splitter, the vector
 * collection's nearest-neighbour query and the generation backend's HTTP
 * endpoint. Each is an opaque total function supplied by the caller.
 */
module Collaborators {
  import opened Wrappers

  /** A fixed-dimension vector produced by the embedding model. */
  type Embedding = seq<real>

  /** One row of a collection query: a stored document and its distance to the
      query vector. */
  datatype Hit = Hit(document: string, distance: real)

  /** The JSON body posted to the generation backend. */
  datatype Request = Request(url: string, model: string, prompt: string, stream: bool)

  datatype Services = Services(
    /** Embedding of one text; a batch is embedded text by text, in order. */
    embed: string -> Embedding,
    /** The text splitter, given the text, the chunk size and the overlap. */
    split: (string, nat, nat) -> seq<string>,
    /** The collection's query: hits for a vector, at most the given number. */
    search: (Embedding, nat) -> seq<Hit>,
    /** The backend's `response` field, or the text of the request exception. */
    generate: Request -> Result<string, string>)

  /** Embeds a batch of texts: one vector per text, in input order. */
  function EmbedAll(embed: string -> Embedding, texts: seq<string>): (vs: seq<Embedding>)
    ensures |vs| == |texts|
  {
    seq(|texts|, i requires 0 <= i < |texts| => embed(texts[i]))
  }
}
