/**
 * Answer generation: the grounding prompt built from the retrieved chunks and
 * the question, one non-streaming request to the generation backend, and the
 * error text that replaces the answer when the request fails.
 */
module Answer {
  import opened Wrappers
  import opened Text
  import opened Collaborators

  const Endpoint: string := "http://localhost:11434/api/generate"
  const DefaultModel: string := "llama3.2"

  /** The lines of the fixed text before the context; the last is `Context:`. */
  const InstructionLines: seq<string> := [
    "You are a helpful assistant answering questions based on the provided context. ",
    "Use ONLY the information from the context below to answer the question. ",
    "If the answer cannot be found in the context, say \"I cannot find this information in the provided document.\"",
    "",
    "Context:"
  ]

  /** The fixed text before the context, each line ended by a newline. */
  const Instructions: string := Join("\n", InstructionLines) + "\n"

  const BlockSeparator: string := "\n\n"
  const QuestionLabel: string := "\n\nQuestion: "
  const AnswerLabel: string := "\n\nAnswer:"

  const ErrorPrefix: string := "Error connecting to Ollama: "
  const ErrorSuffix: string := "\nMake sure Ollama is running."

  /** The heading of the `i`-th (0-based) chunk: `Context 1:` for the first. */
  function ContextLabel(i: nat): string {
    "Context " + DecimalString(i + 1) + ":\n"
  }

  function ContextBlocks(chunks: seq<string>): (blocks: seq<string>)
    ensures |blocks| == |chunks|
  {
    seq(|chunks|, i requires 0 <= i < |chunks| => ContextLabel(i) + chunks[i])
  }

  /** The labelled chunks joined by blank lines; empty exactly when there is
      no chunk, since every block carries its label. */
  function BuildContext(chunks: seq<string>): (context: string)
    ensures context == "" <==> |chunks| == 0
  {
    var blocks := ContextBlocks(chunks);
    if |blocks| == 0 then Join(BlockSeparator, blocks)
    else
      JoinPrefix(BlockSeparator, blocks, 1);
      assert Join(BlockSeparator, blocks[..1]) == blocks[0];
      assert |blocks[0]| >= |ContextLabel(0)| > 0;
      Join(BlockSeparator, blocks)
  }

  /** The question between its label and the answer cue. */
  function QuestionPart(query: string): string {
    QuestionLabel + query + AnswerLabel
  }

  /** The context and the question framed by a preamble. */
  function Framed(head: string, query: string, chunks: seq<string>): string {
    head + BuildContext(chunks) + QuestionPart(query)
  }

  /** Where the `i`-th chunk's text begins after a preamble. */
  function PositionAfter(head: string, chunks: seq<string>, i: nat): nat
    requires i < |chunks|
  {
    |head| + JoinOffset(BlockSeparator, ContextBlocks(chunks), i) + |ContextLabel(i)|
  }

  /** The prompt sent to the backend: the fixed instructions, the labelled
      context and the question. */
  function BuildPrompt(query: string, chunks: seq<string>): string {
    Framed(Instructions, query, chunks)
  }

  /** Where the `i`-th chunk's text begins in the prompt. */
  function ChunkPosition(chunks: seq<string>, i: nat): nat
    requires i < |chunks|
  {
    PositionAfter(Instructions, chunks, i)
  }

  /** Where the question label begins in the prompt: right after the context. */
  function QuestionPosition(chunks: seq<string>): nat {
    |Instructions| + |BuildContext(chunks)|
  }

  /** With no chunks there is no context at all. */
  lemma EmptyContext()
    ensures BuildContext([]) == ""
  {
  }

  /** One chunk gives one labelled block and no separator. */
  lemma SingleChunkContext(chunk: string)
    ensures BuildContext([chunk]) == "Context 1:\n" + chunk
  {
    assert DecimalString(1) == "1";
  }

  /** The prompt is the instructions, the context, then the question between
      its labels: it starts with the instructions and ends with the question
      followed by the answer cue. */
  lemma PromptFrame(query: string, chunks: seq<string>)
    ensures OccursAt(Instructions, BuildPrompt(query, chunks), 0)
    ensures OccursAt(QuestionPart(query), BuildPrompt(query, chunks), QuestionPosition(chunks))
    ensures |BuildPrompt(query, chunks)| == QuestionPosition(chunks) + |QuestionLabel| + |query| + |AnswerLabel|
  {
    var prompt := BuildPrompt(query, chunks);
    assert prompt[..|Instructions|] == Instructions;
    assert prompt[QuestionPosition(chunks)..] == QuestionPart(query);
  }

  /** Every chunk occurs verbatim in the prompt under its `Context i+1:` label,
      the chunks appear in input order, and all of them come before the
      question. */
  lemma PromptPlacesChunks(query: string, chunks: seq<string>, i: nat)
    requires i < |chunks|
    ensures OccursAt(chunks[i], BuildPrompt(query, chunks), ChunkPosition(chunks, i))
    ensures OccursAt(ContextLabel(i), BuildPrompt(query, chunks), ChunkPosition(chunks, i) - |ContextLabel(i)|)
    ensures ChunkPosition(chunks, i) + |chunks[i]| <= QuestionPosition(chunks)
    ensures i + 1 < |chunks| ==> ChunkPosition(chunks, i) + |chunks[i]| < ChunkPosition(chunks, i + 1)
  {
    FramePlacesChunks(Instructions, query, chunks, i);
  }

  /** The placement of the `i`-th labelled chunk, whatever the preamble. */
  lemma FramePlacesChunks(head: string, query: string, chunks: seq<string>, i: nat)
    requires i < |chunks|
    ensures OccursAt(chunks[i], Framed(head, query, chunks), PositionAfter(head, chunks, i))
    ensures OccursAt(ContextLabel(i), Framed(head, query, chunks), PositionAfter(head, chunks, i) - |ContextLabel(i)|)
    ensures PositionAfter(head, chunks, i) + |chunks[i]| <= |head| + |BuildContext(chunks)|
    ensures i + 1 < |chunks| ==>
              PositionAfter(head, chunks, i) + |chunks[i]| < PositionAfter(head, chunks, i + 1)
  {
    var off := JoinOffset(BlockSeparator, ContextBlocks(chunks), i);
    BlockInContext(chunks, i);
    LabelledInFrame(head, BuildContext(chunks), QuestionPart(query), ContextLabel(i), chunks[i], off);
    assert PositionAfter(head, chunks, i) == |head| + off + |ContextLabel(i)|;
    if i + 1 < |chunks| {
      assert PositionAfter(head, chunks, i + 1)
        == |head| + JoinOffset(BlockSeparator, ContextBlocks(chunks), i + 1) + |ContextLabel(i + 1)|;
    }
  }

  /** A labelled text found in the context is found, label and text, at the
      same place shifted by the preamble. */
  lemma LabelledInFrame(head: string, context: string, tail: string,
                        heading: string, text: string, off: nat)
    requires OccursAt(heading + text, context, off)
    ensures OccursAt(heading, head + context + tail, |head| + off)
    ensures OccursAt(text, head + context + tail, |head| + off + |heading|)
    ensures |head| + off + |heading| + |text| <= |head| + |context|
  {
    OccursInContext(heading + text, head, context, tail, off);
    OccursSplit(heading, text, head + context + tail, |head| + off);
  }

  /** The `i`-th labelled block sits in the context at its join offset, and
      the next block starts after it and a separator. */
  lemma BlockInContext(chunks: seq<string>, i: nat)
    requires i < |chunks|
    ensures var blocks := ContextBlocks(chunks);
      && blocks[i] == ContextLabel(i) + chunks[i]
      && OccursAt(blocks[i], BuildContext(chunks), JoinOffset(BlockSeparator, blocks, i))
      && (i + 1 < |chunks| ==>
            JoinOffset(BlockSeparator, blocks, i) + |blocks[i]| + |BlockSeparator|
            == JoinOffset(BlockSeparator, blocks, i + 1))
  {
    JoinPlacesItems(BlockSeparator, ContextBlocks(chunks), i);
  }

  /** The one request sent per question: the prompt, not streamed. */
  function PromptRequest(model: string, prompt: string): Request {
    Request(Endpoint, model, prompt, false)
  }

  /** The text shown in place of an answer when the request fails. It keeps the
      whole error description recoverable. */
  function ErrorAnswer(error: string): (answer: string)
    ensures ErrorDetail(answer) == Some(error)
  {
    var a := ErrorPrefix + error + ErrorSuffix;
    assert a[..|ErrorPrefix|] == ErrorPrefix;
    assert a[|a| - |ErrorSuffix|..] == ErrorSuffix;
    assert a[|ErrorPrefix|..|a| - |ErrorSuffix|] == error;
    a
  }

  /** The error description carried by an error answer, if it is one. */
  function ErrorDetail(answer: string): Option<string> {
    if |answer| >= |ErrorPrefix| + |ErrorSuffix|
       && answer[..|ErrorPrefix|] == ErrorPrefix
       && answer[|answer| - |ErrorSuffix|..] == ErrorSuffix
    then Some(answer[|ErrorPrefix|..|answer| - |ErrorSuffix|])
    else None
  }

  /** `generate_answer_with_ollama`: sends the prompt once; on success the
      answer is the backend's response text unchanged, on a request failure it
      is the error text carrying the failure's description. It never fails. */
  function GenerateAnswer(generate: Request -> Result<string, string>, model: string,
                          query: string, chunks: seq<string>): (answer: string)
    ensures var reply := generate(PromptRequest(model, BuildPrompt(query, chunks)));
      && (reply.Success? ==> answer == reply.value)
      && (reply.Failure? ==> answer == ErrorAnswer(reply.error))
  {
    match generate(PromptRequest(model, BuildPrompt(query, chunks)))
    case Success(response) => response
    case Failure(error) => ErrorAnswer(error)
  }
}
