/**
 * The question-answering loops: the interactive session, which reads lines
 * until a quit word, and the batch run over the fixed test questions. Each
 * question that is asked costs exactly one retrieval followed by one answer
 * generation over the retrieved chunks.
 */
module Session {
  import opened Wrappers
  import opened Text
  import opened Collaborators
  import opened Retrieval
  import opened Answer

  /** Words that end the interactive session, compared after strip and lower. */
  const Sentinels: seq<string> := ["quit", "exit", "q"]

  /** Chunks retrieved per question: three interactively, two in the batch. */
  const InteractiveResults: nat := 3
  const BatchResults: nat := 2

  /** What one input line asks of the interactive loop. */
  datatype Command = Stop | Skip | Ask(query: string)

  /** The stripped line is checked, lower-cased, against the quit words first,
      then skipped when empty; anything else is asked as stripped (not
      lower-cased). */
  function Classify(line: string): (c: Command)
    ensures c.Ask? ==> c.query == Strip(line) && c.query != "" && Lower(c.query) !in Sentinels
  {
    var query := Strip(line);
    if Lower(query) in Sentinels then Stop
    else if query == "" then Skip
    else Ask(query)
  }

  /** A quit word in any letter case, padded by any whitespace, stops. */
  lemma PaddedSentinelStops(before: string, word: string, after: string, sentinel: string)
    requires AllSpace(before) && AllSpace(after)
    requires sentinel in Sentinels && CaseVariant(word, sentinel)
    ensures Classify(before + word + after) == Stop
  {
    assert NoUpperCase(sentinel);
    assert forall i :: 0 <= i < |word| ==> 'A' <= word[i] <= 'Z' || 'a' <= word[i] <= 'z';
    StripPadded(before, word, after);
    LowerIsCaseVariant(word, sentinel);
  }

  /** Nothing else stops: a stopping line is a quit word in some letter case
      padded by whitespace. */
  lemma StopIsPaddedSentinel(line: string) returns (before: string, word: string, after: string, sentinel: string)
    requires Classify(line) == Stop
    ensures AllSpace(before) && AllSpace(after)
    ensures sentinel in Sentinels && CaseVariant(word, sentinel)
    ensures line == before + word + after
  {
    before, after := StripDecomposes(line);
    word := Strip(line);
    sentinel := Lower(word);
    assert NoUpperCase(sentinel);
    LowerIsCaseVariant(word, sentinel);
  }

  /** A line is skipped exactly when it is whitespace only. */
  lemma SkipIffBlank(line: string)
    ensures Classify(line) == Skip <==> AllSpace(line)
  {
    StripEmptyIffAllSpace(line);
    assert Lower("") == "";
  }

  lemma ClassifyExamples()
    ensures Classify("  QUIT ") == Stop
    ensures Classify("Q") == Stop
    ensures Classify("quitting") == Ask("quitting")
  {
    PaddedUpperQuitStops();
    SingleQStops();
    QuittingIsAsked();
  }

  lemma PaddedUpperQuitStops()
    ensures Classify("  QUIT ") == Stop
  {
    PaddedSentinelStops("  ", "QUIT", " ", "quit");
    assert "  " + "QUIT" + " " == "  QUIT ";
  }

  lemma SingleQStops()
    ensures Classify("Q") == Stop
  {
    PaddedSentinelStops("", "Q", "", "q");
    assert "" + "Q" + "" == "Q";
  }

  lemma QuittingIsAsked()
    ensures Classify("quitting") == Ask("quitting")
  {
    StripPadded("", "quitting", "");
    assert "" + "quitting" + "" == "quitting";
    assert |Lower("quitting")| == 8;
  }

  /** One retrieve-and-answer cycle as displayed: the question, how many chunks
      were requested, the chunks with their similarities, and the answer. */
  datatype Exchange = Exchange(question: string, requested: nat, chunks: seq<string>,
                               similarities: seq<real>, answer: string)

  /** Retrieves `n` chunks for the question, then generates the answer from
      exactly those chunks with the default model. */
  function Cycle(svc: Services, query: string, n: nat): (e: Exchange)
    ensures e.question == query && e.requested == n
    ensures var hits := svc.search(svc.embed(query), n);
      && |e.chunks| == |e.similarities| == |hits|
      && forall i :: 0 <= i < |hits| ==>
           e.chunks[i] == hits[i].document && e.similarities[i] == 1.0 - hits[i].distance
    ensures e.answer == GenerateAnswer(svc.generate, DefaultModel, query, e.chunks)
  {
    var found := RetrieveRelevantChunks(svc, query, n);
    Exchange(query, n, found.chunks, found.similarities,
             GenerateAnswer(svc.generate, DefaultModel, query, found.chunks))
  }

  function Cycles(svc: Services, queries: seq<string>, n: nat): (es: seq<Exchange>)
    ensures |es| == |queries|
  {
    seq(|queries|, i requires 0 <= i < |queries| => Cycle(svc, queries[i], n))
  }

  /** One more question adds one more cycle at the end. */
  lemma CyclesAppend(svc: Services, queries: seq<string>, query: string, n: nat)
    ensures Cycles(svc, queries + [query], n) == Cycles(svc, queries, n) + [Cycle(svc, query, n)]
  {
    var longer := queries + [query];
    assert forall i :: 0 <= i < |queries| ==> longer[i] == queries[i];
  }

  /** The questions the lines ask, in order: blank lines contribute nothing and
      every other non-stopping line contributes its stripped text. */
  function Questions(lines: seq<string>): (qs: seq<string>)
    ensures |qs| <= |lines|
    ensures forall k :: 0 <= k < |qs| ==> qs[k] != "" && Lower(qs[k]) !in Sentinels
  {
    if |lines| == 0 then []
    else
      var earlier := Questions(lines[..|lines| - 1]);
      match Classify(lines[|lines| - 1])
      case Ask(q) => earlier + [q]
      case _ => earlier
  }

  /** Reading one more line adds its question, if it asks one. */
  lemma QuestionsStep(lines: seq<string>, i: nat)
    requires i < |lines|
    ensures Classify(lines[i]).Ask? ==>
              Questions(lines[..i + 1]) == Questions(lines[..i]) + [Classify(lines[i]).query]
    ensures !Classify(lines[i]).Ask? ==> Questions(lines[..i + 1]) == Questions(lines[..i])
  {
    assert lines[..i + 1][..i] == lines[..i];
  }

  /** Only blank lines are dropped: with no quit word among the lines, the
      number of questions is the number of lines minus the blank ones. */
  lemma {:induction false} QuestionsCount(lines: seq<string>)
    requires forall i :: 0 <= i < |lines| ==> Classify(lines[i]) != Stop
    ensures |Questions(lines)| == |lines| - BlankCount(lines)
  {
    if |lines| > 0 {
      var init := lines[..|lines| - 1];
      QuestionsCount(init);
      SkipIffBlank(lines[|lines| - 1]);
    }
  }

  function BlankCount(lines: seq<string>): nat {
    if |lines| == 0 then 0
    else BlankCount(lines[..|lines| - 1]) + (if AllSpace(lines[|lines| - 1]) then 1 else 0)
  }

  /** The position of the first stopping line, if any. */
  function FirstStop(lines: seq<string>): (r: Option<nat>)
    ensures r.Some? ==> r.value < |lines| && Classify(lines[r.value]) == Stop
    ensures r.Some? ==> forall i :: 0 <= i < r.value ==> Classify(lines[i]) != Stop
    ensures r.None? ==> forall i :: 0 <= i < |lines| ==> Classify(lines[i]) != Stop
  {
    if |lines| == 0 then None
    else if Classify(lines[0]) == Stop then Some(0)
    else match FirstStop(lines[1..])
      case Some(k) => Some(k + 1)
      case None => None
  }

  /** The first stopping line is the stopping line with none before it. */
  lemma {:induction false} FirstStopAt(lines: seq<string>, k: nat)
    requires k < |lines| && Classify(lines[k]) == Stop
    requires forall j :: 0 <= j < k ==> Classify(lines[j]) != Stop
    ensures FirstStop(lines) == Some(k)
  {
    if k > 0 {
      FirstStopAt(lines[1..], k - 1);
    }
  }

  /** Lines after the first stopping line are never read: appending input
      after it changes neither where the session stops nor what it asked. */
  lemma LinesAfterStopIgnored(lines: seq<string>, more: seq<string>)
    requires FirstStop(lines).Some?
    ensures FirstStop(lines + more) == FirstStop(lines)
    ensures (lines + more)[..FirstStop(lines).value] == lines[..FirstStop(lines).value]
  {
    var k := FirstStop(lines).value;
    assert (lines + more)[k] == lines[k];
  }

  /** How the interactive session ended: at the stopping line's index, or by
      running out of input (where `input()` raises end-of-file in Python). */
  datatype Ending = Quit(line: nat) | InputExhausted

  datatype SessionRun = SessionRun(exchanges: seq<Exchange>, ending: Ending)

  /** `interactive_qa_session`: reads the lines in order; stops at the first
      line that strips and lower-cases to a quit word; skips blank lines; for
      every other line runs one cycle with three results. The exchanges are
      exactly the cycles for the questions before the stopping line. */
  method InteractiveQaSession(svc: Services, lines: seq<string>) returns (run: SessionRun)
    ensures FirstStop(lines).Some? ==>
              run.ending == Quit(FirstStop(lines).value)
              && run.exchanges == Cycles(svc, Questions(lines[..FirstStop(lines).value]), InteractiveResults)
    ensures FirstStop(lines).None? ==>
              run.ending == InputExhausted
              && run.exchanges == Cycles(svc, Questions(lines), InteractiveResults)
  {
    var exchanges: seq<Exchange> := [];
    var i := 0;
    while i < |lines|
      invariant 0 <= i <= |lines|
      invariant forall j :: 0 <= j < i ==> Classify(lines[j]) != Stop
      invariant exchanges == Cycles(svc, Questions(lines[..i]), InteractiveResults)
    {
      match Classify(lines[i]) {
        case Stop =>
          return SessionRun(exchanges, Quit(i));
        case Skip =>
          QuestionsStep(lines, i);
        case Ask(query) =>
          QuestionsStep(lines, i);
          CyclesAppend(svc, Questions(lines[..i]), query, InteractiveResults);
          exchanges := exchanges + [Cycle(svc, query, InteractiveResults)];
      }
      i := i + 1;
    }
    assert lines[..i] == lines;
    return SessionRun(exchanges, InputExhausted);
  }

  /** The test-query loop of the program: every query, verbatim (neither
      stripped, skipped nor checked for quit words), gets one cycle with two
      results, in order. */
  method RunTestQueries(svc: Services, queries: seq<string>) returns (exchanges: seq<Exchange>)
    ensures |exchanges| == |queries|
    ensures forall i :: 0 <= i < |queries| ==>
              exchanges[i].question == queries[i] && exchanges[i].requested == BatchResults
              && exchanges[i] == Cycle(svc, queries[i], BatchResults)
  {
    exchanges := [];
    for i := 0 to |queries|
      invariant |exchanges| == i
      invariant forall j :: 0 <= j < i ==> exchanges[j] == Cycle(svc, queries[j], BatchResults)
    {
      exchanges := exchanges + [Cycle(svc, queries[i], BatchResults)];
    }
  }

  /** A blank line, a padded question, an upper-case quit word and a line
      after it: one question is asked, stripped, and the session stops at the
      third line without reading the fourth. */
  lemma SessionScenario()
    ensures var lines := ["", "  What is AI? ", "QUIT", "more"];
      FirstStop(lines) == Some(2) && Questions(lines[..2]) == ["What is AI?"]
  {
    var lines := ["", "  What is AI? ", "QUIT", "more"];
    BlankLineSkipped();
    PaddedQuestionAsked();
    UpperQuitStops();
    FirstStopAt(lines, 2);
    QuestionsStep(lines, 0);
    QuestionsStep(lines, 1);
    assert lines[..0] == [];
  }

  lemma BlankLineSkipped()
    ensures Classify("") == Skip
  {
    SkipIffBlank("");
  }

  lemma PaddedQuestionAsked()
    ensures Classify("  What is AI? ") == Ask("What is AI?")
  {
    var q := "What is AI?";
    StripPadded("  ", q, " ");
    assert "  " + q + " " == "  What is AI? ";
    assert |Lower(q)| == 11;
  }

  lemma UpperQuitStops()
    ensures Classify("QUIT") == Stop
  {
    PaddedSentinelStops("", "QUIT", "", "quit");
    assert "" + "QUIT" + "" == "QUIT";
  }
}
