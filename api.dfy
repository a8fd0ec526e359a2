/** The request handlers of the PDF assistant's HTTP API (`POST /query`, `POST /summarize`):
    how retrieved chunks become the prompt context, how the model's answer is screened for
    refusals, and how a failure becomes a message. Retrieval and the language model are
    parameters: the vector store and the hosted model are outside this model. */
module Api {
  import opened Wrappers
  import opened AsciiText
  import opened StringJoin
  import Decimal

  /** A retrieved chunk: its text, and the 0-based page number in its metadata when there is one. */
  datatype Chunk = Chunk(content: string, page: Option<nat>)

  /** What `format_docs` puts between neighbouring chunks. */
  const Separator: string := "\n\n"

  /** How many chunks each handler asks the retriever for. */
  const QueryTopK: nat := 5
  const SummaryTopK: nat := 10

  /** The question the summary handler retrieves with. */
  const SummaryRequest: string := "Give me a comprehensive overview of this document"

  // ---------------------------------------------------------------------------------------
  // Prompt context

  /** The page shown for a chunk: `metadata.get('page', 0) + 1`. */
  function PageNumber(c: Chunk): nat {
    c.page.GetOr(0) + 1
  }

  /** A chunk as the query handler shows it: `[Page n]: content`. */
  function Label(c: Chunk): string {
    "[Page " + Decimal.NatToString(PageNumber(c)) + "]: " + c.content
  }

  /** The labels of the chunks, in retrieval order. */
  function Labels(docs: seq<Chunk>): (labels: seq<string>)
    ensures |labels| == |docs|
    ensures forall i :: 0 <= i < |docs| ==> labels[i] == Label(docs[i])
  {
    if docs == [] then [] else [Label(docs[0])] + Labels(docs[1..])
  }

  /** The texts of the chunks, in retrieval order. */
  function Contents(docs: seq<Chunk>): (texts: seq<string>)
    ensures |texts| == |docs|
    ensures forall i :: 0 <= i < |docs| ==> texts[i] == docs[i].content
  {
    if docs == [] then [] else [docs[0].content] + Contents(docs[1..])
  }

  /** The query handler's `format_docs`. */
  function FormatQueryContext(docs: seq<Chunk>): string {
    Join(Separator, Labels(docs))
  }

  /** The summary handler's `format_docs`. */
  function FormatSummaryContext(docs: seq<Chunk>): string {
    Join(Separator, Contents(docs))
  }

  /** The query context is the labelled chunks in retrieval order with exactly one separator
      between neighbours: `n` chunks give `2n - 1` pieces, `n - 1` of them separators. */
  lemma QueryContextShape(docs: seq<Chunk>)
    ensures FormatQueryContext(docs) == Concat(Interleave(Separator, Labels(docs)))
    ensures docs != [] ==> |Interleave(Separator, Labels(docs))| == 2 * |docs| - 1
    ensures docs != [] ==> |FormatQueryContext(docs)| == TotalLength(Labels(docs)) + (|docs| - 1) * |Separator|
  {
    JoinIsInterleaved(Separator, Labels(docs));
  }

  /** One more retrieved chunk adds a separator and its label at the end of the query context. */
  lemma QueryContextAppend(docs: seq<Chunk>, c: Chunk)
    requires docs != []
    ensures FormatQueryContext(docs + [c]) == FormatQueryContext(docs) + Separator + Label(c)
  {
    assert Labels(docs + [c]) == Labels(docs) + [Label(c)];
    JoinSnoc(Separator, Labels(docs), Label(c));
  }

  /** A chunk without a page number is shown as page 1, the same as one on page 0. */
  lemma LabelMissingPage(content: string)
    ensures Label(Chunk(content, None)) == "[Page 1]: " + content
    ensures Label(Chunk(content, None)) == Label(Chunk(content, Some(0)))
  {
    assert Decimal.NatToString(1) == "1";
  }

  /** The label can be read back: it names the chunk's 1-based page and ends with its text. */
  lemma LabelReadsBack(c: Chunk)
    ensures exists digits ::
      && Decimal.AllDigits(digits) && digits != []
      && Decimal.ParseDecimal(digits) == PageNumber(c)
      && Label(c) == "[Page " + digits + "]: " + c.content
  {
    Decimal.ParseNatToString(PageNumber(c));
  }

  /** Two chunks with the same label are on the same page and have the same text. */
  lemma LabelDeterminesChunk(c1: Chunk, c2: Chunk)
    requires Label(c1) == Label(c2)
    ensures PageNumber(c1) == PageNumber(c2) && c1.content == c2.content
  {
    var s1, s2 := Decimal.NatToString(PageNumber(c1)), Decimal.NatToString(PageNumber(c2));
    var l := Label(c1);
    assert l == "[Page " + s1 + "]: " + c1.content;
    assert l == "[Page " + s2 + "]: " + c2.content;
    LabelPrefixUnique(s1, c1.content, s2, c2.content);
    Decimal.NatToStringInjective(PageNumber(c1), PageNumber(c2));
  }

  /** Where the page digits and the closing bracket stand in a label. */
  lemma LabelLayout(digits: string, x: string)
    ensures ("[Page " + digits + "]: " + x)[6 + |digits|] == ']'
    ensures forall k :: 0 <= k < |digits| ==> ("[Page " + digits + "]: " + x)[6 + k] == digits[k]
  {
  }

  /** Two labels written alike have the same digits and the same text. */
  lemma LabelPrefixUnique(s1: string, x1: string, s2: string, x2: string)
    requires Decimal.AllDigits(s1) && Decimal.AllDigits(s2)
    requires "[Page " + s1 + "]: " + x1 == "[Page " + s2 + "]: " + x2
    ensures s1 == s2 && x1 == x2
  {
    var l := "[Page " + s1 + "]: " + x1;
    LabelLayout(s1, x1);
    LabelLayout(s2, x2);
    if |s1| < |s2| {
      assert false;
    } else if |s2| < |s1| {
      assert false;
    }
    assert s1 == l[6..6 + |s1|];
    assert s2 == ("[Page " + s2 + "]: " + x2)[6..6 + |s2|];
    assert x1 == l[6 + |s1| + 3..];
    assert x2 == ("[Page " + s2 + "]: " + x2)[6 + |s2| + 3..];
  }

  /** The summary context is the chunk texts in retrieval order, one separator between neighbours. */
  lemma SummaryContextShape(docs: seq<Chunk>)
    ensures docs == [] ==> FormatSummaryContext(docs) == ""
    ensures FormatSummaryContext(docs) == Concat(Interleave(Separator, Contents(docs)))
  {
    JoinIsInterleaved(Separator, Contents(docs));
  }

  /** One more retrieved chunk adds a separator and its text at the end of the summary context. */
  lemma SummaryContextAppend(docs: seq<Chunk>, c: Chunk)
    requires docs != []
    ensures FormatSummaryContext(docs + [c]) == FormatSummaryContext(docs) + Separator + c.content
  {
    assert Contents(docs + [c]) == Contents(docs) + [c.content];
    JoinSnoc(Separator, Contents(docs), c.content);
  }

  // ---------------------------------------------------------------------------------------
  // Grounding: replacing a refusal by one fixed answer

  /** The phrases that mark a refusal; the first is the sentinel the prompt asks the model to emit. */
  const NegativeTriggers: seq<string> := [
    "polite_fallback_trigger",
    "i don't know",
    "not mentioned",
    "no information",
    "not present in the context",
    "cannot answer"
  ]

  /** What the user sees instead of a refusal: one sentence, written here in pieces so that
      the verifier can read its first characters. */
  const FallbackAnswer: string :=
    "I checked the document for you, " + "but it doesn't seem to mention that. "
    + "Is there a different section " + "you'd like me to summarize?"

  /** Some phrase of `triggers` occurs in `clean` (Python's `any(t in clean for t in triggers)`). */
  function AnyOccurs(triggers: seq<string>, clean: string): (b: bool)
    ensures b <==> exists i :: 0 <= i < |triggers| && OccursIn(triggers[i], clean)
  {
    if triggers == [] then false
    else if Contains(clean, triggers[0]) then true
    else
      var b := AnyOccurs(triggers[1..], clean);
      assert forall i :: 1 <= i < |triggers| ==> triggers[i] == triggers[1..][i - 1];
      b
  }

  /** The model's answer, stripped and lower-cased, contains a negative trigger. */
  ghost predicate IsRefusal(raw: string) {
    exists i :: 0 <= i < |NegativeTriggers| && OccursIn(NegativeTriggers[i], Lower(Strip(raw)))
  }

  /** The grounding step of the query handler: a refusal becomes the fallback answer, anything
      else is returned exactly as the model wrote it (not stripped, not lower-cased). */
  function Postprocess(raw: string): (answer: string)
    ensures answer == raw || answer == FallbackAnswer
    ensures IsRefusal(raw) ==> answer == FallbackAnswer
    ensures !IsRefusal(raw) ==> answer == raw
  {
    if AnyOccurs(NegativeTriggers, Lower(Strip(raw))) then FallbackAnswer else raw
  }

  /** Each trigger starts and ends with a character that is not whitespace. */
  lemma TriggersHaveSolidEnds(i: nat)
    requires i < |NegativeTriggers|
    ensures NegativeTriggers[i] != []
    ensures !IsSpace(NegativeTriggers[i][0]) && !IsSpace(NegativeTriggers[i][|NegativeTriggers[i]| - 1])
  {
  }

  /** Whitespace around the answer never changes the outcome: stripping may be left out. */
  lemma RefusalIgnoresStrip(raw: string)
    ensures IsRefusal(raw) <==> exists i :: 0 <= i < |NegativeTriggers| && OccursIn(NegativeTriggers[i], Lower(raw))
  {
    StripLowerCommute(raw);
    forall i | 0 <= i < |NegativeTriggers|
      ensures OccursIn(NegativeTriggers[i], Lower(Strip(raw))) <==> OccursIn(NegativeTriggers[i], Lower(raw))
    {
      TriggersHaveSolidEnds(i);
      StripKeepsOccurrence(NegativeTriggers[i], Lower(raw));
    }
  }

  /** Detection ignores case: answers that lower-case alike are refusals alike. */
  lemma RefusalIgnoresCase(a: string, b: string)
    requires Lower(a) == Lower(b)
    ensures IsRefusal(a) <==> IsRefusal(b)
  {
    RefusalIgnoresStrip(a);
    RefusalIgnoresStrip(b);
  }

  /** A trigger written in any mix of cases, anywhere inside the answer, even within other words,
      turns the answer into the fallback. */
  lemma TriggerAnywhereFallsBack(pre: string, u: string, post: string, i: nat)
    requires i < |NegativeTriggers| && Lower(u) == NegativeTriggers[i]
    ensures Postprocess(pre + u + post) == FallbackAnswer
  {
    var raw := pre + u + post;
    LowerAppend(pre + u, post);
    LowerAppend(pre, u);
    assert OccursIn(u, u) by { assert OccursAt(u, u, 0); }
    assert OccursIn(Lower(u), Lower(u)) by { assert OccursAt(Lower(u), Lower(u), 0); }
    OccursInContext(NegativeTriggers[i], Lower(pre), Lower(u), Lower(post));
    RefusalIgnoresStrip(raw);
  }

  /** An answer that holds no trigger in any case is returned verbatim. */
  lemma NoTriggerVerbatim(raw: string)
    requires forall i :: 0 <= i < |NegativeTriggers| ==> !OccursIn(NegativeTriggers[i], Lower(raw))
    ensures Postprocess(raw) == raw
  {
    RefusalIgnoresStrip(raw);
  }

  /** "I DON'T KNOW" falls back wherever it stands. */
  lemma ShoutedRefusalFallsBack(pre: string, u: string, post: string)
    requires u == "I DON'T KNOW"
    ensures Postprocess(pre + u + post) == FallbackAnswer
  {
    assert Lower(u) == NegativeTriggers[1];
    TriggerAnywhereFallsBack(pre, u, post, 1);
  }

  /** "Not Mentioned" falls back wherever it stands. */
  lemma TitleCaseRefusalFallsBack(pre: string, u: string, post: string)
    requires u == "Not Mentioned"
    ensures Postprocess(pre + u + post) == FallbackAnswer
  {
    assert Lower(u) == NegativeTriggers[2];
    TriggerAnywhereFallsBack(pre, u, post, 2);
  }

  /** Screening an already screened answer changes nothing. */
  lemma PostprocessIdempotent(raw: string)
    ensures Postprocess(Postprocess(raw)) == Postprocess(raw)
  {
  }

  // ---------------------------------------------------------------------------------------
  // The handlers: every exception becomes a message

  const QueryErrorPrefix: string := "SYSTEM ERROR (Query): "
  const SummarizeErrorPrefix: string := "SYSTEM ERROR (Summarize): "

  /** `POST /query`: retrieve chunks for the question, let the model answer from the formatted
      context, and screen the answer; a failure in either step is reported as a message. */
  function AskQuestion(
    question: string,
    retrieve: (string, nat) -> Result<seq<Chunk>>,
    generate: (string, string) -> Result<string>
  ): (answer: string)
    ensures retrieve(question, QueryTopK).Failure? ==>
      answer == QueryErrorPrefix + retrieve(question, QueryTopK).error
    ensures retrieve(question, QueryTopK).Success? ==>
      var reply := generate(FormatQueryContext(retrieve(question, QueryTopK).value), question);
      (reply.Failure? ==> answer == QueryErrorPrefix + reply.error) &&
      (reply.Success? ==> answer == Postprocess(reply.value))
  {
    match retrieve(question, QueryTopK)
    case Failure(e) => QueryErrorPrefix + e
    case Success(docs) =>
      match generate(FormatQueryContext(docs), question)
      case Failure(e) => QueryErrorPrefix + e
      case Success(raw) => Postprocess(raw)
  }

  /** `POST /summarize`: retrieve with the fixed overview request, let the model summarise the
      formatted context, and return the summary unscreened; a failure is reported as a message. */
  function Summarize(
    retrieve: (string, nat) -> Result<seq<Chunk>>,
    generate: string -> Result<string>
  ): (summary: string)
    ensures retrieve(SummaryRequest, SummaryTopK).Failure? ==>
      summary == SummarizeErrorPrefix + retrieve(SummaryRequest, SummaryTopK).error
    ensures retrieve(SummaryRequest, SummaryTopK).Success? ==>
      var reply := generate(FormatSummaryContext(retrieve(SummaryRequest, SummaryTopK).value));
      (reply.Failure? ==> summary == SummarizeErrorPrefix + reply.error) &&
      (reply.Success? ==> summary == reply.value)
  {
    match retrieve(SummaryRequest, SummaryTopK)
    case Failure(e) => SummarizeErrorPrefix + e
    case Success(docs) =>
      match generate(FormatSummaryContext(docs))
      case Failure(e) => SummarizeErrorPrefix + e
      case Success(s) => s
  }

  /** An answer carries the error prefix only when something failed or the model itself wrote
      it: the fallback answer never looks like an error. */
  lemma QueryErrorsAreRecognisable(
    question: string,
    retrieve: (string, nat) -> Result<seq<Chunk>>,
    generate: (string, string) -> Result<string>
  )
    ensures var answer := AskQuestion(question, retrieve, generate);
      StartsWith(answer, QueryErrorPrefix) <==>
        (retrieve(question, QueryTopK).Failure? ||
         (var reply := generate(FormatQueryContext(retrieve(question, QueryTopK).value), question);
          reply.Failure? || (StartsWith(reply.value, QueryErrorPrefix) && !IsRefusal(reply.value))))
  {
    assert !StartsWith(FallbackAnswer, QueryErrorPrefix) by {
      assert FallbackAnswer[0] == 'I';
    }
  }
}
