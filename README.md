# AI PDF assistant: answer screening, prompt context and page-text extraction

The PDF assistant answers questions about an uploaded PDF. It retrieves the chunks of the
document nearest to a question, hands them to a hosted language model together with the
question, and returns the model's answer. Most of the repository is calls into libraries: the
PDF reader, the text splitter, the embeddings, the FAISS vector store and the Gemini model.
This project models the logic that is the repository's own:

- **Answer screening** (`POST /query`). The model's raw answer is stripped and lower-cased.
  If any of six fixed "negative triggers" occurs in it as a substring, the user gets one fixed
  fallback sentence. Otherwise the raw answer is returned exactly as written. The first trigger,
  `polite_fallback_trigger`, is the sentinel the prompt tells the model to print when the answer
  is not in the context.
- **Prompt context** (`format_docs` in both handlers). The query handler shows each retrieved
  chunk as `[Page n]: text`, where `n` is the chunk's 0-based page metadata plus one, or 1 when
  the metadata has no page. The summary handler uses the bare texts. Both join the pieces with
  a blank line (`"\n\n"`).
- **Failures become messages**. Any exception in the query handler becomes the answer
  `SYSTEM ERROR (Query): <message>`. Any exception in the summary handler becomes
  `SYSTEM ERROR (Summarize): <message>`. The handlers never raise.
- **Page-text extraction** (`extract_text_from_pdf`). It walks the pages in order. Each page
  with non-empty text adds that text and a line break; a page without text adds nothing.

Files:

- `wrappers.dfy`: module `Wrappers`. `Option` stands for a value that may be None. `Result`
  is a step that may raise; its failure carries the exception's text.
- `ascii_text.dfy`: module `AsciiText`. Python's `strip()`, `lower()` and `t in s`, restricted
  to ASCII. There is a ghost substring predicate (`OccursIn`) and an executable search
  (`Contains`) proved equal to it.
- `decimal.dfy`: module `Decimal`. `str(n)` for a page number, with the parse that reads it back.
- `string_join.dfy`: module `StringJoin`. `sep.join(parts)`, with a reference layout
  (`Interleave`: the parts with separators between them) that it is proved equal to.
- `api.dfy`: module `Api`, for `backend/main.py`. Chunks, context formatting, the trigger list
  and fallback sentence, answer screening, and the two handlers with their error messages.
  Retrieval and generation are function parameters.
- `extract.dfy`: module `Extract`, for `backend/extract.py`. The page loop is a method with a
  `while` loop, proved against the specification function `PagesText`.

Behaviour of the code worth knowing:

- Triggers are tested as substrings of the stripped, lower-cased answer (`backend/main.py:160`),
  so a trigger inside a longer word or sentence counts.
- Summarising before any upload gives `SYSTEM ERROR (Summarize): <message>`, because
  `FAISS.load_local` raises when there is no index (`backend/main.py:82`, `112-113`).
- Only `backend/ingest.py:40-42` stops on an empty extraction. `upload_document` does not use
  `extract_text_from_pdf`.

## Model

| member | source | states |
|---|---|---|
| `AsciiText.IsSpace` | backend/main.py:149 | definition: the characters `str.isspace()` accepts among ASCII (9-13, 28-32); properties in `AsciiText.Strip` and `AsciiText.StripKeepsOccurrence` |
| `AsciiText.Lower` | backend/main.py:149 | `lower()` keeps the length and maps each character on its own: A-Z to a-z, everything else unchanged |
| `AsciiText.LeadingSpace` | backend/main.py:149 | the count of leading characters is exactly where the first non-whitespace character stands |
| `AsciiText.TrailingSpace` | backend/main.py:149 | the count of trailing characters is exactly where the last non-whitespace character stands |
| `AsciiText.Strip` | backend/main.py:149 | the input is leading whitespace, then the result, then trailing whitespace; the result neither starts nor ends with whitespace |
| `AsciiText.StripLowerCommute` | backend/main.py:149 | `s.strip().lower() == s.lower().strip()` |
| `AsciiText.Contains` | backend/main.py:160 | the executable search returns true exactly when `t` occurs somewhere in `s` as a contiguous substring |
| `AsciiText.OccursInTail` | backend/main.py:160 | when `t` does not start `s`, its occurrences are those in `s` minus its first character |
| `AsciiText.StripKeepsOccurrence` | backend/main.py:149-160 | a string whose first and last characters are not whitespace occurs in `s.strip()` if and only if it occurs in `s` |
| `AsciiText.LowerAppend` | backend/main.py:149 | lower-casing a concatenation lower-cases each part |
| `AsciiText.OccursInContext` | backend/main.py:160 | an occurrence inside `s` is still an occurrence with any text before and after `s` |
| `Api.NegativeTriggers` | backend/main.py:151-158 | definition: the six trigger phrases in the source's order; properties in `Api.TriggersHaveSolidEnds` |
| `Api.FallbackAnswer` | backend/main.py:161 | definition: the fixed fallback sentence; properties in `Api.Postprocess` and `Api.QueryErrorsAreRecognisable` |
| `Api.AnyOccurs` | backend/main.py:160 | `any(t in clean for t in triggers)` is true exactly when some trigger occurs in `clean` |
| `Api.Postprocess` | backend/main.py:148-165 | the answer is always the raw text or the fallback sentence; it is the fallback when the stripped, lower-cased text holds a trigger, and the untouched raw text otherwise |
| `Api.TriggersHaveSolidEnds` | backend/main.py:151-158 | every trigger is non-empty and starts and ends with a non-whitespace character |
| `Api.RefusalIgnoresStrip` | backend/main.py:149-160 | surrounding whitespace never changes the outcome: a trigger occurs in the stripped, lower-cased answer if and only if it occurs in the lower-cased answer |
| `Api.RefusalIgnoresCase` | backend/main.py:149-160 | two answers that lower-case to the same text are both refusals or both not |
| `Api.TriggerAnywhereFallsBack` | backend/main.py:149-161 | a trigger written in any mix of cases, with any text before and after it, makes the result the fallback sentence |
| `Api.NoTriggerVerbatim` | backend/main.py:162-163 | when no trigger occurs in the lower-cased answer, the answer is returned verbatim, neither stripped nor lower-cased |
| `Api.ShoutedRefusalFallsBack` | backend/main.py:153 | `I DON'T KNOW`, anywhere in the answer, gives the fallback sentence |
| `Api.TitleCaseRefusalFallsBack` | backend/main.py:154 | `Not Mentioned`, anywhere in the answer, gives the fallback sentence |
| `Api.PostprocessIdempotent` | backend/main.py:160-163 | screening an already screened answer changes nothing |
| `Decimal.NatToString` | backend/main.py:137 | `str(n)` is non-empty and all digits, has no leading zero, and has one digit exactly when `n < 10` |
| `Decimal.DigitChar` | backend/main.py:137 | the digit character for `d` is a digit whose value is `d` |
| `Decimal.ParseNatToString` | backend/main.py:137 | reading back `str(n)` as a decimal number gives `n` |
| `Decimal.NatToStringInjective` | backend/main.py:137 | different page numbers are written differently |
| `StringJoin.Join` | backend/main.py:137 | `sep.join([])` is `""`; otherwise the length is the total length of the parts plus `n - 1` separators |
| `StringJoin.ConcatAppend` | backend/main.py:137 | concatenating two runs of pieces is concatenating their concatenations |
| `StringJoin.JoinIsInterleaved` | backend/main.py:137 | `sep.join(parts)` equals the reference layout `Interleave` laid end to end: `2n - 1` pieces, the parts in order at the even positions and the separator at the `n - 1` odd ones |
| `StringJoin.JoinSnoc` | backend/main.py:137 | joining one more part appends a separator and that part at the end, leaving the rest unchanged |
| `Api.PageNumber` | backend/main.py:137 | definition: `metadata.get('page', 0) + 1`; properties in `Api.LabelMissingPage` and `Api.LabelReadsBack` |
| `Api.Label` | backend/main.py:137 | definition: `[Page n]: content`; properties in `Api.LabelReadsBack` and `Api.LabelDeterminesChunk` |
| `Api.Labels` | backend/main.py:137 | one label per chunk, in retrieval order |
| `Api.Contents` | backend/main.py:99 | one text per chunk, in retrieval order |
| `Api.FormatQueryContext` | backend/main.py:136-137 | definition: the labels joined with `"\n\n"`; properties in `Api.QueryContextShape` and `Api.QueryContextAppend` |
| `Api.FormatSummaryContext` | backend/main.py:98-99 | definition: the chunk texts joined with `"\n\n"`; properties in `Api.SummaryContextShape` and `Api.SummaryContextAppend` |
| `Api.QueryContextShape` | backend/main.py:136-137 | the query context is the chunk labels in order with exactly `n - 1` blank-line separators between them, and its length is fixed by that |
| `Api.QueryContextAppend` | backend/main.py:137 | one more chunk appends a separator and its label at the end of the query context |
| `Api.LabelMissingPage` | backend/main.py:137 | a chunk without page metadata is labelled `[Page 1]: `, the same as a chunk on page 0 |
| `Api.LabelReadsBack` | backend/main.py:137 | a label is `[Page ` + digits + `]: ` + the chunk's text, and the digits read back as the 0-based page plus one |
| `Api.LabelLayout` | backend/main.py:137 | in a label the page digits start at position 6 and the closing bracket follows them |
| `Api.LabelPrefixUnique` | backend/main.py:137 | two labels written alike have the same digits and the same text |
| `Api.LabelDeterminesChunk` | backend/main.py:137 | two chunks with the same label show the same page number and have the same text |
| `Api.SummaryContextShape` | backend/main.py:98-99 | the summary context is the chunk texts in order with one separator between neighbours, and `""` for no chunks |
| `Api.SummaryContextAppend` | backend/main.py:99 | one more chunk appends a separator and its text at the end of the summary context |
| `Api.AskQuestion` | backend/main.py:115-168 | a retrieval or generation failure gives `SYSTEM ERROR (Query): ` followed by the exception's text; a model answer gives that answer screened by `Postprocess`: the fallback exactly on a refusal, the raw text otherwise |
| `Api.Summarize` | backend/main.py:78-113 | a retrieval or generation failure gives `SYSTEM ERROR (Summarize): ` followed by the exception's text; a summary is returned unscreened |
| `Api.QueryErrorsAreRecognisable` | backend/main.py:160-168 | an answer starts with the error prefix exactly when a step failed, or when the model itself wrote that prefix in an answer that is not a refusal |
| `Extract.PagesText` | backend/extract.py:12-15 | definition: the accumulated text after the pages, the last page added last; properties in `Extract.PagesTextIsLines`, `Extract.PagesTextEmptyIff` and `Extract.PagesTextLength` |
| `Extract.PageTexts` | backend/extract.py:13-15 | the kept page texts are all non-empty, and there are no more of them than pages |
| `Extract.ExtractTextFromPdf` | backend/extract.py:7-20 | the loop returns `PagesText(pages)`; after each page the accumulator is the text of the pages so far and a prefix of the final text |
| `Extract.PagesTextAppend` | backend/extract.py:12-15 | the text of two consecutive runs of pages is the first run's text followed by the second's |
| `Extract.PagesTextPrefix` | backend/extract.py:12-15 | the text of the first `n` pages is a prefix of the text of all pages, so adding a page only appends at the end |
| `Extract.PagesTextSingle` | backend/extract.py:14-15 | a single page contributes its text and a line break, or nothing |
| `Extract.PagesTextIsLines` | backend/extract.py:12-15 | the result is the in-order concatenation of `text + "\n"` over the pages whose text is non-empty |
| `Extract.TextlessPageAddsNothing` | backend/extract.py:14-18 | a page without text, wherever it stands, leaves the result unchanged |
| `Extract.PagesTextEmptyIff` | backend/extract.py:14-15 | the result is empty if and only if no page has non-empty text, which is the condition the ingestion script tests |
| `Extract.NoTextNoResult` | backend/extract.py:7-20 | zero pages, or only pages whose text is None or empty, give `""` |
| `Extract.LinesLength` | backend/extract.py:15 | each line adds its text's length plus one for the line break |
| `Extract.PagesTextLength` | backend/extract.py:15 | the result's length is the sum of `len(text) + 1` over the pages with text |

## Left out

- Uploading (`backend/main.py:58-75`) is left out: saving the file, `PDFPlumberLoader`, the text splitter, and building and saving the FAISS index. These are file I/O and library calls.
- The retriever (FAISS loading, embeddings, top-k search) and the LangChain chain with the Gemini model are left out. They are foreign network and library calls. `Api.AskQuestion` and `Api.Summarize` take them as function parameters. The `k` values 5 and 10 are passed on, but what the retriever does with them is not modelled.
- The prompt templates are not modelled. `generate` receives the formatted context (and the question) and stands for the template, the model and the output parser together.
- `format_docs` in `backend/query.py:35-36` duplicates the summary formatting and is not modelled separately. The rest of `backend/query.py` is an interactive loop.
- `backend/ingest.py`, `backend/check_models.py`, `backend/debug_env.py` and `frontend/src/App.jsx` are scripts, diagnostics and UI. Only the ingestion script's test for empty text is reflected, through `Extract.PagesTextEmptyIff`.
- `pdfplumber.open` and `page.extract_text()` are library calls. The PDF is given as the sequence of what `extract_text()` returned for each page. An exception they raise is not modelled.
- The `print` logging in `backend/extract.py` is left out.
- `AsciiText.Lower` and `AsciiText.Strip` cover ASCII only. Python's Unicode case mapping and Unicode whitespace are not modelled. A curly apostrophe (`don’t`) never matches the trigger `i don't know`, here as in the code.
- `Api.Chunk`: page metadata is a non-negative integer or absent. Other metadata is not modelled: a negative page prints as such (`[Page -2]`), a float page prints with a fraction (`[Page 3.0]`), and a `None` or string page raises `TypeError` in `+ 1`, which the handler turns into `SYSTEM ERROR (Query): …`.
- `Api.AskQuestion`: the exception's text `str(e)` is an input; which exceptions arise and how they print is not modelled.
- `Api.Postprocess`: a grounded answer that merely quotes a trigger phrase (say "no information") is replaced by the fallback sentence. That is the code's behaviour, and the model keeps it.
