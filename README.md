# Token-budgeted context assembly of a retrieval-augmented chatbot

The chatbot answers a question in four steps. It runs a hybrid search over an
index. It assembles a "source text" from the ordered search results. It sends
the source text and the question to a chat-completion model. It appends the
answer to the chat history. The only real logic is the assembly step,
`format_query_results`. This project models that step in Dafny and proves its
behaviour.

`format_query_results` walks the results in rank order, starting at rank 0.
For the result at rank `i` it reads the keys `"query_target"` (the subject) and
`"contents"`. It then counts the tokens of

    source_text + "[i]:" + "i subject: S, contents: C" + "\n"

If the count is over `MAX_TOKEN_COUNT_FOR_SOURCE_TEXT` (3000), the loop stops.
Otherwise it appends `"i subject: S, contents: C"` to `source_text`. The
appended fragment has neither the bracketed rank nor the newline. The model keeps
this difference between the measured text and the appended text exactly as the
code has it.

Files:

- `decimal.dfy` (module `Decimal`): decimal rendering of the rank, as
  `f"{i}"` produces it, and a parser that reads it back.
- `rag_utils.dfy` (module `RagUtils`): the data model, the specification functions,
  the imperative assembler and the lemmas about it.

How the model is built:

- A search result is a `Document`, a `map<string, string>`. A missing key is an
  explicit error, `Err(KeyError(key))`, in the same way that Python raises
  `KeyError`. `Decode` reads the two fields into a `SearchResult` record.
- The token counter is a parameter, `count: string -> nat`. `calc_token_count`
  is modelled as `CalcTokenCount(tokenize, text)`. It takes a tokenizer that
  returns `None` when the encoding cannot be found or the text cannot be encoded,
  and it returns 0 in that case, as the `except` branch does.
  `DegradedCount` is the counter whose tokenizer always fails.
- The specification works at two levels:
  - `Concat(rs)` is the fragments of `rs` in rank order, with no separators.
  - `Cutoff(rs, count)` is the number of results the loop includes.
  - `SourceText(rs, count)` is the text of the included results.
  - `Formatted(docs, count)` is what the function returns or raises for a list
    of documents.
- `FormatQueryResults` is the imperative loop, with an early `break` and early
  error returns. It is proved equal to `Formatted`.

## Model

| member | source | states |
|---|---|---|
| `Decimal.NatToString` | src/utils/rag_utils.py:80-81 | the rank renders as non-empty, digits-only text with no leading zero except for 0 itself |
| `Decimal.ParseNatToString` | src/utils/rag_utils.py:80-81 | reading the rendered rank back as decimal gives the rank: the rank tag is the true rank |
| `Decimal.NatToStringInjective` | src/utils/rag_utils.py:81 | distinct ranks get distinct tags |
| `RagUtils.Decode` | src/utils/rag_utils.py:73-74 | a result reads successfully exactly when both `query_target` and `contents` are present; the subject comes from `query_target`; otherwise the error names a missing key, `query_target` first |
| `RagUtils.DecodedPrefix` | src/utils/rag_utils.py:72-74 | the results read in rank order up to the first document with a missing key: each one is the decoding of its document, and the document after them, if any, is malformed |
| `RagUtils.CutoffFrom` | src/utils/rag_utils.py:76-86 | the search from rank `j` returns the first rank at or after `j` whose measured candidate is over budget, or the length |
| `RagUtils.Cutoff` | src/utils/rag_utils.py:76-86 | the number `k <= n` of included results: each rank below `k` has measured text within 3000 tokens, and rank `k` (if `k < n`) measured over 3000 |
| `RagUtils.CutoffUnique` | src/utils/rag_utils.py:76-87 | any `k` with those two properties is the cutoff, and the source text is then the fragments of ranks `0..k-1` |
| `RagUtils.FormatQueryResults` | src/utils/rag_utils.py:62-89 | the loop returns exactly `Formatted(queryResults, count)`: the KeyError of the first malformed document it reaches, or the concatenated fragments up to the first over-budget candidate; the empty list gives `""` |
| `RagUtils.FormatIsDeterministic` | src/utils/rag_utils.py:62-89 | two calls on the same results and the same counter give the same outcome |
| `RagUtils.ConcatStep` | src/utils/rag_utils.py:87 | the text after appending rank `i` is the text before it followed directly by fragment `i` |
| `RagUtils.ConcatIsPrefix` | src/utils/rag_utils.py:71-87 | the text of ranks `0..j-1` is a prefix of the text of ranks `0..k-1` when `j <= k`: the text only grows |
| `RagUtils.SourceTextIsPrefix` | src/utils/rag_utils.py:72-87 | the source text is a rank-ordered prefix of the fragments of all results: nothing is skipped or reordered |
| `RagUtils.EmptyResults` | src/utils/rag_utils.py:71-89 | an empty result list gives the empty source text |
| `RagUtils.MeasuredExceedsAppended` | src/utils/rag_utils.py:80-87 | the measured text is the text so far plus `"[i]:"`, the fragment and `"\n"`; it is longer than the appended text by the rank's digit count plus 4; it has `'['` where the appended text has the rank's first digit; it ends in a newline |
| `RagUtils.StopsAtFirstOverBudget` | src/utils/rag_utils.py:84-86 | at the cutoff `k < n`, rank `k` measured over 3000 and fragment `k` is not appended (the output is a strict prefix of the text up to `k`); results after rank `k` do not affect the cutoff or the text |
| `RagUtils.FirstCandidateOverBudget` | src/utils/rag_utils.py:76-86 | if `"[0]:" + fragment 0 + "\n"` alone measures over 3000, nothing is included and the text is empty |
| `RagUtils.BoundedCounterIncludesAll` | src/utils/rag_utils.py:76-87 | a counter that never reports more than 3000 includes every result |
| `RagUtils.AppendedIsSubsequenceOfMeasured` | src/utils/rag_utils.py:80-87 | the text after appending rank `i` is the measured text with characters deleted |
| `RagUtils.BudgetHeldUnderDeletionMonotoneCounter` | src/utils/rag_utils.py:76-87 | if deleting characters never increases the count, and at least one result is included, then the source text itself is within 3000 tokens: the check is conservative |
| `RagUtils.LaterDocumentsNeverRead` | src/utils/rag_utils.py:72-86 | once the loop stops at an over-budget rank `k`, replacing the documents after `k` (malformed ones included) does not change the result, and the result is never an error |
| `RagUtils.MissingKeyRaises` | src/utils/rag_utils.py:73-74 | a malformed document at rank `m` raises its KeyError when all earlier documents are well-formed and within budget, before its own budget is checked |
| `RagUtils.DegradedCounterIncludesAll` | src/utils/rag_utils.py:101-106 | when tokenization keeps failing (count 0), every well-formed result is included |
| `RagUtils.TwoShortResults` | src/utils/rag_utils.py:71-89 | results A/short and B/short under the failing counter give `"0 subject: A, contents: short1 subject: B, contents: short"` |

## Left out

- `init_azure_search` (src/utils/rag_utils.py:15-38): it checks environment variables and builds a search client. This is configuration and I/O.
- `query_index_use_user_question` (src/utils/rag_utils.py:41-59): a network search and an embedding call. The model takes its ranked output as the input list.
- The tokenizer inside `calc_token_count` (`tiktoken`): a foreign library. Only its outcome is modelled: a token list, or a failure that counts as 0.
- The model name read from `OPENAI_CHAT_COMPLETION_MODEL` on every iteration (line 78): treated as fixed inside the counter.
- Logging in `calc_token_count`: it has no effect on the result.
- `create_response` (src/utils/rag_utils.py:109-127): a chat-completion call that turns exceptions into `None`. It is a thin wrapper around a foreign client.
- `main.py` (`handle_submit`, the Gradio UI and `demo.launch()`): UI wiring around an external `create_answer`. `src/modules/create_answer.py` is not part of this model.
- Field values are modelled as strings. Python's `str()` on values of other types inside the f-string is not modelled.
- The search results are modelled as a finite sequence. The source iterates over the search service's paged result object, which is not modelled.
- `BudgetHeldUnderDeletionMonotoneCounter`: it needs an extra hypothesis about the counter, because the source gives no guarantee about the token count of the source text itself. Without that hypothesis only the measured candidates are bounded, as `Cutoff` states.
