# Research paper chatbot: the text side of the pipeline

This project models the pure logic of `Research_Paper_Chatbot/pipeline.py`,
the backend of a chatbot that answers questions about an uploaded PDF paper.
It covers five parts of that file:

- `extract_text_clean`: the page texts are joined into one string, then three
  regular expressions run over it. The first joins hyphenated line breaks. The
  second collapses whitespace runs and strips the ends. The third squeezes runs
  of blank lines.
- `chunk_text`: the sliding-window splitter.
- `build_index`: assembles the document list (text chunks first, then figure
  descriptions, with the refusal sentence filtered out), then raises or
  rebuilds the index.
- `get_context`: looks up the retrieved documents and joins them with
  `"\n\n---\n\n"`.
- `ask_llm`: picks the context, builds the user message, and turns the chat
  model's reply into the answer.

The modules follow the structure of the file:

| module | file | what it holds |
|---|---|---|
| `PyText` | `pytext.dfy` | the Python `str` and list semantics the code relies on |
| `Cleanup` | `cleanup.dfy` | `extract_text_clean` |
| `Chunking` | `chunking.dfy` | `chunk_text` |
| `Retrieval` | `retrieval.dfy` | `build_index` and `get_context` |
| `Chat` | `chat.dfy` | `ask_llm` |
| `Wrappers` | `wrappers.dfy` | `Option` and `Result` |

`PyText` covers:

- Unicode whitespace, as `str.isspace()` and `\s` see it: 29 code points.
- `strip()` and `split()`.
- Slicing with clamped and negative bounds.
- Indexing with negative positions.
- `sep.join(parts)`.

Some inputs come from code outside the model:

- The words pdfplumber reports for each page.
- The description returned for each detected figure box of each rendered page.
  A missing description is `None`.
- The ids the nearest-neighbour search returns.
- The chat model's reply.

The module globals `CURRENT_PDF`, `all_docs` and `index` are an explicit
`IndexState` value. The vector index is represented by the texts embedded
into it, in insertion order.

Notes on behaviour that the model keeps as written:

- Each page contributes its words joined by spaces and one line break, and a
  word never contains whitespace. So the hyphen pattern on line 39 can only
  match at the end of a page. `Cleanup.Dehyphenate` models the pattern for
  any text.
- `build_index` resets `all_docs` and sets `CURRENT_PDF` before anything can
  fail. When it raises, it leaves the new document list next to the old
  index. `Retrieval.BuildIndex` and `Retrieval.BuildIndexDocs` state both halves
  of this.
- A missing figure description makes `fig_desc.strip()` raise. The model
  reports this as `DescriptionMissing`. The figure documents appended before
  that point stay in the list, and the pages after it are not scanned.
  `Retrieval.BuildIndexDocs` states exactly which documents remain.
- An id of `-1`, which the search returns when it has fewer vectors than
  requested, reads the last document through Python's negative indexing.
  `PyText.At`, `Retrieval.Retrieve` and `Retrieval.ContextMatchesIndex` model
  it that way.

## Model

| member | source | states |
|---|---|---|
| `PyText.StripShape` | Research_Paper_Chatbot/pipeline.py:40 | `strip()` returns a trimmed infix of its argument. The infix starts where the leading whitespace run ends, and only whitespace lies before and after it. |
| `PyText.StripExact` | Research_Paper_Chatbot/pipeline.py:40 | whitespace, then a trimmed core, then whitespace strips to exactly that core. This pins `strip()` down for every input. |
| `PyText.StripEmptyIffBlank` | Research_Paper_Chatbot/pipeline.py:275 | `s.strip()` is empty exactly when `s` is whitespace only. This is the test `not str(content).strip()` makes. |
| `PyText.SpaceRunUnique` | Research_Paper_Chatbot/pipeline.py:39-40 | the leading whitespace run is the only whitespace prefix followed by a non-whitespace character or by the end. This is what a greedy `\s*` or `\s+` consumes. |
| `PyText.Words` | Research_Paper_Chatbot/pipeline.py:40 | the `split()` words of a text are never empty and never hold whitespace |
| `PyText.At` | Research_Paper_Chatbot/pipeline.py:176 | `all_docs[i]` is defined exactly for `-len <= i < len`, and a negative `i` counts from the end |
| `PyText.JoinLength` | Research_Paper_Chatbot/pipeline.py:177 | a join is as long as its parts plus one separator between each neighbouring pair, and the empty join is `""` |
| `PyText.JoinEnds` | Research_Paper_Chatbot/pipeline.py:177 | the first part opens the join and the last part closes it |
| `PyText.JoinAt` | Research_Paper_Chatbot/pipeline.py:177 | part `i` of a join starts after the earlier parts, each followed by one separator. A separator follows every part but the last, and the last part ends the join. |
| `PyText.JoinParts` | Research_Paper_Chatbot/pipeline.py:177 | a join is exactly its parts laid end to end with the separator between neighbours, with no other characters |
| `Cleanup.DehyphenateClean` | Research_Paper_Chatbot/pipeline.py:39 | after the substitution, no hyphen is followed by a whitespace run holding a line break, so the pattern finds nothing |
| `Cleanup.DehyphenateFixpoint` | Research_Paper_Chatbot/pipeline.py:39 | a text the pattern does not match is left unchanged |
| `Cleanup.DehyphenateIdempotent` | Research_Paper_Chatbot/pipeline.py:39 | running the substitution twice gives the same text as running it once |
| `Cleanup.DehyphenateSpacePrefix` | Research_Paper_Chatbot/pipeline.py:39 | whitespace in front of a text passes through the substitution unchanged |
| `Cleanup.DehyphenateSplit` | Research_Paper_Chatbot/pipeline.py:39 | no match straddles a point where a non-whitespace character follows, so the substitution can run on each side separately |
| `Cleanup.DehyphenateMatchFirst` | Research_Paper_Chatbot/pipeline.py:39 | a text opening with a hyphen, then whitespace holding a line break, then a word loses exactly the hyphen and that whitespace |
| `Cleanup.DehyphenateOneMatch` | Research_Paper_Chatbot/pipeline.py:39 | one match removes only the hyphen and its whitespace run, and the text on both sides is kept. So `"x-\ny"` becomes `"xy"`. |
| `Cleanup.CollapseIsJoinedWords` | Research_Paper_Chatbot/pipeline.py:40 | for a text that opens with a word, `re.sub(r"\s+", " ", s)` gives its `split()` words joined by single spaces, plus one space exactly when the text ends in whitespace |
| `Cleanup.StripCollapsed` | Research_Paper_Chatbot/pipeline.py:40 | stripping the collapsed text removes exactly the space left at either end |
| `Cleanup.NormalizeIsJoinedWords` | Research_Paper_Chatbot/pipeline.py:40 | line 40 turns any text into `" ".join(text.split())` |
| `Cleanup.WordsOfJoin` | Research_Paper_Chatbot/pipeline.py:40 | splitting words that were joined by single spaces gives the words back, so line 40 loses no word |
| `Cleanup.JoinedWordsSingleSpaced` | Research_Paper_Chatbot/pipeline.py:40 | non-empty whitespace-free words joined by single spaces have no whitespace at either end, no two whitespace characters in a row, and no whitespace other than `' '` |
| `Cleanup.NormalizeSingleSpaced` | Research_Paper_Chatbot/pipeline.py:40 | after line 40 the text is single-spaced and holds no line break |
| `Cleanup.NormalizeIdempotent` | Research_Paper_Chatbot/pipeline.py:40 | running line 40 again changes nothing |
| `Cleanup.LastBreakEnd` | Research_Paper_Chatbot/pipeline.py:41 | the position just past the last line break of a whitespace run, or 0 when the run holds none. This is where the greedy `\n+` stops. |
| `Cleanup.SqueezeWithoutBreak` | Research_Paper_Chatbot/pipeline.py:41 | a text with no line break is left unchanged by line 41 |
| `Cleanup.ExtractTextCleanIsJoinedWords` | Research_Paper_Chatbot/pipeline.py:27-42 | line 41 never changes what line 40 produced. The cleaned text is the `split()` words of the dehyphenated page texts joined by single spaces. It is single-spaced and has no line break. |
| `Chunking.Step` | Research_Paper_Chatbot/pipeline.py:50 | the distance between window starts is exactly `max(1, chunk_size - overlap)`. It is at least 1, so the loop ends for every overlap. It is at most `chunk_size` when `chunk_size >= 1` and `overlap >= 0`. |
| `Chunking.ChunkText` | Research_Paper_Chatbot/pipeline.py:45-51 | the `while` loop returns `ceil(n / step)` windows, and window `i` is `text[i*step : i*step + chunk_size]` |
| `Chunking.ChunkCountIsCeiling` | Research_Paper_Chatbot/pipeline.py:47-50 | the number of chunks is `ceil(len(text) / step)` |
| `Chunking.ChunksAreWindows` | Research_Paper_Chatbot/pipeline.py:48-50 | every chunk `i` is the Python slice `text[i*step : i*step + chunk_size]` |
| `Chunking.ChunkIsWindow` | Research_Paper_Chatbot/pipeline.py:48-50 | chunk `i` opens `i` steps into the text, and that opening lies inside the text |
| `Chunking.ChunksOfEmpty` | Research_Paper_Chatbot/pipeline.py:48 | the chunk list is empty exactly when the text is empty |
| `Chunking.WindowInside` | Research_Paper_Chatbot/pipeline.py:49 | a window that opens inside the text is `text[start : min(n, start + chunk_size)]`. It is non-empty and no longer than `chunk_size`. |
| `Chunking.ChunkShape` | Research_Paper_Chatbot/pipeline.py:48-50 | with `chunk_size >= 1`, every chunk is the clamped slice at its start, non-empty and at most `chunk_size` long |
| `Chunking.OverlapAtLeastSizeGivesOneWindowPerChar` | Research_Paper_Chatbot/pipeline.py:50 | once `overlap >= chunk_size - 1` the step floors at 1, and there is one window per character |
| `Chunking.ConsecutiveChunksOverlap` | Research_Paper_Chatbot/pipeline.py:49-50 | what chunk `i` holds past its first `step` characters is a prefix of chunk `i + 1`. For a full chunk that overlap is exactly `chunk_size - step` long. |
| `Chunking.FreshFromRebuilds` | Research_Paper_Chatbot/pipeline.py:48-50 | gluing the first `min(step, len)` characters of the windows opened from `start` on gives back `text[start:]` |
| `Chunking.ChunksRoundTrip` | Research_Paper_Chatbot/pipeline.py:45-51 | with `chunk_size >= 1` and `overlap >= 0`, concatenating the first `min(step, len(chunk))` characters of every chunk gives the text back |
| `Retrieval.KeptReplyOnPage` | Research_Paper_Chatbot/pipeline.py:143-146 | a description kept on a page is one the describer returned for a box of that page, and the refusal test rejects it |
| `Retrieval.MissingReplyMeaning` | Research_Paper_Chatbot/pipeline.py:143-145 | a page has a missing reply exactly when the describer returned `None` for one of its boxes |
| `Retrieval.PageFiguresFailed` | Research_Paper_Chatbot/pipeline.py:138-145 | the scan of a page's boxes raises exactly when one of its descriptions is missing |
| `Retrieval.FiguresFailed` | Research_Paper_Chatbot/pipeline.py:136-145 | the scan of the pages raises exactly when some page has a missing description |
| `Retrieval.PageFiguresSound` | Research_Paper_Chatbot/pipeline.py:138-154 | every figure document appended for a page carries that page's number and a non-refusal description from that page |
| `Retrieval.FiguresSound` | Research_Paper_Chatbot/pipeline.py:136-154 | every figure document carries the number of a scanned page and a non-refusal description from that page |
| `Retrieval.FiguresInPageOrder` | Research_Paper_Chatbot/pipeline.py:136-154 | figure documents come in page order |
| `Retrieval.PageFigureKept` | Research_Paper_Chatbot/pipeline.py:138-154 | with no reply missing, every non-refusal description of a page is appended as a figure of that page |
| `Retrieval.FigureKept` | Research_Paper_Chatbot/pipeline.py:136-154 | with no reply missing, every non-refusal description of every page is among the figure documents, with its page number |
| `Retrieval.Assemble` | Research_Paper_Chatbot/pipeline.py:120-166 | `CURRENT_PDF` is set whatever happens. A raise leaves the old index in place. On success the returned count equals the number of documents and is positive, and the index holds the documents' contents. |
| `Retrieval.AssembleErrors` | Research_Paper_Chatbot/pipeline.py:143-158 | it raises for a missing description exactly when some page has one. It reports that nothing was extracted exactly when no description is missing and the document list is empty. |
| `Retrieval.BuildIndex` | Research_Paper_Chatbot/pipeline.py:116-166 | `build_index` raises for a missing description exactly when some box got `None`. Otherwise it behaves as `Retrieval.Assemble` states. |
| `Retrieval.FigureDocsMeaning` | Research_Paper_Chatbot/pipeline.py:136-154 | every figure document is a description the describer returned on its page that the refusal test rejects |
| `Retrieval.PageFiguresAsKept` | Research_Paper_Chatbot/pipeline.py:138-154 | the box loop of a page appends a prefix of that page's kept descriptions, in box order, one document each. It appends all of them when no description is missing. |
| `Retrieval.FiguresAsKept` | Research_Paper_Chatbot/pipeline.py:136-154 | the two nested loops append a prefix of the kept descriptions of all pages, page by page and box by box. They append all of them when no description is missing. |
| `Retrieval.PageFiguresUpTo` | Research_Paper_Chatbot/pipeline.py:138-148 | the box loop of a page appends exactly the kept descriptions of the boxes before the first missing one, in box order. It raises exactly when a description is missing. |
| `Retrieval.FiguresUpTo` | Research_Paper_Chatbot/pipeline.py:136-154 | the nested loops append exactly the kept descriptions of every page before the first page with a missing description, then those of that page's boxes before the missing one. They raise exactly when some page has one. |
| `Retrieval.AssembleDocs` | Research_Paper_Chatbot/pipeline.py:121-154 | for any chunk list, the document list is the text chunks in order, then exactly the figure documents appended before the scan stopped. That is a prefix of the kept figure documents, and all of them when every description is present. |
| `Retrieval.BuildIndexDocs` | Research_Paper_Chatbot/pipeline.py:121-154 | after `build_index`, raised or not, `all_docs` is the text chunks of the cleaned text, then exactly the kept figure documents appended before the first missing description, in page and box order. This is the list `get_context` reads after a raise. A document is kept when its `strip()` is not the refusal sentence. With every description present, `all_docs` is the chunks followed by all kept figures. |
| `Retrieval.BuildIndexCount` | Research_Paper_Chatbot/pipeline.py:160-166 | the count `build_index` returns is the number of text chunks plus one per kept figure description |
| `Retrieval.ConcatLayout` | Research_Paper_Chatbot/pipeline.py:127-154 | text documents followed by in-order figure documents keep both parts readable at their offsets and keep the page order |
| `Retrieval.KeptFigureOfDescription` | Research_Paper_Chatbot/pipeline.py:136-154 | with every description present, a non-refusal description on page `i + 1` is among the figure documents as a figure of that page |
| `Retrieval.KeptReplyAt` | Research_Paper_Chatbot/pipeline.py:143-146 | a present description that the refusal test does not reject is classified as kept |
| `Retrieval.AssembleKeepsEveryFigure` | Research_Paper_Chatbot/pipeline.py:127-154 | with every description present, each non-refusal description is in the document list as a figure of its page |
| `Retrieval.BuildIndexKeepsEveryFigure` | Research_Paper_Chatbot/pipeline.py:135-154 | with every description present, every description whose `strip()` is not the refusal sentence is in `all_docs` as a figure of its page. The filter drops only refusals. |
| `Retrieval.KeptFiguresIff` | Research_Paper_Chatbot/pipeline.py:136-154 | with every description present, the scan yields a figure document exactly when some description is not the refusal |
| `Retrieval.DescribedGivesKept` | Research_Paper_Chatbot/pipeline.py:136-154 | a non-empty list of described figure documents witnesses a kept description |
| `Retrieval.AssembleNothingExtracted` | Research_Paper_Chatbot/pipeline.py:156-158 | for any chunk list, "nothing extracted" is raised exactly when every description is present, there are no chunks and no description survives the filter |
| `Retrieval.BuildIndexNothingExtracted` | Research_Paper_Chatbot/pipeline.py:156-158 | "No text or figures extracted" is raised exactly when every description is present, the cleaned text is empty and every description is the refusal |
| `Retrieval.Retrieve` | Research_Paper_Chatbot/pipeline.py:176 | the list comprehension succeeds exactly when every id is a valid Python index into `all_docs`. Part `i` is then the content at `ids[i]`. |
| `Retrieval.GetContext` | Research_Paper_Chatbot/pipeline.py:169-178 | `get_context` raises "not processed" exactly when there is no index. It fails on an id exactly when the index exists and some id is outside `all_docs`. |
| `Retrieval.GetContextShape` | Research_Paper_Chatbot/pipeline.py:176-177 | the context is the retrieved documents in id order, each at its offset, with `"\n\n---\n\n"` between neighbours and nothing else. It opens with the first document and closes with the last. |
| `Retrieval.ContextMatchesIndex` | Research_Paper_Chatbot/pipeline.py:156-176 | while the index holds the documents' contents, every id the index can return retrieves the text embedded at that position. This includes the padding id `-1`, which counts from the end. |
| `Chat.ResolveContext` | Research_Paper_Chatbot/pipeline.py:244-252 | a context passed in is used unchanged, even an empty one. Otherwise there is no context exactly when no index exists or the search returned an id outside `all_docs`, and any context that is found is the one `get_context` returns. |
| `Chat.UserContent` | Research_Paper_Chatbot/pipeline.py:254-261 | with a non-empty context, the message is the header, the context, the question header, the question and the trailer, each readable at its offset. With a missing or empty context the message is the question verbatim. |
| `Chat.FinalAnswer` | Research_Paper_Chatbot/pipeline.py:272-278 | the answer is never empty and never padded. A missing or blank reply gives exactly the fixed notice. Any other reply gives its non-whitespace core, with only whitespace around it in the reply. |
| `Chat.EmptyAnswerShape` | Research_Paper_Chatbot/pipeline.py:276 | the fixed notice is non-empty and has no surrounding whitespace |
| `Chat.FinalAnswerIdempotent` | Research_Paper_Chatbot/pipeline.py:275-278 | feeding an answer back through the same clean-up returns it unchanged |
| `Chat.AskLlm` | Research_Paper_Chatbot/pipeline.py:244-278 | the answer is the reply cleaned up as `Chat.FinalAnswer` states: non-empty and trimmed. With no index and no context the question goes out verbatim. A context passed in sets the message as `Chat.UserContent` states: a non-empty one frames the question, and an empty one leaves the question verbatim. |
| `Chat.AskAfterBuild` | Research_Paper_Chatbot/pipeline.py:244-261 | right after a successful `build_index`, a question asked without a context resolves to the embedded texts the search picked, joined by the separator. A negative id such as the padding `-1` counts from the end. |
| `Chat.AskAfterBuildPrompt` | Research_Paper_Chatbot/pipeline.py:244-261 | right after a successful `build_index`, the message sent for a question asked without a context is the question with the searched context. It is framed by the headers when that context is non-empty, and the bare question otherwise. |
| `Chat.ResolvedFromIndex` | Research_Paper_Chatbot/pipeline.py:247 | while `all_docs` and the index agree, the searched context is the join of the embedded texts at the search ids, with negative ids counting from the end |

## Left out

- Word extraction (lines 28-35): pdfplumber is a foreign library. The words of each page are an input.
- Page rendering, box detection and cropping (lines 135-141, and `render_pages` and `detect_visual_blocks`): these are image numerics in fitz and OpenCV. The description for each box of each page is an input.
- `describe_image` and both chat-completion calls (lines 143 and 263-270): these are network calls. Their replies are inputs, and `None` stands for a missing content.
- Embedding and FAISS (lines 160-163 and 173-174): floating-point vector search. The index is the list of embedded texts, and the search result is an input list of ids. The `k` parameter therefore does not appear.
- The `print` logging (lines 165, 249, 252 and 273): it has no effect on the result.
- `SYSTEM_PROMPT`, the model names and the token limits: constant configuration with no behaviour here.
- `str(content)` on a reply that is not a string: the reply is modelled as an optional string.
- Failures other than the ones modelled: `ask_llm` swallows any exception from `get_context`, including embedding failures. The model has only the two errors that `get_context` raises itself.
- Concurrency: requests sharing the module globals at the same time.
- `Research_Paper_Chatbot/app.py`, `Web Backend/script.js` and the scripts under `Automation Codes/`: routing, front-end and ingestion code outside the pipeline.
- Chat.AskLlm: its contract fixes the message only when a context is passed in or no index exists. The searched case is stated by `Chat.AskAfterBuildPrompt` for the state a successful `build_index` leaves behind.
