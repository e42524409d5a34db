# Semantic page search: chunking, similarity and ranking

This project is a Dafny model of the core of a browser extension that
searches the text of a web page's paragraphs and headings by meaning. It covers two scripts.

The popup (`src/popup.js`) does three things:

- It splits every scraped paragraph or heading longer than
  `MAX_CHUNK_LENGTH` (20) characters into overlapping chunks of at most
  20 words, with 5 words of overlap (`chunkParagraph` and the loop in
  `init`).
- It shortens result texts for display (`truncateText`).
- It escapes a class name for a CSS selector when the page has no
  `CSS.escape`.

The background worker (`src/background.js`) does two things:

- It embeds every chunk with a sentence-embedding model.
- For a query, it scores every chunk by cosine similarity. It sorts the
  chunks by score, highest first, and keeps those scoring above 0.2.

The modules follow those pieces:

| module | file | models |
|---|---|---|
| `Text` | text.dfy | `\s`, `split(/\s+/)`, `filter(Boolean)`, `join(' ')`, `trim()` |
| `Documents` | documents.dfy | scraped fragments, embedded fragments, scored results, `Option`/`Result` |
| `Chunker` | chunker.dfy | `chunkParagraph` |
| `Fragments` | fragments.dfy | the chunk-or-pass-through loop of `init` |
| `Display` | display.dfy | `truncateText`, the fallback `cssEscape` |
| `Similarity` | similarity.dfy | `cosineSimilarity` |
| `Ranking` | ranking.dfy | the stable descending sort and the 0.2 threshold |
| `Handlers` | handlers.dfy | the `create-document-embedding` and `search-document-embedding` port handlers |

Some parts of the system become parameters:

- The embedding model is a function `embed: string -> Result<Vector>`.
- A failure to load the model is a parameter `loadFailure: Option<string>`.
- `Math.sqrt` is a parameter `sqrt: real -> real`. Each lemma says what it
  needs of it: `sqrt(0) == 0`, or a true square root.
- Numbers are reals.
- A string's `length` is its count of UTF-16 code units.

## Model

| member | source | states |
|---|---|---|
| `Text.WordsOfJoin` | src/popup.js:288 | Joining words with single spaces and splitting on whitespace gives back exactly those words. |
| `Text.WordsKeepEveryVisibleChar` | src/popup.js:284 | `split(/\s+/).filter(Boolean)` drops every whitespace character and nothing else. Glued back together, the words are the text without its whitespace. |
| `Text.WordsOfTrim` | src/popup.js:75 | `trim()` keeps the words and leaves no whitespace at either end. The trimmed text is empty exactly when the text holds no word. |
| `Text.JoinIsTrimmed` | src/popup.js:288-289 | Trimming a chunk made by joining words changes nothing. |
| `Chunker.Chunks` | src/popup.js:283-294 | A text yields no chunk exactly when it holds no word. |
| `Chunker.ChunkParagraph` | src/popup.js:283-294 | The loop, step by step (slice, join, trim, push, break test, advance by `maxWords - overlap`), returns exactly the windows joined by single spaces, as many as `ChunkCount` gives. |
| `Chunker.StartIsProduct` | src/popup.js:287 | Window `k` starts at word `k * (maxWords - overlap)`. |
| `Chunker.ChunkIsWindow` | src/popup.js:287-288 | Chunk `k` holds exactly the words from `Start(k)` up to `Start(k) + maxWords`, cut at the end of the text. It holds between 1 and `maxWords` words. |
| `Chunker.ChunksOverlap` | src/popup.js:287-290 | Every chunk but the last holds `maxWords` words. Its last `overlap` words are the first `overlap` words of the next chunk. |
| `Chunker.ChunksReassemble` | src/popup.js:283-294 | No word is lost or repeated. The first `maxWords - overlap` words of each chunk but the last, followed by the whole last chunk, are the text's words. |
| `Chunker.LastChunkReachesEnd` | src/popup.js:290 | The last chunk ends with the text's last word. A text of 1 to `maxWords` words gives exactly one chunk: its words joined by single spaces. |
| `Chunker.ChunkCountIsFirstBreak` | src/popup.js:287-291 | No words give no chunk, and at most `maxWords` words give one. Otherwise the loop stops at the first window that reaches the last word: every earlier window fails the break test. With `n` words, more than `maxWords`, the count is the least `c >= 2` with `(c - 1) * (maxWords - overlap) >= n - maxWords`. That is `ceil((n - maxWords) / (maxWords - overlap)) + 1`. |
| `Chunker.LoopIndexIsStart` | src/popup.js:287 | The index `i` of the `for` loop, started at 0 and advanced by `maxWords - overlap` per pass, is the start of window `k` on pass `k` whenever the stride is positive. |
| `Chunker.StalledLoop` | src/popup.js:287-290 | Suppose `maxWords <= overlap` and the text has more than `maxWords` words. `i` starts at 0 and grows by `maxWords - overlap` per pass. Every value it takes passes the loop test and fails the break test, so the loop never ends. |
| `Fragments.Utf16Length` | src/popup.js:24 | The `length` of a string lies between its number of characters and twice that. It equals the number of characters exactly when every character lies in the Basic Multilingual Plane. |
| `Fragments.ExpandFragmentSpec` | src/popup.js:23-34 | A fragment of at most 20 code units passes through unchanged. A longer one becomes one copy per chunk of its text, differing only in text. Each copy holds 1 to 20 words, and the copies give back all of its words. A longer one without words disappears. |
| `Fragments.PushChunks` | src/popup.js:28-33 | One record per chunk is appended in chunk order, and what was there is kept. |
| `Fragments.ChunkDocuments` | src/popup.js:21-35 | The loop of `init` yields the fragment-by-fragment expansion of the scraped list. |
| `Fragments.ExpandAppend` | src/popup.js:22-35 | Expansion keeps page order: expanding a concatenation is concatenating the expansions. |
| `Fragments.ExpandKeepsOrigin` | src/popup.js:25-32 | Every record sent for embedding keeps the `refClass`, tag and index of a scraped fragment. |
| `Fragments.ExpandRespectsWordBudget` | src/popup.js:4-5 | The test counts characters while the chunker counts words, yet no record sent for embedding holds more than 20 words. |
| `Fragments.LongFewWordsIsNormalised` | src/popup.js:24-27 | A fragment over 20 code units with at most 20 words becomes one record whose text is its words joined by single spaces. |
| `Display.TruncateText` | src/popup.js:73-79 | An empty text gives `''`. A text with at most `wordLimit` words, and `wordLimit > 0`, comes back unchanged. Otherwise the result is the first `wordLimit` words joined by single spaces and followed by `...`. A text that is not empty gives `...` when `wordLimit` is 0. |
| `Display.ListLabel` | src/popup.js:64 | `renderList` calls `truncateText` with the default limit of 6 (line 73). A text of at most 6 words is shown unchanged. A longer one is shown as its first 6 words joined by single spaces, with `...` attached directly to the last word. |
| `Display.CssEscapeFallback` | src/popup.js:98-100 | The escaped string is longer by exactly the number of special characters. |
| `Display.EscapeRoundTrip` | src/popup.js:98-100 | The output is well escaped and reads back as the input: a backslash stands before every special character and no other. |
| `Display.UnescapeRoundTrip` | src/popup.js:98-100 | Every well-escaped string is the escape of what it reads back as, so escaping is one-to-one onto well-escaped strings. |
| `Similarity.CosineSimilarity` | src/background.js:4-24 | The single loop accumulates the dot product and both sums of squares. Its result equals the closed-form cosine, with the guard for a zero magnitude. |
| `Similarity.DotSymmetric` | src/background.js:9-13 | The dot product does not depend on the order of its arguments. |
| `Similarity.CosineSymmetric` | src/background.js:4-24 | The similarity does not depend on the order of its arguments. |
| `Similarity.SumSquaresZero` | src/background.js:11-12 | A sum of squares is never negative, and is zero exactly for the zero vector. |
| `Similarity.ZeroVectorScoresZero` | src/background.js:15-23 | A zero vector on either side scores 0 instead of dividing by zero. |
| `Similarity.SelfSimilarity` | src/background.js:4-24 | With a true square root, every non-zero vector has similarity 1 with itself. |
| `Ranking.SortSortsAndPermutes` | src/background.js:85 | The sort returns a rearrangement of its input, highest score first. |
| `Ranking.SortIsStable` | src/background.js:85 | Candidates with equal scores keep their input order, as ECMAScript requires of `Array.prototype.sort`. |
| `Ranking.AboveThresholdKeeps` | src/background.js:86 | The filter keeps exactly the candidates scoring strictly above the threshold, each as often as it occurs. |
| `Ranking.AboveThresholdSorted` | src/background.js:86 | Filtering a sorted list leaves it sorted. |
| `Ranking.AboveThresholdTies` | src/background.js:86 | The filter keeps the relative order of equal scores above the threshold and drops all others. |
| `Ranking.RankSpec` | src/background.js:85-86 | The ranked list is sorted by descending score. Every score in it is above 0.2. It holds exactly the candidates scoring above 0.2, and equal scores keep their input order. |
| `Ranking.FilterThenSort` | src/background.js:85-86 | Sorting then filtering gives the same list as filtering then sorting. |
| `Handlers.FirstFailure` | src/background.js:50-59 | It names the first fragment whose embedding fails: every fragment before it embeds. |
| `Handlers.CreateDocumentEmbedding` | src/background.js:43-65 | The worker posts a completion exactly when the model loads and every text embeds. The completion carries each fragment, in order, with its vector attached. Otherwise the one message posted is a failure carrying the load error or the first embedding error. |
| `Handlers.ScoreAll` | src/background.js:81-84 | Scoring keeps every candidate, in order. |
| `Handlers.SearchDocumentEmbedding` | src/background.js:68-93 | The corrected handler (see Findings); as written, lines 90-93 post nothing on failure. In this version a failure is posted exactly when loading the model or embedding the query fails. Otherwise the results are the candidates scoring above 0.2 against the query, sorted by descending score. Each score is the cosine of the query and the candidate's vector, and equal scores keep their stored order. |
| `Handlers.SearchDocumentEmbeddingAsWritten` | src/background.js:68-93 | As written, nothing is posted exactly when loading the model or embedding the query fails, because the `catch` block throws. Otherwise it posts a search completion whose results are sorted by descending score, each above 0.2. |
| `Handlers.SearchFailureIsSilent` | src/background.js:68-93 | The written handler (the `try` block followed by the throwing `catch`) and the corrected one agree on every successful search. Where the corrected one posts a failure, the written one posts nothing. |

## Left out

- The Chrome extension plumbing is not modelled: ports, `postMessage`, listeners and `onDisconnect`.
- Page access is not modelled: scraping the page (`getPageContent`), `executeScript`, highlighting and scrolling. The fragments arrive as a list.
- The DOM rendering of results is not modelled: `renderList`, `clearList` and the percentage badge.
- `PipelineSingleton` and the transformers library are not modelled. The model is the parameter `embed`, and its load failure is `loadFailure`.
- Floating point is not modelled. Numbers are reals, and `Math.sqrt` is a parameter whose properties each lemma states.
- No lemma bounds the similarity to the interval from -1 to 1 (the Cauchy–Schwarz inequality).
- The native `CSS.escape` is not modelled; only the fallback escaper is.
- Strings are sequences of Unicode scalar values. A page's `textContent` can hold a lone surrogate, which the model cannot represent.
- The regular expression `\s` is modelled as a fixed set of characters, the one ECMAScript defines.
- `Chunker.ChunkParagraph`: requires `overlap < maxWords`, which the source does not check. With `maxWords <= overlap` and more than `maxWords` words the source never ends its loop (`Chunker.StalledLoop`). The only caller passes the defaults 20 and 5.
- `Similarity.CosineSimilarity`: requires vectors of equal length. The source loops over the first vector's length only. A longer second vector is truncated. With a shorter one, `vecB[i]` is `undefined` past its end, so the dot product and the second sum of squares become `NaN`. `Math.sqrt(NaN)` is `NaN`, which is falsy, so the guard fails and the function returns 0. Both vectors come from the same model.
- `Handlers.SearchDocumentEmbedding`: requires every stored vector to have the query's length, for the same reason. In the source the query is the first argument. So a stored vector shorter than the query scores 0 and the `> 0.2` filter drops it, and a longer one is truncated to the query's length.
- `Handlers.SearchDocumentEmbeddingAsWritten`: has the same requirement as `Handlers.SearchDocumentEmbedding`, for the same reason.
- `Display.TruncateText`: takes a non-negative `wordLimit` and a string; negative limits and non-string arguments are not modelled.
- In `createDocumentEmbedding` (popup), an empty list resolves with no value and `init` then fails reading `embeddings`. Popup session state is out of scope.
- The popup listens only for the two completion events, so it never reacts to a failure message. The model stops at the worker's reply.

## Findings

| source | as written | input that shows it | evidently intended | confidence | as-written member | corrected member |
|---|---|---|---|---|---|---|
| src/background.js:90-93 | The search handler's `catch (error)` posts `String(err)`. `err` is bound only in the other handler's `catch`, so a `ReferenceError` is thrown and no message is posted. | Any search whose query embedding, or model load, throws. | Post `document_embedding_failed` with the caught error. | High for the worker; not executed | `Handlers.SearchDocumentEmbeddingAsWritten` | `Handlers.SearchDocumentEmbedding` |
