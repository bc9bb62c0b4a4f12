# RAG tutor backend: retrieval core in Dafny

This project models the retrieval half of a textbook-tutor backend and proves facts about it.

- **Chunking.** A chapter's text is split into sentences, and the sentences are packed greedily into chunks of bounded size.
- **Topics.** Each chunk is embedded and numbered.
- **Retrieval.** A question is answered from the four chunks most similar to it.
- **Fallback.** The answer falls back to an ungrounded reply when the grounded reply refuses but the question looks relevant.
- **Image store.** A separate store picks the illustrative image whose embedding best matches a text.

The embedding model and the text generator are foreign calls. Both are function-typed parameters:

- `Embedder = string -> seq<real>`. It is total and may return the empty vector, as `embedText` does on failure.
- `Generator = seq<string> -> string`. It takes the prompt parts and returns the reply text.

Modules:

- `Text` (text.dfy) holds the string operations the core uses:
  - `trim` and `join`;
  - `includes`, as `Contains`;
  - decimal rendering of a number.
- `Embeddings` (embeddings.dfy) holds `cosineSimilarity` and the exact order on similarities.
  - A similarity is kept as a `Cosine`: either `Zero`, or `Quotient(dot, norms)`, which stands for `dot / sqrt(norms)`.
  - Similarities are compared through `Rank`, the signed square of the value.
  - `Rank` orders the values exactly (`RankOrder`, `RankAgainstConstant`), so every comparison the source makes is decided without a square root:
    - sorting;
    - `> 0.3`;
    - the arg-max that starts from `-1`.
- `Chunker` (chunker.dfy) holds `chunkText`.
  - The sentence split `split(/(?<=[.!?])\s+/)` is a recursive function, `Sentences`.
  - It is characterised by `IsSeparation`: the pieces and the separator runs interleave back to the text.
  - The packing loop is a method, `ChunkText`. It is proved equal to `Chunks`: `Emit` of `Pack`, which places the sentences one by one.
  - `Pack` is characterised by `IsGreedyPacking` (`PackIsGreedy`), and it is the only greedy packing (`GreedyPackingUnique`).
- `Rag` (rag.dfy) holds the rest of the answer path:
  - `createTopicFromText`;
  - `retrieveTopKChunks`, modelled as a stable insertion sort followed by a prefix;
  - the context labels and prompts;
  - `Math.max` over all chunk scores;
  - the fallback decision of `answerWithRAG`.
- `Images` (image_store.dfy) holds the `imageStore` object as the class `ImageStore`, with `initImageStore`, `getImagesByTopic` and `findBestImageForText`.
- `Wrappers` (wrappers.dfy) holds `Option`.

`findBestImageForText` can return `null` for a non-empty candidate set. The best score starts at `-1` and the comparison is a strict `>`, so `null` comes back when every candidate scores exactly `-1`. This model follows the code:

- `Images.OppositeScoresMinusOne` exhibits such a candidate.
- `Images.NoneOnlyAtMinusOne` shows this is the only way `null` comes back for a non-empty candidate set.

## Model

| member | source | states |
|---|---|---|
| Text.JoinWith | backend/rag.js:65-67 | `parts.join(sep)`, defined as the parts interleaved with copies of the separator; its properties are the join lemmas below |
| Text.Contains | backend/rag.js:88 | `s.includes(sub)`, defined as an occurrence of sub at some index of s; its properties are the containment lemmas below |
| Text.Utf16Length | backend/rag.js:12 | `.length`: the number of UTF-16 code units, between the number of code points and twice that number |
| Text.Utf16LengthAppend | backend/rag.js:12 | the code-unit length of a concatenation is the sum of the lengths |
| Text.Utf16PrefixShorter | backend/rag.js:12 | a prefix is never longer in code units than the whole string |
| Text.TrimShorter | backend/rag.js:13 | `trim()` never makes a string longer in code units |
| Text.JoinWithPrefix | backend/rag.js:16 | the join of some parts is a prefix of the join of those parts followed by more |
| Text.InterleaveLengthMonotone | backend/rag.js:7-16 | replacing each separator by one no longer in code units never lengthens the interleaving |
| Text.Trim | backend/rag.js:13 | `trim()`: the result is a slice of the input, only white space is removed from each end, and the result neither starts nor ends with white space |
| Text.JoinWithSnoc | backend/rag.js:16 | appending a sentence with a single space to the buffer equals the join of the group extended by that sentence |
| Text.JoinWithEmpty | backend/rag.js:13 | a join with a non-empty separator is empty exactly when there are no parts or one empty part (when a buffer is falsy) |
| Text.InterleaveContainsPart | backend/rag.js:65-67 | every part of a join occurs in the joined string |
| Text.DecimalRoundTrip | backend/rag.js:66 | the decimal rendering of a chunk label reads back as the same number |
| Embeddings.CommonLength | backend/embeddings.js:42 | `Math.min(a.length, b.length)`: at most each length and equal to one of them |
| Embeddings.Similarity | backend/embeddings.js:42-49 | the similarity is `Zero` when the common length is zero (either vector empty) |
| Embeddings.CosineSimilarity | backend/embeddings.js:38-50 | the accumulation loop over the common prefix computes exactly `Similarity`, including the zero guard on either sum of squares |
| Embeddings.SquaresNonNegative | backend/embeddings.js:45-46 | a sum of squares is never negative |
| Embeddings.SignedSquareOrder | backend/rag.js:54 | the signed square is strictly increasing, so comparing signed squares compares the values |
| Embeddings.RankOfDenoted | backend/embeddings.js:49 | the rank of a similarity is the signed square of the real value it denotes |
| Embeddings.RankOrder | backend/rag.js:54 | two similarities compare (`<` and `==`) as their ranks do |
| Embeddings.RankAgainstConstant | backend/rag.js:99 | a similarity exceeds a constant exactly when its rank exceeds the constant's signed square |
| Embeddings.DotSymmetric | backend/embeddings.js:44 | the dot product is symmetric |
| Embeddings.SimilaritySymmetric | backend/embeddings.js:38-50 | `cosineSimilarity(a, b) == cosineSimilarity(b, a)` |
| Embeddings.DotOfPrefixes | backend/embeddings.js:43-47 | the sums read only indices below the bound |
| Embeddings.SimilarityReadsCommonPrefix | backend/embeddings.js:42-47 | the similarity equals that of both vectors truncated to the common length: trailing entries of the longer vector do not matter |
| Embeddings.CauchySchwarz | backend/embeddings.js:43-47 | the squared dot product is at most the product of the sums of squares |
| Embeddings.RankBounded | backend/embeddings.js:49 | the rank of every similarity lies in [-1, 1] |
| Embeddings.SimilarityBounded | backend/embeddings.js:49 | every real value a similarity denotes lies in [-1, 1] |
| Embeddings.SelfSimilarity | backend/embeddings.js:48-49 | a vector with a non-zero sum of squares has similarity exactly 1 with itself |
| Embeddings.DotOfOpposite | backend/embeddings.js:43-47 | against the opposite vector the dot product is the negated sum of squares, and both sums of squares agree |
| Embeddings.OppositeSimilarity | backend/embeddings.js:48-49 | a vector with a non-zero sum of squares has similarity exactly -1 with its opposite |
| Chunker.SplitFrom | backend/rag.js:7 | the regex split from a given piece start and search position always yields at least one piece; what the pieces are is stated by the separation lemmas |
| Chunker.Sentences | backend/rag.js:7 | `text.split(/(?<=[.!?])\s+/)` always has at least one element, `[""]` for the empty text |
| Chunker.SplitFromFirst | backend/rag.js:7 | the first piece of the split is a prefix of the remaining text |
| Chunker.SeparationAtBoundary | backend/rag.js:7 | cutting at a boundary and consuming the whole white-space run extends a separation of the rest |
| Chunker.SplitFromSeparates | backend/rag.js:7 | the split pieces interleaved with the consumed runs give back the text; each run is whole white space after `.`, `!` or `?`; no piece contains a boundary |
| Chunker.SentencesSeparate | backend/rag.js:7 | the sentences are a separation of the text: pieces between whole white-space runs that follow a terminator, with no boundary inside a piece |
| Chunker.SpaceRunEndsAt | backend/rag.js:7 | a white-space run that stops before a non-space character or the end of the text is the run `\s+` consumes |
| Chunker.SeparationAfterFirst | backend/rag.js:7 | after the first separator of a separation comes the end of the text or a character that is not white space |
| Chunker.SeparationRest | backend/rag.js:7 | dropping the first piece and separator of a separation leaves a separation of the rest of the text |
| Chunker.SeparationFirst | backend/rag.js:7 | the first piece of a separation ends at a boundary, and its separator is the whole white-space run there |
| Chunker.NoBoundaryInFirst | backend/rag.js:7 | no boundary lies inside the first piece of a separation |
| Chunker.SeparationUnique | backend/rag.js:7 | a text has a single separation: pieces and separators are determined by the text |
| Chunker.SentencesUnique | backend/rag.js:7 | every separation of the text has exactly the sentences as its pieces |
| Chunker.SentencesNonEmptyBeforeLast | backend/rag.js:7 | every sentence but the last ends with a terminator, so it is non-empty |
| Chunker.PackingAppend | backend/rag.js:15-16 | a sentence that passes the size test joins the open group, and the packing stays greedy |
| Chunker.PackingBreak | backend/rag.js:12-14 | a sentence that fails the size test closes the open group and starts a new one, and the packing stays greedy |
| Chunker.PlaceGreedy | backend/rag.js:11-18 | placing one more sentence, by the size test against the open group's buffer, keeps the packing greedy |
| Chunker.Pack | backend/rag.js:11-18 | the packing has no group exactly when there is no sentence |
| Chunker.PackIsGreedy | backend/rag.js:11-18 | the groups the loop builds cover the sentences in order, no group is empty, every sentence inside a group passed the size test and every group after the first starts with a sentence that failed it |
| Chunker.PackingLastAlone | backend/rag.js:12-14 | a greedy packing whose last group is one sentence is a greedy packing of the sentences before it, and that sentence failed the size test |
| Chunker.PackingLastJoined | backend/rag.js:15-16 | a greedy packing whose last group holds two or more sentences is, without its last sentence, a greedy packing, and that sentence passed the size test |
| Chunker.GreedyPackingUnique | backend/rag.js:11-18 | any grouping that is a greedy packing of the sentences is the one the loop builds |
| Chunker.PackSnoc | backend/rag.js:11-18 | packing one more sentence places it into the packing of the sentences before it |
| Chunker.PackStep | backend/rag.js:11-18 | the packing after iteration i is the packing after iteration i - 1 with sentence i placed |
| Chunker.Chunks | backend/rag.js:6-21 | what `chunkText(text, maxChars)` returns, defined as the emitted buffers of `Pack` over the sentences; its properties are the chunk lemmas below |
| Chunker.ChunkText | backend/rag.js:6-21 | the chunks are the trimmed non-empty buffers of the greedy packing of the sentences, whose size test is always `(current + " " + s).length > maxChars`, with the length counted in UTF-16 code units |
| Chunker.FlattenCons | backend/rag.js:11 | the groups cover the sentences from the first group on |
| Chunker.FlattenMember | backend/rag.js:11 | every sentence of every group is one of the sentences |
| Chunker.FirstSentenceNonEmpty | backend/rag.js:7 | a non-empty text starts with a non-empty sentence |
| Chunker.JoinedSentencesNoLonger | backend/rag.js:7-16 | re-joining the sentences with single spaces never makes the text longer in code units |
| Chunker.EmitEmpty | backend/rag.js:13-19 | no chunk is pushed exactly when every buffer is empty |
| Chunker.ChunksEmptyIff | backend/rag.js:6-21 | `chunkText` returns no chunk exactly when the text is empty |
| Chunker.EmittedFrom | backend/rag.js:13-19 | each chunk is the trim of the non-empty buffer of one group |
| Chunker.PackedGroupFits | backend/rag.js:12-16 | the buffer of a group of two or more sentences has at most maxChars code units |
| Chunker.ChunkLengthBound | backend/rag.js:12-19 | every chunk has at most maxChars code units, unless it is the trim of a single sentence |
| Chunker.SecondGroupOverflows | backend/rag.js:12-14 | a greedy packing with two or more groups joins to more than maxChars code units |
| Chunker.ShortTextOneGroup | backend/rag.js:11-18 | a greedy packing of a non-empty text of at most maxChars code units is a single group of all its sentences |
| Chunker.ShortTextOneChunk | backend/rag.js:6-21 | a non-empty text of at most maxChars code units gives one group and exactly one chunk: its sentences joined and trimmed |
| Chunker.SplitWithoutTerminator | backend/rag.js:7 | a text without `.`, `!` or `?` is not split |
| Chunker.BlankTextEmptyChunk | backend/rag.js:16-19 | a non-empty text of white space only gives exactly one chunk, the empty string |
| Rag.CreateTopicFromText | backend/rag.js:27-42 | one entry per chunk `chunkText(text)` returns with maxChars 800; entry i has id i, the text of chunk i and the embedding of that text |
| Rag.Insert | backend/rag.js:54 | an insertion adds exactly the inserted entry (as a multiset) |
| Rag.WithKeySnoc | backend/rag.js:54 | appending an entry appends it to its group of equal scores only |
| Rag.SortedSnoc | backend/rag.js:54 | appending an entry no larger than all others keeps the order non-increasing |
| Rag.InsertMember | backend/rag.js:54 | every entry of an insertion is the inserted one or was already there |
| Rag.InsertSorted | backend/rag.js:54 | insertion into a descending sequence keeps it descending |
| Rag.InsertStable | backend/rag.js:54 | insertion puts the entry after all earlier entries of equal score |
| Rag.SortByScore | backend/rag.js:54 | the sort is descending by score, a permutation of its input, and stable (equal scores keep their input order) |
| Rag.WithKeyPrefix | backend/rag.js:55 | a prefix keeps a prefix of each group of equal scores |
| Rag.TakeSorted | backend/rag.js:55 | the first k of a sorted list are sorted, drawn from it, and a prefix of each group of equal scores |
| Rag.TakeBest | backend/rag.js:55 | the first k of a sorted list score at least as high as every entry left out |
| Rag.ScoreAll | backend/rag.js:48-52 | `chunks.map(...)`, defined as id, text and cosine similarity to the query for each chunk in order; `RetrievedAreScoredChunks` states what the retrieved entries are |
| Rag.RetrieveTopK | backend/rag.js:47-56 | exactly `min(k, n)` entries, non-increasing scores, drawn from the scored chunks, ties in input order |
| Rag.RetrievedAreScoredChunks | backend/rag.js:48-52 | each retrieved entry is some chunk's id and text with that chunk's similarity to the query |
| Rag.RetrievedAreBest | backend/rag.js:54-55 | no chunk left out of the top k scores higher than a retrieved one |
| Rag.ContextBlock | backend/rag.js:66 | the block of chunk idx, defined as `Chunk <idx+1>:` and a newline before its text |
| Rag.ContextBlocks | backend/rag.js:65-67 | the blocks in retrieval order joined by blank lines |
| Rag.ContextListsEveryChunk | backend/rag.js:65-67 | the context contains `Chunk <i+1>:` followed by the text of retrieved chunk i, and the label reads back as i+1 |
| Rag.MaxKey | backend/rag.js:92-94 | `Math.max` over the scores: none (`-Infinity`) exactly for no chunks, otherwise the largest rank, attained by some chunk |
| Rag.MaxExceedsIff | backend/rag.js:92-99 | the maximum exceeds 0.3 exactly when some chunk's similarity does |
| Rag.AnswerWithRAG | backend/rag.js:61-123 | `usedChunks` is the top 4; fallback is used exactly when the trimmed grounded reply contains "I am not sure" and some chunk scores above 0.3; the answer is the trimmed fallback reply plus the note, or otherwise the trimmed grounded reply; no chunks means no fallback |
| Rag.SystemPrompt | backend/rag.js:69-77 | the trimmed system prompt, defined from the template's lines with the context blocks on the `Context:` line |
| Rag.QuestionPrompt | backend/rag.js:82 | the question part of the grounded call, defined as the question between `Question: ` and the answer instruction |
| Rag.GeneralPrompt | backend/rag.js:102-105 | the fallback prompt, defined as the template with the question on the `Q:` line |
| Rag.RefusalIsDetected | backend/rag.js:73-88 | a reply that gives the refusal sentence anywhere is detected as a refusal |
| Images.EmbeddingText | backend/imageStore.js:26 | the text an image is embedded from, defined as title, description and comma-joined keywords (none when keywords are missing), separated by `. ` |
| Images.EmbeddingTextMentions | backend/imageStore.js:26 | an image's embedding text mentions its title, its description and each of its keywords |
| Images.Candidates | backend/imageStore.js:51-53 | with a truthy topicId, exactly the catalog images of that topic; otherwise the whole catalog |
| Images.WithTopic | backend/imageStore.js:40 | the filter keeps exactly the images of the topic |
| Images.WithTopicConcat | backend/imageStore.js:40 | filtering commutes with concatenation, so the result is in catalog order |
| Images.WithTopicCount | backend/imageStore.js:40 | the filter keeps every copy of a matching image and no copy of any other |
| Images.ImageStore.constructor | backend/imageStore.js:7-10 | the store starts with no images and not ready |
| Images.ImageStore.Init | backend/imageStore.js:16-33 | with no catalog the state is unchanged; otherwise image i gets the embedding of `title. description. keywords` (missing keywords as none), the store holds the catalog and is ready |
| Images.ImageStore.ImagesByTopic | backend/imageStore.js:38-41 | nothing before initialisation; afterwards exactly the images of that topic |
| Images.ImageStore.FindBestImageForText | backend/imageStore.js:47-69 | none when not ready or no candidate; a result is the first candidate with the highest score, which is above -1; a truthy topic restricts the result to it; none means every candidate scored at most -1 |
| Images.OppositeScoresMinusOne | backend/imageStore.js:58-62 | a candidate whose embedding is the opposite of a query with a non-zero sum of squares scores exactly -1, so the strict `>` against the initial -1 never picks it |
| Images.NoneOnlyAtMinusOne | backend/imageStore.js:58-68 | when no candidate beats -1, every candidate scores exactly -1 |

## Left out

- The HTTP server, file upload, PDF text extraction, JSON persistence and the user interface are not part of this model.
  - The topic lookup and the image topic `"sound"` that the server passes are caller inputs here.
- The embedding pipeline (model loading, the lazy singleton, pooling) is not modelled. `embedText` is the total oracle `Embedder`, which may return the empty vector.
- Gemini `generateContent` is not modelled; it is the oracle `Generator`.
  - The single-string fallback prompt is passed as a one-element list.
  - Network failures and exceptions of the generator are not modelled.
- Floating point is not modelled. Scores are exact reals.
  - `Math.sqrt` is not computed. A similarity is kept as dot product and product of sums of squares, and compared through `Rank`.
  - Rounding, and float ties that exact reals would break, are not captured.
- Reading and parsing `images.json` is not modelled. The parsed catalog is the input `Option<seq<Image>>`, with None for a missing file.
  - Missing titles or descriptions, which JavaScript would render as `undefined`, are not modelled.
- Images.ImageStore.Init: each parsed image object is updated in place in the source. Here the entry of the sequence is replaced. The objects are fresh from parsing, so no aliasing is lost.
- Rag.RetrieveTopK: k is a natural number. A negative k, which `slice` would count from the end, is not modelled; the caller passes 4.
- `async`/`await` and logging are not modelled. Every path is sequential.
- Strings are sequences of Unicode code points. A JavaScript string holding an unpaired surrogate cannot be represented; `Utf16Length` counts every other string as `.length` does.
- JavaScript white space is the fixed character set of `IsSpace`; the regular expression `\s` is taken to match the same set.
