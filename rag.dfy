/**
 * The rest of backend/rag.js: building a topic's chunk list with embeddings, top-k
 * retrieval by cosine similarity, and the answer logic with its refusal fallback. The
 * embedding model and the text generator are oracles passed in as functions.
 */
module Rag {
  import opened Wrappers
  import opened Text
  import opened Embeddings
  import opened Chunker

  /** A chunk of a topic: `{ id, text, embedding }`. */
  datatype Chunk = Chunk(id: int, text: string, embedding: Vector)

  /**
   * `createTopicFromText`: chunk the text with the default size and embed each chunk;
   * entry i has id i, the text of chunk i and that text's embedding.
   */
  method CreateTopicFromText(text: string, embed: Embedder) returns (topic: seq<Chunk>)
    ensures |topic| == |Chunks(text, DefaultMaxChars)|
    ensures forall i :: 0 <= i < |topic| ==>
      topic[i] == Chunk(i, Chunks(text, DefaultMaxChars)[i], embed(Chunks(text, DefaultMaxChars)[i]))
  {
    var rawChunks := ChunkText(text, DefaultMaxChars);
    topic := [];
    for i := 0 to |rawChunks|
      invariant |topic| == i
      invariant forall j :: 0 <= j < i ==> topic[j] == Chunk(j, rawChunks[j], embed(rawChunks[j]))
    {
      var chunkTextValue := rawChunks[i];
      var embedding := embed(chunkTextValue);
      topic := topic + [Chunk(i, chunkTextValue, embedding)];
    }
  }

  // ---- Retrieval ----

  /** A scored chunk: `{ id, text, score }`. */
  datatype Scored = Scored(id: int, text: string, score: Cosine)

  /** The order key of a scored chunk: it orders exactly as the similarity does. */
  function Key(e: Scored): real {
    Rank(e.score)
  }

  /** `chunks.map(...)`: every chunk scored against the query, in chunk order. */
  function ScoreAll(query: Vector, chunks: seq<Chunk>): seq<Scored> {
    seq(|chunks|, i requires 0 <= i < |chunks| => Scored(chunks[i].id, chunks[i].text, Similarity(query, chunks[i].embedding)))
  }

  predicate NonIncreasing(s: seq<Scored>) {
    forall i, j :: 0 <= i < j < |s| ==> Key(s[i]) >= Key(s[j])
  }

  /** The entries of s whose key is v, in the order of s. */
  function WithKey(s: seq<Scored>, v: real): seq<Scored> {
    if s == [] then []
    else WithKey(s[..|s| - 1], v) + (if Key(s[|s| - 1]) == v then [s[|s| - 1]] else [])
  }

  /** x placed after every entry whose key is at least its own (s is taken as sorted). */
  function Insert(x: Scored, s: seq<Scored>): (r: seq<Scored>)
    ensures multiset(r) == multiset(s) + multiset{x}
  {
    if s == [] then [x]
    else if Key(s[|s| - 1]) >= Key(x) then s + [x]
    else
      var init := s[..|s| - 1];
      assert s == init + [s[|s| - 1]];
      Insert(x, init) + [s[|s| - 1]]
  }

  lemma WithKeySnoc(s: seq<Scored>, x: Scored, v: real)
    ensures WithKey(s + [x], v) == WithKey(s, v) + (if Key(x) == v then [x] else [])
  {
    assert (s + [x])[..|s|] == s;
  }

  /** A sorted sequence stays sorted when an entry no larger than all of it is appended. */
  lemma SortedSnoc(a: seq<Scored>, y: Scored)
    requires NonIncreasing(a)
    requires forall i :: 0 <= i < |a| ==> Key(a[i]) >= Key(y)
    ensures NonIncreasing(a + [y])
  {
    forall i, j | 0 <= i < j < |a| + 1
      ensures Key((a + [y])[i]) >= Key((a + [y])[j])
    {
      assert (a + [y])[i] == a[i];
      if j < |a| {
        assert (a + [y])[j] == a[j];
      }
    }
  }

  /** An entry of Insert(x, s) is x or an entry of s. */
  lemma InsertMember(x: Scored, s: seq<Scored>, e: Scored) returns (j: nat)
    requires e in Insert(x, s) && e != x
    ensures j < |s| && s[j] == e
  {
    assert e in multiset(Insert(x, s));
    assert e in multiset(s);
    j :| 0 <= j < |s| && s[j] == e;
  }

  /** Inserting into a sorted sequence keeps it sorted. */
  lemma {:induction false} InsertSorted(x: Scored, s: seq<Scored>)
    requires NonIncreasing(s)
    ensures NonIncreasing(Insert(x, s))
    decreases |s|
  {
    if s != [] && Key(s[|s| - 1]) < Key(x) {
      var init, last := s[..|s| - 1], s[|s| - 1];
      assert NonIncreasing(init) by {
        forall i, j | 0 <= i < j < |init|
          ensures Key(init[i]) >= Key(init[j])
        {
          assert init[i] == s[i] && init[j] == s[j];
        }
      }
      InsertSorted(x, init);
      var a := Insert(x, init);
      forall i | 0 <= i < |a|
        ensures Key(a[i]) >= Key(last)
      {
        if a[i] != x {
          var j := InsertMember(x, init, a[i]);
          assert s[j] == a[i];
        }
      }
      SortedSnoc(a, last);
      assert Insert(x, s) == a + [last];
    }
  }

  /** Inserting x keeps the order of every group of equal keys and puts x last in its group. */
  lemma {:induction false} InsertStable(x: Scored, s: seq<Scored>, v: real)
    ensures WithKey(Insert(x, s), v) == WithKey(s, v) + (if Key(x) == v then [x] else [])
    decreases |s|
  {
    if s == [] {
      WithKeySnoc([], x, v);
    } else if Key(s[|s| - 1]) >= Key(x) {
      WithKeySnoc(s, x, v);
    } else {
      var init, last := s[..|s| - 1], s[|s| - 1];
      var a := Insert(x, init);
      assert Insert(x, s) == a + [last];
      InsertStable(x, init, v);
      WithKeySnoc(a, last, v);
      assert WithKey(s, v) == WithKey(init, v) + (if Key(last) == v then [last] else []);
    }
  }

  /**
   * `scored.sort((a, b) => b.score - a.score)`: the stable sort by descending score
   * (insertion sort). The result is sorted, a permutation of the input, and keeps the
   * input order among equal scores.
   */
  function SortByScore(s: seq<Scored>): (r: seq<Scored>)
    ensures NonIncreasing(r)
    ensures multiset(r) == multiset(s)
    ensures forall v :: WithKey(r, v) == WithKey(s, v)
  {
    if s == [] then []
    else
      var init, last := s[..|s| - 1], s[|s| - 1];
      var sorted := SortByScore(init);
      InsertSorted(last, sorted);
      assert s == init + [last];
      assert forall v :: WithKey(Insert(last, sorted), v) == WithKey(s, v) by {
        forall v ensures WithKey(Insert(last, sorted), v) == WithKey(s, v) {
          InsertStable(last, sorted, v);
        }
      }
      Insert(last, sorted)
  }

  function Min(a: nat, b: nat): nat {
    if a < b then a else b
  }

  /** Taking a prefix takes a prefix of every group of equal keys. */
  lemma {:induction false} WithKeyPrefix(s: seq<Scored>, n: nat, v: real)
    requires n <= |s|
    ensures WithKey(s[..n], v) <= WithKey(s, v)
    decreases |s|
  {
    if n < |s| {
      var init := s[..|s| - 1];
      WithKeyPrefix(init, n, v);
      assert init[..n] == s[..n];
    } else {
      assert s[..n] == s;
    }
  }

  /** The first n entries of a sorted sequence: sorted, drawn from it, a prefix of each group of equal keys. */
  lemma TakeSorted(sorted: seq<Scored>, n: nat)
    requires NonIncreasing(sorted) && n <= |sorted|
    ensures NonIncreasing(sorted[..n])
    ensures multiset(sorted[..n]) <= multiset(sorted)
    ensures forall v :: WithKey(sorted[..n], v) <= WithKey(sorted, v)
  {
    assert sorted == sorted[..n] + sorted[n..];
    forall v
      ensures WithKey(sorted[..n], v) <= WithKey(sorted, v)
    {
      WithKeyPrefix(sorted, n, v);
    }
  }

  /** The first n entries of a sorted sequence are at least as large as every entry left behind. */
  lemma TakeBest(sorted: seq<Scored>, n: nat)
    requires NonIncreasing(sorted) && n <= |sorted|
    ensures forall e, t :: e in multiset(sorted) - multiset(sorted[..n]) && t in sorted[..n] ==> Key(t) >= Key(e)
  {
    var top, rest := sorted[..n], sorted[n..];
    assert sorted == top + rest;
    assert multiset(sorted) - multiset(top) == multiset(rest);
    forall e, t | e in multiset(rest) && t in top
      ensures Key(t) >= Key(e)
    {
      var b :| 0 <= b < |rest| && rest[b] == e;
      var a :| 0 <= a < |top| && top[a] == t;
      assert sorted[a] == t && sorted[n + b] == e;
    }
  }

  /**
   * `retrieveTopKChunks(queryEmbedding, chunks, k)`: score every chunk, sort by descending
   * score and keep the first k.
   */
  function RetrieveTopK(query: Vector, chunks: seq<Chunk>, k: nat): (top: seq<Scored>)
    ensures |top| == Min(k, |chunks|)
    ensures NonIncreasing(top)
    ensures multiset(top) <= multiset(ScoreAll(query, chunks))
    ensures forall v :: WithKey(top, v) <= WithKey(ScoreAll(query, chunks), v)
  {
    var all := ScoreAll(query, chunks);
    var sorted := SortByScore(all);
    TakeSorted(sorted, Min(k, |sorted|));
    sorted[..Min(k, |sorted|)]
  }

  /** Every retrieved entry is a chunk with its own similarity to the query. */
  lemma RetrievedAreScoredChunks(query: Vector, chunks: seq<Chunk>, k: nat, i: nat) returns (j: nat)
    requires i < |RetrieveTopK(query, chunks, k)|
    ensures j < |chunks|
    ensures RetrieveTopK(query, chunks, k)[i] ==
      Scored(chunks[j].id, chunks[j].text, Similarity(query, chunks[j].embedding))
  {
    var top := RetrieveTopK(query, chunks, k);
    var all := ScoreAll(query, chunks);
    assert top[i] in multiset(top);
    assert top[i] in multiset(all);
    j :| 0 <= j < |all| && all[j] == top[i];
  }

  /** No chunk left out of the top k scores higher than a retrieved one. */
  lemma RetrievedAreBest(query: Vector, chunks: seq<Chunk>, k: nat)
    ensures var top := RetrieveTopK(query, chunks, k);
      forall e, t :: e in multiset(ScoreAll(query, chunks)) - multiset(top) && t in top ==> Key(t) >= Key(e)
  {
    var all := ScoreAll(query, chunks);
    var sorted := SortByScore(all);
    TakeBest(sorted, Min(k, |sorted|));
    assert RetrieveTopK(query, chunks, k) == sorted[..Min(k, |sorted|)];
  }

  // ---- Answering ----

  /** A text generator: the prompt parts in, the reply text out. */
  type Generator = seq<string> -> string

  /** The result object: `{ answer, usedChunks, fallbackUsed }`. */
  datatype AnswerResult = AnswerResult(answer: string, usedChunks: seq<Scored>, fallbackUsed: bool)

  /** How many chunks `answerWithRAG` retrieves. */
  const TopK: nat := 4

  /** The sentence the system prompt asks for when the context does not support an answer. */
  const RefusalSentence: string := "I am not sure based on this chapter."

  /** The substring whose presence in the reply counts as a refusal. */
  const RefusalMarker: string := "I am not sure"

  const RelevanceThreshold: real := 0.3

  const FallbackNote: string :=
    "\n\n*Note: This answer was generated outside the chapter context and may be open-ended.*"

  /** `Chunk ${idx + 1}:\n${c.text}`. */
  function ContextBlock(idx: nat, c: Scored): string {
    "Chunk " + Decimal(idx + 1) + ":\n" + c.text
  }

  /** The retrieved chunks labelled in retrieval order, joined by blank lines. */
  function ContextBlocks(top: seq<Scored>): string {
    JoinWith(seq(|top|, i requires 0 <= i < |top| => ContextBlock(i, top[i])), "\n\n")
  }

  /** The context names retrieved chunk i as `Chunk <i+1>` followed by its text. */
  lemma ContextListsEveryChunk(top: seq<Scored>, i: nat)
    requires i < |top|
    ensures Contains(ContextBlocks(top), "Chunk " + Decimal(i + 1) + ":\n" + top[i].text)
    ensures DecimalValue(Decimal(i + 1)) == i + 1
  {
    var blocks := seq(|top|, j requires 0 <= j < |top| => ContextBlock(j, top[j]));
    InterleaveContainsPart(blocks, seq(|blocks| - 1, _ => "\n\n"), i);
    DecimalRoundTrip(i + 1);
  }

  /**
   * The system prompt, line by line: the instructions, the refusal sentence and the
   * context, with the template's two-space indentation, trimmed.
   */
  function SystemPrompt(contextBlocks: string): string {
    Trim(JoinWith([
      "",
      "  You are an AI Tutor for a specific textbook chapter.",
      "  You must answer ONLY using the provided context chunks.",
      "  If the answer is not clearly supported by the context, say:",
      "  \"" + RefusalSentence + "\"",
      "",
      "  Context:",
      "  " + contextBlocks,
      "  "], "\n"))
  }

  function QuestionPrompt(question: string): string {
    "Question: " + question + "\nAnswer in a clear, student-friendly way."
  }

  /** The prompt of the fallback call, which carries no context. */
  function GeneralPrompt(question: string): string {
    "\n  You are a tutor. Answer this question clearly and factually:\n  Q: " + question + "\n  A:"
  }

  /**
   * `Math.max(...scores)` on the order of the similarities: None stands for the
   * `-Infinity` of an empty list, otherwise the largest key.
   */
  function MaxKey(s: seq<Scored>): (m: Option<real>)
    ensures m.None? <==> s == []
    ensures m.Some? ==> forall i :: 0 <= i < |s| ==> Key(s[i]) <= m.value
    ensures m.Some? ==> exists i :: 0 <= i < |s| && Key(s[i]) == m.value
  {
    if s == [] then None
    else
      var rest := MaxKey(s[..|s| - 1]);
      var last := Key(s[|s| - 1]);
      if rest.None? || last > rest.value then Some(last) else rest
  }

  /** `maxSimilarity > relevanceThreshold`, compared through the order key. */
  predicate Exceeds(m: Option<real>, threshold: real) {
    m.Some? && m.value > SignedSquare(threshold)
  }

  /**
   * Some chunk's similarity to the query is above the threshold, compared through the
   * order key (RankAgainstConstant: for a similarity denoting x, x > t exactly when its
   * key exceeds SignedSquare(t)).
   */
  predicate SomeChunkAbove(query: Vector, chunks: seq<Chunk>, threshold: real) {
    exists i :: 0 <= i < |chunks| && Rank(Similarity(query, chunks[i].embedding)) > SignedSquare(threshold)
  }

  /** The maximum exceeds the threshold exactly when some chunk's similarity does. */
  lemma MaxExceedsIff(query: Vector, chunks: seq<Chunk>, threshold: real)
    ensures Exceeds(MaxKey(ScoreAll(query, chunks)), threshold) <==> SomeChunkAbove(query, chunks, threshold)
  {
    var all := ScoreAll(query, chunks);
    var m := MaxKey(all);
    if Exceeds(m, threshold) {
      var i :| 0 <= i < |all| && Key(all[i]) == m.value;
      assert Rank(Similarity(query, chunks[i].embedding)) > SignedSquare(threshold);
    }
    if SomeChunkAbove(query, chunks, threshold) {
      var i :| 0 <= i < |chunks| && Rank(Similarity(query, chunks[i].embedding)) > SignedSquare(threshold);
      assert Key(all[i]) <= m.value;
    }
  }

  /**
   * `answerWithRAG(question, topicData, geminiClient)`: ask with the top-4 context; if the
   * trimmed reply contains "I am not sure" and the best similarity over all chunks is
   * above 0.3, ask again without context and append the note.
   */
  method AnswerWithRAG(question: string, chunks: seq<Chunk>, embed: Embedder, generate: Generator)
      returns (result: AnswerResult)
    ensures result.usedChunks == RetrieveTopK(embed(question), chunks, TopK)
    ensures var primary := Trim(generate([SystemPrompt(ContextBlocks(result.usedChunks)), QuestionPrompt(question)]));
      (result.fallbackUsed <==>
        Contains(primary, RefusalMarker) && SomeChunkAbove(embed(question), chunks, RelevanceThreshold)) &&
      (!result.fallbackUsed ==> result.answer == primary)
    ensures result.fallbackUsed ==> result.answer == Trim(generate([GeneralPrompt(question)])) + FallbackNote
    ensures chunks == [] ==> !result.fallbackUsed
  {
    var queryEmbedding := embed(question);
    var top := RetrieveTopK(queryEmbedding, chunks, TopK);
    var contextBlocks := ContextBlocks(top);
    var systemPrompt := SystemPrompt(contextBlocks);
    var answer := Trim(generate([systemPrompt, QuestionPrompt(question)]));
    var failedRAG := Contains(answer, RefusalMarker);
    var maxSimilarity := MaxKey(ScoreAll(queryEmbedding, chunks));
    MaxExceedsIff(queryEmbedding, chunks, RelevanceThreshold);
    var fallbackUsed := false;
    if failedRAG && Exceeds(maxSimilarity, RelevanceThreshold) {
      var fallbackAnswer := Trim(generate([GeneralPrompt(question)]));
      fallbackAnswer := fallbackAnswer + FallbackNote;
      answer := fallbackAnswer;
      fallbackUsed := true;
    }
    result := AnswerResult(answer, top, fallbackUsed);
  }

  /** A reply that gives the refusal sentence, anywhere in it, counts as a refusal. */
  lemma RefusalIsDetected(reply: string)
    requires Contains(reply, RefusalSentence)
    ensures Contains(reply, RefusalMarker)
  {
    var j :| 0 <= j <= |reply| && OccursAt(reply, RefusalSentence, j);
    assert reply[j..j + |RefusalMarker|] == RefusalSentence[..|RefusalMarker|];
    assert OccursAt(reply, RefusalMarker, j);
  }
}
