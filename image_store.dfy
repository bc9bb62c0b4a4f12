/**
 * backend/imageStore.js: the catalog of illustrative images, each embedded once from its
 * descriptive text, with a lookup by topic and a best match for a piece of text. The
 * module-level `imageStore` object is the ImageStore class; the parsed catalog is an input.
 */
module Images {
  import opened Wrappers
  import opened Text
  import opened Embeddings

  /** A catalog entry; `keywords` may be missing (None). */
  datatype Image = Image(
    id: string,
    title: string,
    description: string,
    keywords: Option<seq<string>>,
    topicId: string,
    filename: string,
    embedding: Vector)

  /** `img.keywords || []`. */
  function KeywordsOrEmpty(img: Image): seq<string> {
    if img.keywords.Some? then img.keywords.value else []
  }

  /** The text an image is embedded from: `${title}. ${description}. ${keywords.join(", ")}`. */
  function EmbeddingText(img: Image): string {
    img.title + ". " + img.description + ". " + JoinWith(KeywordsOrEmpty(img), ", ")
  }

  /** The embedding text mentions the title, the description and every keyword. */
  lemma EmbeddingTextMentions(img: Image)
    ensures Contains(EmbeddingText(img), img.title)
    ensures Contains(EmbeddingText(img), img.description)
    ensures forall kw :: kw in KeywordsOrEmpty(img) ==> Contains(EmbeddingText(img), kw)
  {
    var kws := KeywordsOrEmpty(img);
    var joined := JoinWith(kws, ", ");
    var head := img.title + ". ";
    assert EmbeddingText(img) == img.title + (". " + img.description + ". " + joined);
    ContainsPrefix(img.title, ". " + img.description + ". " + joined);
    assert EmbeddingText(img) == head + (img.description + (". " + joined));
    ContainsPrefix(img.description, ". " + joined);
    ContainsAfter(head, img.description + (". " + joined), img.description);
    forall kw | kw in kws
      ensures Contains(EmbeddingText(img), kw)
    {
      var i :| 0 <= i < |kws| && kws[i] == kw;
      InterleaveContainsPart(kws, seq(|kws| - 1, _ => ", "), i);
      assert EmbeddingText(img) == (head + img.description + ". ") + joined;
      ContainsAfter(head + img.description + ". ", joined, kw);
    }
  }

  /** The image with its embedding computed from its embedding text. */
  function Embedded(img: Image, embed: Embedder): Image {
    img.(embedding := embed(EmbeddingText(img)))
  }

  /** `images.filter((img) => img.topicId === topicId)`. */
  function WithTopic(images: seq<Image>, topicId: string): (r: seq<Image>)
    ensures forall img :: img in r <==> img in images && img.topicId == topicId
    ensures |r| <= |images|
  {
    if images == [] then []
    else
      var init, last := images[..|images| - 1], images[|images| - 1];
      assert images == init + [last];
      WithTopic(init, topicId) + (if last.topicId == topicId then [last] else [])
  }

  /** Filtering commutes with concatenation, so the filter keeps catalog order. */
  lemma {:induction false} WithTopicConcat(a: seq<Image>, b: seq<Image>, topicId: string)
    ensures WithTopic(a + b, topicId) == WithTopic(a, topicId) + WithTopic(b, topicId)
    decreases |b|
  {
    if b == [] {
      assert a + b == a;
    } else {
      var n := |b| - 1;
      assert (a + b)[..|a + b| - 1] == a + b[..n];
      WithTopicConcat(a, b[..n], topicId);
    }
  }

  /** The filter keeps every copy of a matching image and none of the others. */
  lemma {:induction false} WithTopicCount(images: seq<Image>, topicId: string, img: Image)
    ensures multiset(WithTopic(images, topicId))[img] ==
      if img.topicId == topicId then multiset(images)[img] else 0
    decreases |images|
  {
    if images != [] {
      var init, last := images[..|images| - 1], images[|images| - 1];
      WithTopicCount(init, topicId, img);
      assert images == init + [last];
    }
  }

  /** The candidates of a best-match lookup: the topic's images when topicId is truthy. */
  function Candidates(images: seq<Image>, topicId: Option<string>): (r: seq<Image>)
    ensures forall img :: img in r <==>
      img in images && (topicId.Some? && topicId.value != "" ==> img.topicId == topicId.value)
  {
    if topicId.Some? && topicId.value != "" then WithTopic(images, topicId.value) else images
  }

  /** The similarity -1 (-1 over the square root of 1): the initial best score. */
  const MinusOne: Cosine := Quotient(-1.0, 1.0)

  /** Rank of a candidate's similarity to the query. */
  function ScoreRank(query: Vector, img: Image): real {
    Rank(Similarity(query, img.embedding))
  }

  /**
   * Index i holds the first maximum of the candidates' scores, and that score is above -1:
   * what the scan with a strict `>` from -1 keeps.
   */
  predicate FirstMaximum(query: Vector, cands: seq<Image>, i: int) {
    0 <= i < |cands| &&
    ScoreRank(query, cands[i]) > Rank(MinusOne) &&
    (forall j :: 0 <= j < |cands| ==> ScoreRank(query, cands[j]) <= ScoreRank(query, cands[i])) &&
    (forall j :: 0 <= j < i ==> ScoreRank(query, cands[j]) < ScoreRank(query, cands[i]))
  }

  /** The `imageStore` object. */
  class ImageStore {
    var images: seq<Image>
    var ready: bool

    /** `{ images: [], ready: false }`. */
    constructor()
      ensures images == [] && !ready
    {
      images := [];
      ready := false;
    }

    /**
     * `initImageStore`: with no catalog (the file is missing) nothing changes; otherwise
     * every image gets the embedding of its embedding text, and the store holds the
     * catalog and is ready.
     */
    method Init(catalog: Option<seq<Image>>, embed: Embedder)
      modifies this
      ensures catalog.None? ==> images == old(images) && ready == old(ready)
      ensures catalog.Some? ==> ready && |images| == |catalog.value|
      ensures catalog.Some? ==> forall i :: 0 <= i < |images| ==>
        images[i] == Embedded(catalog.value[i], embed)
    {
      if catalog.None? {
        return;
      }
      var loaded := catalog.value;
      for i := 0 to |loaded|
        invariant |loaded| == |catalog.value|
        invariant forall j :: 0 <= j < i ==> loaded[j] == Embedded(catalog.value[j], embed)
        invariant forall j :: i <= j < |loaded| ==> loaded[j] == catalog.value[j]
      {
        var img := loaded[i];
        var text := EmbeddingText(img);
        loaded := loaded[i := img.(embedding := embed(text))];
      }
      images := loaded;
      ready := true;
    }

    /** `getImagesByTopic`: nothing before initialisation, then the topic's images in catalog order. */
    function ImagesByTopic(topicId: string): (r: seq<Image>)
      reads this
      ensures !ready ==> r == []
      ensures ready ==> forall img :: img in r <==> img in images && img.topicId == topicId
    {
      if !ready then [] else WithTopic(images, topicId)
    }

    /**
     * `findBestImageForText`: embed the text and scan the candidates, keeping the first
     * one whose score beats the best so far, starting from -1.
     */
    method FindBestImageForText(text: string, topicId: Option<string>, embed: Embedder)
        returns (best: Option<Image>)
      ensures !ready ==> best == None
      ensures Candidates(images, topicId) == [] ==> best == None
      ensures best.Some? ==>
        exists i :: FirstMaximum(embed(text), Candidates(images, topicId), i) && best.value == Candidates(images, topicId)[i]
      ensures ready && best.None? ==> forall j :: 0 <= j < |Candidates(images, topicId)| ==>
        ScoreRank(embed(text), Candidates(images, topicId)[j]) <= Rank(MinusOne)
      ensures best.Some? && topicId.Some? && topicId.value != "" ==> best.value.topicId == topicId.value
    {
      if !ready {
        return None;
      }
      var queryEmbedding := embed(text);
      var candidates := Candidates(images, topicId);
      if |candidates| == 0 {
        return None;
      }
      best := None;
      var bestScore := MinusOne;
      ghost var bestIndex := -1;
      for i := 0 to |candidates|
        invariant best.None? ==> bestScore == MinusOne
        invariant best.None? ==> forall j :: 0 <= j < i ==> ScoreRank(queryEmbedding, candidates[j]) <= Rank(MinusOne)
        invariant best.Some? ==> 0 <= bestIndex < i && best.value == candidates[bestIndex]
        invariant best.Some? ==> Rank(bestScore) == ScoreRank(queryEmbedding, candidates[bestIndex]) > Rank(MinusOne)
        invariant best.Some? ==> forall j :: 0 <= j < i ==> ScoreRank(queryEmbedding, candidates[j]) <= Rank(bestScore)
        invariant best.Some? ==> forall j :: 0 <= j < bestIndex ==> ScoreRank(queryEmbedding, candidates[j]) < Rank(bestScore)
      {
        var img := candidates[i];
        var score := CosineSimilarity(queryEmbedding, img.embedding);
        if Rank(score) > Rank(bestScore) {
          bestScore := score;
          best := Some(img);
          bestIndex := i;
        }
      }
      if best.Some? {
        assert FirstMaximum(queryEmbedding, candidates, bestIndex);
      }
    }
  }

  /**
   * A candidate set can be non-empty and still yield no image: a candidate whose embedding
   * is the opposite of a non-zero query scores exactly -1, which `> -1` never picks.
   */
  lemma OppositeScoresMinusOne(query: Vector, img: Image)
    requires |img.embedding| == |query| && Dot(query, query, |query|) != 0.0
    requires forall i :: 0 <= i < |query| ==> img.embedding[i] == -query[i]
    ensures ScoreRank(query, img) == Rank(MinusOne)
  {
    OppositeSimilarity(query, img.embedding);
    assert Rank(MinusOne) == -1.0;
  }

  /** Since every score is at least -1, no image is found only when every candidate scores exactly -1. */
  lemma NoneOnlyAtMinusOne(query: Vector, cands: seq<Image>)
    requires forall j :: 0 <= j < |cands| ==> ScoreRank(query, cands[j]) <= Rank(MinusOne)
    ensures forall j :: 0 <= j < |cands| ==> ScoreRank(query, cands[j]) == -1.0
  {
    forall j | 0 <= j < |cands|
      ensures ScoreRank(query, cands[j]) == -1.0
    {
      RankBounded(query, cands[j].embedding);
    }
  }
}
