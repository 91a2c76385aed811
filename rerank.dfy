/** The part of `rerank_documents` that runs after the reranker has answered:
    results scoring below the threshold are dropped, and every other result is
    turned into a ranked text carrying its document. */
module Rerank {
  import opened Seqs
  import opened Outcomes

  /** One entry of the reranker's `response.results`: the position of a
      document in the request, and the score the reranker gave it. */
  datatype RerankResult = RerankResult(index: nat, relevanceScore: real)

  /** `RankedText`: the result's index as rank, the document it points at, and the score. */
  datatype RankedText = RankedText(rank: nat, content: string, relevanceScore: real)

  /** The results that pass the threshold, in response order. */
  function Kept(results: seq<RerankResult>, threshold: real): (r: seq<RerankResult>)
    ensures forall x :: x in r <==> x in results && x.relevanceScore >= threshold
  {
    Filter(results, (x: RerankResult) => x.relevanceScore >= threshold)
  }

  /** The ranked text the source builds for `x`, once `documents[x.index]` exists. */
  function Ranked(documents: seq<string>, x: RerankResult): RankedText
    requires x.index < |documents|
  {
    RankedText(x.index, documents[x.index], x.relevanceScore)
  }

  /** Every result in `kept` points at one of the documents. */
  predicate AllInRange(documents: seq<string>, kept: seq<RerankResult>) {
    forall x :: x in kept ==> x.index < |documents|
  }

  /** `ranked` holds, position by position, the ranked text of each result in `kept`. */
  predicate RanksAll(documents: seq<string>, kept: seq<RerankResult>, ranked: seq<RankedText>) {
    |ranked| == |kept| &&
    forall j :: 0 <= j < |ranked| ==> kept[j].index < |documents| && ranked[j] == Ranked(documents, kept[j])
  }

  /** The ranked texts of results that all passed the threshold: `IndexError`
      at the first one whose index lies past the end of `documents`. */
  function RankAll(documents: seq<string>, kept: seq<RerankResult>): (r: Result<seq<RankedText>>)
    ensures r.Ok? <==> AllInRange(documents, kept)
    ensures r.Ok? ==> RanksAll(documents, kept, r.value)
    ensures r.Err? ==> exists x :: x in kept && x.index >= |documents| && r.error == IndexError(x.index)
  {
    if kept == [] then Ok([])
    else if kept[0].index >= |documents| then Err(IndexError(kept[0].index))
    else
      match RankAll(documents, kept[1..])
      case Err(e) => Err(e)
      case Ok(rest) => Ok([Ranked(documents, kept[0])] + rest)
  }

  /** The list comprehension of the first copy. Looking up `documents[index]`
      for a kept result whose index lies past the end raises `IndexError`;
      otherwise there is one ranked text per kept result, in response order. */
  function RankTexts(documents: seq<string>, results: seq<RerankResult>, threshold: real): (r: Result<seq<RankedText>>)
    ensures r.Ok? <==> AllInRange(documents, Kept(results, threshold))
    ensures r.Ok? ==> RanksAll(documents, Kept(results, threshold), r.value)
    ensures r.Err? ==> exists x :: x in Kept(results, threshold) && x.index >= |documents| && r.error == IndexError(x.index)
  {
    RankAll(documents, Kept(results, threshold))
  }

  /** The bound is inclusive: every ranked text scores at least the threshold,
      and a result scoring exactly the threshold is ranked. */
  lemma ThresholdIsInclusive(documents: seq<string>, results: seq<RerankResult>, threshold: real)
    requires RankTexts(documents, results, threshold).Ok?
    ensures forall t :: t in RankTexts(documents, results, threshold).value ==> t.relevanceScore >= threshold
    ensures forall x :: x in results && x.relevanceScore == threshold ==>
              x.index < |documents| && Ranked(documents, x) in RankTexts(documents, results, threshold).value
  {
    var kept, ranked := Kept(results, threshold), RankTexts(documents, results, threshold).value;
    forall t | t in ranked
      ensures t.relevanceScore >= threshold
    {
      var j :| 0 <= j < |ranked| && ranked[j] == t;
      assert kept[j] in kept;
    }
    forall x | x in results && x.relevanceScore == threshold
      ensures x.index < |documents| && Ranked(documents, x) in ranked
    {
      var j :| 0 <= j < |kept| && kept[j] == x;
      assert ranked[j] == Ranked(documents, x);
    }
  }

  /** Nothing else is dropped: each result at or above the threshold is ranked,
      and each ranked text comes from such a result. */
  lemma RankedIffAtOrAbove(documents: seq<string>, results: seq<RerankResult>, threshold: real)
    requires RankTexts(documents, results, threshold).Ok?
    ensures forall x :: x in results && x.relevanceScore >= threshold ==>
              x.index < |documents| && Ranked(documents, x) in RankTexts(documents, results, threshold).value
    ensures forall t :: t in RankTexts(documents, results, threshold).value ==>
              exists x :: x in results && x.relevanceScore >= threshold && x.index < |documents| && t == Ranked(documents, x)
  {
    var kept, ranked := Kept(results, threshold), RankTexts(documents, results, threshold).value;
    forall x | x in results && x.relevanceScore >= threshold
      ensures x.index < |documents| && Ranked(documents, x) in ranked
    {
      var j :| 0 <= j < |kept| && kept[j] == x;
      assert ranked[j] == Ranked(documents, x);
    }
    forall t | t in ranked
      ensures exists x :: x in results && x.relevanceScore >= threshold && x.index < |documents| && t == Ranked(documents, x)
    {
      var j :| 0 <= j < |ranked| && ranked[j] == t;
      assert kept[j] in kept;
    }
  }

  /** Order is preserved: the ranked texts are the images of a subsequence of
      the results, so there are at most as many of them as results. */
  lemma RankedInResponseOrder(documents: seq<string>, results: seq<RerankResult>, threshold: real)
    requires RankTexts(documents, results, threshold).Ok?
    ensures IsSubsequence(Kept(results, threshold), results)
    ensures |RankTexts(documents, results, threshold).value| <= |results|
  {
    FilterIsSubsequence(results, (x: RerankResult) => x.relevanceScore >= threshold);
  }

  /** `Kept` takes the results one at a time from the front. */
  lemma KeptFrom(results: seq<RerankResult>, threshold: real, i: nat)
    requires i < |results|
    ensures results[i].relevanceScore < threshold ==> Kept(results[i..], threshold) == Kept(results[i + 1..], threshold)
    ensures results[i].relevanceScore >= threshold ==>
              Kept(results[i..], threshold) == [results[i]] + Kept(results[i + 1..], threshold)
  {
    assert results[i..][1..] == results[i + 1..];
    var rest := Kept(results[i + 1..], threshold);
    assert [] + rest == rest;
  }

  /** Ranking a result that points at a document, then the rest. */
  lemma RankAllCons(documents: seq<string>, x: RerankResult, rest: seq<RerankResult>, prefix: seq<RankedText>)
    requires x.index < |documents|
    ensures Prepend(prefix, RankAll(documents, [x] + rest))
         == Prepend(prefix + [Ranked(documents, x)], RankAll(documents, rest))
  {
    assert ([x] + rest)[1..] == rest;
    match RankAll(documents, rest) {
      case Ok(tail) => assert prefix + ([Ranked(documents, x)] + tail) == prefix + [Ranked(documents, x)] + tail;
      case Err(_) =>
    }
  }

  /** After the results before `i`, the loop holds `rankedTexts`, and what the
      comprehension gives is that followed by the ranking of the rest. */
  ghost predicate RerankLoopState(documents: seq<string>, results: seq<RerankResult>, threshold: real,
                                  i: nat, rankedTexts: seq<RankedText>)
    requires i <= |results|
  {
    RankTexts(documents, results, threshold) == Prepend(rankedTexts, RankAll(documents, Kept(results[i..], threshold)))
  }

  lemma RerankLoopEntry(documents: seq<string>, results: seq<RerankResult>, threshold: real)
    ensures RerankLoopState(documents, results, threshold, 0, [])
  {
    assert results[0..] == results;
    match RankAll(documents, Kept(results, threshold)) {
      case Ok(v) => assert [] + v == v;
      case Err(_) =>
    }
  }

  lemma RerankSkip(documents: seq<string>, results: seq<RerankResult>, threshold: real, i: nat, rankedTexts: seq<RankedText>)
    requires i < |results| && RerankLoopState(documents, results, threshold, i, rankedTexts)
    requires results[i].relevanceScore < threshold
    ensures RerankLoopState(documents, results, threshold, i + 1, rankedTexts)
  {
    KeptFrom(results, threshold, i);
  }

  lemma RerankFail(documents: seq<string>, results: seq<RerankResult>, threshold: real, i: nat, rankedTexts: seq<RankedText>)
    requires i < |results| && RerankLoopState(documents, results, threshold, i, rankedTexts)
    requires results[i].relevanceScore >= threshold && results[i].index >= |documents|
    ensures RankTexts(documents, results, threshold) == Err(IndexError(results[i].index))
  {
    KeptFrom(results, threshold, i);
    assert Kept(results[i..], threshold)[0] == results[i];
  }

  lemma RerankAppend(documents: seq<string>, results: seq<RerankResult>, threshold: real, i: nat, rankedTexts: seq<RankedText>)
    requires i < |results| && RerankLoopState(documents, results, threshold, i, rankedTexts)
    requires results[i].relevanceScore >= threshold && results[i].index < |documents|
    ensures RerankLoopState(documents, results, threshold, i + 1, rankedTexts + [Ranked(documents, results[i])])
  {
    KeptFrom(results, threshold, i);
    RankAllCons(documents, results[i], Kept(results[i + 1..], threshold), rankedTexts);
  }

  lemma RerankLoopExit(documents: seq<string>, results: seq<RerankResult>, threshold: real, rankedTexts: seq<RankedText>)
    requires RerankLoopState(documents, results, threshold, |results|, rankedTexts)
    ensures RankTexts(documents, results, threshold) == Ok(rankedTexts)
  {
    assert results[|results|..] == [];
    assert Kept(results[|results|..], threshold) == [];
    assert rankedTexts + [] == rankedTexts;
  }

  /** The `for` loop of the second copy: `ranked_texts` starts empty, a result
      scoring strictly below the threshold is skipped with `continue`, and every
      other one is appended. It computes exactly what the comprehension does. */
  method RerankDocuments(documents: seq<string>, results: seq<RerankResult>, threshold: real)
    returns (r: Result<seq<RankedText>>)
    ensures r == RankTexts(documents, results, threshold)
  {
    var rankedTexts: seq<RankedText> := [];
    RerankLoopEntry(documents, results, threshold);
    for i := 0 to |results|
      invariant RerankLoopState(documents, results, threshold, i, rankedTexts)
    {
      var result := results[i];
      if result.relevanceScore < threshold {
        RerankSkip(documents, results, threshold, i, rankedTexts);
        continue;
      }
      if result.index >= |documents| {
        RerankFail(documents, results, threshold, i, rankedTexts);
        return Err(IndexError(result.index));
      }
      var rankedText := RankedText(result.index, documents[result.index], result.relevanceScore);
      RerankAppend(documents, results, threshold, i, rankedTexts);
      rankedTexts := rankedTexts + [rankedText];
    }
    RerankLoopExit(documents, results, threshold, rankedTexts);
    r := Ok(rankedTexts);
  }
}
