/**
 The contract of the fuzzy lookup `get_close_matches(word, candidates, n=1, cutoff=0.8)`.

 The library's similarity measure is not modelled; the extraction pipeline is given the matcher
 as a function value and relies only on `IsCloseMatcher`: an answer is one of the candidates,
 it clears the cutoff 4/5 on the library's cheap upper bound of the similarity (`quick_ratio`,
 twice the size of the common character multiset over the total length), and a word that is
 itself a candidate is answered with itself (its similarity is exactly 1).
 */
module Matcher {
  import opened Wrappers

  /** `quick_ratio() >= 0.8` for the pair, with the cutoff as the rational 4/5. Two empty
      strings have ratio 1. */
  predicate QuickRatioAtLeastCutoff(word: string, candidate: string) {
    5 * (2 * |multiset(word) * multiset(candidate)|) >= 4 * (|word| + |candidate|)
  }

  /** The type of `lambda word, candidates: get_close_matches(word, candidates, n=1, cutoff=0.8)`,
      with "no match" as `None` and the single best match as `Some`. */
  type CloseMatcher = (string, seq<string>) -> Option<string>

  ghost predicate IsCloseMatcher(closeMatch: CloseMatcher) {
    (forall word, candidates :: closeMatch(word, candidates).Some? ==>
       closeMatch(word, candidates).value in candidates &&
       QuickRatioAtLeastCutoff(word, closeMatch(word, candidates).value)) &&
    (forall word, candidates :: word in candidates ==> closeMatch(word, candidates) == Some(word))
  }

  /** A word is always within the cutoff of itself. */
  lemma QuickRatioReflexive(word: string)
    ensures QuickRatioAtLeastCutoff(word, word)
  {
    assert multiset(word) * multiset(word) == multiset(word);
  }

  /** A candidate whose characters share too little with the word is never the answer; if no
      candidate is close enough, there is no match. */
  lemma NoCloseCandidateNoMatch(closeMatch: CloseMatcher, word: string, candidates: seq<string>)
    requires IsCloseMatcher(closeMatch)
    requires forall c :: c in candidates ==> !QuickRatioAtLeastCutoff(word, c)
    ensures closeMatch(word, candidates) == None
  {
  }

  /** The strictest matcher: exact look-up. */
  function ExactMatch(word: string, candidates: seq<string>): (m: Option<string>)
    ensures m.Some? <==> word in candidates
  {
    if word in candidates then Some(word) else None
  }

  /** Exact look-up meets the contract, so the contract can be met. */
  lemma ExactMatchIsCloseMatcher()
    ensures IsCloseMatcher(ExactMatch)
  {
    forall word, candidates | ExactMatch(word, candidates).Some?
      ensures QuickRatioAtLeastCutoff(word, ExactMatch(word, candidates).value)
    {
      QuickRatioReflexive(word);
    }
  }
}
