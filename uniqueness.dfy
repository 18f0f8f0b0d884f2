/** The uniqueness filter (`unique_filter` inside `repetition_filter`): keep the
    generated phrases that use no word twice. */
module Uniqueness {
  import opened Common
  import opened Candidates

  /** `set(individual_phrase)`: the distinct words of a phrase. */
  function WordSet(phrase: seq<string>): set<string>
  {
    set w | w in phrase
  }

  /** The filter's test `len(individual_phrase) == len(set(individual_phrase))`. */
  predicate NoRepeats(phrase: seq<string>)
  {
    |phrase| == |WordSet(phrase)|
  }

  /** The intended meaning: no two positions of the phrase hold the same word. */
  ghost predicate PairwiseDistinct(phrase: seq<string>)
  {
    forall i, j :: 0 <= i < j < |phrase| ==> phrase[i] != phrase[j]
  }

  /** The phrases `unique_filter` appends to `unique_items`, in input order. */
  function UniquePhrases(phrases: seq<seq<string>>): seq<seq<string>>
  {
    if phrases == [] then []
    else
      var last := phrases[|phrases| - 1];
      UniquePhrases(phrases[..|phrases| - 1]) + (if NoRepeats(last) then [last] else [])
  }

  /** Comparing the phrase's length with the size of its word set decides
      exactly whether its words are pairwise distinct; the set is never larger. */
  lemma {:induction false} NoRepeatsMeansDistinct(phrase: seq<string>)
    ensures |WordSet(phrase)| <= |phrase|
    ensures NoRepeats(phrase) <==> PairwiseDistinct(phrase)
  {
    if phrase != [] {
      var front, last := phrase[..|phrase| - 1], phrase[|phrase| - 1];
      NoRepeatsMeansDistinct(front);
      assert phrase == front + [last];
      assert WordSet(phrase) == WordSet(front) + {last};
      if last in front {
        assert WordSet(phrase) == WordSet(front);
        var k :| 0 <= k < |front| && front[k] == last;
        assert phrase[k] == phrase[|phrase| - 1];
      } else {
        assert |WordSet(phrase)| == |WordSet(front)| + 1;
        if PairwiseDistinct(front) {
          forall i, j | 0 <= i < j < |phrase|
            ensures phrase[i] != phrase[j]
          {
            if j < |phrase| - 1 {
              assert phrase[i] == front[i] && phrase[j] == front[j];
            } else {
              assert phrase[i] == front[i];
            }
          }
        } else {
          var i, j :| 0 <= i < j < |front| && front[i] == front[j];
          assert phrase[i] == phrase[j];
        }
      }
    }
  }

  /** `unique_filter`'s loop: scan the phrases and append each one whose length
      equals the size of its word set. */
  method UniqueFilter(phrases: seq<seq<string>>) returns (uniqueItems: seq<seq<string>>)
    ensures uniqueItems == UniquePhrases(phrases)
  {
    uniqueItems := [];
    for i := 0 to |phrases|
      invariant uniqueItems == UniquePhrases(phrases[..i])
    {
      var individualPhrase := phrases[i];
      assert phrases[..i + 1][..i] == phrases[..i];
      if |individualPhrase| == |WordSet(individualPhrase)| {
        uniqueItems := uniqueItems + [individualPhrase];
      }
    }
    assert phrases[..|phrases|] == phrases;
  }

  /** `repetition_filter`: filter the whole cartesian product of the slots. */
  method RepetitionFilter(slots: seq<seq<string>>) returns (unique: seq<seq<string>>)
    ensures unique == UniquePhrases(Product(slots))
  {
    var possibilities := Product(slots);
    unique := UniqueFilter(possibilities);
  }

  /** A phrase is kept as often as it occurs in the input when its words are
      pairwise distinct, and never otherwise: nothing is added or changed. */
  lemma {:induction false} UniquePhrasesExactly(phrases: seq<seq<string>>, p: seq<string>)
    ensures multiset(UniquePhrases(phrases))[p] == if PairwiseDistinct(p) then multiset(phrases)[p] else 0
  {
    NoRepeatsMeansDistinct(p);
    if phrases != [] {
      var front, last := phrases[..|phrases| - 1], phrases[|phrases| - 1];
      assert phrases == front + [last];
      UniquePhrasesExactly(front, p);
    }
  }

  /** Membership form: the output holds exactly the input phrases whose words
      are pairwise distinct. */
  lemma UniquePhrasesMembers(phrases: seq<seq<string>>, p: seq<string>)
    ensures p in UniquePhrases(phrases) <==> p in phrases && PairwiseDistinct(p)
  {
    UniquePhrasesExactly(phrases, p);
    assert p in UniquePhrases(phrases) <==> p in multiset(UniquePhrases(phrases));
    assert p in phrases <==> p in multiset(phrases);
  }

  /** The output keeps the order of the input. */
  lemma {:induction false} UniquePhrasesInOrder(phrases: seq<seq<string>>)
    ensures Subsequence(UniquePhrases(phrases), phrases)
  {
    if phrases != [] {
      var front, last := phrases[..|phrases| - 1], phrases[|phrases| - 1];
      UniquePhrasesInOrder(front);
      var u := UniquePhrases(front);
      if NoRepeats(last) {
        assert UniquePhrases(phrases) == u + [last];
        assert (u + [last])[..|u|] == u;
      } else if u != [] {
        UniquePhrasesMembers(front, u[|u| - 1]);
        NoRepeatsMeansDistinct(last);
        assert UniquePhrases(phrases) == u;
        assert phrases[..|phrases| - 1] == front;
      }
    }
  }
}
