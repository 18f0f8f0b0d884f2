/** The search script as a whole (`main.py`'s main block) up to the checksum
    stage: report unknown words, compile the slots, print the estimates, and
    filter the cartesian product for phrases without repeated words. */
module Recovery {
  import opened Common
  import opened Slots
  import opened Candidates
  import opened Estimate
  import opened Uniqueness

  /** The stage at which the script raises, when it does. */
  datatype Failure = SlotFailure(slotError: SlotError) | CountFailure(countError: CountError)

  /** A phrase the hints allow: one word of `words` for each single-letter hint,
      in hint order, each starting with its hint letter. */
  ghost predicate MatchesHints(phrase: seq<string>, hints: seq<string>, words: seq<string>)
  {
    var letters := Letters(hints);
    |phrase| == |letters| && forall i :: 0 <= i < |phrase| ==> phrase[i] in words && StartsWith(phrase[i], letters[i])
  }

  /** The phrases the script hands to the checksum stage, or the stage that
      raised. The word check only prints, so it does not affect the outcome;
      the estimator runs before the filter, so its KeyError or IndexError stops
      the script. */
  function Recover(hints: seq<string>, words: seq<string>): (r: Result<seq<seq<string>>, Failure>)
    ensures r.Ok? ==> Compile(hints, words).Ok? && Subsequence(r.value, Product(Compile(hints, words).value))
  {
    match Compile(hints, words)
    case Err(e) => Err(SlotFailure(e))
    case Ok(slots) =>
      match CountsWithoutRepetition(slots, hints)
      case Err(e) => Err(CountFailure(e))
      case Ok(_) =>
        UniquePhrasesInOrder(Product(slots));
        Ok(UniquePhrases(Product(slots)))
  }

  /** Soundness and completeness of the search: a phrase is handed on exactly
      when the hints allow it and its words are pairwise distinct. */
  lemma RecoverFinds(hints: seq<string>, words: seq<string>, phrase: seq<string>)
    requires Recover(hints, words).Ok?
    ensures phrase in Recover(hints, words).value <==> MatchesHints(phrase, hints, words) && PairwiseDistinct(phrase)
  {
    var slots := Compile(hints, words).value;
    var letters := Letters(hints);
    UniquePhrasesMembers(Product(slots), phrase);
    ProductMembers(slots, phrase);
    SlotsOfLetters(hints, words);
    if |phrase| == |letters| {
      forall i | 0 <= i < |phrase|
        ensures phrase[i] in slots[i] <==> phrase[i] in words && StartsWith(phrase[i], letters[i])
      {
        SlotForMembers(letters[i], words, phrase[i]);
      }
    }
  }

  /** With single-letter hints and no empty word, the script reaches the
      filter exactly when every hint letter starts at least one word. */
  lemma RecoverSucceeds(hints: seq<string>, words: seq<string>)
    requires forall i :: 0 <= i < |hints| ==> |hints[i]| == 1
    requires forall j :: 0 <= j < |words| ==> words[j] != []
    ensures Recover(hints, words).Ok? <==>
      forall i :: 0 <= i < |hints| ==> exists w :: w in words && StartsWith(w, hints[i][0])
  {
    assert Compile(hints, words).Ok?;
    var slots := Compile(hints, words).value;
    EstimateBounds(hints, words);
    CompiledSlots(hints, words);
    forall i | 0 <= i < |hints|
      ensures slots[i] != [] <==> exists w :: w in words && StartsWith(w, hints[i][0])
    {
      if slots[i] != [] {
        SlotForMembers(hints[i][0], words, slots[i][0]);
      } else {
        forall w | w in words
          ensures !StartsWith(w, hints[i][0])
        {
          SlotForMembers(hints[i][0], words, w);
        }
      }
    }
  }

  /** A worked case: two hints "a" and one hint "b" over the words apple, ant
      and bear. Each "a" hint gets the slot apple, ant. */
  lemma ExampleSlots()
    ensures Compile(["a", "a", "b"], ["apple", "ant", "bear"]) == Ok([["apple", "ant"], ["apple", "ant"], ["bear"]])
  {
    var hints, words := ["a", "a", "b"], ["apple", "ant", "bear"];
    var slots := [["apple", "ant"], ["apple", "ant"], ["bear"]];
    assert words[..2][..1] == ["apple"] && words[..2] == ["apple", "ant"];
    assert SlotFor('a', words) == ["apple", "ant"];
    assert SlotFor('b', words) == ["bear"];
    assert hints[..2][..1] == ["a"] && hints[..1][..0] == [];
    assert hints[..2] == ["a", "a"];
    assert SlotsOf(hints[..1], words) == [SlotFor('a', words)];
    assert SlotsOf(hints[..2], words) == [SlotFor('a', words), SlotFor('a', words)];
    assert SlotsOf(hints, words) == slots;
    assert !HasEmptyWord(words);
  }

  /** The worked case gives 4 phrases with repetition and 2 without. */
  lemma ExampleEstimates()
    ensures Estimator([["apple", "ant"], ["apple", "ant"], ["bear"]], ["a", "a", "b"]) == Estimates(4, Ok(2))
  {
  }

  /** Over the last two slots of the worked case there are two phrases. */
  lemma ExampleTails()
    ensures Product([["apple", "ant"], ["bear"]]) == [["apple", "bear"], ["ant", "bear"]]
  {
    var middle, last := [["apple", "ant"], ["bear"]], [["bear"]];
    assert last[1..] == [] && last[0] == ["bear"];
    assert Product(last) == Pre("bear", [[]]) + Prepend([], [[]]);
    var single: seq<string> := [];
    assert ["bear"] + single == ["bear"];
    assert Pre("bear", [[]])[0] == ["bear"];
    assert Product(last) == [["bear"]];
    assert middle[0] == ["apple", "ant"] && middle[1..] == last;
    PrependAt(["apple", "ant"], [["bear"]], 0, 0);
    PrependAt(["apple", "ant"], [["bear"]], 1, 0);
    var tails := Product(middle);
    assert |tails| == 2 && tails[0] == ["apple", "bear"] && tails[1] == ["ant", "bear"];
  }

  /** The worked case generates four phrases, the first slot varying slowest. */
  lemma ExampleProduct()
    ensures Product([["apple", "ant"], ["apple", "ant"], ["bear"]])
         == [["apple", "apple", "bear"], ["apple", "ant", "bear"], ["ant", "apple", "bear"], ["ant", "ant", "bear"]]
  {
    var slots := [["apple", "ant"], ["apple", "ant"], ["bear"]];
    var tails := [["apple", "bear"], ["ant", "bear"]];
    ExampleTails();
    assert slots[0] == ["apple", "ant"] && slots[1..] == [["apple", "ant"], ["bear"]];
    assert Product(slots) == Prepend(["apple", "ant"], tails);
    PrependAt(["apple", "ant"], tails, 0, 0);
    PrependAt(["apple", "ant"], tails, 0, 1);
    PrependAt(["apple", "ant"], tails, 1, 0);
    PrependAt(["apple", "ant"], tails, 1, 1);
    var all := Product(slots);
    assert |all| == 4;
    assert all[0] == ["apple", "apple", "bear"] && all[1] == ["apple", "ant", "bear"];
    assert all[2] == ["ant", "apple", "bear"] && all[3] == ["ant", "ant", "bear"];
  }

  /** Of those four, the filter keeps the two without a repeated word. */
  lemma ExampleFilter()
    ensures UniquePhrases([["apple", "apple", "bear"], ["apple", "ant", "bear"], ["ant", "apple", "bear"], ["ant", "ant", "bear"]])
         == [["apple", "ant", "bear"], ["ant", "apple", "bear"]]
  {
    var product := [["apple", "apple", "bear"], ["apple", "ant", "bear"], ["ant", "apple", "bear"], ["ant", "ant", "bear"]];
    assert !NoRepeats(product[0]) && NoRepeats(product[1]) && NoRepeats(product[2]) && !NoRepeats(product[3]) by {
      assert WordSet(product[0]) == {"apple", "bear"};
      assert WordSet(product[1]) == {"apple", "ant", "bear"};
      assert WordSet(product[2]) == {"apple", "ant", "bear"};
      assert WordSet(product[3]) == {"ant", "bear"};
    }
    assert product[..3][..2][..1] == [product[0]];
    assert product[..3][..2] == product[..2];
    assert product[..3] == [product[0], product[1], product[2]];
    assert product[..1][..0] == [];
    assert UniquePhrases(product[..1]) == [];
    assert UniquePhrases(product[..2]) == [product[1]];
    assert UniquePhrases(product[..3]) == [product[1], product[2]];
    assert product[..4] == product;
  }

  /** The worked case hands on the two orders of apple and ant followed by bear. */
  lemma ExampleRecover()
    ensures Recover(["a", "a", "b"], ["apple", "ant", "bear"]) == Ok([["apple", "ant", "bear"], ["ant", "apple", "bear"]])
  {
    ExampleSlots();
    ExampleEstimates();
    ExampleProduct();
    ExampleFilter();
  }

  /** The pool is built from every slot before any hint is looked up, so an
      empty slot raises IndexError before a hint of another length raises
      KeyError: hints "a", "xx", "b" over the single word apple stop at the
      empty slot of "b". */
  lemma ExampleOtherHint()
    ensures Recover(["a", "xx", "b"], ["apple"]) == Err(CountFailure(EmptySlot(1)))
  {
    var hints, words := ["a", "xx", "b"], ["apple"];
    assert words[..0] == [];
    assert SlotFor('a', words) == ["apple"] && SlotFor('b', words) == [];
    assert hints[..2][..1] == ["a"] && hints[..1][..0] == [];
    assert hints[..2] == ["a", "xx"];
    assert SlotsOf(hints[..1], words) == [["apple"]];
    assert SlotsOf(hints[..2], words) == [["apple"]];
    assert SlotsOf(hints, words) == [["apple"], []];
    assert !HasEmptyWord(words);
    var slots := [["apple"], []];
    assert Compile(hints, words) == Ok(slots);
    assert |slots[1]| == 0 && |slots[0][0]| == 5;
    assert slots[1..] == [[]] && FirstUnkeyed(slots[1..]) == 0;
    assert FirstUnkeyed(slots) == 1;
  }

  /** When no candidate word is listed twice, every phrase is generated at most
      once, and so handed on at most once. */
  lemma RecoverOnce(hints: seq<string>, words: seq<string>)
    requires NoDuplicates(words)
    requires Compile(hints, words).Ok?
    ensures NoDuplicates(Product(Compile(hints, words).value))
    ensures Recover(hints, words).Ok? ==> NoDuplicates(Recover(hints, words).value)
  {
    var slots := Compile(hints, words).value;
    SlotsOfLetters(hints, words);
    forall i | 0 <= i < |slots|
      ensures NoDuplicates(slots[i])
    {
      forall w
        ensures multiset(slots[i])[w] <= 1
      {
        SlotForExactly(Letters(hints)[i], words, w);
      }
    }
    ProductOnce(slots);
    if Recover(hints, words).Ok? {
      forall p
        ensures multiset(Recover(hints, words).value)[p] <= 1
      {
        UniquePhrasesExactly(Product(slots), p);
      }
    }
  }

  /** Hints "a", "b" over ab, ab, bc reach the filter. */
  lemma ExampleRepeatedReaches()
    ensures Recover(["a", "b"], ["ab", "ab", "bc"]).Ok?
  {
    var hints, words := ["a", "b"], ["ab", "ab", "bc"];
    assert StartsWith(words[0], 'a') && StartsWith(words[2], 'b');
    RecoverSucceeds(hints, words);
  }

  /** Their two slots are ab, ab and bc. */
  lemma ExampleRepeatedSlots()
    ensures Compile(["a", "b"], ["ab", "ab", "bc"]) == Ok([["ab", "ab"], ["bc"]])
  {
    var hints, words := ["a", "b"], ["ab", "ab", "bc"];
    var one, two := ["ab"], ["ab", "ab"];
    assert words[..2] == two && two[..1] == one && one[..0] == [];
    assert StartsWith("ab", 'a') && !StartsWith("bc", 'a');
    assert !StartsWith("ab", 'b') && StartsWith("bc", 'b');
    assert SlotFor('a', one) == ["ab"] && SlotFor('b', one) == [];
    assert SlotFor('a', two) == ["ab", "ab"] && SlotFor('b', two) == [];
    assert SlotFor('a', words) == ["ab", "ab"] && SlotFor('b', words) == ["bc"];
    assert hints[..1] == ["a"] && hints[..1][..0] == [];
    assert SlotsOf(hints, words) == [["ab", "ab"], ["bc"]];
    assert !HasEmptyWord(words);
  }

  /** Their product lists (ab, bc) twice, once for each copy of ab. */
  lemma ExampleRepeatedGenerated()
    ensures multiset(Product([["ab", "ab"], ["bc"]]))[["ab", "bc"]] == 2
  {
    var slots, p := [["ab", "ab"], ["bc"]], ["ab", "bc"];
    ProductCount(slots, p);
    PairMultiplicity(slots, p);
    assert slots[0] == ["ab"] + ["ab"];
    assert multiset(slots[0])[p[0]] == 2 && multiset(slots[1])[p[1]] == 1;
  }

  /** With a word listed twice a phrase is generated, and handed on, twice:
      hints "a", "b" over ab, ab, bc give (ab, bc) two times. */
  lemma ExampleRepeatedPhrase()
    ensures Recover(["a", "b"], ["ab", "ab", "bc"]).Ok?
    ensures multiset(Recover(["a", "b"], ["ab", "ab", "bc"]).value)[["ab", "bc"]] == 2
  {
    ExampleRepeatedReaches();
    ExampleRepeatedSlots();
    ExampleRepeatedGenerated();
    var p := ["ab", "bc"];
    UniquePhrasesExactly(Product([["ab", "ab"], ["bc"]]), p);
    assert PairwiseDistinct(p);
  }

  /** The estimate without repetition can be 0 while the script still reaches
      the filter: two "a" hints over the single word ab give the entries 1 and 0. */
  lemma ExampleZeroEstimate()
    ensures Compile(["a", "a"], ["ab"]) == Ok([["ab"], ["ab"]])
    ensures Estimator([["ab"], ["ab"]], ["a", "a"]).withoutRepetition == Ok(0)
    ensures Recover(["a", "a"], ["ab"]).Ok?
  {
    var hints, words := ["a", "a"], ["ab"];
    assert words[..0] == [] && SlotFor('a', words) == ["ab"];
    assert hints[..1] == ["a"] && hints[..1][..0] == [];
    assert SlotsOf(hints, words) == [["ab"], ["ab"]];
    assert !HasEmptyWord(words);
  }
}
