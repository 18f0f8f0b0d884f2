/** Slot compilation (`construct_list_apc`): for every hinted first letter, the
    list of candidate words that may fill that position of the phrase. */
module Slots {
  import opened Common

  /** `construct_list_apc` reads `word[0]` of every word as soon as one hint is a
      single letter; an empty word makes that raise IndexError. */
  datatype SlotError = EmptyWord(index: nat)

  /** `word[0] == char` for a word that has a first character. */
  predicate StartsWith(word: string, c: char)
  {
    |word| > 0 && word[0] == c
  }

  /** The slot list built for hint letter `c`: the words of `words` that start
      with `c`, appended in the order they are scanned. */
  function SlotFor(c: char, words: seq<string>): seq<string>
  {
    if words == [] then []
    else
      var last := words[|words| - 1];
      SlotFor(c, words[..|words| - 1]) + (if StartsWith(last, c) then [last] else [])
  }

  /** The letters of the hints that open a slot, which are exactly the hints of
      length 1, in hint order. */
  function Letters(hints: seq<string>): seq<char>
  {
    if hints == [] then []
    else
      var last := hints[|hints| - 1];
      Letters(hints[..|hints| - 1]) + (if |last| == 1 then [last[0]] else [])
  }

  /** The slot lists `construct_list_apc` appends, one per hint of length 1, when
      no word lookup raises. */
  function SlotsOf(hints: seq<string>, words: seq<string>): seq<seq<string>>
  {
    if hints == [] then []
    else
      var last := hints[|hints| - 1];
      SlotsOf(hints[..|hints| - 1], words) + (if |last| == 1 then [SlotFor(last[0], words)] else [])
  }

  predicate HasLetterHint(hints: seq<string>)
  {
    exists i :: 0 <= i < |hints| && |hints[i]| == 1
  }

  predicate HasEmptyWord(words: seq<string>)
  {
    exists j :: 0 <= j < |words| && words[j] == []
  }

  /** The position of the first empty word. */
  function FirstEmpty(words: seq<string>): (j: nat)
    requires HasEmptyWord(words)
    ensures j < |words| && words[j] == []
    ensures forall k :: 0 <= k < j ==> words[k] != []
  {
    if words[0] == [] then 0 else 1 + FirstEmpty(words[1..])
  }

  /** What `construct_list_apc(hint_list, word_list)` returns or raises. */
  function Compile(hints: seq<string>, words: seq<string>): Result<seq<seq<string>>, SlotError>
  {
    if HasLetterHint(hints) && HasEmptyWord(words) then Err(EmptyWord(FirstEmpty(words)))
    else Ok(SlotsOf(hints, words))
  }

  /** `construct_list_apc`: the nested loops that append matching words to
      `combos` and each `combos` to `all_possible_combos`. */
  method ConstructSlots(hints: seq<string>, words: seq<string>) returns (r: Result<seq<seq<string>>, SlotError>)
    ensures r == Compile(hints, words)
  {
    var allPossibleCombos := [];
    for i := 0 to |hints|
      invariant allPossibleCombos == SlotsOf(hints[..i], words)
      invariant HasLetterHint(hints[..i]) ==> !HasEmptyWord(words)
    {
      var hint := hints[i];
      if |hint| == 1 {
        var combos := [];
        for j := 0 to |words|
          invariant combos == SlotFor(hint[0], words[..j])
          invariant forall k :: 0 <= k < j ==> words[k] != []
        {
          var word := words[j];
          if |word| == 0 {
            assert HasLetterHint(hints) && HasEmptyWord(words);
            return Err(EmptyWord(j));
          }
          assert words[..j + 1][..j] == words[..j];
          if word[0] == hint[0] {
            combos := combos + [word];
          }
        }
        assert words[..|words|] == words;
        allPossibleCombos := allPossibleCombos + [combos];
      }
      assert hints[..i + 1][..i] == hints[..i];
      assert HasLetterHint(hints[..i + 1]) ==> HasLetterHint(hints[..i]) || |hint| == 1;
    }
    assert hints[..|hints|] == hints;
    return Ok(allPossibleCombos);
  }

  /** A word is in the slot of `c` as often as it occurs in `words` when it
      starts with `c`, and never otherwise: every matching word is collected,
      and only those. */
  lemma {:induction false} SlotForExactly(c: char, words: seq<string>, w: string)
    ensures multiset(SlotFor(c, words))[w] == if StartsWith(w, c) then multiset(words)[w] else 0
  {
    if words != [] {
      var front, last := words[..|words| - 1], words[|words| - 1];
      assert words == front + [last];
      SlotForExactly(c, front, w);
    }
  }

  /** Membership form: the slot of `c` holds the words of `words` starting with `c`. */
  lemma {:induction false} SlotForMembers(c: char, words: seq<string>, w: string)
    ensures w in SlotFor(c, words) <==> w in words && StartsWith(w, c)
  {
    SlotForExactly(c, words, w);
    assert w in SlotFor(c, words) <==> w in multiset(SlotFor(c, words));
    assert w in words <==> w in multiset(words);
  }

  /** The slot keeps the relative order of `words`. */
  lemma {:induction false} SlotForInOrder(c: char, words: seq<string>)
    ensures Subsequence(SlotFor(c, words), words)
  {
    if words != [] {
      var front, last := words[..|words| - 1], words[|words| - 1];
      SlotForInOrder(c, front);
      var s := SlotFor(c, front);
      if StartsWith(last, c) {
        assert SlotFor(c, words) == s + [last];
        assert (s + [last])[..|s|] == s;
      } else if s != [] {
        SlotForMembers(c, front, s[|s| - 1]);
        assert SlotFor(c, words) == s;
        assert words[..|words| - 1] == front;
      }
    }
  }

  /** One slot per hint of length 1, in hint order: slot `i` is the slot of the
      `i`-th single-letter hint. */
  lemma {:induction false} SlotsOfLetters(hints: seq<string>, words: seq<string>)
    ensures |SlotsOf(hints, words)| == |Letters(hints)|
    ensures forall i :: 0 <= i < |Letters(hints)| ==> SlotsOf(hints, words)[i] == SlotFor(Letters(hints)[i], words)
  {
    if hints != [] {
      SlotsOfLetters(hints[..|hints| - 1], words);
    }
  }

  /** When every hint is a single letter there is one letter per hint. */
  lemma {:induction false} LettersOfSingleLetters(hints: seq<string>)
    requires forall i :: 0 <= i < |hints| ==> |hints[i]| == 1
    ensures |Letters(hints)| == |hints|
    ensures forall i :: 0 <= i < |hints| ==> Letters(hints)[i] == hints[i][0]
  {
    if hints != [] {
      LettersOfSingleLetters(hints[..|hints| - 1]);
    }
  }
}
