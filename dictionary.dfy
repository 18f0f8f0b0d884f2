/** The dictionary check run on the configured candidate words
    (`mnemonic_valid_check`). The dictionary is given as a sequence of words;
    reading it from its file is not part of this model. */
module Dictionary {
  import opened Common

  /** The words the check reports, one error line each: every occurrence of a
      word of `words` that is absent from `dictionary`, in order. The check
      never stops early, so this is the report of the whole list. */
  function Unrecognised(words: seq<string>, dictionary: seq<string>): (r: seq<string>)
    ensures |r| <= |words|
    ensures forall k :: 0 <= k < |r| ==> r[k] in words && r[k] !in dictionary
  {
    if words == [] then []
    else
      var last := words[|words| - 1];
      Unrecognised(words[..|words| - 1], dictionary) + (if last in dictionary then [] else [last])
  }

  /** A word is reported exactly as often as it occurs, when it is not in the
      dictionary, and never when it is. */
  lemma {:induction false} UnrecognisedExactly(words: seq<string>, dictionary: seq<string>, w: string)
    ensures multiset(Unrecognised(words, dictionary))[w] == if w in dictionary then 0 else multiset(words)[w]
  {
    if words != [] {
      var front, last := words[..|words| - 1], words[|words| - 1];
      assert words == front + [last];
      UnrecognisedExactly(front, dictionary, w);
    }
  }

  /** The reports come in the order of the checked list. */
  lemma {:induction false} UnrecognisedInOrder(words: seq<string>, dictionary: seq<string>)
    ensures Subsequence(Unrecognised(words, dictionary), words)
  {
    if words != [] {
      var front, last := words[..|words| - 1], words[|words| - 1];
      UnrecognisedInOrder(front, dictionary);
      var r := Unrecognised(front, dictionary);
      if last !in dictionary {
        assert Unrecognised(words, dictionary) == r + [last];
        assert (r + [last])[..|r|] == r;
      } else if r != [] {
        UnrecognisedExactly(front, dictionary, r[|r| - 1]);
        assert r[|r| - 1] in multiset(r);
        assert Unrecognised(words, dictionary) == r;
        assert words[..|words| - 1] == front;
      }
    }
  }

  /** Nothing is reported exactly when every checked word is in the dictionary. */
  lemma {:induction false} AllRecognised(words: seq<string>, dictionary: seq<string>)
    ensures Unrecognised(words, dictionary) == [] <==> forall w :: w in words ==> w in dictionary
  {
    if Unrecognised(words, dictionary) == [] {
      forall w | w in words
        ensures w in dictionary
      {
        UnrecognisedExactly(words, dictionary, w);
        assert w in multiset(words);
      }
    } else {
      var u := Unrecognised(words, dictionary);
      UnrecognisedExactly(words, dictionary, u[0]);
      assert u[0] in multiset(u);
    }
  }
}
