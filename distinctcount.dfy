/** What the estimate without repetition counts. For single-letter hints it is
    an upper bound on the number of phrases the uniqueness filter keeps, and it
    is that number exactly when the candidate word list has no duplicates.

    The argument goes slot by slot from the front: once the first slot has
    chosen the word `w`, the phrases over the later slots that still have no
    repeated word are the phrases over the slots built from the word list with
    `w` removed, and each later hint of the same letter has at least one word
    fewer to draw from. */
module DistinctCount {
  import opened Common
  import opened Slots
  import opened Candidates
  import opened Estimate
  import opened Uniqueness
  import opened Recovery

  /** `s` with every occurrence of `w` removed, in order. */
  function Without(s: seq<string>, w: string): seq<string>
  {
    if s == [] then [] else (if s[0] == w then [] else [s[0]]) + Without(s[1..], w)
  }

  /** The phrases of `ps` in which `w` does not occur, in order. */
  function Avoiding(w: string, ps: seq<seq<string>>): seq<seq<string>>
  {
    if ps == [] then [] else (if w in ps[0] then [] else [ps[0]]) + Avoiding(w, ps[1..])
  }

  /** The slots of a sequence of hint letters, one per letter. */
  function SlotsFor(cs: seq<char>, words: seq<string>): seq<seq<string>>
  {
    seq(|cs|, i requires 0 <= i < |cs| => SlotFor(cs[i], words))
  }

  /** The words starting with letter `i` less the earlier occurrences of that
      letter: the entry `combination_count` computes for it. */
  function Share(cs: seq<char>, words: seq<string>, i: nat): int
    requires i < |cs|
  {
    |SlotFor(cs[i], words)| - multiset(cs[..i])[cs[i]]
  }

  /** The entries, with those below zero raised to zero. */
  function Shares(cs: seq<char>, words: seq<string>): seq<int>
  {
    seq(|cs|, i requires 0 <= i < |cs| => if Share(cs, words, i) < 0 then 0 else Share(cs, words, i))
  }

  lemma {:induction false} WithoutAppend(a: seq<string>, b: seq<string>, w: string)
    ensures Without(a + b, w) == Without(a, w) + Without(b, w)
  {
    if a == [] {
      assert a + b == b;
    } else {
      assert (a + b)[0] == a[0] && (a + b)[1..] == a[1..] + b;
      WithoutAppend(a[1..], b, w);
    }
  }

  /** Removing `w` removes all its occurrences and nothing else. */
  lemma {:induction false} WithoutCount(s: seq<string>, w: string, x: string)
    ensures multiset(Without(s, w))[x] == if x == w then 0 else multiset(s)[x]
  {
    if s != [] {
      assert s == [s[0]] + s[1..];
      WithoutCount(s[1..], w, x);
    }
  }

  lemma {:induction false} WithoutLength(s: seq<string>, w: string)
    ensures |Without(s, w)| == |s| - multiset(s)[w]
  {
    if s != [] {
      assert s == [s[0]] + s[1..];
      WithoutLength(s[1..], w);
    }
  }

  lemma NoDuplicatesWithout(words: seq<string>, w: string)
    requires NoDuplicates(words)
    ensures NoDuplicates(Without(words, w))
  {
    forall x
      ensures multiset(Without(words, w))[x] <= 1
    {
      WithoutCount(words, w, x);
    }
  }

  lemma {:induction false} SlotForAppend(c: char, a: seq<string>, b: seq<string>)
    ensures SlotFor(c, a + b) == SlotFor(c, a) + SlotFor(c, b)
    decreases |b|
  {
    if b == [] {
      assert a + b == a;
    } else {
      var front, last := b[..|b| - 1], b[|b| - 1];
      assert (a + b)[..|a + b| - 1] == a + front && (a + b)[|a + b| - 1] == last;
      SlotForAppend(c, a, front);
    }
  }

  /** Building a slot commutes with removing a word. */
  lemma {:induction false} SlotForWithout(c: char, words: seq<string>, w: string)
    ensures SlotFor(c, Without(words, w)) == Without(SlotFor(c, words), w)
  {
    if words != [] {
      var front, last := words[..|words| - 1], words[|words| - 1];
      assert words == front + [last];
      SlotForWithout(c, front, w);
      WithoutAppend(front, [last], w);
      SlotForAppend(c, Without(front, w), Without([last], w));
      var tail := if StartsWith(last, c) then [last] else [];
      WithoutAppend(SlotFor(c, front), tail, w);
      assert Without([last], w) == if last == w then [] else [last];
      assert [last][..0] == [];
      assert SlotFor(c, Without([last], w)) == Without(tail, w);
    }
  }

  lemma {:induction false} AvoidingAppend(w: string, a: seq<seq<string>>, b: seq<seq<string>>)
    ensures Avoiding(w, a + b) == Avoiding(w, a) + Avoiding(w, b)
  {
    if a == [] {
      assert a + b == b;
    } else {
      assert (a + b)[0] == a[0] && (a + b)[1..] == a[1..] + b;
      AvoidingAppend(w, a[1..], b);
    }
  }

  /** The phrases opened by `x` that avoid `w`: none when `x` is `w`, and
      otherwise those whose tail avoids `w`. */
  lemma {:induction false} AvoidingPre(w: string, x: string, tails: seq<seq<string>>)
    ensures Avoiding(w, Pre(x, tails)) == if x == w then [] else Pre(x, Avoiding(w, tails))
  {
    if tails != [] {
      AvoidingPre(w, x, tails[1..]);
      var p, later := [x] + tails[0], Pre(x, tails[1..]);
      assert Pre(x, tails) == [p] + later;
      assert ([p] + later)[0] == p && ([p] + later)[1..] == later;
      assert Avoiding(w, Pre(x, tails)) == (if w in p then [] else [p]) + Avoiding(w, later);
      assert w in p <==> w == x || w in tails[0];
      var rest := Avoiding(w, tails[1..]);
      assert Avoiding(w, tails) == (if w in tails[0] then [] else [tails[0]]) + rest;
      if x != w && w !in tails[0] {
        var a := [tails[0]] + rest;
        assert a[0] == tails[0] && a[1..] == rest;
        assert Pre(x, a) == [p] + Pre(x, rest);
      } else {
        assert [] + rest == rest;
        assert [] + Avoiding(w, later) == Avoiding(w, later);
      }
    }
  }

  /** Avoiding `w` in the phrases opened by `choices` is opening them by the
      choices other than `w`. */
  lemma {:induction false} AvoidingPrepend(w: string, choices: seq<string>, tails: seq<seq<string>>)
    ensures Avoiding(w, Prepend(choices, tails)) == Prepend(Without(choices, w), Avoiding(w, tails))
  {
    if choices != [] {
      AvoidingAppend(w, Pre(choices[0], tails), Prepend(choices[1..], tails));
      AvoidingPre(w, choices[0], tails);
      AvoidingPrepend(w, choices[1..], tails);
      var rest := Without(choices[1..], w);
      if choices[0] == w {
        assert Without(choices, w) == rest;
      } else {
        var kept := [choices[0]] + rest;
        assert Without(choices, w) == kept;
        assert kept[0] == choices[0] && kept[1..] == rest;
      }
    }
  }

  /** The phrases over the slots that avoid `w` are the phrases over the slots
      built from the word list without `w`, in the same order. */
  lemma {:induction false} ProductAvoiding(cs: seq<char>, words: seq<string>, w: string)
    ensures Product(SlotsFor(cs, Without(words, w))) == Avoiding(w, Product(SlotsFor(cs, words)))
  {
    var slots, fewer := SlotsFor(cs, words), SlotsFor(cs, Without(words, w));
    if cs == [] {
      assert slots == [] && fewer == [];
      assert Avoiding(w, [[]]) == [[]];
    } else {
      ProductAvoiding(cs[1..], words, w);
      assert slots[1..] == SlotsFor(cs[1..], words);
      assert fewer[1..] == SlotsFor(cs[1..], Without(words, w));
      SlotForWithout(cs[0], words, w);
      AvoidingPrepend(w, slots[0], Product(slots[1..]));
    }
  }

  lemma {:induction false} UniqueAppend(a: seq<seq<string>>, b: seq<seq<string>>)
    ensures UniquePhrases(a + b) == UniquePhrases(a) + UniquePhrases(b)
    decreases |b|
  {
    if b == [] {
      assert a + b == a;
    } else {
      var front, last := b[..|b| - 1], b[|b| - 1];
      assert (a + b)[..|a + b| - 1] == a + front && (a + b)[|a + b| - 1] == last;
      UniqueAppend(a, front);
    }
  }

  /** A phrase opened by `x` has no repeated word exactly when its tail has
      none and does not contain `x`. */
  lemma NoRepeatsCons(x: string, t: seq<string>)
    ensures NoRepeats([x] + t) <==> x !in t && NoRepeats(t)
  {
    NoRepeatsMeansDistinct(t);
    assert WordSet([x] + t) == {x} + WordSet(t);
    if x in t {
      assert WordSet([x] + t) == WordSet(t);
    }
  }

  lemma UniqueSingle(p: seq<string>)
    ensures UniquePhrases([p]) == if NoRepeats(p) then [p] else []
  {
  }

  /** The filter keeps as many of the phrases opened by `x` as there are tails
      that avoid `x` and have no repeated word. */
  lemma {:induction false} UniquePre(x: string, tails: seq<seq<string>>)
    ensures |UniquePhrases(Pre(x, tails))| == |UniquePhrases(Avoiding(x, tails))|
  {
    if tails != [] {
      var t := tails[0];
      assert Pre(x, tails) == [[x] + t] + Pre(x, tails[1..]);
      UniqueAppend([[x] + t], Pre(x, tails[1..]));
      var first := if x in t then [] else [t];
      UniqueAppend(first, Avoiding(x, tails[1..]));
      UniqueSingle([x] + t);
      UniqueSingle(t);
      NoRepeatsCons(x, t);
      UniquePre(x, tails[1..]);
    }
  }

  /** Summing over the choices: if each choice keeps at most `q` phrases, the
      choices together keep at most `q` each, and exactly that many if each
      keeps exactly `q`. */
  lemma {:induction false} SumOverChoices(choices: seq<string>, tails: seq<seq<string>>, q: int)
    requires forall j :: 0 <= j < |choices| ==> |UniquePhrases(Pre(choices[j], tails))| <= q
    ensures |UniquePhrases(Prepend(choices, tails))| <= |choices| * q
    ensures (forall j :: 0 <= j < |choices| ==> |UniquePhrases(Pre(choices[j], tails))| == q) ==>
              |UniquePhrases(Prepend(choices, tails))| == |choices| * q
  {
    if choices != [] {
      UniqueAppend(Pre(choices[0], tails), Prepend(choices[1..], tails));
      SumOverChoices(choices[1..], tails, q);
      assert |choices| * q == q + (|choices| - 1) * q;
    }
  }

  /** Choosing `w` for the first letter takes every copy of `w` from each
      later slot of the same letter, and that letter has one occurrence fewer
      before each of those slots. */
  lemma ShareShrink(cs: seq<char>, words: seq<string>, w: string, i: nat)
    requires |cs| > 0 && StartsWith(w, cs[0]) && i < |cs| - 1
    ensures Share(cs[1..], Without(words, w), i)
         == Share(cs, words, i + 1) - if cs[i + 1] == cs[0] then multiset(words)[w] as int - 1 else 0
  {
    var c := cs[i + 1];
    SlotForWithout(c, words, w);
    WithoutLength(SlotFor(c, words), w);
    SlotForExactly(c, words, w);
    assert cs[..i + 1] == [cs[0]] + cs[1..][..i];
  }

  /** Choosing `w` for the first letter leaves every later entry no larger, and
      unchanged when no word is listed twice. */
  lemma SharesShrink(cs: seq<char>, words: seq<string>, w: string)
    requires |cs| > 0 && w in words && StartsWith(w, cs[0])
    ensures |Shares(cs[1..], Without(words, w))| == |cs| - 1
    ensures forall i :: 0 <= i < |cs| - 1 ==> 0 <= Shares(cs[1..], Without(words, w))[i] <= Shares(cs, words)[i + 1]
    ensures NoDuplicates(words) ==> Shares(cs[1..], Without(words, w)) == Shares(cs, words)[1..]
  {
    var later, fewer := cs[1..], Without(words, w);
    assert w in multiset(words);
    forall i | 0 <= i < |later|
      ensures Share(later, fewer, i) <= Share(cs, words, i + 1)
      ensures NoDuplicates(words) ==> Share(later, fewer, i) == Share(cs, words, i + 1)
    {
      ShareShrink(cs, words, w, i);
    }
    if NoDuplicates(words) {
      assert Shares(later, fewer) == Shares(cs, words)[1..];
    }
  }

  /** The filter keeps at most the product of the entries of the phrases over
      the slots of `cs`, and exactly that many when no word is listed twice. */
  lemma {:induction false} DistinctBound(cs: seq<char>, words: seq<string>)
    ensures |UniquePhrases(Product(SlotsFor(cs, words)))| <= Prod(Shares(cs, words))
    ensures NoDuplicates(words) ==> |UniquePhrases(Product(SlotsFor(cs, words)))| == Prod(Shares(cs, words))
    decreases |cs|
  {
    var slots := SlotsFor(cs, words);
    if cs == [] {
      assert slots == [] && Shares(cs, words) == [];
      UniqueSingle([]);
      assert NoRepeats([]) by {
        assert WordSet([]) == {};
      }
    } else {
      var s := SlotFor(cs[0], words);
      assert slots[0] == s && slots[1..] == SlotsFor(cs[1..], words);
      var tails := Product(SlotsFor(cs[1..], words));
      var shares := Shares(cs, words);
      var q := Prod(shares[1..]);
      assert shares[0] == |s| by {
        assert cs[..0] == [];
      }
      forall j | 0 <= j < |s|
        ensures |UniquePhrases(Pre(s[j], tails))| <= q
        ensures NoDuplicates(words) ==> |UniquePhrases(Pre(s[j], tails))| == q
      {
        var w := s[j];
        SlotForMembers(cs[0], words, w);
        UniquePre(w, tails);
        ProductAvoiding(cs[1..], words, w);
        DistinctBound(cs[1..], Without(words, w));
        SharesShrink(cs, words, w);
        ProdMonotone(Shares(cs[1..], Without(words, w)), shares[1..]);
        if NoDuplicates(words) {
          NoDuplicatesWithout(words, w);
        }
      }
      SumOverChoices(s, tails, q);
    }
  }

  /** Over one-letter hints, occurrences of a hint are occurrences of its letter. */
  lemma {:induction false} LetterOccurrences(hints: seq<string>, cs: seq<char>, i: nat, c: char)
    requires |hints| == |cs| && i <= |hints|
    requires forall k :: 0 <= k < |hints| ==> hints[k] == [cs[k]]
    ensures multiset(hints[..i])[[c]] == multiset(cs[..i])[c]
  {
    if i > 0 {
      assert hints[..i] == hints[..i - 1] + [hints[i - 1]];
      assert cs[..i] == cs[..i - 1] + [cs[i - 1]];
      LetterOccurrences(hints, cs, i - 1, c);
    }
  }

  /** Raising the entries below zero to zero leaves the product unchanged: an
      entry below zero comes after an entry of exactly zero for the same letter. */
  lemma SharesProduct(cs: seq<char>, words: seq<string>)
    ensures Prod(Shares(cs, words)) == Prod(seq(|cs|, i requires 0 <= i < |cs| => Share(cs, words, i)))
  {
    var shares, raw := Shares(cs, words), seq(|cs|, i requires 0 <= i < |cs| => Share(cs, words, i));
    if exists i :: 0 <= i < |cs| && raw[i] < 0 {
      var i :| 0 <= i < |cs| && raw[i] < 0;
      OccurrenceReached(cs, i, cs[i], |SlotFor(cs[i], words)|);
      var j :| 0 <= j < i && cs[j] == cs[i] && multiset(cs[..j])[cs[i]] == |SlotFor(cs[i], words)|;
      assert raw[j] == 0 && shares[j] == 0;
      ProdZero(raw, j);
      ProdZero(shares, j);
    } else {
      assert shares == raw;
    }
  }

  /** Drawing by one-letter hints from pools that are the slot sizes of their
      letters gives the entries of the letters. */
  lemma LetterDraws(pool: map<string, int>, hints: seq<string>, cs: seq<char>, words: seq<string>)
    requires |hints| == |cs|
    requires forall k :: 0 <= k < |hints| ==> hints[k] == [cs[k]]
    requires forall k :: 0 <= k < |hints| ==> hints[k] in pool && pool[hints[k]] == |SlotFor(cs[k], words)|
    ensures seq(|hints|, i requires 0 <= i < |hints| => Draw(pool, hints, i))
         == seq(|cs|, i requires 0 <= i < |cs| => Share(cs, words, i))
  {
    forall i | 0 <= i < |hints|
      ensures Draw(pool, hints, i) == Share(cs, words, i)
    {
      LetterOccurrences(hints, cs, i, cs[i]);
    }
  }

  /** The script's slots and entries, for single-letter hints, are those of the
      hint letters. */
  lemma CompiledShares(hints: seq<string>, words: seq<string>)
    requires forall i :: 0 <= i < |hints| ==> |hints[i]| == 1
    requires Recover(hints, words).Ok?
    ensures var slots := Compile(hints, words).value;
            var cs := Letters(hints);
            && slots == SlotsFor(cs, words)
            && CountsWithoutRepetition(slots, hints) == Ok(seq(|cs|, i requires 0 <= i < |cs| => Share(cs, words, i)))
  {
    var slots := Compile(hints, words).value;
    CompiledSlots(hints, words);
    LettersOfSingleLetters(hints);
    var cs := Letters(hints);
    assert slots == SlotsFor(cs, words);
    assert Keyed(slots);
    CompiledPool(hints, words);
    var pool := Pool(slots);
    assert !HasMissing(hints, pool);
    forall k | 0 <= k < |hints|
      ensures hints[k] == [cs[k]]
    {
      assert |hints[k]| == 1 && hints[k][0] == cs[k];
    }
    LetterDraws(pool, hints, cs, words);
  }

  /** When the script reaches the filter with single-letter hints, the
      estimate without repetition is at least the number of phrases handed on,
      and equal to it when no candidate word is listed twice. */
  lemma EstimateCountsKept(hints: seq<string>, words: seq<string>)
    requires forall i :: 0 <= i < |hints| ==> |hints[i]| == 1
    requires Recover(hints, words).Ok?
    ensures var e := Estimator(Compile(hints, words).value, hints);
            && e.withoutRepetition.Ok?
            && |Recover(hints, words).value| <= e.withoutRepetition.value
            && (NoDuplicates(words) ==> |Recover(hints, words).value| == e.withoutRepetition.value)
  {
    CompiledShares(hints, words);
    DistinctBound(Letters(hints), words);
    SharesProduct(Letters(hints), words);
  }

  /** Two "a" hints over ab, ab open two slots that both list ab twice. */
  lemma ExampleDuplicateSlots()
    ensures Compile(["a", "a"], ["ab", "ab"]) == Ok([["ab", "ab"], ["ab", "ab"]])
  {
    var hints, words := ["a", "a"], ["ab", "ab"];
    assert words[..1] == ["ab"] && words[..1][..0] == [];
    assert SlotFor('a', words) == ["ab", "ab"];
    assert hints[..1] == ["a"] && hints[..1][..0] == [];
    assert SlotsOf(hints, words) == [["ab", "ab"], ["ab", "ab"]];
    assert !HasEmptyWord(words);
  }

  /** With a word listed twice the bound can be strict: two "a" hints over the
      list ab, ab estimate two phrases without repetition, yet every generated
      phrase repeats ab, so none is handed on. */
  lemma ExampleDuplicateWord()
    ensures Estimator(Compile(["a", "a"], ["ab", "ab"]).value, ["a", "a"]).withoutRepetition == Ok(2)
    ensures Recover(["a", "a"], ["ab", "ab"]) == Ok([])
  {
    var hints, words := ["a", "a"], ["ab", "ab"];
    ExampleDuplicateSlots();
    assert Estimator([["ab", "ab"], ["ab", "ab"]], hints).withoutRepetition == Ok(2);
    ExampleDuplicateNothingKept();
  }

  /** No phrase over two "a" hints and the list ab, ab passes the filter. */
  lemma ExampleDuplicateNothingKept()
    ensures Recover(["a", "a"], ["ab", "ab"]).Ok?
    ensures Recover(["a", "a"], ["ab", "ab"]).value == []
  {
    var hints, words := ["a", "a"], ["ab", "ab"];
    ExampleDuplicateSlots();
    var kept := Recover(hints, words).value;
    if kept != [] {
      RecoverFinds(hints, words, kept[0]);
      LettersOfSingleLetters(hints);
    }
  }
}
