/** The combination estimate (`combination_count` and `estimator`): the number
    of phrases with repetition, the product of the slot sizes, and the advisory
    number without repetition, where each further hint of a letter draws from
    that letter's pool one word fewer. The hints are passed in explicitly. */
module Estimate {
  import opened Common
  import opened Slots
  import opened Candidates

  /** The two ways `combination_count` raises: IndexError at `word[0][0]` for the
      first slot that is empty or starts with an empty word, and KeyError at
      `char_count[letter]` for the first hint that is not a key. */
  datatype CountError = EmptySlot(slot: nat) | MissingLetter(letter: string)

  /** Every slot has a first word and that word has a first character. */
  predicate Keyed(slots: seq<seq<string>>)
  {
    forall i :: 0 <= i < |slots| ==> |slots[i]| > 0 && |slots[i][0]| > 0
  }

  /** The key of a slot in `char_count`: the first character of its first word,
      as a one-character string. */
  function Key(slot: seq<string>): string
    requires |slot| > 0 && |slot[0]| > 0
  {
    [slot[0][0]]
  }

  function FirstUnkeyed(slots: seq<seq<string>>): (i: nat)
    requires !Keyed(slots)
    ensures i < |slots| && (|slots[i]| == 0 || |slots[i][0]| == 0)
    ensures Keyed(slots[..i])
  {
    if |slots[0]| == 0 || |slots[0][0]| == 0 then 0
    else
      var i := 1 + FirstUnkeyed(slots[1..]);
      assert forall k :: 1 <= k < i ==> slots[..i][k] == slots[1..][..i - 1][k - 1];
      i
  }

  /** The dictionary comprehension of `char_count`: each slot's key maps to the
      slot's size, a later slot with the same key overriding an earlier one. */
  function Pool(slots: seq<seq<string>>): map<string, int>
    requires Keyed(slots)
  {
    if slots == [] then map[]
    else
      var last := slots[|slots| - 1];
      Pool(slots[..|slots| - 1])[Key(last) := |last|]
  }

  predicate HasMissing(hints: seq<string>, pool: map<string, int>)
  {
    exists i :: 0 <= i < |hints| && hints[i] !in pool
  }

  function FirstMissing(hints: seq<string>, pool: map<string, int>): (i: nat)
    requires HasMissing(hints, pool)
    ensures i < |hints| && hints[i] !in pool
    ensures forall k :: 0 <= k < i ==> hints[k] in pool
  {
    if hints[0] !in pool then 0 else 1 + FirstMissing(hints[1..], pool)
  }

  /** Entry `i` of the count: the pool size of hint `i`'s letter, less one for
      every earlier hint of the same letter. */
  function Draw(pool: map<string, int>, hints: seq<string>, i: nat): int
    requires i < |hints| && hints[i] in pool
  {
    pool[hints[i]] - multiset(hints[..i])[hints[i]]
  }

  /** The closed form of what `combination_count(list_of_combinations)` returns
      or raises: for the `k`-th earlier occurrence (from 0) of its hint letter,
      entry `i` is that letter's pool size minus `k`. */
  function CountsWithoutRepetition(slots: seq<seq<string>>, hints: seq<string>): Result<seq<int>, CountError>
  {
    if !Keyed(slots) then Err(EmptySlot(FirstUnkeyed(slots)))
    else
      var pool := Pool(slots);
      if HasMissing(hints, pool) then Err(MissingLetter(hints[FirstMissing(hints, pool)]))
      else Ok(seq(|hints|, i requires 0 <= i < |hints| => Draw(pool, hints, i)))
  }

  /** `combination_count`: the loop over the hints that appends the current pool
      size of each letter to `lst` and then decrements it in `char_count`. */
  method CombinationCount(slots: seq<seq<string>>, hints: seq<string>) returns (r: Result<seq<int>, CountError>)
    ensures r == CountsWithoutRepetition(slots, hints)
  {
    if !Keyed(slots) {
      return Err(EmptySlot(FirstUnkeyed(slots)));
    }
    var pool := Pool(slots);
    var charCount := pool;
    var lst := [];
    for i := 0 to |hints|
      invariant charCount.Keys == pool.Keys
      invariant forall c :: c in pool ==> charCount[c] == pool[c] - multiset(hints[..i])[c]
      invariant forall k :: 0 <= k < i ==> hints[k] in pool
      invariant |lst| == i
      invariant forall k :: 0 <= k < i ==> lst[k] == Draw(pool, hints, k)
    {
      var letter := hints[i];
      if letter !in charCount {
        assert HasMissing(hints, pool);
        assert FirstMissing(hints, pool) == i;
        return Err(MissingLetter(letter));
      }
      lst := lst + [charCount[letter]];
      charCount := charCount[letter := charCount[letter] - 1];
      assert hints[..i + 1] == hints[..i] + [letter];
    }
    assert !HasMissing(hints, pool);
    var counts := CountsWithoutRepetition(slots, hints).value;
    assert |counts| == |lst| && forall k :: 0 <= k < |lst| ==> counts[k] == lst[k];
    assert counts == lst;
    return Ok(lst);
  }

  /** The two numbers `estimator` prints. The second is an error when
      `combination_count` raises; the first is printed before that happens. */
  datatype Estimates = Estimates(withRepetition: int, withoutRepetition: Result<int, CountError>)

  /** `estimator`: `numpy.prod` of the slot sizes, and of `combination_count`.
      The count with repetition is the number of phrases the product generates. */
  function Estimator(slots: seq<seq<string>>, hints: seq<string>): (e: Estimates)
    ensures e.withRepetition == |Product(slots)|
  {
    ProductLength(slots);
    Estimates(
      Prod(Lengths(slots)),
      match CountsWithoutRepetition(slots, hints)
      case Ok(counts) => Ok(Prod(counts))
      case Err(error) => Err(error))
  }

  /** The pool holds exactly the slot keys, and each key maps to the size of
      the last slot with that key. */
  lemma {:induction false} PoolLookup(slots: seq<seq<string>>, k: string)
    requires Keyed(slots)
    ensures k in Pool(slots) <==> exists j :: 0 <= j < |slots| && Key(slots[j]) == k
    ensures k in Pool(slots) ==>
      exists j :: 0 <= j < |slots| && Key(slots[j]) == k && Pool(slots)[k] == |slots[j]|
                  && forall m :: j < m < |slots| ==> Key(slots[m]) != k
  {
    if slots != [] {
      var front, last := slots[..|slots| - 1], slots[|slots| - 1];
      assert Keyed(front);
      PoolLookup(front, k);
      if Key(last) == k {
        assert Key(slots[|slots| - 1]) == k;
      } else {
        assert forall j :: 0 <= j < |front| ==> slots[j] == front[j];
      }
    }
  }

  /** If `c` occurs more than `m` times in `s[..i]`, some earlier occurrence of
      `c` has exactly `m` occurrences before it. */
  lemma {:induction false} OccurrenceReached<T>(s: seq<T>, i: nat, c: T, m: nat)
    requires i <= |s| && m < multiset(s[..i])[c]
    ensures exists j :: 0 <= j < i && s[j] == c && multiset(s[..j])[c] == m
  {
    assert i > 0;
    assert s[..i] == s[..i - 1] + [s[i - 1]];
    if m < multiset(s[..i - 1])[c] {
      OccurrenceReached(s, i - 1, c, m);
    } else {
      assert s[i - 1] == c && multiset(s[..i - 1])[c] == m;
    }
  }

  /** Every hint of a length other than 1 makes the count raise: it opens no
      slot, yet it is looked up as a key, and every key has length 1. */
  lemma OtherHintLengthFails(hints: seq<string>, words: seq<string>, i: nat)
    requires i < |hints| && |hints[i]| != 1
    requires Compile(hints, words).Ok?
    ensures CountsWithoutRepetition(Compile(hints, words).value, hints).Err?
  {
    var slots := Compile(hints, words).value;
    if Keyed(slots) {
      PoolLookup(slots, hints[i]);
      assert HasMissing(hints, Pool(slots));
    }
  }

  /** Slots compiled from single-letter hints: slot `i` belongs to hint `i`. */
  lemma CompiledSlots(hints: seq<string>, words: seq<string>)
    requires forall i :: 0 <= i < |hints| ==> |hints[i]| == 1
    requires Compile(hints, words).Ok?
    ensures var slots := Compile(hints, words).value;
            && |slots| == |hints|
            && forall i :: 0 <= i < |hints| ==> slots[i] == SlotFor(hints[i][0], words)
  {
    SlotsOfLetters(hints, words);
    LettersOfSingleLetters(hints);
  }

  /** With single-letter hints and non-empty slots, every hint is a key of the
      pool, and its pool size is the size of its own slot. */
  lemma CompiledPool(hints: seq<string>, words: seq<string>)
    requires forall i :: 0 <= i < |hints| ==> |hints[i]| == 1
    requires Compile(hints, words).Ok?
    requires forall i :: 0 <= i < |Compile(hints, words).value| ==> Compile(hints, words).value[i] != []
    ensures Keyed(Compile(hints, words).value) && |Compile(hints, words).value| == |hints|
    ensures forall i :: 0 <= i < |hints| ==>
      hints[i] in Pool(Compile(hints, words).value) && Pool(Compile(hints, words).value)[hints[i]] == |Compile(hints, words).value[i]|
  {
    var slots := Compile(hints, words).value;
    CompiledSlots(hints, words);
    forall i | 0 <= i < |slots|
      ensures |slots[i][0]| > 0 && [slots[i][0][0]] == hints[i]
    {
      SlotForMembers(hints[i][0], words, slots[i][0]);
    }
    assert Keyed(slots);
    var pool := Pool(slots);
    forall i | 0 <= i < |hints|
      ensures hints[i] in pool && pool[hints[i]] == |slots[i]|
    {
      PoolLookup(slots, hints[i]);
      assert Key(slots[i]) == hints[i];
      var j :| 0 <= j < |slots| && Key(slots[j]) == hints[i] && pool[hints[i]] == |slots[j]|;
      assert hints[j] == hints[i];
    }
  }

  /** Drawing without replacement from pools of the given sizes gives a product
      between 0 and the product of the sizes: an entry below 0 comes after an
      entry of exactly 0 for the same letter. */
  lemma DrawsBounded(pool: map<string, int>, hints: seq<string>, sizes: seq<int>)
    requires |sizes| == |hints|
    requires forall i :: 0 <= i < |hints| ==> hints[i] in pool && pool[hints[i]] == sizes[i] >= 0
    ensures var counts := seq(|hints|, i requires 0 <= i < |hints| => Draw(pool, hints, i));
            0 <= Prod(counts) <= Prod(sizes)
  {
    var counts := seq(|hints|, i requires 0 <= i < |hints| => Draw(pool, hints, i));
    if exists i :: 0 <= i < |counts| && counts[i] < 0 {
      var i :| 0 <= i < |counts| && counts[i] < 0;
      OccurrenceReached(hints, i, hints[i], sizes[i]);
      var j :| 0 <= j < i && hints[j] == hints[i] && multiset(hints[..j])[hints[i]] == sizes[i];
      assert counts[j] == 0;
      ProdZero(counts, j);
      ProdNonNegative(sizes);
    } else {
      ProdMonotone(counts, sizes);
    }
  }

  /** For slots compiled from single-letter hints: the estimate without
      repetition is computed exactly when every slot is non-empty, and it then
      lies between 0 and the estimate with repetition. */
  lemma EstimateBounds(hints: seq<string>, words: seq<string>)
    requires forall i :: 0 <= i < |hints| ==> |hints[i]| == 1
    requires Compile(hints, words).Ok?
    ensures var slots := Compile(hints, words).value;
            var e := Estimator(slots, hints);
            && (e.withoutRepetition.Ok? <==> forall i :: 0 <= i < |slots| ==> slots[i] != [])
            && (e.withoutRepetition.Ok? ==> 0 <= e.withoutRepetition.value <= e.withRepetition)
  {
    var slots := Compile(hints, words).value;
    CompiledSlots(hints, words);
    if forall i :: 0 <= i < |slots| ==> slots[i] != [] {
      CompiledPool(hints, words);
      var pool := Pool(slots);
      assert !HasMissing(hints, pool);
      var counts := seq(|hints|, i requires 0 <= i < |hints| => Draw(pool, hints, i));
      assert CountsWithoutRepetition(slots, hints) == Ok(counts);
      assert Estimator(slots, hints) == Estimates(Prod(Lengths(slots)), Ok(Prod(counts)));
      DrawsBounded(pool, hints, Lengths(slots));
    } else {
      var i :| 0 <= i < |slots| && slots[i] == [];
      assert !Keyed(slots);
    }
  }
}
