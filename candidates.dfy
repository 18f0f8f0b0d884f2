/** Candidate generation: `itertools.product(*all_possible_combinations)`, every
    phrase that takes one word from each slot, in lexicographic slot order. */
module Candidates {
  import opened Common

  /** The phrases `[x] + t` for every tail `t`, in order. */
  function Pre(x: string, tails: seq<seq<string>>): (ps: seq<seq<string>>)
    ensures |ps| == |tails|
  {
    if tails == [] then [] else [[x] + tails[0]] + Pre(x, tails[1..])
  }

  /** The `j`-th phrase opened by `x` is `x` followed by the `j`-th tail. */
  lemma {:induction false} PreAt(x: string, tails: seq<seq<string>>, j: nat)
    requires j < |tails|
    ensures Pre(x, tails)[j] == [x] + tails[j]
  {
    if j > 0 {
      PreAt(x, tails[1..], j - 1);
    }
  }

  /** The phrases `[c] + t` for every choice `c`, in order, and, for each
      choice, every tail `t`, in order. */
  function Prepend(choices: seq<string>, tails: seq<seq<string>>): (ps: seq<seq<string>>)
    ensures |ps| == |choices| * |tails|
  {
    if choices == [] then [] else Pre(choices[0], tails) + Prepend(choices[1..], tails)
  }

  /** The cartesian product of the slot lists. The first slot varies slowest and
      the last fastest; no slots give the single empty phrase. */
  function Product(slots: seq<seq<string>>): seq<seq<string>>
    decreases |slots|
  {
    if slots == [] then [[]] else Prepend(slots[0], Product(slots[1..]))
  }

  /** The sizes of the slot lists. */
  function Lengths(slots: seq<seq<string>>): seq<int>
  {
    seq(|slots|, i requires 0 <= i < |slots| => |slots[i]|)
  }

  /** A phrase that takes one word from each slot, slot by slot. */
  predicate Fits(phrase: seq<string>, slots: seq<seq<string>>)
  {
    |phrase| == |slots| && forall i :: 0 <= i < |phrase| ==> phrase[i] in slots[i]
  }

  /** The product has as many phrases as the product of the slot sizes. */
  lemma {:induction false} ProductLength(slots: seq<seq<string>>)
    ensures |Product(slots)| == Prod(Lengths(slots))
  {
    if slots != [] {
      ProductLength(slots[1..]);
      assert Lengths(slots[1..]) == Lengths(slots)[1..];
    }
  }

  lemma {:induction false} PrependAt(choices: seq<string>, tails: seq<seq<string>>, i: nat, j: nat)
    requires i < |choices| && j < |tails|
    ensures i * |tails| + j < |Prepend(choices, tails)|
    ensures Prepend(choices, tails)[i * |tails| + j] == [choices[i]] + tails[j]
  {
    var first, rest := Pre(choices[0], tails), Prepend(choices[1..], tails);
    assert Prepend(choices, tails) == first + rest;
    if i > 0 {
      PrependAt(choices[1..], tails, i - 1, j);
      var k := (i - 1) * |tails| + j;
      Distribute(i - 1, 1, |tails|);
      assert i * |tails| + j == |first| + k;
      assert (first + rest)[|first| + k] == rest[k];
    } else {
      PreAt(choices[0], tails, j);
      assert (first + rest)[j] == first[j];
    }
  }

  /** Lexicographic order: the phrase at position `i * n + j`, where `n` is the
      number of phrases over the later slots, is the `i`-th word of the first
      slot followed by the `j`-th phrase over the later slots. */
  lemma ProductAt(slots: seq<seq<string>>, i: nat, j: nat)
    requires |slots| > 0 && i < |slots[0]| && j < |Product(slots[1..])|
    ensures i * |Product(slots[1..])| + j < |Product(slots)|
    ensures Product(slots)[i * |Product(slots[1..])| + j] == [slots[0][i]] + Product(slots[1..])[j]
  {
    PrependAt(slots[0], Product(slots[1..]), i, j);
  }

  lemma {:induction false} PrependMembers(choices: seq<string>, tails: seq<seq<string>>, p: seq<string>)
    ensures p in Prepend(choices, tails) <==> |p| > 0 && p[0] in choices && p[1..] in tails
  {
    if choices != [] {
      PrependMembers(choices[1..], tails, p);
      var first := Pre(choices[0], tails);
      if p in first {
        var j :| 0 <= j < |tails| && first[j] == p;
        PreAt(choices[0], tails, j);
        assert p[1..] == tails[j];
      }
      if |p| > 0 && p[0] == choices[0] && p[1..] in tails {
        var j :| 0 <= j < |tails| && tails[j] == p[1..];
        PreAt(choices[0], tails, j);
        assert p == [choices[0]] + tails[j] == first[j];
      }
    }
  }

  /** The product holds exactly the phrases that take one word from each slot. */
  lemma {:induction false} ProductMembers(slots: seq<seq<string>>, p: seq<string>)
    ensures p in Product(slots) <==> Fits(p, slots)
  {
    if slots != [] {
      PrependMembers(slots[0], Product(slots[1..]), p);
      if |p| > 0 {
        ProductMembers(slots[1..], p[1..]);
        if Fits(p, slots) {
          assert forall i :: 0 <= i < |p| - 1 ==> p[1..][i] == p[i + 1];
        }
        if Fits(p[1..], slots[1..]) && p[0] in slots[0] {
          forall i | 0 <= i < |p|
            ensures p[i] in slots[i]
          {
            if i > 0 {
              assert p[i] == p[1..][i - 1];
            }
          }
        }
      }
    }
  }

  /** The number of ways to form `p` from the slots: for each position, how
      often its word occurs in its slot, multiplied together. */
  function Multiplicity(slots: seq<seq<string>>, p: seq<string>): nat
    decreases |slots|
  {
    if |p| != |slots| then 0
    else if slots == [] then 1
    else multiset(slots[0])[p[0]] * Multiplicity(slots[1..], p[1..])
  }

  lemma {:induction false} PreCount(x: string, tails: seq<seq<string>>, p: seq<string>)
    ensures multiset(Pre(x, tails))[p] == if |p| > 0 && p[0] == x then multiset(tails)[p[1..]] else 0
  {
    if tails != [] {
      var t, q, later := tails[0], [x] + tails[0], Pre(x, tails[1..]);
      PreCount(x, tails[1..], p);
      assert Pre(x, tails) == [q] + later;
      assert tails == [t] + tails[1..];
      PrefixedEqual(x, t, p);
    }
  }

  /** `[x] + t` is `p` exactly when `p` starts with `x` and goes on with `t`. */
  lemma PrefixedEqual(x: string, t: seq<string>, p: seq<string>)
    ensures [x] + t == p <==> |p| > 0 && p[0] == x && p[1..] == t
  {
    if |p| > 0 && p[0] == x && p[1..] == t {
      assert p == [p[0]] + p[1..];
    }
  }

  lemma Distribute(a: int, b: int, m: int)
    ensures (a + b) * m == a * m + b * m
  {
  }

  /** A phrase occurs among the phrases opened by `choices` as often as its
      first word occurs among the choices times as often as its tail occurs
      among the tails. */
  lemma {:induction false} PrependCount(choices: seq<string>, tails: seq<seq<string>>, p: seq<string>)
    ensures multiset(Prepend(choices, tails))[p]
         == if |p| > 0 then multiset(choices)[p[0]] * multiset(tails)[p[1..]] else 0
  {
    if choices != [] {
      var c, rest := choices[0], choices[1..];
      PreCount(c, tails, p);
      PrependCount(rest, tails, p);
      var first, later := Pre(c, tails), Prepend(rest, tails);
      assert Prepend(choices, tails) == first + later;
      assert multiset(Prepend(choices, tails))[p] == multiset(first)[p] + multiset(later)[p];
      if |p| > 0 {
        assert choices == [c] + rest;
        ChoiceCount(c, rest, p[0], multiset(tails)[p[1..]]);
      }
    }
  }

  /** Counting `w` among `[c] + rest`, weighted by `m`. */
  lemma ChoiceCount(c: string, rest: seq<string>, w: string, m: int)
    ensures multiset([c] + rest)[w] * m == (if c == w then m else 0) + multiset(rest)[w] * m
  {
    var a: int, b: int := if c == w then 1 else 0, multiset(rest)[w];
    assert multiset([c] + rest)[w] == a + b;
    Distribute(a, b, m);
  }

  /** A phrase occurs in the product exactly as many times as it can be formed
      from the slots. */
  lemma {:induction false} ProductCount(slots: seq<seq<string>>, p: seq<string>)
    ensures multiset(Product(slots))[p] == Multiplicity(slots, p)
    decreases |slots|
  {
    if slots != [] {
      var tails := Product(slots[1..]);
      assert Product(slots) == Prepend(slots[0], tails);
      PrependCount(slots[0], tails, p);
      if |p| > 0 {
        ProductCount(slots[1..], p[1..]);
        var a, m := multiset(slots[0])[p[0]], Multiplicity(slots[1..], p[1..]);
        assert multiset(Product(slots))[p] == a * m;
        if |p| != |slots| {
          assert m == 0;
          assert a * m == 0;
        }
      }
    }
  }

  lemma {:induction false} MultiplicityAtMostOne(slots: seq<seq<string>>, p: seq<string>)
    requires forall i :: 0 <= i < |slots| ==> NoDuplicates(slots[i])
    ensures Multiplicity(slots, p) <= 1
    decreases |slots|
  {
    if slots != [] && |p| == |slots| {
      MultiplicityAtMostOne(slots[1..], p[1..]);
      var a, b := multiset(slots[0])[p[0]], Multiplicity(slots[1..], p[1..]);
      assert a <= 1;
      assert a * b <= 1 by {
        if a == 1 { assert a * b == b; }
      }
    }
  }

  /** When no slot lists a word twice, the product lists every phrase at most
      once. */
  lemma ProductOnce(slots: seq<seq<string>>)
    requires forall i :: 0 <= i < |slots| ==> NoDuplicates(slots[i])
    ensures NoDuplicates(Product(slots))
  {
    forall p
      ensures multiset(Product(slots))[p] <= 1
    {
      ProductCount(slots, p);
      MultiplicityAtMostOne(slots, p);
    }
  }

  /** For two slots the multiplicity is the product of the two counts. */
  lemma PairMultiplicity(slots: seq<seq<string>>, p: seq<string>)
    requires |slots| == 2 && |p| == 2
    ensures Multiplicity(slots, p) == multiset(slots[0])[p[0]] * multiset(slots[1])[p[1]]
  {
    var rest, q := slots[1..], p[1..];
    assert rest[1..] == [] && q[1..] == [];
    assert Multiplicity(rest, q) == multiset(rest[0])[q[0]] * 1;
  }
}
