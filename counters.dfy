/**
 * A `collections.Counter` of strings, as the vocabulary code uses it: a dict
 * from token to count in first-insertion order, read with a default of 0,
 * updated one occurrence at a time and deleted from without complaint.
 */
module Counters {
  import opened OrderedDicts

  /** `counter[k]`: the count of `k`, 0 for a token never counted. */
  function Count(d: Dict<string, int>, k: string): (n: int)
    ensures k in d.vals ==> n == d.vals[k]
    ensures k !in d.vals ==> n == 0
  {
    if k in d.vals then d.vals[k] else 0
  }

  /** The counter `d` after `update(xs)`: one more occurrence for each item, in order. */
  function Tally(d: Dict<string, int>, xs: seq<string>): (r: Dict<string, int>)
    requires d.Valid()
    ensures r.Valid()
  {
    if xs == [] then d else Bump(Tally(d, xs[..|xs| - 1]), xs[|xs| - 1])
  }

  /** One occurrence more of `x`: `self[x] = self.get(x, 0) + 1`. */
  function Bump(e: Dict<string, int>, x: string): (r: Dict<string, int>)
    requires e.Valid()
    ensures r.Valid()
  {
    e.Set(x, Count(e, x) + 1)
  }

  /** Updating adds, for every token, the number of its occurrences in `xs`. */
  lemma {:induction false} TallyCounts(d: Dict<string, int>, xs: seq<string>, k: string)
    requires d.Valid()
    ensures Count(Tally(d, xs), k) == Count(d, k) + multiset(xs)[k]
  {
    if xs != [] {
      var init, x := xs[..|xs| - 1], xs[|xs| - 1];
      var e := Tally(d, init);
      TallyCounts(d, init, k);
      assert xs == init + [x];
      assert multiset(xs)[k] == multiset(init)[k] + if k == x then 1 else 0;
      TallyLast(d, xs);
    }
  }

  /** Updating adds exactly the items of `xs` as keys. */
  lemma {:induction false} TallyKeys(d: Dict<string, int>, xs: seq<string>)
    requires d.Valid()
    ensures Tally(d, xs).vals.Keys == d.vals.Keys + set x | x in xs
  {
    if xs != [] {
      var init := xs[..|xs| - 1];
      TallyKeys(d, init);
      assert xs == init + [xs[|xs| - 1]];
    }
  }

  /** Keys already counted keep their place; new ones follow in order of first occurrence. */
  lemma {:induction false} TallyOrder(d: Dict<string, int>, xs: seq<string>)
    requires d.Valid()
    ensures d.keys <= Tally(d, xs).keys
  {
    if xs != [] {
      TallyOrder(d, xs[..|xs| - 1]);
    }
  }

  /** Two updates in a row are one update with both sequences. */
  lemma {:induction false} TallyAppend(d: Dict<string, int>, a: seq<string>, b: seq<string>)
    requires d.Valid()
    ensures Tally(d, a + b) == Tally(Tally(d, a), b)
    decreases |b|
  {
    if b == [] {
      assert a + b == a;
    } else {
      var init, x := b[..|b| - 1], b[|b| - 1];
      var ab := a + b;
      assert ab[..|ab| - 1] == a + init && ab[|ab| - 1] == x;
      TallyAppend(d, a, init);
      TallyLast(d, ab);
      TallyLast(Tally(d, a), b);
    }
  }

  /** The last item of an update is counted last. */
  lemma TallyLast(d: Dict<string, int>, xs: seq<string>)
    requires d.Valid() && xs != []
    ensures Tally(d, xs) == Bump(Tally(d, xs[..|xs| - 1]), xs[|xs| - 1])
  {
  }

  class Counter {
    var dict: Dict<string, int>

    ghost predicate Valid()
      reads this
    {
      dict.Valid()
    }

    /** `Counter()` */
    constructor ()
      ensures Valid() && dict == Empty()
    {
      dict := Empty();
    }

    /** `counter[k]` */
    function Get(k: string): (n: int)
      reads this
      ensures k !in dict.vals ==> n == 0
    {
      Count(dict, k)
    }

    /** `del counter[k]`: a missing key is ignored, unlike a plain dict. */
    method Delete(k: string)
      requires Valid()
      modifies this
      ensures Valid() && dict == old(dict).Remove(k)
    {
      dict := dict.Remove(k);
    }

    /** `counter.update(xs)` for a sequence `xs` of tokens. */
    method Update(xs: seq<string>)
      requires Valid()
      modifies this
      ensures Valid() && dict == Tally(old(dict), xs)
    {
      ghost var d0 := dict;
      for i := 0 to |xs|
        invariant Valid() && dict == Tally(d0, xs[..i])
      {
        assert xs[..i + 1][..i] == xs[..i];
        TallyLast(d0, xs[..i + 1]);
        dict := Bump(dict, xs[i]);
      }
      assert xs[..|xs|] == xs;
    }
  }
}
