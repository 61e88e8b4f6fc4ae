/**
 * `Romanizer.get_trans_char` and what `get_trans_str` computes. A grapheme of
 * the table is transliterated by `random.choices(candidates,
 * cum_weights=weights)`, which draws `u` from [0, 1) and returns the
 * candidate at `bisect_right(weights, u * weights[-1], 0, n - 1)`. The draws
 * are given as a list, one consumed per sampled grapheme.
 */
module Sampler {
  import opened Results
  import opened PyStrings
  import opened KeyFile

  /** `bisect.bisect_right(a, x, lo, hi)`, the binary search as the library writes it. */
  function BisectRight(a: seq<real>, x: real, lo: nat, hi: nat): (r: nat)
    requires lo <= hi <= |a|
    ensures lo <= r <= hi
    decreases hi - lo
  {
    if lo < hi then
      var mid := (lo + hi) / 2;
      if x < a[mid] then BisectRight(a, x, lo, mid) else BisectRight(a, x, mid + 1, hi)
    else lo
  }

  /**
   * On weights that never fall, the search returns the first index of
   * `lo..hi` whose weight exceeds `x`, or `hi` when none does.
   */
  lemma BisectRightFirstAbove(a: seq<real>, x: real, lo: nat, hi: nat)
    requires lo <= hi <= |a| && NonDecreasing(a)
    ensures var r := BisectRight(a, x, lo, hi);
      (forall i | lo <= i < r :: a[i] <= x) && (forall i | r <= i < hi :: x < a[i])
  {
    BisectRightBelow(a, x, lo, hi);
    BisectRightAbove(a, x, lo, hi);
  }

  /** Every weight before the index found is at most `x`. */
  lemma {:induction false} BisectRightBelow(a: seq<real>, x: real, lo: nat, hi: nat)
    requires lo <= hi <= |a| && NonDecreasing(a)
    ensures forall i | lo <= i < BisectRight(a, x, lo, hi) :: a[i] <= x
    decreases hi - lo
  {
    if lo < hi {
      var mid := (lo + hi) / 2;
      if x < a[mid] {
        BisectRightBelow(a, x, lo, mid);
      } else {
        BisectRightBelow(a, x, mid + 1, hi);
        forall i | lo <= i <= mid ensures a[i] <= x {
          assert a[i] <= a[mid];
        }
      }
    }
  }

  /** Every weight from the index found on exceeds `x`. */
  lemma {:induction false} BisectRightAbove(a: seq<real>, x: real, lo: nat, hi: nat)
    requires lo <= hi <= |a| && NonDecreasing(a)
    ensures forall i | BisectRight(a, x, lo, hi) <= i < hi :: x < a[i]
    decreases hi - lo
  {
    if lo < hi {
      var mid := (lo + hi) / 2;
      if x < a[mid] {
        BisectRightAbove(a, x, lo, mid);
        forall i | mid <= i < hi ensures x < a[i] {
          assert a[mid] <= a[i];
        }
      } else {
        BisectRightAbove(a, x, mid + 1, hi);
      }
    }
  }

  /** The index `random.choices` picks for the draw `u`, once its checks have passed. */
  function PickIndex(tp: TransProb, u: real): (k: nat)
    requires |tp.candidates| == |tp.weights| > 0
    ensures k < |tp.candidates|
  {
    var n := |tp.weights|;
    BisectRight(tp.weights, u * tp.weights[n - 1], 0, n - 1)
  }

  /** `random.choices(candidates, cum_weights=weights)[0]` for the draw `u`. */
  function Choose(tp: TransProb, u: real): (r: Result<string>)
    requires 0.0 <= u < 1.0
    ensures |tp.candidates| != |tp.weights| ==> r == Err(ValueError)
    ensures |tp.candidates| == |tp.weights| == 0 ==> r == Err(IndexError)
    ensures |tp.candidates| == |tp.weights| > 0 ==> (r.Err? <==> tp.weights[|tp.weights| - 1] <= 0.0)
    ensures r.Err? ==> r.error == ValueError || r.error == IndexError
    ensures r.Ok? ==> r.value in tp.candidates
  {
    var n := |tp.candidates|;
    if |tp.weights| != n then Err(ValueError)
    else if n == 0 then Err(IndexError)
    else if tp.weights[n - 1] <= 0.0 then Err(ValueError)
    else Ok(tp.candidates[PickIndex(tp, u)])
  }

  /**
   * Inverse-CDF sampling: on a table entry that sampling accepts and whose
   * weights never fall, the candidate at `i` is picked exactly when `u`
   * lies in `[weights[i - 1], weights[i])`, with `weights[-1]` read as 0.
   */
  lemma SampleIsInverseCdf(tp: TransProb, u: real, i: nat)
    requires WellFormed(tp) && NonDecreasing(tp.weights) && 0.0 <= u < 1.0
    requires i < |tp.weights|
    ensures Choose(tp, u) == Ok(tp.candidates[PickIndex(tp, u)])
    ensures PickIndex(tp, u) == i <==> (i == 0 || tp.weights[i - 1] <= u) && u < tp.weights[i]
  {
    var w, n := tp.weights, |tp.weights|;
    assert u * w[n - 1] == u;
    BisectRightFirstAbove(w, u, 0, n - 1);
  }

  /** The grapheme is transliterated by sampling: it is in the table and is not `<null>`. */
  predicate Sampled(table: map<string, TransProb>, g: string) {
    g != Null && g in table
  }

  /** `get_trans_char(g)` for the draw `u`, which is only used when `g` is sampled. */
  function TransChar(table: map<string, TransProb>, g: string, u: real): (r: Result<string>)
    requires 0.0 <= u < 1.0
    ensures g == Null ==> r == Ok("")
    ensures g != Null && g !in table ==> r == Ok(g)
    ensures Sampled(table, g) ==> r == Choose(table[g], u)
  {
    if g == Null then Ok("")
    else if g in table then Choose(table[g], u)
    else Ok(g)
  }

  /** How many draws transliterating `segs` takes. */
  function DrawsUsed(table: map<string, TransProb>, segs: seq<string>): (n: nat)
    ensures n <= |segs|
  {
    if segs == [] then 0
    else DrawsUsed(table, segs[..|segs| - 1]) + if Sampled(table, segs[|segs| - 1]) then 1 else 0
  }

  ghost predicate ValidDraws(draws: seq<real>) {
    forall i | 0 <= i < |draws| :: 0.0 <= draws[i] < 1.0
  }

  /** The draw the last of `segs` takes: the first one the others left unused, or none. */
  function LastDraw(table: map<string, TransProb>, segs: seq<string>, draws: seq<real>): (u: real)
    requires segs != [] && ValidDraws(draws) && DrawsUsed(table, segs) <= |draws|
    ensures 0.0 <= u < 1.0
    ensures Sampled(table, segs[|segs| - 1]) ==>
      (DrawsUsed(table, segs[..|segs| - 1]) < |draws| && u == draws[DrawsUsed(table, segs[..|segs| - 1])])
  {
    if Sampled(table, segs[|segs| - 1]) then draws[DrawsUsed(table, segs[..|segs| - 1])] else 0.0
  }

  /**
   * `get_trans_str` over the segments `segs`: each segment transliterated in
   * order and the results joined; the first error raised ends it.
   */
  function Translit(table: map<string, TransProb>, segs: seq<string>, draws: seq<real>): (r: Result<string>)
    requires ValidDraws(draws) && DrawsUsed(table, segs) <= |draws|
    ensures r.Err? ==> r.error == ValueError || r.error == IndexError
    ensures r.Err? ==> exists i | 0 <= i < |segs| :: Sampled(table, segs[i])
  {
    if segs == [] then Ok("")
    else
      assert forall i | 0 <= i < |segs| - 1 :: segs[..|segs| - 1][i] == segs[i];
      Append(Translit(table, segs[..|segs| - 1], draws),
           TransChar(table, segs[|segs| - 1], LastDraw(table, segs, draws)))
  }

  lemma {:induction false} DrawsUsedAppend(table: map<string, TransProb>, a: seq<string>, b: seq<string>)
    ensures DrawsUsed(table, a + b) == DrawsUsed(table, a) + DrawsUsed(table, b)
    decreases |b|
  {
    if b == [] {
      assert a + b == a;
    } else {
      assert (a + b)[..|a + b| - 1] == a + b[..|b| - 1];
      DrawsUsedAppend(table, a, b[..|b| - 1]);
    }
  }

  /**
   * Transliterating two runs of segments one after the other: the second
   * run starts at the first draw the first run left unused, and its text
   * follows the first run's.
   */
  lemma {:induction false} TranslitAppend(table: map<string, TransProb>, a: seq<string>, b: seq<string>, draws: seq<real>)
    requires ValidDraws(draws) && DrawsUsed(table, a + b) <= |draws|
    ensures DrawsUsed(table, a) <= |draws| && ValidDraws(draws[DrawsUsed(table, a)..])
    ensures DrawsUsed(table, b) <= |draws[DrawsUsed(table, a)..]|
    ensures Translit(table, a + b, draws) ==
      Append(Translit(table, a, draws), Translit(table, b, draws[DrawsUsed(table, a)..]))
    decreases |b|
  {
    DrawsUsedAppend(table, a, b);
    var n := DrawsUsed(table, a);
    var dr := draws[n..];
    if b == [] {
      assert a + b == a;
      var p := Translit(table, a, draws);
      if p.Ok? {
        assert p.value + "" == p.value;
      }
    } else {
      var init, g := b[..|b| - 1], b[|b| - 1];
      assert (a + b)[..|a + b| - 1] == a + init;
      DrawsUsedAppend(table, a, init);
      TranslitAppend(table, a, init, draws);
      assert LastDraw(table, a + b, draws) == LastDraw(table, b, dr);
      AppendAssociative(Translit(table, a, draws), Translit(table, init, dr), TransChar(table, g, LastDraw(table, b, dr)));
    }
  }

  /** Text none of whose segments is in the table or is `<null>` comes back unchanged. */
  lemma {:induction false} UnmappedUnchanged(table: map<string, TransProb>, segs: seq<string>, draws: seq<real>)
    requires forall i | 0 <= i < |segs| :: segs[i] != Null && segs[i] !in table
    requires ValidDraws(draws)
    ensures DrawsUsed(table, segs) == 0
    ensures Translit(table, segs, draws) == Ok(Concat(segs))
  {
    if segs != [] {
      var init := segs[..|segs| - 1];
      var g := segs[|segs| - 1];
      assert forall i | 0 <= i < |init| :: init[i] == segs[i];
      UnmappedUnchanged(table, init, draws);
      ConcatAppend(init, [g]);
      assert init + [g] == segs;
      assert [g][1..] == [];
      assert Concat([g]) == g;
      assert TransChar(table, g, 0.0) == Ok(g);
    }
  }

  /**
   * The grapheme `<null>` is dropped, but a sampled candidate `<null>` is
   * returned as the text `<null>`.
   */
  lemma NullCandidateVerbatim(u: real)
    requires 0.0 <= u < 1.0
    ensures var table := map["a" := TransProb([Null], [1.0])];
      TransChar(table, Null, u) == Ok("") && TransChar(table, "a", u) == Ok(Null)
  {
  }

  /** Sampling the entry that the key line `k --- k; c` gives with `prop_typical` 0.9 keeps `k` for a draw below 0.9 and gives `c` for any other. */
  lemma KeyLineChoice(u: real)
    requires 0.0 <= u < 1.0
    ensures Choose(TransProb(["k", "c"], [0.9, 1.0]), u) == if u < 0.9 then Ok("k") else Ok("c")
  {
    assert u * 1.0 == u;
  }

  /** On a table whose every entry sampling accepts, transliteration never raises. */
  lemma {:induction false} TranslitNeverFails(table: map<string, TransProb>, segs: seq<string>, draws: seq<real>)
    requires forall k | k in table :: WellFormed(table[k])
    requires ValidDraws(draws) && DrawsUsed(table, segs) <= |draws|
    ensures Translit(table, segs, draws).Ok?
  {
    if segs != [] {
      var init, g := segs[..|segs| - 1], segs[|segs| - 1];
      TranslitNeverFails(table, init, draws);
      if Sampled(table, g) {
        var tp := table[g];
        assert tp.weights[|tp.weights| - 1] == 1.0;
      }
    }
  }
}
