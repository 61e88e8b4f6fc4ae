/**
 * The first half of `Romanizer.__init__`: for every alphabetic grapheme of
 * the key, in the order the keys were listed before the loop started, a
 * capitalized grapheme is added with capitalized candidates, and for a
 * grapheme of several characters an upper-case one as well. The weights are
 * shared; the `<null>` candidate is never changed.
 */
module CaseExpansion {
  import opened PyStrings
  import opened OrderedDicts
  import opened KeyFile

  /** `[item.capitalize() if item != NULL else NULL for item in items]` */
  function CapitalizeItems(items: seq<string>): (r: seq<string>)
    ensures |r| == |items|
  {
    seq(|items|, i requires 0 <= i < |items| => if items[i] == Null then Null else Capitalize(items[i]))
  }

  /** `[item.upper() if item != NULL else NULL for item in items]` */
  function UpperItems(items: seq<string>): (r: seq<string>)
    ensures |r| == |items|
  {
    seq(|items|, i requires 0 <= i < |items| => if items[i] == Null then Null else Upper(items[i]))
  }

  function Capitalized(tp: TransProb): TransProb {
    TransProb(CapitalizeItems(tp.candidates), tp.weights)
  }

  function Uppered(tp: TransProb): TransProb {
    TransProb(UpperItems(tp.candidates), tp.weights)
  }

  /** The graphemes one original grapheme gives rise to. */
  function DerivedKeys(k: string): set<string> {
    if !IsAlpha(k) then {}
    else if |k| > 1 then {Capitalize(k), Upper(k)}
    else {Capitalize(k)}
  }

  function AllDerived(ks: seq<string>): set<string> {
    if ks == [] then {} else AllDerived(ks[..|ks| - 1]) + DerivedKeys(ks[|ks| - 1])
  }

  /**
   * One turn of the loop, for the grapheme `k`: the upper-case variant is
   * made from the entry of `k` as it stands after the capitalized one was
   * written, which is a different entry when `k` is its own capitalization.
   */
  function ExpandKey(d: Dict<string, TransProb>, k: string): (r: Dict<string, TransProb>)
    requires d.Valid() && k in d.vals
    ensures r.Valid()
    ensures r.vals.Keys == d.vals.Keys + DerivedKeys(k)
    ensures d.keys <= r.keys
  {
    if !IsAlpha(k) then d
    else
      var d1 := d.Set(Capitalize(k), Capitalized(d.vals[k]));
      if |k| > 1 then d1.Set(Upper(k), Uppered(d1.vals[k])) else d1
  }

  /** The table after the loop has visited the graphemes `ks`, in order. */
  function ExpandAll(d: Dict<string, TransProb>, ks: seq<string>): (r: Dict<string, TransProb>)
    requires d.Valid()
    requires forall i | 0 <= i < |ks| :: ks[i] in d.vals
    ensures r.Valid()
    ensures d.vals.Keys <= r.vals.Keys
  {
    if ks == [] then d
    else
      assert forall i | 0 <= i < |ks| - 1 :: ks[..|ks| - 1][i] == ks[i];
      ExpandKey(ExpandAll(d, ks[..|ks| - 1]), ks[|ks| - 1])
  }

  /** The loop adds exactly the variants of the visited graphemes. */
  lemma {:induction false} ExpandAllKeys(d: Dict<string, TransProb>, ks: seq<string>)
    requires d.Valid()
    requires forall i | 0 <= i < |ks| :: ks[i] in d.vals
    ensures ExpandAll(d, ks).vals.Keys == d.vals.Keys + AllDerived(ks)
  {
    if ks != [] {
      var init := ks[..|ks| - 1];
      assert forall i | 0 <= i < |init| :: init[i] == ks[i];
      ExpandAllKeys(d, init);
    }
  }

  /** The loop itself, over the graphemes the table held when it started. */
  method ExpandCase(d: Dict<string, TransProb>) returns (r: Dict<string, TransProb>)
    requires d.Valid()
    ensures r == ExpandAll(d, d.keys)
  {
    var snapshot := d.keys;
    r := d;
    for i := 0 to |snapshot|
      invariant r == ExpandAll(d, snapshot[..i])
    {
      var k := snapshot[i];
      assert snapshot[..i + 1][..i] == snapshot[..i];
      if IsAlpha(k) {
        r := r.Set(Capitalize(k), Capitalized(r.vals[k]));
        if |k| > 1 {
          r := r.Set(Upper(k), Uppered(r.vals[k]));
        }
      }
    }
    assert snapshot[..|snapshot|] == snapshot;
  }

  /** The original graphemes keep their order; the variants follow them. */
  lemma {:induction false} ExpandAllOrder(d: Dict<string, TransProb>, ks: seq<string>)
    requires d.Valid()
    requires forall i | 0 <= i < |ks| :: ks[i] in d.vals
    ensures d.keys <= ExpandAll(d, ks).keys
  {
    if ks != [] {
      var init := ks[..|ks| - 1];
      ExpandAllOrder(d, init);
      var e := ExpandAll(d, init);
      assert e.keys <= ExpandAll(d, ks).keys;
    }
  }

  /** A grapheme that no visited grapheme gives rise to keeps its entry. */
  lemma {:induction false} ExpandAllKeepsOthers(d: Dict<string, TransProb>, ks: seq<string>, k: string)
    requires d.Valid()
    requires forall i | 0 <= i < |ks| :: ks[i] in d.vals
    requires k in d.vals && k !in AllDerived(ks)
    ensures ExpandAll(d, ks).vals[k] == d.vals[k]
  {
    if ks != [] {
      ExpandAllKeepsOthers(d, ks[..|ks| - 1], k);
    }
  }

  lemma UpperCharInjective(a: char, b: char)
    requires IsLowerLetter(a) && IsLowerLetter(b) && a != b
    ensures UpperChar(a) != UpperChar(b)
  {
  }

  /** Capitalizing or upper-casing a word of small letters gives a word that is alphabetic but not small. */
  lemma CaseVariants(k: string)
    requires IsLowerWord(k)
    ensures IsAlpha(Capitalize(k)) && !IsLowerWord(Capitalize(k))
    ensures IsAlpha(Upper(k)) && !IsLowerWord(Upper(k))
  {
    CapitalizeVariant(k);
    UpperVariant(k);
  }

  lemma CapitalizeVariant(k: string)
    requires IsLowerWord(k)
    ensures IsAlpha(Capitalize(k)) && !IsLowerWord(Capitalize(k))
  {
    var c := Capitalize(k);
    assert c[0] == UpperChar(k[0]);
    assert !IsLowerLetter(c[0]);
    forall i | 1 <= i < |c| ensures IsLetter(c[i]) {
      LowerAt(k[1..], i - 1);
      assert c[i] == Lower(k[1..])[i - 1];
      assert k[1..][i - 1] == k[i];
    }
  }

  lemma UpperVariant(k: string)
    requires IsLowerWord(k)
    ensures IsAlpha(Upper(k)) && !IsLowerWord(Upper(k))
  {
    forall i | 0 <= i < |k| ensures IsUpperLetter(Upper(k)[i]) {
      UpperAt(k, i);
    }
    assert !IsLowerLetter(Upper(k)[0]);
  }

  /** Distinct words of small letters have distinct capitalizations and upper cases. */
  lemma VariantsInjective(a: string, b: string)
    requires IsLowerWord(a) && IsLowerWord(b) && a != b
    ensures Capitalize(a) != Capitalize(b) && Upper(a) != Upper(b)
  {
    if |a| == |b| {
      var i :| 0 <= i < |a| && a[i] != b[i];
      UpperCharInjective(a[i], b[i]);
      UpperAt(a, i);
      UpperAt(b, i);
      if i > 0 {
        LowerAt(a[1..], i - 1);
        LowerAt(b[1..], i - 1);
        assert Capitalize(a)[i] == LowerChar(a[i]) == a[i];
        assert Capitalize(b)[i] == LowerChar(b[i]) == b[i];
      }
    }
  }

  /** A capitalized word of small letters is never an upper-cased word of several letters. */
  lemma CapitalizeNotUpper(a: string, b: string)
    requires IsLowerWord(a) && IsLowerWord(b) && |b| > 1
    ensures Capitalize(a) != Upper(b)
  {
    if |a| == |b| {
      LowerAt(a[1..], 0);
      UpperAt(b, 1);
      assert Capitalize(a)[1] == LowerChar(a[1]) == a[1];
    }
  }

  /** Distinct words of small letters have distinct variants, and no capitalized variant is an upper-case one. */
  lemma VariantsDistinct(a: string, b: string)
    requires IsLowerWord(a) && IsLowerWord(b)
    ensures a != b ==> Capitalize(a) != Capitalize(b) && Upper(a) != Upper(b)
    ensures |b| > 1 ==> Capitalize(a) != Upper(b)
  {
    if a != b {
      VariantsInjective(a, b);
    }
    if |b| > 1 {
      CapitalizeNotUpper(a, b);
    }
  }

  /** What the loop has done to the table `d` after visiting `ks`, when no write collides. */
  ghost predicate ExpandedCleanly(d: map<string, TransProb>, e: map<string, TransProb>, ks: set<string>) {
    && (forall k | k in d :: k in e && e[k] == d[k])
    && (forall k | k in ks && IsAlpha(k) :: Capitalize(k) in e && k in d
          && e[Capitalize(k)] == Capitalized(d[k]))
    && (forall k | k in ks && IsAlpha(k) && |k| > 1 :: Upper(k) in e && k in d
          && e[Upper(k)] == Uppered(d[k]))
  }

  /** The writes one turn makes, for an alphabetic grapheme whose own entry is `tp`. */
  lemma ExpandKeyWrites(e: Dict<string, TransProb>, k: string)
    requires e.Valid() && k in e.vals && IsLowerWord(k)
    ensures ExpandKey(e, k).vals == Turn(e.vals, k)
  {
    CaseVariants(k);
    assert Capitalize(k) != k;
  }

  /** The variants of `k` are new graphemes and differ from the variants of every other visited grapheme. */
  ghost predicate VariantsFresh(d: map<string, TransProb>, ks: set<string>, k: string) {
    && Capitalize(k) !in d && (|k| > 1 ==> Upper(k) !in d && Capitalize(k) != Upper(k))
    && (forall k' | k' in ks && IsAlpha(k') && k' != k ::
          Capitalize(k) != Capitalize(k') && (|k| > 1 ==> Upper(k) != Capitalize(k')))
    && (forall k' | k' in ks && IsAlpha(k') && k' != k && |k'| > 1 ::
          Capitalize(k) != Upper(k') && (|k| > 1 ==> Upper(k) != Upper(k')))
  }

  lemma LowercaseVariantsFresh(d: map<string, TransProb>, ks: set<string>, k: string)
    requires IsLowerWord(k)
    requires forall k' | k' in d && IsAlpha(k') :: IsLowerWord(k')
    requires forall k' | k' in ks :: k' in d
    ensures VariantsFresh(d, ks, k)
  {
    CaseVariants(k);
    VariantsDistinct(k, k);
    forall k' | k' in ks && IsAlpha(k') && k' != k
      ensures Capitalize(k) != Capitalize(k') && (|k| > 1 ==> Upper(k) != Capitalize(k'))
      ensures |k'| > 1 ==> Capitalize(k) != Upper(k') && (|k| > 1 ==> Upper(k) != Upper(k'))
    {
      VariantsDistinct(k, k');
      VariantsDistinct(k', k);
    }
  }

  /** The table after one turn for `k` whose entry in `e` is written into its variants. */
  function Turn(e: map<string, TransProb>, k: string): map<string, TransProb>
    requires k in e
  {
    if |k| > 1 then e[Capitalize(k) := Capitalized(e[k])][Upper(k) := Uppered(e[k])]
    else e[Capitalize(k) := Capitalized(e[k])]
  }

  /** One turn of the loop whose writes collide with nothing keeps the earlier writes. */
  lemma StepCleanly(d: map<string, TransProb>, e: map<string, TransProb>, ks: set<string>, k: string)
    requires k in d && IsAlpha(k) && VariantsFresh(d, ks, k)
    requires ExpandedCleanly(d, e, ks)
    ensures ExpandedCleanly(d, Turn(e, k), ks + {k})
  {
    var r := Turn(e, k);
    forall k' | k' in d ensures k' in r && r[k'] == d[k'] {
      StepKeepsOriginal(d, e, ks, k, k');
    }
    forall k' | k' in ks + {k} && IsAlpha(k')
      ensures Capitalize(k') in r && k' in d && r[Capitalize(k')] == Capitalized(d[k'])
    {
      StepCapital(d, e, ks, k, k');
    }
    forall k' | k' in ks + {k} && IsAlpha(k') && |k'| > 1
      ensures Upper(k') in r && k' in d && r[Upper(k')] == Uppered(d[k'])
    {
      StepUpper(d, e, ks, k, k');
    }
  }

  lemma StepKeepsOriginal(d: map<string, TransProb>, e: map<string, TransProb>, ks: set<string>, k: string, k': string)
    requires k in d && VariantsFresh(d, ks, k) && ExpandedCleanly(d, e, ks)
    requires k' in d
    ensures k' in Turn(e, k) && Turn(e, k)[k'] == d[k']
  {
    assert k' in e && e[k'] == d[k'];
    assert k' != Capitalize(k);
    assert |k| > 1 ==> k' != Upper(k);
  }

  lemma StepCapital(d: map<string, TransProb>, e: map<string, TransProb>, ks: set<string>, k: string, k': string)
    requires k in d && IsAlpha(k) && VariantsFresh(d, ks, k) && ExpandedCleanly(d, e, ks)
    requires k' in ks + {k} && IsAlpha(k')
    ensures Capitalize(k') in Turn(e, k) && k' in d && Turn(e, k)[Capitalize(k')] == Capitalized(d[k'])
  {
    if k' == k {
      assert e[k] == d[k];
      assert |k| > 1 ==> Capitalize(k) != Upper(k);
    } else {
      assert k' in ks;
      assert Capitalize(k') != Capitalize(k);
      assert |k| > 1 ==> Capitalize(k') != Upper(k);
    }
  }

  lemma StepUpper(d: map<string, TransProb>, e: map<string, TransProb>, ks: set<string>, k: string, k': string)
    requires k in d && IsAlpha(k) && VariantsFresh(d, ks, k) && ExpandedCleanly(d, e, ks)
    requires k' in ks + {k} && IsAlpha(k') && |k'| > 1
    ensures Upper(k') in Turn(e, k) && k' in d && Turn(e, k)[Upper(k')] == Uppered(d[k'])
  {
    if k' == k {
      assert e[k] == d[k];
    } else {
      assert k' in ks;
      assert Upper(k') != Capitalize(k);
      assert |k| > 1 ==> Upper(k') != Upper(k);
    }
  }

  /**
   * When every alphabetic grapheme of the key is a word of small letters (as
   * the key format asks) and each is visited once, no write lands on an
   * original grapheme or on another grapheme's variant: the originals keep
   * their entries and every variant holds the re-cased candidates of its own
   * original with the same weights.
   */
  lemma {:induction false} ExpandLowercase(d: Dict<string, TransProb>, ks: seq<string>)
    requires d.Valid()
    requires forall i | 0 <= i < |ks| :: ks[i] in d.vals
    requires forall k | k in d.vals && IsAlpha(k) :: IsLowerWord(k)
    ensures ExpandedCleanly(d.vals, ExpandAll(d, ks).vals, set x | x in ks)
  {
    if ks != [] {
      var init, k := ks[..|ks| - 1], ks[|ks| - 1];
      assert ks == init + [k];
      var visited := set x | x in init;
      assert (set x | x in ks) == visited + {k};
      assert forall j | 0 <= j < |init| :: init[j] == ks[j];
      ExpandLowercase(d, init);
      var e := ExpandAll(d, init);
      var r := ExpandAll(d, ks).vals;
      if IsAlpha(k) {
        ExpandKeyWrites(e, k);
        LowercaseVariantsFresh(d.vals, visited, k);
        StepCleanly(d.vals, e.vals, visited, k);
      } else {
        assert r == e.vals;
        NonAlphaCleanly(d.vals, r, visited, k);
      }
    }
  }

  lemma NonAlphaCleanly(d: map<string, TransProb>, e: map<string, TransProb>, ks: set<string>, k: string)
    requires !IsAlpha(k) && ExpandedCleanly(d, e, ks)
    ensures ExpandedCleanly(d, e, ks + {k})
  {
  }

  /**
   * A key that lists both `a` and `A`: visiting `a` writes the entry for `A`,
   * which replaces the one the key gave `A`, and the later visit of `A`
   * rewrites it from that replacement.
   */
  lemma CapitalEntryReplaced()
    ensures var d := Dict(["a", "A"], map["a" := TransProb(["x"], [1.0]), "A" := TransProb(["y"], [1.0])]);
      d.Valid() && ExpandAll(d, d.keys).vals["A"] == TransProb(["X"], [1.0])
  {
    var d := Dict(["a", "A"], map["a" := TransProb(["x"], [1.0]), "A" := TransProb(["y"], [1.0])]);
    assert IsAlpha("a") && IsAlpha("A");
    assert Capitalize("a") == "A" && Capitalize("A") == "A";
    assert Capitalize("x") == "X" && Capitalize("X") == "X";
    assert CapitalizeItems(["x"]) == ["X"] && CapitalizeItems(["X"]) == ["X"];
    var e := ExpandKey(d, "a");
    assert e.vals["A"] == TransProb(["X"], [1.0]);
    assert ["a", "A"][..1] == ["a"];
    assert ExpandAll(d, ["a"]) == e;
  }

  /**
   * The variants keep the weights and the number of candidates of the entry
   * they come from, so a table whose every entry sampling accepts keeps that
   * property through the whole loop.
   */
  lemma {:induction false} ExpandAllWellFormed(d: Dict<string, TransProb>, ks: seq<string>)
    requires d.Valid() && forall i | 0 <= i < |ks| :: ks[i] in d.vals
    requires forall k | k in d.vals :: WellFormed(d.vals[k])
    ensures forall k | k in ExpandAll(d, ks).vals :: WellFormed(ExpandAll(d, ks).vals[k])
  {
    if ks != [] {
      var init, k := ks[..|ks| - 1], ks[|ks| - 1];
      assert forall i | 0 <= i < |init| :: init[i] == ks[i];
      ExpandAllWellFormed(d, init);
      ExpandKeyWellFormed(ExpandAll(d, init), k);
    }
  }

  lemma ExpandKeyWellFormed(e: Dict<string, TransProb>, k: string)
    requires e.Valid() && k in e.vals
    requires forall x | x in e.vals :: WellFormed(e.vals[x])
    ensures forall x | x in ExpandKey(e, k).vals :: WellFormed(ExpandKey(e, k).vals[x])
  {
    if IsAlpha(k) {
      var d1 := e.Set(Capitalize(k), Capitalized(e.vals[k]));
      assert WellFormed(Capitalized(e.vals[k]));
      assert forall x | x in d1.vals :: WellFormed(d1.vals[x]);
      if |k| > 1 {
        var d2 := d1.Set(Upper(k), Uppered(d1.vals[k]));
        assert WellFormed(Uppered(d1.vals[k]));
        assert ExpandKey(e, k).vals == d2.vals;
      } else {
        assert ExpandKey(e, k).vals == d1.vals;
      }
    }
  }

}
