/**
 * The `Vocabulary` of `vocab.py`: the special tokens first, then every token
 * of a `Counter` that is frequent enough, in the counter's order; a map from
 * token back to index; lookups that fall back on `<UNK>`; and the character
 * count that builds one from the lines of some files.
 */
module Vocab {
  import opened Results
  import opened PyStrings
  import opened OrderedDicts
  import opened Counters

  const Unk := "<UNK>"

  /** The counter `d` after `del d[s]` for each special `s` of `ks`, in order. */
  function RemoveAll(d: Dict<string, int>, ks: seq<string>): (r: Dict<string, int>)
    requires d.Valid()
    ensures r.Valid()
    ensures r.vals.Keys == d.vals.Keys - set k | k in ks
    ensures forall k | k in r.vals :: r.vals[k] == d.vals[k]
  {
    if ks == [] then d else RemoveAll(d, ks[..|ks| - 1]).Remove(ks[|ks| - 1])
  }

  /** The tokens of `ks` whose count in `d` is at least `minFreq`, in the order of `ks`. */
  function Frequent(d: Dict<string, int>, ks: seq<string>, minFreq: int): (r: seq<string>)
    ensures forall x :: x in r <==> x in ks && Count(d, x) >= minFreq
  {
    if ks == [] then []
    else
      var k := ks[|ks| - 1];
      Frequent(d, ks[..|ks| - 1], minFreq) + if Count(d, k) >= minFreq then [k] else []
  }

  lemma {:induction false} FrequentDistinct(d: Dict<string, int>, ks: seq<string>, minFreq: int)
    requires Distinct(ks)
    ensures Distinct(Frequent(d, ks, minFreq))
  {
    if ks != [] {
      var init := ks[..|ks| - 1];
      assert Distinct(init) by {
        forall i, j | 0 <= i < j < |init| ensures init[i] != init[j] {
          assert init[i] == ks[i] && init[j] == ks[j];
        }
      }
      FrequentDistinct(d, init, minFreq);
      assert ks[|ks| - 1] !in init by {
        forall i | 0 <= i < |init| ensures init[i] != ks[|ks| - 1] {
          assert init[i] == ks[i];
        }
      }
    }
  }

  /** `{tokens[i]: i for i in range(len(tokens))}`: a later index overwrites an earlier one. */
  function IndexMap(tokens: seq<string>): (m: map<string, int>)
    ensures m.Keys == set t | t in tokens
  {
    if tokens == [] then map[]
    else IndexMap(tokens[..|tokens| - 1])[tokens[|tokens| - 1] := |tokens| - 1]
  }

  /** A token listed more than once is mapped to its last index. */
  lemma {:induction false} IndexMapLast(tokens: seq<string>, t: string)
    requires t in tokens
    ensures t in IndexMap(tokens)
    ensures var i := IndexMap(tokens)[t];
      0 <= i < |tokens| && tokens[i] == t && forall j | i < j < |tokens| :: tokens[j] != t
  {
    var init := tokens[..|tokens| - 1];
    if tokens[|tokens| - 1] != t {
      assert t in init;
      IndexMapLast(init, t);
      var i := IndexMap(init)[t];
      forall j | i < j < |tokens| ensures tokens[j] != t {
        if j < |tokens| - 1 {
          assert tokens[j] == init[j];
        }
      }
    }
  }

  /** Without duplicates, the map is the exact inverse of the list. */
  lemma IndexMapExact(tokens: seq<string>)
    requires Distinct(tokens)
    ensures forall i | 0 <= i < |tokens| :: IndexMap(tokens)[tokens[i]] == i
  {
    forall i | 0 <= i < |tokens| ensures IndexMap(tokens)[tokens[i]] == i {
      IndexMapLast(tokens, tokens[i]);
    }
  }

  /**
   * `__getindex__(token)` on the vocabulary listing `tokens`: the token's
   * index, else the index of `<UNK>`, else `KeyError`, since `<UNK>` is only
   * listed when the specials or the counter bring it in.
   */
  function IndexOf(tokens: seq<string>, t: string): (r: Result<int>)
    ensures r.Ok? ==> 0 <= r.value < |tokens| && tokens[r.value] == (if t in tokens then t else Unk)
    ensures r.Ok? ==> forall j | r.value < j < |tokens| :: tokens[j] != tokens[r.value]
    ensures r.Err? <==> t !in tokens && Unk !in tokens
    ensures r.Err? ==> r.error == KeyError
  {
    if t in tokens then
      IndexMapLast(tokens, t);
      Ok(IndexMap(tokens)[t])
    else if Unk in tokens then
      IndexMapLast(tokens, Unk);
      Ok(IndexMap(tokens)[Unk])
    else Err(KeyError)
  }

  /** `tokens_to_indices(ts)`: the index of each token, in order; the first `KeyError` ends it. */
  function Encode(tokens: seq<string>, ts: seq<string>): (r: Result<seq<int>>)
    ensures r.Err? ==> r.error == KeyError
  {
    if ts == [] then Ok([])
    else
      match IndexOf(tokens, ts[0])
      case Err(e) => Err(e)
      case Ok(i) =>
        match Encode(tokens, ts[1..])
        case Err(e) => Err(e)
        case Ok(rest) => Ok([i] + rest)
  }

  /** The tokens encode exactly when each has an index, and then each is replaced by its index. */
  lemma {:induction false} EncodeSpec(tokens: seq<string>, ts: seq<string>)
    ensures Encode(tokens, ts).Ok? <==> forall k | 0 <= k < |ts| :: IndexOf(tokens, ts[k]).Ok?
    ensures Encode(tokens, ts).Ok? ==>
      |Encode(tokens, ts).value| == |ts| && forall k | 0 <= k < |ts| :: IndexOf(tokens, ts[k]) == Ok(Encode(tokens, ts).value[k])
  {
    if ts != [] {
      EncodeSpec(tokens, ts[1..]);
      assert forall k | 1 <= k < |ts| :: ts[k] == ts[1..][k - 1];
    }
  }

  /** `list(s)`: each character as a one-character string. */
  function Chars(s: string): (r: seq<string>)
    ensures |r| == |s|
  {
    if s == [] then [] else [[s[0]]] + Chars(s[1..])
  }

  /** Item `i` of `list(s)` is the one-character string of character `i`. */
  lemma {:induction false} CharsAt(s: string)
    ensures forall i | 0 <= i < |s| :: Chars(s)[i] == [s[i]]
  {
    if s != [] {
      CharsAt(s[1..]);
    }
  }

  lemma {:induction false} CharsAppend(a: string, b: string)
    ensures Chars(a + b) == Chars(a) + Chars(b)
  {
    if a == [] {
      assert a + b == b;
    } else {
      assert (a + b)[1..] == a[1..] + b;
      CharsAppend(a[1..], b);
    }
  }

  /** Counting `list(s)` counts each character of `s`, as a one-character string, and nothing else. */
  lemma {:induction false} CharsCount(s: string, k: string)
    ensures multiset(Chars(s))[k] == if |k| == 1 then multiset(s)[k[0]] else 0
  {
    if s != [] {
      CharsCount(s[1..], k);
      assert s == [s[0]] + s[1..];
      assert Chars(s) == [[s[0]]] + Chars(s[1..]);
      assert multiset(Chars(s))[k] == (if [s[0]] == k then 1 else 0) + multiset(Chars(s[1..]))[k];
      if |k| == 1 {
        assert k == [k[0]];
        assert multiset(s)[k[0]] == (if s[0] == k[0] then 1 else 0) + multiset(s[1..])[k[0]];
      }
    }
  }

  /** The text of some lines, each with `strip("\n")` applied, one after the other. */
  function LinesText(lines: seq<string>): string {
    if lines == [] then [] else LinesText(lines[..|lines| - 1]) + StripNewlines(lines[|lines| - 1])
  }

  /** The text of every line of every file, in order. */
  function FilesText(files: seq<seq<string>>): string {
    if files == [] then [] else FilesText(files[..|files| - 1]) + LinesText(files[|files| - 1])
  }

  /**
   * The counter `chars_from_files` builds holds, for every character, its
   * number of occurrences in the text with the line ends stripped; so a
   * space or a tab is counted like any other character.
   */
  lemma CharCounts(text: string, k: string)
    ensures Count(Tally(Empty(), Chars(text)), k) == if |k| == 1 then multiset(text)[k[0]] else 0
  {
    TallyCounts(Empty(), Chars(text), k);
    CharsCount(text, k);
  }

  /** A file holding the one line `"a b\n"` has the text `"a b"`. */
  lemma OneLineText()
    ensures FilesText([["a b\n"]]) == "a b"
  {
    var line := "a b\n";
    assert line[0] == 'a' && line[3] == '\n';
    assert TrimStart(line, IsNewline) == line;
    assert line[..3] == "a b";
    assert TrimEnd(line[..3], IsNewline) == "a b";
    assert StripNewlines(line) == "a b";
    var lines: seq<string> := [line];
    assert lines[..0] == [];
    assert LinesText([line]) == "a b";
    var files: seq<seq<string>> := [[line]];
    assert files[..0] == [];
  }

  /** `"a b\n"` contributes one space and no line end to the count. */
  lemma SpaceCounted()
    ensures Count(Tally(Empty(), Chars(FilesText([["a b\n"]]))), " ") == 1
    ensures Count(Tally(Empty(), Chars(FilesText([["a b\n"]]))), "\n") == 0
  {
    OneLineText();
    CharCounts("a b", " ");
    CharCounts("a b", "\n");
    assert multiset("a b") == multiset{'a', ' ', 'b'};
  }

  class Vocabulary {
    var specials: seq<string>
    var tokens: Counter
    var indexToToken: seq<string>
    var tokenToIndex: map<string, int>

    /** The map is the dict comprehension of the list. */
    ghost predicate Valid()
      reads this
    {
      tokenToIndex == IndexMap(indexToToken)
    }

    /**
     * `Vocabulary(tokens, specials, min_freq)`: the caller's counter itself
     * loses the specials (a missing one is ignored); the list is the specials
     * followed by the remaining frequent tokens in counter order.
     */
    constructor (tokens0: Counter, specials0: seq<string>, minFreq: int)
      requires tokens0.Valid()
      modifies tokens0
      ensures Valid()
      ensures specials == specials0 + [Unk]
      ensures tokens == tokens0 && tokens0.Valid()
      ensures tokens0.dict == RemoveAll(old(tokens0.dict), specials0)
      ensures indexToToken == specials0 + Frequent(tokens0.dict, tokens0.dict.keys, minFreq)
    {
      DeleteAll(tokens0, specials0);
      var fr := FrequentKeys(tokens0, minFreq);
      var itt := specials0 + fr;
      var tti := IndexMapOf(itt);
      specials := specials0 + [Unk];
      tokens := tokens0;
      indexToToken := itt;
      tokenToIndex := tti;
    }

    /** `len(vocab)`: every index the vocabulary hands out lies below it. */
    function Len(): (n: nat)
      reads this
      requires Valid()
      ensures n == |indexToToken|
      ensures forall t | t in tokenToIndex :: 0 <= tokenToIndex[t] < n
    {
      LenBoundsIndices(indexToToken);
      |indexToToken|
    }

    /** `__getindex__(token)`, answered from the map. */
    function GetIndex(t: string): (r: Result<int>)
      reads this
      requires Valid()
      ensures r == IndexOf(indexToToken, t)
    {
      if t in tokenToIndex then Ok(tokenToIndex[t])
      else if Unk in tokenToIndex then Ok(tokenToIndex[Unk])
      else Err(KeyError)
    }

    /** `tokens_to_indices(ts)` */
    function TokensToIndices(ts: seq<string>): (r: Result<seq<int>>)
      reads this
      requires Valid()
      ensures r == Encode(indexToToken, ts)
    {
      if ts == [] then Ok([])
      else
        match GetIndex(ts[0])
        case Err(e) => Err(e)
        case Ok(i) =>
          match TokensToIndices(ts[1..])
          case Err(e) => Err(e)
          case Ok(rest) => Ok([i] + rest)
    }
  }

  lemma {:induction false} LenBoundsIndices(tokens: seq<string>)
    ensures forall t | t in IndexMap(tokens) :: 0 <= IndexMap(tokens)[t] < |tokens|
  {
    forall t | t in IndexMap(tokens) ensures 0 <= IndexMap(tokens)[t] < |tokens| {
      IndexMapLast(tokens, t);
    }
  }

  /** `for s in specials: del tokens[s]` */
  method DeleteAll(c: Counter, ks: seq<string>)
    requires c.Valid()
    modifies c
    ensures c.Valid() && c.dict == RemoveAll(old(c.dict), ks)
  {
    ghost var d0 := c.dict;
    for i := 0 to |ks|
      invariant c.Valid() && c.dict == RemoveAll(d0, ks[..i])
    {
      assert ks[..i + 1][..i] == ks[..i];
      c.Delete(ks[i]);
    }
    assert ks[..|ks|] == ks;
  }

  /** The tokens the loop over `tokens.keys()` appends: those counted at least `minFreq` times. */
  method FrequentKeys(c: Counter, minFreq: int) returns (fr: seq<string>)
    ensures fr == Frequent(c.dict, c.dict.keys, minFreq)
  {
    fr := [];
    var keys := c.dict.keys;
    for i := 0 to |keys|
      invariant fr == Frequent(c.dict, keys[..i], minFreq)
    {
      assert keys[..i + 1][..i] == keys[..i];
      if c.Get(keys[i]) >= minFreq {
        fr := fr + [keys[i]];
      }
    }
    assert keys[..|keys|] == keys;
  }

  /** The loop that builds `token_to_index`. */
  method IndexMapOf(tokens: seq<string>) returns (m: map<string, int>)
    ensures m == IndexMap(tokens)
  {
    m := map[];
    for i := 0 to |tokens|
      invariant m == IndexMap(tokens[..i])
    {
      assert tokens[..i + 1][..i] == tokens[..i];
      m := m[tokens[i] := i];
    }
    assert tokens[..|tokens|] == tokens;
  }

  /**
   * No special is listed twice: after the specials, no position holds one,
   * whatever the counter held.
   */
  lemma SpecialsListedOnce(d: Dict<string, int>, specials0: seq<string>, minFreq: int)
    requires d.Valid()
    ensures var e := RemoveAll(d, specials0);
      var itt := specials0 + Frequent(e, e.keys, minFreq);
      forall i | |specials0| <= i < |itt| :: itt[i] !in specials0
  {
    var e := RemoveAll(d, specials0);
    var itt := specials0 + Frequent(e, e.keys, minFreq);
    forall i | |specials0| <= i < |itt| ensures itt[i] !in specials0 {
      assert itt[i] in Frequent(e, e.keys, minFreq);
    }
  }

  /**
   * With distinct specials, the list has no duplicates, so `token_to_index`
   * is its exact inverse.
   */
  lemma {:induction false} ExactInverse(d: Dict<string, int>, specials0: seq<string>, minFreq: int)
    requires d.Valid() && Distinct(specials0)
    ensures var e := RemoveAll(d, specials0);
      var itt := specials0 + Frequent(e, e.keys, minFreq);
      Distinct(itt) && forall i | 0 <= i < |itt| :: IndexMap(itt)[itt[i]] == i
  {
    var e := RemoveAll(d, specials0);
    var fr := Frequent(e, e.keys, minFreq);
    var itt := specials0 + fr;
    FrequentDistinct(e, e.keys, minFreq);
    SpecialsListedOnce(d, specials0, minFreq);
    forall i, j | 0 <= i < j < |itt| ensures itt[i] != itt[j] {
      if j < |specials0| {
        assert itt[i] == specials0[i] && itt[j] == specials0[j];
      } else if i >= |specials0| {
        assert itt[i] == fr[i - |specials0|] && itt[j] == fr[j - |specials0|];
      } else {
        assert itt[i] == specials0[i] && itt[j] == fr[j - |specials0|];
        assert fr[j - |specials0|] in fr;
      }
    }
    IndexMapExact(itt);
  }

  /** `Vocabulary.chars_from_files(files, specials=..., min_freq=...)` over the lines of each file. */
  method CharsFromFiles(files: seq<seq<string>>, specials0: seq<string>, minFreq: int) returns (v: Vocabulary)
    ensures fresh(v) && fresh(v.tokens) && v.Valid()
    ensures v.tokens.dict == RemoveAll(Tally(Empty(), Chars(FilesText(files))), specials0)
    ensures v.indexToToken == specials0 + Frequent(v.tokens.dict, v.tokens.dict.keys, minFreq)
  {
    var tokens := new Counter();
    for i := 0 to |files|
      invariant fresh(tokens) && tokens.Valid() && tokens.dict == Tally(Empty(), Chars(FilesText(files[..i])))
    {
      ghost var before := FilesText(files[..i]);
      CountLines(tokens, files[i]);
      assert files[..i + 1][..i] == files[..i];
      CharsAppend(before, LinesText(files[i]));
      TallyAppend(Empty(), Chars(before), Chars(LinesText(files[i])));
    }
    assert files[..|files|] == files;
    v := new Vocabulary(tokens, specials0, minFreq);
  }

  /** The loop over the lines of one file: `tokens.update(list(line.strip("\n")))` for each. */
  method CountLines(tokens: Counter, lines: seq<string>)
    requires tokens.Valid()
    modifies tokens
    ensures tokens.Valid() && tokens.dict == Tally(old(tokens.dict), Chars(LinesText(lines)))
  {
    ghost var d0 := tokens.dict;
    assert lines[..0] == [];
    for j := 0 to |lines|
      invariant tokens.Valid() && tokens.dict == Tally(d0, Chars(LinesText(lines[..j])))
    {
      var chars := Chars(StripNewlines(lines[j]));
      assert lines[..j + 1][..j] == lines[..j];
      CharsAppend(LinesText(lines[..j]), StripNewlines(lines[j]));
      TallyAppend(d0, Chars(LinesText(lines[..j])), chars);
      tokens.Update(chars);
    }
    assert lines[..|lines|] == lines;
  }
}
