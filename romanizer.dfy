/**
 * The `Romanizer` object: the table of graphemes and the trie of the
 * graphemes of several characters, built once by the constructor, then read
 * by segmentation and transliteration.
 */
module Romanization {
  import opened Results
  import opened OrderedDicts
  import opened KeyFile
  import opened CaseExpansion
  import opened GraphemeTrie
  import opened Segmenter
  import opened Sampler

  /** The graphemes of several characters in a table. */
  function LongKeys(table: map<string, TransProb>): set<string> {
    set k | k in table && |k| > 1
  }

  class Romanizer {
    var charProbs: Dict<string, TransProb>
    var longChars: Trie

    ghost predicate Valid()
      reads this
    {
      charProbs.Valid() && Indexes(longChars, LongKeys(charProbs.vals))
    }

    /**
     * `Romanizer(char_probs)`: the case variants are added to the table, then
     * every grapheme of several characters of the result goes into the trie.
     */
    constructor (charProbs0: Dict<string, TransProb>)
      requires charProbs0.Valid()
      ensures Valid()
      ensures charProbs == ExpandAll(charProbs0, charProbs0.keys)
    {
      var cp := ExpandCase(charProbs0);
      var longCharsList := LongCharsList(cp.keys);
      var trie := Build(longCharsList);
      LongCharsListed(cp, longCharsList);
      charProbs := cp;
      longChars := trie;
    }

    /** `segment_str(s)`. */
    method SegmentStr(s: string) returns (segments: seq<string>)
      requires Valid()
      ensures segments == Segments(LongKeys(charProbs.vals), s)
    {
      segments := Segment(longChars, LongKeys(charProbs.vals), s);
    }

    /**
     * `get_trans_str(s)`: the segments of `s` transliterated in order and
     * joined, taking the next draw for each grapheme that is sampled.
     */
    method GetTransStr(s: string, draws: seq<real>) returns (r: Result<string>)
      requires Valid() && ValidDraws(draws)
      requires DrawsUsed(charProbs.vals, Segments(LongKeys(charProbs.vals), s)) <= |draws|
      ensures r == Translit(charProbs.vals, Segments(LongKeys(charProbs.vals), s), draws)
    {
      var result := "";
      var sequence := SegmentStr(s);
      var used := 0;
      for k := 0 to |sequence|
        invariant used == DrawsUsed(charProbs.vals, sequence[..k])
        invariant used <= DrawsUsed(charProbs.vals, sequence)
        invariant Translit(charProbs.vals, sequence[..k], draws) == Ok(result)
      {
        var g := sequence[k];
        assert sequence[..k + 1][..k] == sequence[..k] && sequence[..k + 1][k] == g;
        assert sequence[..k + 1] + sequence[k + 1..] == sequence;
        DrawsUsedAppend(charProbs.vals, sequence[..k + 1], sequence[k + 1..]);
        var u := 0.0;
        if Sampled(charProbs.vals, g) {
          u := draws[used];
          used := used + 1;
        }
        match TransChar(charProbs.vals, g, u) {
          case Err(e) =>
            TranslitAppend(charProbs.vals, sequence[..k + 1], sequence[k + 1..], draws);
            r := Err(e);
            return;
          case Ok(c) =>
            result := result + c;
        }
      }
      assert sequence[..|sequence|] == sequence;
      r := Ok(result);
    }
  }

  /**
   * The graphemes of several characters among `keys`, in the order of `keys`:
   * exactly those graphemes, each as often as in `keys`.
   */
  function LongOf(keys: seq<string>): (r: seq<string>)
    ensures forall x :: x in r <==> x in keys && |x| > 1
    ensures Distinct(keys) ==> Distinct(r)
  {
    if keys == [] then []
    else
      assert keys == keys[..|keys| - 1] + [keys[|keys| - 1]];
      LongOf(keys[..|keys| - 1]) + if |keys[|keys| - 1]| > 1 then [keys[|keys| - 1]] else []
  }

  /** The constructor's loop `[k for k in char_probs if len(k) > 1]`, in the table's order. */
  method LongCharsList(keys: seq<string>) returns (list: seq<string>)
    ensures list == LongOf(keys)
  {
    list := [];
    for k := 0 to |keys|
      invariant list == LongOf(keys[..k])
    {
      assert keys[..k + 1][..k] == keys[..k];
      if |keys[k]| > 1 {
        list := list + [keys[k]];
      }
    }
    assert keys[..|keys|] == keys;
  }

  /** The non-empty graphemes of that list are the graphemes of several characters of the table. */
  lemma LongCharsListed(d: Dict<string, TransProb>, list: seq<string>)
    requires d.Valid()
    requires list == LongOf(d.keys)
    ensures (set x | x in list && x != []) == LongKeys(d.vals)
  {
  }

  /**
   * `segment_str(s)`: at each position, walk the trie as far as the input
   * allows, remember every grapheme passed on the way, and emit the last
   * one, or the single character when there was none.
   */
  method Segment(longChars: Trie, ghost keys: set<string>, s: string) returns (segments: seq<string>)
    requires Indexes(longChars, keys)
    ensures segments == Segments(keys, s)
  {
    segments := [];
    var i := 0;
    assert s[i..] == s;
    while i < |s|
      invariant 0 <= i <= |s|
      invariant segments + Segments(keys, s[i..]) == Segments(keys, s)
      decreases |s| - i
    {
      SegmentsStep(keys, s, i, segments);
      var seg := NextSegment(longChars, keys, s, i);
      segments := segments + [seg];
      i := i + |seg|;
    }
  }

  /**
   * The body of `segment_str`'s outer loop: the character at `i` alone when
   * it starts no path of the trie or no grapheme lies along its path, and
   * otherwise the last grapheme the walk collected.
   */
  method NextSegment(longChars: Trie, ghost keys: set<string>, s: string, i: nat) returns (seg: string)
    requires Indexes(longChars, keys) && i < |s|
    ensures i + FirstLen(keys, s[i..]) <= |s| && seg == s[i..i + FirstLen(keys, s[i..])]
  {
    if [s[i]] !in longChars.nodes {
      NoLongChar(longChars, keys, s, i);
      seg := [s[i]];
    } else {
      var candidates := Candidates(longChars, keys, s, i);
      if |candidates| == 0 {
        assert s[i..i + 1] == [s[i]];
        seg := [s[i]];
      } else {
        seg := candidates[|candidates| - 1];
        candidates := candidates[..|candidates| - 1];
      }
    }
  }

  /**
   * The inner loop of `segment_str`: from the node of `s[i]`, follow the
   * input down the trie, collecting each grapheme passed; the last one
   * collected is the first segment.
   */
  method Candidates(longChars: Trie, ghost keys: set<string>, s: string, i: nat) returns (candidates: seq<string>)
    requires Indexes(longChars, keys) && i < |s| && [s[i]] in longChars.nodes
    ensures candidates == [] ==> FirstLen(keys, s[i..]) == 1
    ensures candidates != [] ==> candidates[|candidates| - 1] == s[i..i + FirstLen(keys, s[i..])]
  {
    ghost var rest := s[i..];
    var j;
    candidates, j := Walk(longChars, keys, s, i);
    if j < |s| {
      assert s[i..j + 1] == rest[..j + 1 - i];
      OffTrie(longChars, keys, rest, j + 1 - i);
    }
    MatchLenBeyond(keys, rest, j - i, |rest|);
    assert rest[..MatchLen(keys, rest, j - i)] == s[i..i + MatchLen(keys, rest, j - i)];
  }

  /**
   * The walk itself: it stops at `j`, where the input ends or leaves the
   * trie, having collected a grapheme exactly when one of length at most
   * `j - i` starts at `i`, and the longest such one last.
   */
  method Walk(longChars: Trie, ghost keys: set<string>, s: string, i: nat) returns (candidates: seq<string>, j: nat)
    requires Indexes(longChars, keys) && i < |s| && [s[i]] in longChars.nodes
    ensures i < j <= |s| && (j < |s| ==> s[i..j + 1] !in longChars.nodes)
    ensures candidates == [] <==> MatchLen(keys, s[i..], j - i) == 0
    ensures candidates != [] ==> candidates[|candidates| - 1] == s[i..][..MatchLen(keys, s[i..], j - i)]
  {
    ghost var rest := s[i..];
    candidates := [];
    var curr := [s[i]];
    j := i + 1;
    while j < |s| && curr + [s[j]] in longChars.nodes
      invariant i < j <= |s|
      invariant curr == s[i..j]
      invariant candidates == [] <==> MatchLen(keys, rest, j - i) == 0
      invariant candidates != [] ==> candidates[|candidates| - 1] == rest[..MatchLen(keys, rest, j - i)]
      decreases |s| - j
    {
      assert s[i..j + 1] == curr + [s[j]] == rest[..j + 1 - i];
      WalkStep(longChars, keys, rest, j + 1 - i);
      curr := curr + [s[j]];
      j := j + 1;
      if curr in longChars.ends {
        candidates := candidates + [longChars.ends[curr]];
      }
    }
    if j < |s| {
      assert s[i..j + 1] == curr + [s[j]];
    }
  }

  /** One more character on the path: a key ending there is the longest match so far. */
  lemma WalkStep(t: Trie, keys: set<string>, rest: string, n: nat)
    requires Indexes(t, keys) && 2 <= n <= |rest|
    ensures rest[..n] in t.ends ==> MatchLen(keys, rest, n) == n && t.ends[rest[..n]] == rest[..n]
    ensures rest[..n] !in t.ends ==> MatchLen(keys, rest, n) == MatchLen(keys, rest, n - 1)
  {
  }

  /** A character that starts no path of the trie is a segment of its own. */
  lemma NoLongChar(t: Trie, keys: set<string>, s: string, i: nat)
    requires Indexes(t, keys) && i < |s| && [s[i]] !in t.nodes
    ensures FirstLen(keys, s[i..]) == 1 && s[i..i + 1] == [s[i]]
  {
    var rest := s[i..];
    assert rest[..1] == [s[i]];
    OffTrie(t, keys, rest, 1);
    MatchLenBeyond(keys, rest, 1, |rest|);
  }

  /** No grapheme of the trie's keys extends a path that is not in the trie. */
  lemma OffTrie(t: Trie, keys: set<string>, rest: string, q: nat)
    requires Indexes(t, keys) && 1 <= q <= |rest| && rest[..q] !in t.nodes
    ensures forall m | q <= m <= |rest| :: !KeyPrefix(keys, rest, m)
  {
    forall m | q <= m <= |rest| ensures !KeyPrefix(keys, rest, m) {
      if KeyPrefix(keys, rest, m) {
        assert rest[..q] <= rest[..m];
        assert OnSomePath(rest[..q], keys);
      }
    }
  }

  /** Emitting the first segment of `s[i..]` after `segs` and moving past it keeps the loop's invariant. */
  lemma SegmentsStep(keys: set<string>, s: string, i: nat, segs: seq<string>)
    requires i < |s| && segs + Segments(keys, s[i..]) == Segments(keys, s)
    ensures var n := FirstLen(keys, s[i..]);
      i + n <= |s| && (segs + [s[i..i + n]]) + Segments(keys, s[i + n..]) == Segments(keys, s)
  {
    var n := FirstLen(keys, s[i..]);
    assert s[i..][..n] == s[i..i + n];
    assert s[i..][n..] == s[i + n..];
    assert Segments(keys, s[i..]) == [s[i..i + n]] + Segments(keys, s[i + n..]);
  }

  /** `Romanizer.from_file`: the key's lines parsed into a table, which the constructor completes. */
  method FromFile(lines: seq<string>, prop: real) returns (r: Romanizer)
    requires forall i | 0 <= i < |lines| :: NoInnerNewline(lines[i])
    ensures r.Valid()
    ensures r.charProbs == ExpandAll(ParseLines(lines, prop), ParseLines(lines, prop).keys)
  {
    var charProbs := FromLines(lines, prop);
    r := new Romanizer(charProbs);
  }

  /**
   * A romanizer loaded from a key never raises while transliterating: every
   * entry the key's lines produce, and every case variant made from one, is
   * one that `random.choices` accepts.
   */
  lemma FromFileNeverFails(lines: seq<string>, prop: real, s: string, draws: seq<real>)
    requires forall i | 0 <= i < |lines| :: NoInnerNewline(lines[i])
    requires ValidDraws(draws)
    ensures var d := ParseLines(lines, prop);
      var table := ExpandAll(d, d.keys).vals;
      DrawsUsed(table, Segments(LongKeys(table), s)) <= |draws| ==>
        Translit(table, Segments(LongKeys(table), s), draws).Ok?
  {
    var d := ParseLines(lines, prop);
    ParseLinesWellFormed(lines, prop);
    ExpandAllWellFormed(d, d.keys);
    var table := ExpandAll(d, d.keys).vals;
    if DrawsUsed(table, Segments(LongKeys(table), s)) <= |draws| {
      TranslitNeverFails(table, Segments(LongKeys(table), s), draws);
    }
  }
}
