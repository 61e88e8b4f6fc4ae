/**
 * What `Romanizer.segment_str` computes: the input cut, left to right, into
 * the longest grapheme of several characters that starts the rest of the
 * input, or into a single character where none does.
 */
module Segmenter {
  import opened PyStrings

  /** The first `l` characters of `s` form a grapheme of several characters. */
  predicate KeyPrefix(keys: set<string>, s: string, l: nat) {
    1 < l <= |s| && s[..l] in keys
  }

  /**
   * The length of the longest grapheme of several characters that starts `s`
   * and is at most `n` long, or 0 when there is none.
   */
  function MatchLen(keys: set<string>, s: string, n: nat): (l: nat)
    requires n <= |s|
    ensures l <= n
    ensures l != 0 ==> KeyPrefix(keys, s, l)
    ensures forall m | l < m <= n :: !KeyPrefix(keys, s, m)
  {
    if n < 2 then 0
    else if s[..n] in keys then n
    else MatchLen(keys, s, n - 1)
  }

  /** Looking further than the last possible grapheme end changes nothing. */
  lemma {:induction false} MatchLenBeyond(keys: set<string>, s: string, n: nat, n': nat)
    requires n <= n' <= |s|
    requires forall m | n < m <= n' :: !KeyPrefix(keys, s, m)
    ensures MatchLen(keys, s, n') == MatchLen(keys, s, n)
    decreases n'
  {
    if n' > n {
      MatchLenBeyond(keys, s, n, n' - 1);
    }
  }

  /** The length of the first segment of a non-empty `s`. */
  function FirstLen(keys: set<string>, s: string): (n: nat)
    requires s != []
    ensures 1 <= n <= |s|
  {
    var l := MatchLen(keys, s, |s|);
    if l == 0 then 1 else l
  }

  /** `segment_str(s)` for the graphemes `keys` of several characters. */
  function Segments(keys: set<string>, s: string): (r: seq<string>)
    ensures s == [] <==> r == []
    decreases |s|
  {
    if s == [] then []
    else
      var n := FirstLen(keys, s);
      [s[..n]] + Segments(keys, s[n..])
  }

  /** Joining the segments gives the input back: nothing is lost, repeated or reordered. */
  lemma {:induction false} SegmentsConcat(keys: set<string>, s: string)
    ensures Concat(Segments(keys, s)) == s
    decreases |s|
  {
    if s != [] {
      var n := FirstLen(keys, s);
      var r := Segments(keys, s);
      SegmentsConcat(keys, s[n..]);
      assert r[1..] == Segments(keys, s[n..]);
      assert s == s[..n] + s[n..];
    }
  }

  /** Every segment is a single character or a grapheme of several characters. */
  lemma {:induction false} SegmentsAreGraphemes(keys: set<string>, s: string)
    ensures forall i | 0 <= i < |Segments(keys, s)| ::
      |Segments(keys, s)[i]| == 1 || (|Segments(keys, s)[i]| > 1 && Segments(keys, s)[i] in keys)
    decreases |s|
  {
    if s != [] {
      var n := FirstLen(keys, s);
      var r, tail := Segments(keys, s), Segments(keys, s[n..]);
      SegmentsAreGraphemes(keys, s[n..]);
      assert r == [s[..n]] + tail;
      forall i | 0 <= i < |r| ensures |r[i]| == 1 || (|r[i]| > 1 && r[i] in keys) {
        if i > 0 {
          assert r[i] == tail[i - 1];
        } else {
          assert r[0] == s[..n];
          if MatchLen(keys, s, |s|) != 0 {
            assert KeyPrefix(keys, s, n);
          }
        }
      }
    }
  }

  /**
   * The first segment is the longest grapheme of several characters that
   * starts the input, or its first character when no such grapheme does.
   */
  lemma LongestFirst(keys: set<string>, s: string)
    requires s != []
    ensures var r := Segments(keys, s);
      && r != [] && r[0] <= s
      && (KeyPrefix(keys, s, |r[0]|) || (|r[0]| == 1 && forall m | 1 < m <= |s| :: !KeyPrefix(keys, s, m)))
      && forall m | |r[0]| < m <= |s| :: !KeyPrefix(keys, s, m)
  {
  }

  /** Text in which no grapheme of several characters starts anywhere is cut into its characters. */
  lemma {:induction false} NoKeysSingleChars(keys: set<string>, s: string)
    requires forall i, m | 0 <= i < |s| && i + 1 < m <= |s| :: s[i..m] !in keys
    ensures |Segments(keys, s)| == |s|
    ensures forall i | 0 <= i < |s| :: Segments(keys, s)[i] == [s[i]]
    decreases |s|
  {
    if s != [] {
      forall m | 1 < m <= |s| ensures !KeyPrefix(keys, s, m) {
        assert s[0..m] == s[..m];
      }
      assert FirstLen(keys, s) == 1;
      forall i, m | 0 <= i < |s[1..]| && i + 1 < m <= |s[1..]| ensures s[1..][i..m] !in keys {
        assert s[1..][i..m] == s[i + 1..m + 1];
      }
      NoKeysSingleChars(keys, s[1..]);
      assert s[..1] == [s[0]];
    }
  }
}
