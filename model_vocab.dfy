/**
 * `Model/vocab.py`: the same `Vocabulary` class as `vocab.py` (modelled once,
 * as `Vocab.Vocabulary`), with a `chars_from_files` that removes every
 * whitespace character of a line, not only its line ends, before counting.
 */
module ModelVocab {
  import opened PyStrings
  import opened OrderedDicts
  import opened Counters
  import opened Vocab

  /** The text of some lines, each passed through `''.join(line.split())`, one after the other. */
  function LinesText(lines: seq<string>): string {
    if lines == [] then [] else LinesText(lines[..|lines| - 1]) + RemoveSpaces(lines[|lines| - 1])
  }

  /** The text of every line of every file, in order. */
  function FilesText(files: seq<seq<string>>): string {
    if files == [] then [] else FilesText(files[..|files| - 1]) + LinesText(files[|files| - 1])
  }

  /** The lines as read, joined. */
  function RawText(files: seq<seq<string>>): string {
    if files == [] then [] else RawText(files[..|files| - 1]) + Concat(files[|files| - 1])
  }

  lemma {:induction false} LinesTextNoSpace(lines: seq<string>)
    ensures forall c | c in LinesText(lines) :: !IsSpace(c)
    ensures forall c | !IsSpace(c) :: multiset(LinesText(lines))[c] == multiset(Concat(lines))[c]
  {
    if lines != [] {
      var init, last := lines[..|lines| - 1], lines[|lines| - 1];
      LinesTextNoSpace(init);
      RemoveSpacesCounts(last);
      assert lines == init + [last];
      ConcatAppend(init, [last]);
      assert Concat([last]) == last + Concat([]);
      forall c | c in RemoveSpaces(last) ensures !IsSpace(c) {
        var i :| 0 <= i < |RemoveSpaces(last)| && RemoveSpaces(last)[i] == c;
      }
    }
  }

  /** No whitespace survives, and every other character keeps its number of occurrences. */
  lemma {:induction false} FilesTextNoSpace(files: seq<seq<string>>)
    ensures forall c | c in FilesText(files) :: !IsSpace(c)
    ensures forall c | !IsSpace(c) :: multiset(FilesText(files))[c] == multiset(RawText(files))[c]
  {
    if files != [] {
      FilesTextNoSpace(files[..|files| - 1]);
      LinesTextNoSpace(files[|files| - 1]);
    }
  }

  /**
   * The counter this `chars_from_files` builds holds no whitespace character
   * at all, and counts every other character as often as it occurs in the
   * files.
   */
  lemma NoWhitespaceCounted(files: seq<seq<string>>, k: string)
    ensures k in Tally(Empty(), Chars(FilesText(files))).vals ==> |k| == 1 && !IsSpace(k[0])
    ensures |k| == 1 && !IsSpace(k[0]) ==>
      Count(Tally(Empty(), Chars(FilesText(files))), k) == multiset(RawText(files))[k[0]]
  {
    var text := FilesText(files);
    FilesTextNoSpace(files);
    TallyKeys(Empty(), Chars(text));
    CharCounts(text, k);
    if k in Tally(Empty(), Chars(text)).vals {
      assert k in Chars(text);
      CharsCount(text, k);
      assert |k| == 1 && k[0] in text;
    }
  }

  /** The token list of the vocabulary `chars_from_files(files, specials=specials, min_freq=minFreq)` builds. */
  function TokenList(files: seq<seq<string>>, specials: seq<string>, minFreq: int): seq<string> {
    var e := RemoveAll(Tally(Empty(), Chars(FilesText(files))), specials);
    specials + Frequent(e, e.keys, minFreq)
  }

  /** `Vocabulary.chars_from_files(files, specials=..., min_freq=...)` over the lines of each file. */
  method CharsFromFiles(files: seq<seq<string>>, specials0: seq<string>, minFreq: int) returns (v: Vocabulary)
    ensures fresh(v) && fresh(v.tokens) && v.Valid()
    ensures v.tokens.dict == RemoveAll(Tally(Empty(), Chars(FilesText(files))), specials0)
    ensures v.indexToToken == specials0 + Frequent(v.tokens.dict, v.tokens.dict.keys, minFreq)
    ensures v.indexToToken == TokenList(files, specials0, minFreq)
  {
    var tokens := new Counter();
    for i := 0 to |files|
      invariant fresh(tokens) && tokens.Valid() && tokens.dict == Tally(Empty(), Chars(FilesText(files[..i])))
    {
      ghost var before := FilesText(files[..i]);
      CountLines(tokens, files[i]);
      assert files[..i + 1][..i] == files[..i];
      CharsAppend(before, LinesText(files[i]));
      TallyAppend(Empty(), Chars(before), Chars(LinesText(files[i])));
    }
    assert files[..|files|] == files;
    v := new Vocabulary(tokens, specials0, minFreq);
  }

  /** The loop over the cleaned lines of one file: `tokens.update(list(line))` for each. */
  method CountLines(tokens: Counter, lines: seq<string>)
    requires tokens.Valid()
    modifies tokens
    ensures tokens.Valid() && tokens.dict == Tally(old(tokens.dict), Chars(LinesText(lines)))
  {
    ghost var d0 := tokens.dict;
    assert lines[..0] == [];
    for j := 0 to |lines|
      invariant tokens.Valid() && tokens.dict == Tally(d0, Chars(LinesText(lines[..j])))
    {
      var chars := Chars(RemoveSpaces(lines[j]));
      assert lines[..j + 1][..j] == lines[..j];
      CharsAppend(LinesText(lines[..j]), RemoveSpaces(lines[j]));
      TallyAppend(d0, Chars(LinesText(lines[..j])), chars);
      tokens.Update(chars);
    }
    assert lines[..|lines|] == lines;
  }
}
