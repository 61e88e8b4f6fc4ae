/**
 * `Model/data.py`: the dataset of pairs of index lists, the padding of a
 * batch in place, and the conversion of parallel files of lines into index
 * lists through a source and a target vocabulary.
 */
module Data {
  import opened Results
  import opened PyStrings
  import opened OrderedDicts
  import opened Counters
  import opened Vocab
  import ModelVocab

  const Pad := "<PAD>"

  /** A Python list of indices: `pad_batches` lengthens it where it is. */
  class IndexList {
    var items: seq<int>

    constructor (items0: seq<int>)
      ensures items == items0
    {
      items := items0;
    }
  }

  /** `[source indices, target indices]` */
  datatype Datum = Datum(src: IndexList, tgt: IndexList)

  class RomanizationDataset {
    var data: seq<Datum>
    var srcVocab: Vocabulary
    var tgtVocab: Vocabulary

    constructor (data0: seq<Datum>, srcVocab0: Vocabulary, tgtVocab0: Vocabulary)
      ensures data == data0 && srcVocab == srcVocab0 && tgtVocab == tgtVocab0
    {
      data := data0;
      srcVocab := srcVocab0;
      tgtVocab := tgtVocab0;
    }

    /** `len(dataset)` */
    function Len(): (n: nat)
      reads this
      ensures n == |data|
      ensures forall i :: GetItem(i).Ok? <==> -(n as int) <= i < n
    {
      |data|
    }

    /**
     * `dataset[index]`: Python list indexing, so a negative index counts
     * from the end, and anything else raises `IndexError`. The datum itself
     * is returned, not a copy.
     */
    function GetItem(index: int): (r: Result<Datum>)
      reads this
      ensures r.Ok? <==> -|data| <= index < |data|
      ensures r.Err? ==> r.error == IndexError
      ensures r.Ok? ==> r.value in data
    {
      if 0 <= index < |data| then Ok(data[index])
      else if -|data| <= index < 0 then Ok(data[|data| + index])
      else Err(IndexError)
    }

    /** A negative index names the same datum as the index `len(dataset)` further on. */
    lemma NegativeIndex(i: int)
      requires 0 <= i < |data|
      ensures GetItem(i - |data|) == GetItem(i) == Ok(data[i])
    {
    }
  }

  /** The list `s` after `while len(s) < n: s.append(0)`. */
  function PadTo(s: seq<int>, n: int): (r: seq<int>)
    ensures |r| == if |s| < n then n else |s|
    ensures s <= r
    ensures forall i | |s| <= i < |r| :: r[i] == 0
    decreases n - |s|
  {
    if |s| < n then PadTo(s + [0], n) else s
  }

  /** Padding twice to the same length pads once. */
  lemma PadToIdempotent(s: seq<int>, n: int)
    ensures PadTo(PadTo(s, n), n) == PadTo(s, n)
  {
  }

  /** `while len(s) < n: s.append(0)` on the list object `l`. */
  method PadList(l: IndexList, n: int)
    modifies l
    ensures l.items == PadTo(old(l.items), n)
  {
    while |l.items| < n
      invariant PadTo(l.items, n) == PadTo(old(l.items), n)
      decreases n - |l.items|
    {
      l.items := l.items + [0];
    }
  }

  /** `max([len(s) for s in lists])` for a non-empty batch. */
  function MaxLen(lists: seq<seq<int>>): (m: nat)
    requires lists != []
    ensures forall i | 0 <= i < |lists| :: |lists[i]| <= m
    ensures exists i | 0 <= i < |lists| :: |lists[i]| == m
  {
    if |lists| == 1 then |lists[0]|
    else
      var m := MaxLen(lists[..|lists| - 1]);
      assert forall i | 0 <= i < |lists| - 1 :: lists[..|lists| - 1][i] == lists[i];
      if |lists[|lists| - 1]| > m then |lists[|lists| - 1]| else m
  }

  /** `[s[0] for s in samples]` */
  function Srcs(samples: seq<Datum>): (r: seq<IndexList>)
    ensures |r| == |samples| && forall i | 0 <= i < |samples| :: r[i] == samples[i].src
  {
    if samples == [] then [] else [samples[0].src] + Srcs(samples[1..])
  }

  /** `[s[1] for s in samples]` */
  function Tgts(samples: seq<Datum>): (r: seq<IndexList>)
    ensures |r| == |samples| && forall i | 0 <= i < |samples| :: r[i] == samples[i].tgt
  {
    if samples == [] then [] else [samples[0].tgt] + Tgts(samples[1..])
  }

  /** The contents of some lists, as they stand. */
  function Items(ls: seq<IndexList>): (r: seq<seq<int>>)
    reads ls
    ensures |r| == |ls| && forall i | 0 <= i < |ls| :: r[i] == ls[i].items
  {
    if ls == [] then [] else [ls[0].items] + Items(ls[1..])
  }

  /**
   * The content a list ends up with: padded to `mx` if a source, then to
   * `my` if a target; its indices stay in front and only zeros are added.
   */
  ghost function Padded(l: IndexList, before: seq<int>, x: seq<IndexList>, y: seq<IndexList>, mx: int, my: int): (r: seq<int>)
    ensures before <= r
    ensures forall i | |before| <= i < |r| :: r[i] == 0
    ensures l !in x && l !in y ==> r == before
  {
    var afterX := if l in x then PadTo(before, mx) else before;
    if l in y then PadTo(afterX, my) else afterX
  }

  datatype Batch = Batch(x: seq<seq<int>>, y: seq<seq<int>>)

  /**
   * `pad_batches(samples)`: every source list is lengthened in place with
   * zeros to the longest source length, then every target list to the
   * longest target length, both measured before any padding. A list object
   * that serves as both a source and a target list is padded twice. An empty
   * batch raises `ValueError` and changes nothing.
   */
  method PadBatches(samples: seq<Datum>) returns (r: Result<Batch>)
    modifies Srcs(samples), Tgts(samples)
    ensures samples == [] ==> r == Err(ValueError)
    ensures samples != [] ==> r.Ok?
    ensures samples != [] ==>
      var x, y := Srcs(samples), Tgts(samples);
      var mx, my := MaxLen(old(Items(x))), MaxLen(old(Items(y)));
      && (forall l | l in x || l in y :: l.items == Padded(l, old(l.items), x, y, mx, my))
      && r.value == Batch(Items(x), Items(y))
  {
    var x := Srcs(samples);
    var y := Tgts(samples);
    if |samples| == 0 {
      return Err(ValueError);
    }
    var mx := MaxLen(Items(x));
    var my := MaxLen(Items(y));
    PadBoth(x, y, mx, my);
    r := Ok(Batch(Items(x), Items(y)));
  }

  /** The two padding loops of `pad_batches`: the source lists first, then the target lists. */
  method PadBoth(x: seq<IndexList>, y: seq<IndexList>, mx: int, my: int)
    modifies x, y
    ensures forall l | l in x || l in y :: l.items == Padded(l, old(l.items), x, y, mx, my)
  {
    PadEach(x, mx);
    assert forall l | l in x || l in y :: l.items == if l in x then PadTo(old(l.items), mx) else old(l.items);
    PadEach(y, my);
  }

  /** `for s in ls: while len(s) < n: s.append(0)`; a list met twice is already long enough the second time. */
  method PadEach(ls: seq<IndexList>, n: int)
    modifies ls
    ensures forall l | l in ls :: l.items == PadTo(old(l.items), n)
  {
    for i := 0 to |ls|
      invariant forall l | l in ls :: l.items == if l in ls[..i] then PadTo(old(l.items), n) else old(l.items)
    {
      assert ls[..i + 1] == ls[..i] + [ls[i]];
      PadToIdempotent(old(ls[i].items), n);
      PadList(ls[i], n);
    }
    assert ls[..|ls|] == ls;
  }

  /**
   * When no list object serves both as a source and as a target list, as in
   * a batch of data built by `from_files` (`SeparateBatch`), the padded
   * batch is rectangular: every list has the longest length of its side.
   */
  lemma PaddedRectangular(l: IndexList, before: seq<int>, x: seq<IndexList>, y: seq<IndexList>, mx: int, my: int)
    requires !(l in x && l in y)
    ensures l in x ==> |Padded(l, before, x, y, mx, my)| == (if |before| < mx then mx else |before|)
    ensures l in y ==> |Padded(l, before, x, y, mx, my)| == (if |before| < my then my else |before|)
  {
  }

  // The line-to-index conversion of `from_files`, over the lines of each file.

  /**
   * No list object of the data serves twice: each datum holds two lists of
   * its own, shared with no other datum.
   */
  ghost predicate Separate(data: seq<Datum>) {
    forall k, k' | 0 <= k < |data| && 0 <= k' < |data| ::
      data[k].src != data[k'].tgt && (k != k' ==> data[k].src != data[k'].src && data[k].tgt != data[k'].tgt)
  }

  /** No list of the data `a` is a list of the data `b`. */
  ghost predicate Apart(a: seq<Datum>, b: seq<Datum>) {
    forall k, k' | 0 <= k < |a| && 0 <= k' < |b| ::
      a[k].src != b[k'].src && a[k].src != b[k'].tgt && a[k].tgt != b[k'].src && a[k].tgt != b[k'].tgt
  }

  /** Separate data followed by separate data that share no list with them are separate. */
  lemma SeparateAppend(a: seq<Datum>, b: seq<Datum>)
    requires Separate(a) && Separate(b) && Apart(a, b)
    ensures Separate(a + b)
  {
    forall k, k' | 0 <= k < |a + b| && 0 <= k' < |a + b|
      ensures (a + b)[k].src != (a + b)[k'].tgt
      ensures k != k' ==> (a + b)[k].src != (a + b)[k'].src && (a + b)[k].tgt != (a + b)[k'].tgt
    {
      if k >= |a| {
        assert (a + b)[k] == b[k - |a|];
      }
      if k' >= |a| {
        assert (a + b)[k'] == b[k' - |a|];
      }
    }
  }

  /**
   * In a batch of separate data no list is both a source and a target list,
   * so `PaddedRectangular` applies to every list `pad_batches` pads.
   */
  lemma SeparateBatch(samples: seq<Datum>, l: IndexList)
    requires Separate(samples)
    ensures !(l in Srcs(samples) && l in Tgts(samples))
  {
  }

  /** The index lists of one datum, as values. */
  datatype Row = Row(src: seq<int>, tgt: seq<int>)

  /**
   * `list(''.join(line.split()))`: the characters of the line other than
   * whitespace, each as a one-character token.
   */
  function LineChars(line: string): (r: seq<string>)
    ensures |r| <= |line|
    ensures forall i | 0 <= i < |r| :: |r[i]| == 1 && !IsSpace(r[i][0])
  {
    CharsAt(RemoveSpaces(line));
    Chars(RemoveSpaces(line))
  }

  /** Each character other than whitespace gives as many tokens as it occurs in the line. */
  lemma LineCharsCounts(line: string, c: char)
    requires !IsSpace(c)
    ensures multiset(LineChars(line))[[c]] == multiset(line)[c]
  {
    RemoveSpacesCounts(line);
    CharsCount(RemoveSpaces(line), [c]);
  }

  /** The datum of one pair of lines: the source indices, then the target indices. */
  function LineRow(sv: seq<string>, tv: seq<string>, srcLine: string, tgtLine: string): (r: Result<Row>)
    ensures r.Err? ==> r.error == KeyError
  {
    match Encode(sv, LineChars(srcLine))
    case Err(e) => Err(e)
    case Ok(a) =>
      match Encode(tv, LineChars(tgtLine))
      case Err(e) => Err(e)
      case Ok(b) => Ok(Row(a, b))
  }

  /**
   * The rows of one pair of files: one per source line, paired with the
   * target line of the same number; a target file that runs out of lines
   * first raises `IndexError`.
   */
  function FileRows(sv: seq<string>, tv: seq<string>, srcLines: seq<string>, tgtLines: seq<string>): (r: Result<seq<Row>>)
    ensures r.Err? ==> r.error == IndexError || r.error == KeyError
    decreases |srcLines|
  {
    if srcLines == [] then Ok([])
    else if tgtLines == [] then Err(IndexError)
    else Append(Single(LineRow(sv, tv, srcLines[0], tgtLines[0])), FileRows(sv, tv, srcLines[1..], tgtLines[1..]))
  }

  /** One row as a list of rows. */
  function Single(r: Result<Row>): (t: Result<seq<Row>>)
    ensures t.Ok? <==> r.Ok?
    ensures t.Err? ==> t.error == r.error
    ensures t.Ok? ==> t.value == [r.value]
  {
    match r
    case Err(e) => Err(e)
    case Ok(row) => Ok([row])
  }

  /**
   * The rows of a pair of files exist exactly when the target file has a
   * line for every source line and every pair of lines encodes; then there
   * is one row per source line, that line's row.
   */
  lemma FileRowsSpec(sv: seq<string>, tv: seq<string>, srcLines: seq<string>, tgtLines: seq<string>)
    ensures FileRows(sv, tv, srcLines, tgtLines).Ok? <==>
      |srcLines| <= |tgtLines| && forall j | 0 <= j < |srcLines| :: LineRow(sv, tv, srcLines[j], tgtLines[j]).Ok?
    ensures FileRows(sv, tv, srcLines, tgtLines).Ok? ==>
      && |FileRows(sv, tv, srcLines, tgtLines).value| == |srcLines|
      && forall j | 0 <= j < |srcLines| :: LineRow(sv, tv, srcLines[j], tgtLines[j]) == Ok(FileRows(sv, tv, srcLines, tgtLines).value[j])
  {
    FileRowsOk(sv, tv, srcLines, tgtLines);
    if FileRows(sv, tv, srcLines, tgtLines).Ok? {
      FileRowsValues(sv, tv, srcLines, tgtLines);
    }
  }

  lemma {:induction false} FileRowsOk(sv: seq<string>, tv: seq<string>, srcLines: seq<string>, tgtLines: seq<string>)
    ensures FileRows(sv, tv, srcLines, tgtLines).Ok? <==>
      |srcLines| <= |tgtLines| && forall j | 0 <= j < |srcLines| :: LineRow(sv, tv, srcLines[j], tgtLines[j]).Ok?
    decreases |srcLines|
  {
    if srcLines != [] && tgtLines != [] {
      FileRowsOk(sv, tv, srcLines[1..], tgtLines[1..]);
      assert forall j | 1 <= j < |srcLines| && j < |tgtLines| ::
        LineRow(sv, tv, srcLines[j], tgtLines[j]) == LineRow(sv, tv, srcLines[1..][j - 1], tgtLines[1..][j - 1]);
    }
  }

  lemma {:induction false} FileRowsValues(sv: seq<string>, tv: seq<string>, srcLines: seq<string>, tgtLines: seq<string>)
    requires FileRows(sv, tv, srcLines, tgtLines).Ok?
    ensures |srcLines| <= |tgtLines|
    ensures |FileRows(sv, tv, srcLines, tgtLines).value| == |srcLines|
    ensures forall j | 0 <= j < |srcLines| :: LineRow(sv, tv, srcLines[j], tgtLines[j]) == Ok(FileRows(sv, tv, srcLines, tgtLines).value[j])
    decreases |srcLines|
  {
    if srcLines != [] {
      var rest := FileRows(sv, tv, srcLines[1..], tgtLines[1..]);
      var row := LineRow(sv, tv, srcLines[0], tgtLines[0]).value;
      assert rest.Ok?;
      FileRowsValues(sv, tv, srcLines[1..], tgtLines[1..]);
      var r := FileRows(sv, tv, srcLines, tgtLines);
      assert r.value == [row] + rest.value;
      forall j | 1 <= j < |srcLines| ensures LineRow(sv, tv, srcLines[j], tgtLines[j]) == Ok(r.value[j]) {
        var k := j - 1;
        assert srcLines[j] == srcLines[1..][k] && tgtLines[j] == tgtLines[1..][k];
        assert r.value[j] == rest.value[k];
        assert LineRow(sv, tv, srcLines[1..][k], tgtLines[1..][k]) == Ok(rest.value[k]);
      }
    }
  }

  /** The number of lines of all the files. */
  function LineCount(files: seq<seq<string>>): nat {
    if files == [] then 0 else |files[0]| + LineCount(files[1..])
  }

  /**
   * The data `from_files` builds: the rows of each pair of files, in file
   * order; a missing target file raises `IndexError`.
   */
  function AllRows(sv: seq<string>, tv: seq<string>, srcFiles: seq<seq<string>>, tgtFiles: seq<seq<string>>): (r: Result<seq<Row>>)
    ensures r.Err? ==> r.error == IndexError || r.error == KeyError
    decreases |srcFiles|
  {
    if srcFiles == [] then Ok([])
    else if tgtFiles == [] then Err(IndexError)
    else Append(FileRows(sv, tv, srcFiles[0], tgtFiles[0]), AllRows(sv, tv, srcFiles[1..], tgtFiles[1..]))
  }

  /**
   * The data exist exactly when there is a target file for every source
   * file and the rows of every pair exist; then there is one row per line
   * of the source files.
   */
  lemma {:induction false} AllRowsSpec(sv: seq<string>, tv: seq<string>, srcFiles: seq<seq<string>>, tgtFiles: seq<seq<string>>)
    ensures AllRows(sv, tv, srcFiles, tgtFiles).Ok? <==>
      |srcFiles| <= |tgtFiles| && forall i | 0 <= i < |srcFiles| :: FileRows(sv, tv, srcFiles[i], tgtFiles[i]).Ok?
    ensures AllRows(sv, tv, srcFiles, tgtFiles).Ok? ==> |AllRows(sv, tv, srcFiles, tgtFiles).value| == LineCount(srcFiles)
    decreases |srcFiles|
  {
    if srcFiles != [] && tgtFiles != [] {
      AllRowsSpec(sv, tv, srcFiles[1..], tgtFiles[1..]);
      assert forall i | 1 <= i < |srcFiles| && i < |tgtFiles| ::
        FileRows(sv, tv, srcFiles[i], tgtFiles[i]) == FileRows(sv, tv, srcFiles[1..][i - 1], tgtFiles[1..][i - 1]);
      if FileRows(sv, tv, srcFiles[0], tgtFiles[0]).Ok? {
        FileRowsSpec(sv, tv, srcFiles[0], tgtFiles[0]);
      }
    }
  }

  /** The token list of the vocabulary `chars_from_files(files, specials=[PAD], min_freq=minFreq)` builds. */
  function VocabList(files: seq<seq<string>>, minFreq: int): seq<string> {
    ModelVocab.TokenList(files, [Pad], minFreq)
  }

  /** The rows of the files, indexed by the vocabularies built from the same files. */
  function FilesRows(srcFiles: seq<seq<string>>, tgtFiles: seq<seq<string>>, minFreq: int): Result<seq<Row>> {
    AllRows(VocabList(srcFiles, minFreq), VocabList(tgtFiles, minFreq), srcFiles, tgtFiles)
  }

  /** `PAD`, the only special, gets index 0, which is the value `pad_batches` pads with. */
  lemma PadIndexZero(files: seq<seq<string>>, minFreq: int)
    ensures IndexOf(VocabList(files, minFreq), Pad) == Ok(0)
  {
    var d := Tally(Empty(), Chars(ModelVocab.FilesText(files)));
    SpecialsListedOnce(d, [Pad], minFreq);
    var itt := VocabList(files, minFreq);
    assert itt[0] == Pad;
  }

  /** The datum `d` is a pair of two distinct lists that hold the indices of `row`. */
  predicate Holds(d: Datum, row: Row)
    reads d.src, d.tgt
  {
    d.src != d.tgt && d.src.items == row.src && d.tgt.items == row.tgt
  }

  /** Data that hold some rows, followed by data that hold some more rows, hold all the rows. */
  lemma HoldsAppend(a: seq<Datum>, ra: seq<Row>, b: seq<Datum>, rb: seq<Row>)
    requires |a| == |ra| && forall k | 0 <= k < |a| :: Holds(a[k], ra[k])
    requires |b| == |rb| && forall k | 0 <= k < |b| :: Holds(b[k], rb[k])
    ensures |a + b| == |ra + rb| && forall k | 0 <= k < |a + b| :: Holds((a + b)[k], (ra + rb)[k])
  {
    forall k | 0 <= k < |a + b| ensures Holds((a + b)[k], (ra + rb)[k]) {
      if k >= |a| {
        assert (a + b)[k] == b[k - |a|] && (ra + rb)[k] == rb[k - |a|];
      }
    }
  }

  /**
   * `RomanizationDataset.from_files` with its vocabularies built by
   * `Vocabulary.chars_from_files`: each source and target line becomes a
   * fresh pair of index lists, in file order and then line order.
   */
  method FromFiles(srcFiles: seq<seq<string>>, tgtFiles: seq<seq<string>>, minFreq: int)
    returns (r: Result<RomanizationDataset>)
    ensures r.Ok? <==> FilesRows(srcFiles, tgtFiles, minFreq).Ok?
    ensures r.Err? ==> r.error == FilesRows(srcFiles, tgtFiles, minFreq).error
    ensures r.Ok? ==>
      (fresh(r.value)
       && r.value.srcVocab.indexToToken == VocabList(srcFiles, minFreq)
       && r.value.tgtVocab.indexToToken == VocabList(tgtFiles, minFreq))
    ensures r.Ok? ==>
      (|r.value.data| == |FilesRows(srcFiles, tgtFiles, minFreq).value|
       && forall k | 0 <= k < |r.value.data| :: Holds(r.value.data[k], FilesRows(srcFiles, tgtFiles, minFreq).value[k]))
    ensures r.Ok? ==>
      (Separate(r.value.data)
       && forall k | 0 <= k < |r.value.data| :: fresh(r.value.data[k].src) && fresh(r.value.data[k].tgt))
  {
    var srcVocab := BuildVocab(srcFiles, minFreq);
    var tgtVocab := BuildVocab(tgtFiles, minFreq);
    var data := Convert(srcVocab, tgtVocab, srcFiles, tgtFiles);
    if data.Err? {
      return Err(data.error);
    }
    var dataset := new RomanizationDataset(data.value, srcVocab, tgtVocab);
    r := Ok(dataset);
  }

  /** `Vocabulary.chars_from_files(files, specials=[PAD], min_freq=minFreq)` */
  method BuildVocab(files: seq<seq<string>>, minFreq: int) returns (v: Vocabulary)
    ensures fresh(v) && v.Valid() && v.indexToToken == VocabList(files, minFreq)
  {
    v := ModelVocab.CharsFromFiles(files, [Pad], minFreq);
  }

  /** The loop over the pairs of files. */
  method Convert(srcVocab: Vocabulary, tgtVocab: Vocabulary, srcFiles: seq<seq<string>>, tgtFiles: seq<seq<string>>)
    returns (r: Result<seq<Datum>>)
    requires srcVocab.Valid() && tgtVocab.Valid()
    ensures var rows := AllRows(srcVocab.indexToToken, tgtVocab.indexToToken, srcFiles, tgtFiles);
      && (r.Ok? <==> rows.Ok?)
      && (r.Err? ==> r.error == rows.error)
      && (r.Ok? ==> |r.value| == |rows.value| && forall k | 0 <= k < |r.value| :: Holds(r.value[k], rows.value[k]))
    ensures r.Ok? ==> Separate(r.value) && forall k | 0 <= k < |r.value| :: fresh(r.value[k].src) && fresh(r.value[k].tgt)
  {
    ghost var sv, tv := srcVocab.indexToToken, tgtVocab.indexToToken;
    ghost var all := AllRows(sv, tv, srcFiles, tgtFiles);
    var data: seq<Datum> := [];
    ghost var rows: seq<Row> := [];
    assert srcFiles[0..] == srcFiles && tgtFiles[0..] == tgtFiles;
    AppendEmpty(all);
    for i := 0 to |srcFiles|
      invariant i <= |tgtFiles|
      invariant all == Append(Ok(rows), AllRows(sv, tv, srcFiles[i..], tgtFiles[i..]))
      invariant |data| == |rows| && forall k | 0 <= k < |data| :: Holds(data[k], rows[k])
      invariant Separate(data) && forall k | 0 <= k < |data| :: fresh(data[k].src) && fresh(data[k].tgt)
    {
      if i >= |tgtFiles| {
        assert tgtFiles[i..] == [];
        return Err(IndexError);
      }
      AllRowsStep(sv, tv, srcFiles, tgtFiles, i);
      var fileData := FileData(srcVocab, tgtVocab, srcFiles[i], tgtFiles[i]);
      if fileData.Err? {
        return Err(fileData.error);
      }
      ghost var more := FileRows(sv, tv, srcFiles[i], tgtFiles[i]).value;
      AppendAhead(rows, more, AllRows(sv, tv, srcFiles[i + 1..], tgtFiles[i + 1..]));
      HoldsAppend(data, rows, fileData.value, more);
      SeparateAppend(data, fileData.value);
      data := data + fileData.value;
      rows := rows + more;
    }
    assert srcFiles[|srcFiles|..] == [];
    AppendEmpty<Row>(Ok([]));
    r := Ok(data);
  }

  /** The loop over the lines of one pair of files: a fresh pair of index lists per line. */
  method FileData(srcVocab: Vocabulary, tgtVocab: Vocabulary, srcLines: seq<string>, tgtLines: seq<string>)
    returns (r: Result<seq<Datum>>)
    requires srcVocab.Valid() && tgtVocab.Valid()
    ensures var rows := FileRows(srcVocab.indexToToken, tgtVocab.indexToToken, srcLines, tgtLines);
      && (r.Ok? <==> rows.Ok?)
      && (r.Err? ==> r.error == rows.error)
      && (r.Ok? ==> |r.value| == |rows.value| && forall k | 0 <= k < |r.value| :: Holds(r.value[k], rows.value[k]))
    ensures r.Ok? ==> Separate(r.value) && forall k | 0 <= k < |r.value| :: fresh(r.value[k].src) && fresh(r.value[k].tgt)
  {
    ghost var sv, tv := srcVocab.indexToToken, tgtVocab.indexToToken;
    ghost var all := FileRows(sv, tv, srcLines, tgtLines);
    var data: seq<Datum> := [];
    ghost var rows: seq<Row> := [];
    assert srcLines[0..] == srcLines && tgtLines[0..] == tgtLines;
    AppendEmpty(all);
    for j := 0 to |srcLines|
      invariant j <= |tgtLines|
      invariant all == Append(Ok(rows), FileRows(sv, tv, srcLines[j..], tgtLines[j..]))
      invariant |data| == |rows| && forall k | 0 <= k < |data| :: Holds(data[k], rows[k])
      invariant Separate(data) && forall k | 0 <= k < |data| :: fresh(data[k].src) && fresh(data[k].tgt)
    {
      if j >= |tgtLines| {
        assert tgtLines[j..] == [];
        return Err(IndexError);
      }
      FileRowsStep(sv, tv, srcLines, tgtLines, j);
      var a := srcVocab.TokensToIndices(LineChars(srcLines[j]));
      if a.Err? {
        return Err(a.error);
      }
      var b := tgtVocab.TokensToIndices(LineChars(tgtLines[j]));
      if b.Err? {
        return Err(b.error);
      }
      var x := new IndexList(a.value);
      var y := new IndexList(b.value);
      AppendAhead(rows, [Row(a.value, b.value)], FileRows(sv, tv, srcLines[j + 1..], tgtLines[j + 1..]));
      HoldsAppend(data, rows, [Datum(x, y)], [Row(a.value, b.value)]);
      SeparateAppend(data, [Datum(x, y)]);
      data := data + [Datum(x, y)];
      rows := rows + [Row(a.value, b.value)];
    }
    assert srcLines[|srcLines|..] == [];
    AppendEmpty<Row>(Ok([]));
    r := Ok(data);
  }

  /** One more pair of files. */
  lemma AllRowsStep(sv: seq<string>, tv: seq<string>, srcFiles: seq<seq<string>>, tgtFiles: seq<seq<string>>, i: nat)
    requires i < |srcFiles| && i < |tgtFiles|
    ensures AllRows(sv, tv, srcFiles[i..], tgtFiles[i..])
      == Append(FileRows(sv, tv, srcFiles[i], tgtFiles[i]), AllRows(sv, tv, srcFiles[i + 1..], tgtFiles[i + 1..]))
  {
    assert srcFiles[i..][1..] == srcFiles[i + 1..] && tgtFiles[i..][1..] == tgtFiles[i + 1..];
  }

  /** One more pair of lines. */
  lemma FileRowsStep(sv: seq<string>, tv: seq<string>, srcLines: seq<string>, tgtLines: seq<string>, j: nat)
    requires j < |srcLines| && j < |tgtLines|
    ensures FileRows(sv, tv, srcLines[j..], tgtLines[j..])
      == match LineRow(sv, tv, srcLines[j], tgtLines[j])
         case Err(e) => Err(e)
         case Ok(row) => Append(Ok([row]), FileRows(sv, tv, srcLines[j + 1..], tgtLines[j + 1..]))
  {
    assert srcLines[j..][1..] == srcLines[j + 1..] && tgtLines[j..][1..] == tgtLines[j + 1..];
  }

  /** Rows gathered so far, then more rows, then the rest. */
  lemma AppendAhead(a: seq<Row>, b: seq<Row>, f: Result<seq<Row>>)
    ensures Append(Ok(a), Append(Ok(b), f)) == Append(Ok(a + b), f)
  {
    AppendAssociative(Ok(a), Ok(b), f);
  }

  /**
   * `from_files` exactly as written: it asks the `Vocabulary` class for a
   * `from_files` method, which the class does not define, so the lookup
   * raises `AttributeError` before any file is read.
   */
  function FromFilesAsWritten(srcFiles: seq<seq<string>>, tgtFiles: seq<seq<string>>, minFreq: int): (r: Result<seq<Row>>)
    ensures r == Err(AttributeError)
  {
    MethodNotDefined();
    match ClassAttribute("from_files")
    case Err(e) => Err(e)
    case Ok(_) => AllRows(VocabList(srcFiles, minFreq), VocabList(tgtFiles, minFreq), srcFiles, tgtFiles)
  }

  /** The methods `Vocabulary` defines. */
  const VocabularyMethods: set<string> :=
    {"__init__", "__len__", "__getindex__", "tokens_to_indices", "chars_from_files"}

  /** No method of `Vocabulary` has the name `from_files`: none has ten characters. */
  lemma MethodNotDefined()
    ensures "from_files" !in VocabularyMethods
  {
    assert forall m | m in VocabularyMethods :: |m| != 10;
  }

  /** `getattr(Vocabulary, name)` */
  function ClassAttribute(name: string): (r: Result<string>)
    ensures r.Ok? <==> name in VocabularyMethods
    ensures r.Err? ==> r.error == AttributeError
  {
    if name in VocabularyMethods then Ok(name) else Err(AttributeError)
  }
}
