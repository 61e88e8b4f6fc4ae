/**
 * The Romanization key parser (`Romanizer.from_file`): every line of the key
 * that is not a comment and matches `(.*) --- (.*);\s*(.*)?` becomes an entry
 * from a grapheme to its candidate transliterations and their cumulative
 * weights.
 */
module KeyFile {
  import opened Results
  import opened PyStrings
  import opened OrderedDicts

  /** The candidate that stands for "this grapheme is dropped". */
  const Null: string := "<null>"

  const Separator: string := " --- "

  /** `trans_prob`: candidates, most typical first, and their cumulative weights. */
  datatype TransProb = TransProb(candidates: seq<string>, weights: seq<real>)

  /** A candidate list that sampling accepts: one weight per candidate, the last one 1. */
  ghost predicate WellFormed(tp: TransProb) {
    |tp.candidates| == |tp.weights| >= 1 && tp.weights[|tp.weights| - 1] == 1.0
  }

  ghost predicate StrictlyIncreasing(w: seq<real>) {
    forall i, j | 0 <= i < j < |w| :: w[i] < w[j]
  }

  ghost predicate NonDecreasing(w: seq<real>) {
    forall i, j | 0 <= i < j < |w| :: w[i] <= w[j]
  }

  /** A line as `readlines` yields it: a newline can only be its last character. */
  ghost predicate NoInnerNewline(line: string) {
    forall i | 0 <= i < |line| - 1 :: line[i] != '\n'
  }

  /** `pat` occurs in `s` starting at index `p`. */
  predicate OccursAt(s: string, pat: string, p: nat) {
    p + |pat| <= |s| && s[p..p + |pat|] == pat
  }

  /** The last occurrence of `pat` in `s` that ends at or before `limit`. */
  function FindLast(s: string, pat: string, limit: nat): (r: Option<nat>)
    requires limit <= |s|
    ensures r.Some? ==> r.value + |pat| <= limit && OccursAt(s, pat, r.value)
    ensures r.Some? ==> forall p: nat | r.value < p && p + |pat| <= limit :: !OccursAt(s, pat, p)
    ensures r.None? ==> forall p: nat | p + |pat| <= limit :: !OccursAt(s, pat, p)
    decreases limit
  {
    if limit < |pat| then None
    else if s[limit - |pat|..limit] == pat then Some(limit - |pat|)
    else FindLast(s, pat, limit - 1)
  }

  /** The index of the last `c` in `s`. */
  function FindLastChar(s: string, c: char): (r: Option<nat>)
    ensures r.Some? ==> r.value < |s| && s[r.value] == c
    ensures r.Some? ==> forall q | r.value < q < |s| :: s[q] != c
    ensures r.None? ==> c !in s
  {
    if s == [] then None
    else if s[|s| - 1] == c then Some(|s| - 1)
    else FindLastChar(s[..|s| - 1], c)
  }

  /**
   * The groups of the key-line pattern: the grapheme, the typical candidates
   * and what follows the `;`, of which `\s*` takes the leading whitespace and
   * the third group the rest.
   */
  datatype Groups = Groups(key: string, typical: string, tail: string) {
    function Less(): string {
      LStrip(tail)
    }
  }

  /**
   * `re.search(r"(.*) --- (.*);\s*(.*)?", s)` on a string without a newline.
   * Both `(.*)` groups are greedy: the second group ends at the last `;`, the
   * first at the last ` --- ` that ends before that `;`; `\s*` takes all the
   * whitespace after the `;` and the optional third group the rest.
   */
  function MatchKeyLine(s: string): (r: Option<Groups>)
    requires '\n' !in s
    ensures r.Some? ==> s == r.value.key + Separator + r.value.typical + ";" + r.value.tail
    ensures r.Some? ==> ';' !in r.value.tail
  {
    match FindLastChar(s, ';')
    case None => None
    case Some(q) =>
      match FindLast(s, Separator, q)
      case None => None
      case Some(p) =>
        SplitAround(s, p, q);
        assert s == s[..q + 1] + s[q + 1..];
        Some(Groups(s[..p], s[p + |Separator|..q], s[q + 1..]))
  }

  /** The pattern matches exactly when some ` --- ` is followed, later on, by a `;`. */
  lemma MatchKeyLineExists(s: string)
    requires '\n' !in s
    ensures MatchKeyLine(s).None? <==>
      forall p: nat, q | p + |Separator| <= q < |s| :: !(OccursAt(s, Separator, p) && s[q] == ';')
  {
    match FindLastChar(s, ';')
    case None =>
    case Some(q) =>
      match FindLast(s, Separator, q)
      case None =>
        forall p: nat, q' | p + |Separator| <= q' < |s| && s[q'] == ';'
          ensures !OccursAt(s, Separator, p)
        {
          assert q' <= q;
        }
      case Some(p) =>
        assert OccursAt(s, Separator, p) && s[q] == ';';
  }

  /**
   * A match splits the line as key + ` --- ` + typical + `;` + whitespace +
   * less-typical, with the longest key and the longest typical group.
   */
  lemma MatchKeyLineGroups(s: string)
    requires '\n' !in s
    requires MatchKeyLine(s).Some?
    ensures
      var g := MatchKeyLine(s).value;
      var q := |g.key| + |Separator| + |g.typical|;
      && q < |s|
      && s[..q + 1] == g.key + Separator + g.typical + ";"
      && (forall i | q < i < |s| :: s[i] != ';')
      && (forall p: nat | |g.key| < p && p + |Separator| <= q :: !OccursAt(s, Separator, p))
      && g.tail == s[q + 1..]
  {
    var q := FindLastChar(s, ';').value;
    var p := FindLast(s, Separator, q).value;
    var g := MatchKeyLine(s).value;
    assert g == Groups(s[..p], s[p + |Separator|..q], s[q + 1..]);
    SplitAround(s, p, q);
  }

  lemma SplitAround(s: string, p: nat, q: nat)
    requires p + |Separator| <= q < |s| && OccursAt(s, Separator, p) && s[q] == ';'
    ensures s[..q + 1] == s[..p] + Separator + s[p + |Separator|..q] + ";"
  {
    assert s[p..q] == s[p..p + |Separator|] + s[p + |Separator|..q];
    assert s[..q] == s[..p] + s[p..q];
    assert s[..q + 1] == s[..q] + [s[q]];
  }

  /** The distance between neighbouring points: `(hi - lo) / n`. */
  function Step(lo: real, hi: real, n: nat): real {
    if n == 0 then 0.0 else (hi - lo) / n as real
  }

  /** `np.linspace(lo, hi, num=n + 1)[1:]`, in exact arithmetic. */
  function Linspace(lo: real, hi: real, n: nat): (r: seq<real>)
    ensures |r| == n
  {
    seq(n, i requires 0 <= i < n => lo + (i + 1) as real * Step(lo, hi, n))
  }

  lemma MulSub(a: real, b: real, c: real)
    ensures a * c - b * c == (a - b) * c
  {
  }

  lemma MulNonNegative(a: real, b: real)
    requires a >= 0.0 && b >= 0.0
    ensures a * b >= 0.0 && (a > 0.0 && b > 0.0 ==> a * b > 0.0)
  {
  }

  lemma DivCancel(x: real, n: real)
    requires n > 0.0
    ensures n * (x / n) == x
  {
  }

  lemma MulDiv(a: real, b: real, c: real)
    requires c > 0.0
    ensures a * (b / c) == a * b / c
  {
  }

  /** The `i`-th of the `n` points, counting from 0, is `lo + (i + 1) * (hi - lo) / n`. */
  lemma LinspaceAt(lo: real, hi: real, n: nat, i: nat)
    requires i < n
    ensures Linspace(lo, hi, n)[i] == lo + (i + 1) as real * (hi - lo) / n as real
  {
    assert Step(lo, hi, n) == (hi - lo) / n as real;
    assert Linspace(lo, hi, n)[i] == lo + (i + 1) as real * ((hi - lo) / n as real);
    MulDiv((i + 1) as real, hi - lo, n as real);
  }

  lemma LinspaceUnit(n: nat)
    ensures forall i | 0 <= i < n :: Linspace(0.0, 1.0, n)[i] == (i + 1) as real / n as real
  {
    forall i | 0 <= i < n ensures Linspace(0.0, 1.0, n)[i] == (i + 1) as real / n as real {
      LinspaceAt(0.0, 1.0, n, i);
    }
  }

  lemma LinspaceBlocks(prop: real, n: nat, m: nat)
    ensures var w := Linspace(0.0, prop, n) + Linspace(prop, 1.0, m);
      && (forall i | 0 <= i < n :: w[i] == (i + 1) as real * prop / n as real)
      && (forall j | 0 <= j < m :: w[n..][j] == prop + (j + 1) as real * (1.0 - prop) / m as real)
  {
    var a, b := Linspace(0.0, prop, n), Linspace(prop, 1.0, m);
    assert (a + b)[n..] == b;
    forall i | 0 <= i < n ensures (a + b)[i] == (i + 1) as real * prop / n as real {
      assert (a + b)[i] == a[i];
      LinspaceAt(0.0, prop, n, i);
    }
    forall j | 0 <= j < m ensures b[j] == prop + (j + 1) as real * (1.0 - prop) / m as real {
      LinspaceAt(prop, 1.0, m, j);
    }
  }

  /** The last of the `n` points is `hi`. */
  lemma LinspaceLast(lo: real, hi: real, n: nat)
    requires n > 0
    ensures Linspace(lo, hi, n)[n - 1] == hi
  {
    var step := Step(lo, hi, n);
    assert Linspace(lo, hi, n)[n - 1] == lo + n as real * step;
    DivCancel(hi - lo, n as real);
  }

  lemma StepSign(lo: real, hi: real, n: nat)
    ensures lo <= hi ==> Step(lo, hi, n) >= 0.0
    ensures lo < hi && n > 0 ==> Step(lo, hi, n) > 0.0
  {
  }

  /** The points never fall when `lo <= hi`, and rise strictly when `lo < hi`. */
  lemma LinspaceMonotone(lo: real, hi: real, n: nat)
    ensures lo <= hi ==> NonDecreasing(Linspace(lo, hi, n))
    ensures lo < hi ==> StrictlyIncreasing(Linspace(lo, hi, n))
  {
    var r, step := Linspace(lo, hi, n), Step(lo, hi, n);
    if lo <= hi {
      StepSign(lo, hi, n);
      forall i, j | 0 <= i < j < n ensures r[i] <= r[j] && (lo < hi ==> r[i] < r[j]) {
        assert r[j] - r[i] == (j + 1) as real * step - (i + 1) as real * step;
        MulSub((j + 1) as real, (i + 1) as real, step);
        MulNonNegative((j - i) as real, step);
      }
    }
  }

  /** When `lo <= hi` every point lies in `[lo, hi]`, and above `lo` when `lo < hi`. */
  lemma LinspaceBounds(lo: real, hi: real, n: nat)
    ensures lo <= hi ==> forall i | 0 <= i < n :: lo <= Linspace(lo, hi, n)[i] <= hi
    ensures lo < hi ==> forall i | 0 <= i < n :: lo < Linspace(lo, hi, n)[i]
  {
    var r, step := Linspace(lo, hi, n), Step(lo, hi, n);
    if lo <= hi {
      StepSign(lo, hi, n);
      forall i | 0 <= i < n ensures lo <= r[i] <= hi && (lo < hi ==> lo < r[i]) {
        DivCancel(hi - lo, n as real);
        assert hi - r[i] == n as real * step - (i + 1) as real * step;
        MulSub(n as real, (i + 1) as real, step);
        MulNonNegative((n - 1 - i) as real, step);
        MulNonNegative((i + 1) as real, step);
      }
    }
  }

  /** Joining a block that stays at or below `mid` to one that starts above it keeps the order. */
  lemma ConcatOrdered(a: seq<real>, b: seq<real>, mid: real)
    requires forall i | 0 <= i < |a| :: a[i] <= mid
    requires forall j | 0 <= j < |b| :: mid <= b[j]
    ensures NonDecreasing(a) && NonDecreasing(b) ==> NonDecreasing(a + b)
    ensures StrictlyIncreasing(a) && StrictlyIncreasing(b) && (forall j | 0 <= j < |b| :: mid < b[j])
      ==> StrictlyIncreasing(a + b)
  {
    var c := a + b;
    if NonDecreasing(a) && NonDecreasing(b) {
      forall i, j | 0 <= i < j < |c| ensures c[i] <= c[j] {
        if j < |a| {
          assert c[i] == a[i] && c[j] == a[j];
        } else if i >= |a| {
          assert c[i] == b[i - |a|] && c[j] == b[j - |a|];
        } else {
          assert c[i] == a[i] && c[j] == b[j - |a|];
        }
      }
    }
    if StrictlyIncreasing(a) && StrictlyIncreasing(b) && (forall j | 0 <= j < |b| :: mid < b[j]) {
      forall i, j | 0 <= i < j < |c| ensures c[i] < c[j] {
        if j < |a| {
          assert c[i] == a[i] && c[j] == a[j];
        } else if i >= |a| {
          assert c[i] == b[i - |a|] && c[j] == b[j - |a|];
        } else {
          assert c[i] == a[i] && c[j] == b[j - |a|];
        }
      }
    }
  }

  /** A candidate as the key gives it: no `,` inside and no whitespace at either end. */
  ghost predicate Candidate(c: string) {
    ',' !in c && (c != [] ==> !IsSpace(c[0]) && !IsSpace(c[|c| - 1]))
  }

  /** The items of `s.split(",")`, each stripped, are candidates, one per piece. */
  lemma StripPieces(s: string)
    ensures |StripAll(SplitOn(s, ','))| == |SplitOn(s, ',')|
    ensures forall i | 0 <= i < |StripAll(SplitOn(s, ','))| :: Candidate(StripAll(SplitOn(s, ','))[i])
  {
    var parts := SplitOn(s, ',');
    forall i | 0 <= i < |parts| ensures Candidate(StripAll(parts)[i]) {
      assert StripAll(parts)[i] == Strip(parts[i]);
    }
  }

  /** The typical candidates: the second group split at `,`, each item stripped; there is at least one. */
  function Typical(g: Groups): (r: seq<string>)
    ensures |r| >= 1
    ensures forall i | 0 <= i < |r| :: Candidate(r[i])
  {
    StripPieces(g.typical);
    StripAll(SplitOn(g.typical, ','))
  }

  /** The less typical candidates: none exactly when nothing but whitespace follows the `;`. */
  function LessTypical(g: Groups): (r: seq<string>)
    ensures r == [] <==> g.Less() == ""
    ensures forall i | 0 <= i < |r| :: Candidate(r[i])
  {
    if g.Less() == "" then []
    else
      StripPieces(g.Less());
      StripAll(SplitOn(g.Less(), ','))
  }

  /**
   * Cumulative weights for `n` typical and `m` less typical candidates: with
   * no less typical ones the typical ones share all the weight evenly,
   * otherwise they share `prop` and the rest share `1 - prop`.
   */
  function Weights(n: nat, m: nat, prop: real): (w: seq<real>)
    ensures |w| == n + m
  {
    if m == 0 then Linspace(0.0, 1.0, n) else Linspace(0.0, prop, n) + Linspace(prop, 1.0, m)
  }

  /**
   * The candidate list and weights of one matched line: sampling accepts it,
   * the typical candidates come first and every candidate is comma-free and
   * stripped.
   */
  function Entry(g: Groups, prop: real): (r: TransProb)
    ensures WellFormed(r)
    ensures Typical(g) <= r.candidates
    ensures |r.candidates| == |Typical(g)| + |LessTypical(g)|
    ensures forall i | 0 <= i < |r.candidates| :: Candidate(r.candidates[i])
  {
    Assemble(Typical(g), LessTypical(g), prop);
    TransProb(Typical(g) + LessTypical(g), Weights(|Typical(g)|, |LessTypical(g)|, prop))
  }

  lemma Assemble(t: seq<string>, l: seq<string>, prop: real)
    requires |t| >= 1
    requires forall i | 0 <= i < |t| :: Candidate(t[i])
    requires forall i | 0 <= i < |l| :: Candidate(l[i])
    ensures WellFormed(TransProb(t + l, Weights(|t|, |l|, prop)))
    ensures t <= t + l
    ensures forall i | 0 <= i < |t + l| :: Candidate((t + l)[i])
  {
    WeightsLast(|t|, |l|, prop);
    forall i | 0 <= i < |t + l| ensures Candidate((t + l)[i]) {
      if i >= |t| {
        assert (t + l)[i] == l[i - |t|];
      }
    }
  }

  lemma StripNoNewline(line: string)
    requires NoInnerNewline(line)
    ensures '\n' !in Strip(line)
  {
    var t := TrimStart(line, IsSpace);
    var s := TrimEnd(t, IsSpace);
    forall i | 0 <= i < |s| ensures s[i] != '\n' {
      assert s[i] == t[i] == line[|line| - |t| + i];
      if i == |s| - 1 {
        assert !IsSpace(s[i]);
      }
    }
  }

  /**
   * One line of the key: `None` when the line is a comment (a `#` in column
   * 0, before stripping) or when the stripped line does not match.
   */
  function ParseKeyLine(line: string, prop: real): (r: Option<(string, TransProb)>)
    requires NoInnerNewline(line)
    ensures |line| > 0 && line[0] == '#' ==> r.None?
  {
    if |line| > 0 && line[0] == '#' then None
    else
      StripNoNewline(line);
      match MatchKeyLine(Strip(line))
      case None => None
      case Some(g) => Some((g.key, Entry(g, prop)))
  }

  /** The grapheme of a line that parses, if any. */
  function KeyOf(line: string, prop: real): Option<string>
    requires NoInnerNewline(line)
  {
    match ParseKeyLine(line, prop)
    case None => None
    case Some(e) => Some(e.0)
  }

  /** The last cumulative weight is 1. */
  lemma WeightsLast(n: nat, m: nat, prop: real)
    requires n + m > 0
    ensures Weights(n, m, prop)[n + m - 1] == 1.0
  {
    if m == 0 {
      LinspaceLast(0.0, 1.0, n);
    } else {
      LinspaceLast(prop, 1.0, m);
      assert Weights(n, m, prop)[n + m - 1] == Linspace(prop, 1.0, m)[m - 1];
    }
  }

  /** A stripped line cannot start with the space of ` --- `, so the grapheme is never empty. */
  lemma MatchedKeyNonEmpty(s: string)
    requires '\n' !in s && MatchKeyLine(s).Some?
    requires s != [] ==> !IsSpace(s[0])
    ensures MatchKeyLine(s).value.key != []
  {
    MatchKeyLineGroups(s);
    var g := MatchKeyLine(s).value;
    assert s[|g.key|] == (g.key + Separator + g.typical + ";")[|g.key|] == ' ';
  }

  /** A parsed entry has a non-empty grapheme and a candidate list sampling accepts. */
  lemma ParsedEntryWellFormed(line: string, prop: real)
    requires NoInnerNewline(line)
    requires ParseKeyLine(line, prop).Some?
    ensures ParseKeyLine(line, prop).value.0 != []
    ensures WellFormed(ParseKeyLine(line, prop).value.1)
  {
    StripNoNewline(line);
    var s := Strip(line);
    var t := TrimStart(line, IsSpace);
    assert s != [] ==> s[0] == t[0];
    MatchedKeyNonEmpty(s);
  }

  /** With no less typical candidate the weights are i/n for i = 1..n. */
  lemma EvenWeights(n: nat, prop: real)
    ensures forall i | 0 <= i < n :: Weights(n, 0, prop)[i] == (i + 1) as real / n as real
  {
    LinspaceUnit(n);
  }

  /**
   * Otherwise the n typical candidates come first with weights i*prop/n for
   * i = 1..n, then the m less typical ones with prop + j*(1 - prop)/m for j = 1..m.
   */
  lemma SplitWeights(n: nat, m: nat, prop: real)
    requires m > 0
    ensures forall i | 0 <= i < n :: Weights(n, m, prop)[i] == (i + 1) as real * prop / n as real
    ensures Weights(n, m, prop)[..n] == Linspace(0.0, prop, n) && Weights(n, m, prop)[n..] == Linspace(prop, 1.0, m)
    ensures forall j | 0 <= j < m :: Weights(n, m, prop)[n..][j] == prop + (j + 1) as real * (1.0 - prop) / m as real
  {
    var a, b := Linspace(0.0, prop, n), Linspace(prop, 1.0, m);
    assert (a + b)[..n] == a;
    LinspaceBlocks(prop, n, m);
  }

  /** The weights rise strictly when 0 < prop < 1 and never fall when 0 <= prop <= 1. */
  lemma WeightsIncrease(n: nat, m: nat, prop: real)
    ensures 0.0 < prop < 1.0 ==> StrictlyIncreasing(Weights(n, m, prop))
    ensures 0.0 <= prop <= 1.0 ==> NonDecreasing(Weights(n, m, prop))
  {
    if m == 0 {
      LinspaceMonotone(0.0, 1.0, n);
    } else {
      var a, b := Linspace(0.0, prop, n), Linspace(prop, 1.0, m);
      LinspaceMonotone(0.0, prop, n);
      LinspaceMonotone(prop, 1.0, m);
      LinspaceBounds(0.0, prop, n);
      LinspaceBounds(prop, 1.0, m);
      if 0.0 <= prop <= 1.0 {
        ConcatOrdered(a, b, prop);
      }
    }
  }

  /** The table built from parsed lines in order: each parsed line sets the entry of its grapheme. */
  function Table(entries: seq<Option<(string, TransProb)>>): (d: Dict<string, TransProb>)
    ensures d.Valid()
  {
    if entries == [] then Empty()
    else
      var d := Table(entries[..|entries| - 1]);
      match entries[|entries| - 1]
      case None => d
      case Some(e) => d.Set(e.0, e.1)
  }

  /** Each line of the key, parsed. */
  function Parsed(lines: seq<string>, prop: real): (r: seq<Option<(string, TransProb)>>)
    requires forall i | 0 <= i < |lines| :: NoInnerNewline(lines[i])
    ensures |r| == |lines|
  {
    seq(|lines|, i requires 0 <= i < |lines| => ParseKeyLine(lines[i], prop))
  }

  /** `from_file`'s table after the lines `lines`: later lines replace earlier ones. */
  function ParseLines(lines: seq<string>, prop: real): (d: Dict<string, TransProb>)
    requires forall i | 0 <= i < |lines| :: NoInnerNewline(lines[i])
    ensures d.Valid()
  {
    Table(Parsed(lines, prop))
  }

  /** An entry set by a parsed line survives when no later line sets the same grapheme. */
  lemma {:induction false} TableLastWins(entries: seq<Option<(string, TransProb)>>, i: nat)
    requires i < |entries| && entries[i].Some?
    requires forall j | i < j < |entries| :: entries[j].None? || entries[j].value.0 != entries[i].value.0
    ensures entries[i].value.0 in Table(entries).vals && Table(entries).vals[entries[i].value.0] == entries[i].value.1
  {
    var init, last := entries[..|entries| - 1], entries[|entries| - 1];
    var d, e := Table(init), entries[i].value;
    if i < |entries| - 1 {
      assert init[i] == entries[i];
      forall j | i < j < |init| ensures init[j].None? || init[j].value.0 != e.0 {
        assert init[j] == entries[j];
      }
      TableLastWins(init, i);
      assert last.None? || last.value.0 != e.0;
    }
  }

  /** Every grapheme of the table is the grapheme of some parsed line. */
  lemma {:induction false} TableKeys(entries: seq<Option<(string, TransProb)>>, k: string)
    requires k in Table(entries).vals
    ensures exists i | 0 <= i < |entries| :: entries[i].Some? && entries[i].value.0 == k
  {
    var init, last := entries[..|entries| - 1], entries[|entries| - 1];
    if !(last.Some? && last.value.0 == k) {
      TableKeys(init, k);
      var i :| 0 <= i < |init| && init[i].Some? && init[i].value.0 == k;
      assert entries[i] == init[i];
    }
  }

  /** A table of entries that all have some property has only entries with that property. */
  lemma {:induction false} TableWellFormed(entries: seq<Option<(string, TransProb)>>)
    requires forall i | 0 <= i < |entries| && entries[i].Some? :: entries[i].value.0 != [] && WellFormed(entries[i].value.1)
    ensures forall k | k in Table(entries).vals :: k != [] && WellFormed(Table(entries).vals[k])
  {
    if entries != [] {
      var init := entries[..|entries| - 1];
      forall i | 0 <= i < |init| && init[i].Some? ensures init[i].value.0 != [] && WellFormed(init[i].value.1) {
        assert init[i] == entries[i];
      }
      TableWellFormed(init);
    }
  }

  /** The entry for a grapheme comes from the last line that defines it. */
  lemma ParseLinesLastWins(lines: seq<string>, prop: real, i: nat)
    requires forall j | 0 <= j < |lines| :: NoInnerNewline(lines[j])
    requires i < |lines| && ParseKeyLine(lines[i], prop).Some?
    requires forall j | i < j < |lines| :: KeyOf(lines[j], prop) != KeyOf(lines[i], prop)
    ensures var e := ParseKeyLine(lines[i], prop).value;
      e.0 in ParseLines(lines, prop).vals && ParseLines(lines, prop).vals[e.0] == e.1
  {
    var entries := Parsed(lines, prop);
    forall j | i < j < |entries| ensures entries[j].None? || entries[j].value.0 != entries[i].value.0 {
      assert KeyOf(lines[j], prop) != KeyOf(lines[i], prop);
    }
    TableLastWins(entries, i);
  }

  /** Every grapheme of the table is the grapheme of some line. */
  lemma ParseLinesOnlyParsedKeys(lines: seq<string>, prop: real, k: string)
    requires forall j | 0 <= j < |lines| :: NoInnerNewline(lines[j])
    requires k in ParseLines(lines, prop).vals
    ensures exists i | 0 <= i < |lines| :: KeyOf(lines[i], prop) == Some(k)
  {
    var entries := Parsed(lines, prop);
    TableKeys(entries, k);
    var i :| 0 <= i < |entries| && entries[i].Some? && entries[i].value.0 == k;
    assert KeyOf(lines[i], prop) == Some(k);
  }

  /** Every entry of the parsed table has a non-empty grapheme and sampling accepts it. */
  lemma ParseLinesWellFormed(lines: seq<string>, prop: real)
    requires forall j | 0 <= j < |lines| :: NoInnerNewline(lines[j])
    ensures forall k | k in ParseLines(lines, prop).vals :: k != [] && WellFormed(ParseLines(lines, prop).vals[k])
  {
    var entries := Parsed(lines, prop);
    forall i | 0 <= i < |entries| && entries[i].Some? ensures entries[i].value.0 != [] && WellFormed(entries[i].value.1) {
      ParsedEntryWellFormed(lines[i], prop);
    }
    TableWellFormed(entries);
  }

  /** `from_file`'s loop over the lines of the key. */
  method FromLines(lines: seq<string>, prop: real) returns (d: Dict<string, TransProb>)
    requires forall i | 0 <= i < |lines| :: NoInnerNewline(lines[i])
    ensures d == ParseLines(lines, prop)
  {
    d := Empty();
    for k := 0 to |lines|
      invariant d == Table(Parsed(lines[..k], prop))
    {
      assert Parsed(lines[..k + 1], prop)[..k] == Parsed(lines[..k], prop);
      match ParseKeyLine(lines[k], prop) {
        case Some(e) => d := d.Set(e.0, e.1);
        case None =>
      }
    }
    assert lines[..|lines|] == lines;
  }

  /** The key line `k --- k; c` has nothing to strip. */
  lemma KeyLineStripped()
    ensures NoInnerNewline("k --- k; c") && Strip("k --- k; c") == "k --- k; c"
  {
    var line := "k --- k; c";
    assert !IsSpace(line[0]) && !IsSpace(line[|line| - 1]);
  }

  /** The key line `k --- k; c` matches with grapheme `k`, typical group `k` and the rest ` c`. */
  lemma KeyLineMatch()
    ensures MatchKeyLine("k --- k; c") == Some(Groups("k", "k", " c"))
  {
    var line := "k --- k; c";
    assert FindLastChar(line, ';') == Some(7);
    assert line[2..7][0] == '-' != Separator[0];
    assert line[1..6] == Separator;
    assert FindLast(line, Separator, 7) == Some(1);
    assert line[..1] == "k" && line[6..7] == "k" && line[8..] == " c";
  }

  /** With `prop_typical` 0.9 the groups `k` and ` c` give `k` the weight 0.9 and `c` the rest. */
  lemma KeyLineEntry()
    ensures Entry(Groups("k", "k", " c"), 0.9) == TransProb(["k", "c"], [0.9, 1.0])
  {
    var g := Groups("k", "k", " c");
    assert g.Less() == "c";
    assert SplitOn("k", ',') == ["k"] && SplitOn("c", ',') == ["c"];
    assert Strip("k") == "k" && Strip("c") == "c";
    assert Typical(g) == ["k"] && LessTypical(g) == ["c"];
    KeyLineWeights();
  }

  /** One typical and one less typical candidate with `prop_typical` 0.9 weigh 0.9 and 1. */
  lemma KeyLineWeights()
    ensures Weights(1, 1, 0.9) == [0.9, 1.0]
  {
    assert Step(0.0, 0.9, 1) == 0.9 && Step(0.9, 1.0, 1) == 0.1;
    assert Linspace(0.0, 0.9, 1) == [0.9];
    assert Linspace(0.9, 1.0, 1) == [1.0];
  }

  /** With `prop_typical` 0.9 the key line `k --- k; c` maps `k` to the candidates `k` and `c` with weights 0.9 and 1. */
  lemma KeyLineParsed()
    ensures ParseKeyLine("k --- k; c", 0.9) == Some(("k", TransProb(["k", "c"], [0.9, 1.0])))
  {
    KeyLineStripped();
    KeyLineMatch();
    KeyLineEntry();
  }
}
