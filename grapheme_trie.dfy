/**
 * The second half of `Romanizer.__init__`: the graphemes of several
 * characters are stored in a trie of nested dicts, one character per level,
 * and the node a grapheme ends at holds the grapheme itself under `END`.
 *
 * A node is named here by the path of characters that leads to it from the
 * root, so the trie is the set of its node paths together with the `END`
 * entries, keyed by the path of the node that holds them.
 */
module GraphemeTrie {

  datatype Trie = Trie(nodes: set<string>, ends: map<string, string>)

  /** `p` leads from the root to a node of the trie that indexes `keys`. */
  ghost predicate OnSomePath(p: string, keys: set<string>) {
    p == [] || exists k | k in keys :: p <= k
  }

  /**
   * `t` indexes exactly `keys`: its nodes are the prefixes of the keys (and
   * the root), the nodes with an `END` entry are the keys, and each `END`
   * entry is the path leading to it.
   */
  ghost predicate Indexes(t: Trie, keys: set<string>) {
    && (forall p :: p in t.nodes <==> OnSomePath(p, keys))
    && (forall p :: p in t.ends <==> p in keys)
    && (forall p | p in t.ends :: t.ends[p] == p)
  }

  /** `p` starts one of `ks`. */
  ghost predicate StartsSome(p: string, ks: seq<string>) {
    exists k | k in ks :: p <= k
  }

  lemma StartsSomeAppend(p: string, ks: seq<string>, k: string)
    ensures StartsSome(p, ks + [k]) <==> StartsSome(p, ks) || p <= k
  {
    if p <= k {
      assert k in ks + [k];
    }
    if StartsSome(p, ks) {
      var k' :| k' in ks && p <= k';
      assert k' in ks + [k];
    }
    if StartsSome(p, ks + [k]) && !(p <= k) {
      var k' :| k' in ks + [k] && p <= k';
      assert k' in ks;
    }
  }

  lemma PrefixStep(lc: string, i: nat)
    requires i < |lc|
    ensures forall p :: (p <= lc && |p| <= i + 1) <==> (p <= lc && |p| <= i) || p == lc[..i + 1]
  {
  }

  /**
   * The loop that builds the trie from the list of graphemes of several
   * characters: for each one, walk from the root, add each missing child,
   * and store the grapheme under `END` at the last node.
   */
  method Build(longChars: seq<string>) returns (t: Trie)
    ensures Indexes(t, set k | k in longChars && k != [])
  {
    var nodes: set<string> := {[]};
    var ends: map<string, string> := map[];
    for n := 0 to |longChars|
      invariant forall p :: p in nodes <==> p == [] || StartsSome(p, longChars[..n])
      invariant forall p :: p in ends <==> p in longChars[..n] && p != []
      invariant forall p | p in ends :: ends[p] == p
    {
      var lc := longChars[n];
      nodes, ends := Insert(nodes, ends, lc);
      assert longChars[..n + 1] == longChars[..n] + [lc];
      forall p ensures StartsSome(p, longChars[..n + 1]) <==> StartsSome(p, longChars[..n]) || p <= lc {
        StartsSomeAppend(p, longChars[..n], lc);
      }
    }
    t := Trie(nodes, ends);
    ghost var keys := set k | k in longChars && k != [];
    assert longChars[..|longChars|] == longChars;
    forall p ensures p in nodes <==> OnSomePath(p, keys) {
      if p in nodes && p != [] {
        var k :| k in longChars && p <= k;
        assert k in keys;
      }
    }
  }

  /** The walk for one grapheme `lc`: every node on its path is added, and `lc` is stored at the last one. */
  method Insert(nodes0: set<string>, ends0: map<string, string>, lc: string)
    returns (nodes: set<string>, ends: map<string, string>)
    requires [] in nodes0
    ensures forall p :: p in nodes <==> p in nodes0 || p <= lc
    ensures ends == if lc == [] then ends0 else ends0[lc := lc]
  {
    nodes, ends := nodes0, ends0;
    var curr: string := [];
    forall p | p <= lc && |p| <= 0 ensures p in nodes0 {
      assert p == [];
    }
    for i := 0 to |lc|
      invariant curr == lc[..i]
      invariant forall p :: p in nodes <==> p in nodes0 || (p <= lc && |p| <= i)
      invariant ends == if i == |lc| && lc != [] then ends0[lc := lc] else ends0
    {
      if curr + [lc[i]] !in nodes {
        nodes := nodes + {curr + [lc[i]]};
      }
      assert lc[..i + 1] == curr + [lc[i]];
      PrefixStep(lc, i);
      curr := curr + [lc[i]];
      if i == |lc| - 1 {
        assert curr == lc;
        ends := ends[curr := lc];
      }
    }
  }

  /**
   * Walking the characters of an indexed grapheme from the root never falls
   * off the trie, and the node reached holds that grapheme under `END`.
   */
  lemma WalkReachesKey(t: Trie, keys: set<string>, k: string)
    requires Indexes(t, keys) && k in keys
    ensures forall i | 0 <= i <= |k| :: k[..i] in t.nodes
    ensures k in t.ends && t.ends[k] == k
  {
    forall i | 0 <= i <= |k| ensures k[..i] in t.nodes {
      assert k[..i] <= k;
    }
  }
}
