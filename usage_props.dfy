/**
 * The usage comment at the top of trie.js (trie.js:10-14): a fresh trie,
 * `expand("Testing")`, then `search("Test").collect()` gives
 * `["Testing"]`. Stated for every value inserted into an empty node and
 * every query whose key is a non-empty prefix of its key, then
 * instantiated on the example itself.
 */
module UsageProps {
  import opened Wrappers
  import opened Keys
  import opened TrieSpec
  import SearchProps

  /** The chain of fresh nodes `expand` appends below a childless node. */
  function Chain(key: string, v: string): (t: Tree)
    requires |key| > 0
    ensures t.letter == Some(key[0])
  {
    if |key| == 1 then Tree(Some(key[0]), Some(v), [])
    else Tree(Some(key[0]), None, [Chain(key[1..], v)])
  }

  /** Inserting below a node without children appends a single chain. */
  lemma {:induction false} InsertIntoLeaf(l: Option<char>, s: Option<string>, key: string, v: string)
    requires |key| > 0
    ensures Insert(Tree(l, s, []), key, v) == Tree(l, s, [Chain(key, v)])
    decreases |key|
  {
    if |key| > 1 {
      InsertIntoLeaf(Some(key[0]), None, key[1..], v);
    }
  }

  /** The walk `expand` takes below a childless node always picks child 0. */
  lemma {:induction false} InsertPathFresh(key: string)
    ensures InsertPath([], key) == seq(|key|, _ => 0)
    decreases |key|
  {
    if |key| > 0 {
      InsertPathFresh(key[1..]);
    }
  }

  /** Following `m` steps down a chain reaches the chain of the rest of the key. */
  lemma {:induction false} ChainAt(key: string, v: string, m: nat)
    requires m < |key|
    ensures IsPath(Chain(key, v), seq(m, _ => 0)) && At(Chain(key, v), seq(m, _ => 0)) == Chain(key[m..], v)
    decreases m
  {
    if m > 0 {
      assert seq(m, _ => 0)[1..] == seq(m - 1, _ => 0);
      assert key[1..][m - 1..] == key[m..];
      ChainAt(key[1..], v, m - 1);
    }
  }

  /** A chain holds exactly one value, the one at its end. */
  lemma {:induction false} ChainCollect(key: string, v: string)
    requires |key| > 0 && v != ""
    ensures Collect(Chain(key, v)) == [v]
    decreases |key|
  {
    if |key| > 1 {
      ChainCollect(key[1..], v);
      assert CollectAll([Chain(key[1..], v)]) == [v] by {
        assert [Chain(key[1..], v)][1..] == [];
      }
    }
  }

  /** After expanding `v` into a node with no children, collecting below
      the node any prefix of its key finds yields `v` and nothing else. */
  lemma ExpandIntoEmpty(l: Option<char>, s: Option<string>, v: string, q: string)
    requires Sanitize(q) != "" && Sanitize(q) <= Sanitize(v)
    ensures var r := Expand(Tree(l, s, []), v);
            Search(r, q).Some? && Collect(At(r, Search(r, q).value)) == [v]
  {
    var t, key, n := Tree(l, s, []), Sanitize(v), |Sanitize(q)|;
    var r := Expand(t, v);
    SearchProps.ExpandThenSearch(t, v, q);
    InsertIntoLeaf(l, s, key, v);
    InsertPathFresh(key);
    var p := seq(n, _ => 0);
    assert InsertPath(t.children, key)[..n] == p;
    assert p == [0] + seq(n - 1, _ => 0);
    ChainAt(key, v, n - 1);
    assert At(r, p) == Chain(key[n - 1..], v);
    assert |v| >= |key| > 0;
    ChainCollect(key[n - 1..], v);
  }

  /** The usage comment: `expand("Testing")` on a fresh node, then
      `search("Test").collect()` gives `["Testing"]`. */
  lemma TestingExample()
    ensures var r := Expand(Empty, "Testing");
            Search(r, "Test").Some? && Collect(At(r, Search(r, "Test").value)) == ["Testing"]
  {
    ValueKey();
    QueryKey();
    assert "test" <= "testing";
    ExpandIntoEmpty(None, None, "Testing", "Test");
  }
}
