/**
 * What `collect` (trie.js:266-280) promises, stated about
 * TrieSpec.Collect: the result holds every non-empty stored value of the
 * subtree and nothing else, and in a keyed trie every collected value's
 * key extends the prefix of the node collected from.
 */
module CollectProps {
  import opened Wrappers
  import opened Keys
  import opened TrieSpec

  /** Every non-empty value stored anywhere in the subtree is collected. */
  lemma {:induction false} CollectHas(t: Tree, p: seq<nat>, w: string)
    requires IsPath(t, p) && At(t, p).stored == Some(w) && w != ""
    ensures w in Collect(t)
    decreases |p|
  {
    if |p| > 0 {
      CollectHas(t.children[p[0]], p[1..], w);
      CollectAllHas(t.children, p[0], w);
    }
  }

  lemma {:induction false} CollectAllHas(cs: seq<Tree>, k: nat, w: string)
    requires k < |cs| && w in Collect(cs[k])
    ensures w in CollectAll(cs)
    decreases |cs|
  {
    if k > 0 {
      assert cs[1..][k - 1] == cs[k];
      CollectAllHas(cs[1..], k - 1, w);
    }
  }

  /** Everything collected is a non-empty value stored somewhere in the subtree. */
  lemma {:induction false} CollectFrom(t: Tree, w: string) returns (p: seq<nat>)
    requires w in Collect(t)
    ensures IsPath(t, p) && At(t, p).stored == Some(w) && w != ""
    ensures w !in Own(t) ==> |p| > 0
    decreases t, 1
  {
    if w in Own(t) {
      p := [];
    } else {
      var k, q := CollectAllFrom(t.children, w);
      p := [k] + q;
      assert p[1..] == q;
    }
  }

  lemma {:induction false} CollectAllFrom(cs: seq<Tree>, w: string) returns (k: nat, q: seq<nat>)
    requires w in CollectAll(cs)
    ensures k < |cs| && IsPath(cs[k], q) && At(cs[k], q).stored == Some(w) && w != ""
    decreases cs, 0
  {
    if w in Collect(cs[0]) {
      k := 0;
      q := CollectFrom(cs[0], w);
    } else {
      var k', q' := CollectAllFrom(cs[1..], w);
      k, q := k' + 1, q';
      assert cs[1..][k'] == cs[k];
    }
  }

  /** In a keyed trie a value stored `|p|` steps below a node with prefix
      `prefix` has a key that extends `prefix` by `|p|` letters. */
  lemma {:induction false} KeyedPath(t: Tree, prefix: string, p: seq<nat>)
    requires Keyed(t, prefix) && IsPath(t, p) && At(t, p).stored.Some?
    ensures prefix <= Sanitize(At(t, p).stored.value)
    ensures |Sanitize(At(t, p).stored.value)| == |prefix| + |p|
    decreases |p|
  {
    if |p| > 0 {
      var c := t.children[p[0]];
      KeyedPath(c, prefix + [c.letter.value], p[1..]);
    }
  }

  /** In a keyed trie, collecting from a node with prefix `prefix` yields
      only values whose keys extend `prefix`; values collected from below
      the node itself have strictly longer keys. */
  lemma CollectKeyed(t: Tree, prefix: string, w: string)
    requires Keyed(t, prefix) && w in Collect(t)
    ensures prefix <= Sanitize(w)
    ensures w !in Own(t) ==> |Sanitize(w)| > |prefix|
  {
    var p := CollectFrom(t, w);
    KeyedPath(t, prefix, p);
  }

  /** Collecting one more child appends that child's collection. */
  lemma {:induction false} CollectAllSnoc(cs: seq<Tree>, j: nat)
    requires j < |cs|
    ensures CollectAll(cs[..j + 1]) == CollectAll(cs[..j]) + Collect(cs[j])
    decreases j
  {
    if j > 0 {
      assert cs[..j + 1][1..] == cs[1..][..j] && cs[..j][1..] == cs[1..][..j - 1];
      CollectAllSnoc(cs[1..], j - 1);
    } else {
      assert cs[..1][1..] == [];
    }
  }

  /** The same, seen from the parent, whose own value comes first. */
  lemma CollectStep(t: Tree, j: nat)
    requires j < |t.children|
    ensures Own(t) + CollectAll(t.children[..j + 1]) == Own(t) + CollectAll(t.children[..j]) + Collect(t.children[j])
  {
    CollectAllSnoc(t.children, j);
  }
}
