/**
 * What `expand` (trie.js:101-156) promises, stated about TrieSpec.Insert
 * and TrieSpec.Expand: the inserted key can be followed from the receiver
 * and ends on a node holding the value; every other node keeps its value;
 * a second insertion with the same key overwrites the first; and the
 * tree invariants (letters below the root, distinct siblings, values on
 * the node of their own key) are preserved.
 */
module ExpandProps {
  import opened Wrappers
  import opened Keys
  import opened TrieSpec

  /** FindChild is determined by its three postconditions. */
  lemma FindChildIs(cs: seq<Tree>, c: char, i: nat)
    requires i <= |cs|
    requires i < |cs| ==> cs[i].letter == Some(c)
    requires forall j :: 0 <= j < i ==> cs[j].letter != Some(c)
    ensures FindChild(cs, c) == i
  {
  }

  /** After an insertion the same letter leads to the same child index. */
  lemma FindChildAfterInsert(t: Tree, key: string, v: string)
    requires |key| > 0
    ensures FindChild(Insert(t, key, v).children, key[0]) == FindChild(t.children, key[0])
  {
    var r := Insert(t, key, v);
    var i := FindChild(t.children, key[0]);
    FindChildIs(r.children, key[0], i);
  }

  /** Nodes with the same children have the same non-empty paths. */
  lemma SameChildrenAt(a: Tree, b: Tree, p: seq<nat>)
    requires a.children == b.children && |p| > 0
    ensures IsPath(a, p) <==> IsPath(b, p)
    ensures IsPath(a, p) ==> At(a, p) == At(b, p)
  {
  }

  /** `expand` round trip: following the inserted path from the receiver
      spells the key, and the node at its end holds the value. */
  lemma {:induction false} InsertSpells(t: Tree, key: string, v: string)
    requires |key| > 0
    ensures Spells(Insert(t, key, v), InsertPath(t.children, key), key)
    ensures IsPath(Insert(t, key, v), InsertPath(t.children, key))
    ensures At(Insert(t, key, v), InsertPath(t.children, key)).stored == Some(v)
    decreases |key|
  {
    var r := Insert(t, key, v);
    var i := FindChild(t.children, key[0]);
    var child := if i < |t.children| then t.children[i] else Tree(Some(key[0]), None, []);
    var marked := if |key| == 1 then child.(stored := Some(v)) else child;
    var grown := Insert(marked, key[1..], v);
    assert r.children[i] == grown;
    var p := InsertPath(t.children, key);
    assert p == [i] + InsertPath(child.children, key[1..]);
    assert grown.letter == Some(key[0]);
    if |key| > 1 {
      InsertSpells(marked, key[1..], v);
      assert p[1..] == InsertPath(marked.children, key[1..]);
    } else {
      assert p[1..] == [] && key[1..] == [];
      assert Spells(grown, p[1..], key[1..]);
    }
    assert SpellsAmong(r.children, p, key);
    SpellsIsPath(r, p, key);
  }

  /** `actualValue` changes only on the final node of the inserted path:
      every other node of the new tree holds what it held before, and a node
      that did not exist before holds nothing. */
  lemma {:induction false} InsertLeavesOthers(t: Tree, key: string, v: string, p: seq<nat>)
    requires IsPath(Insert(t, key, v), p)
    requires p != InsertPath(t.children, key)
    ensures At(Insert(t, key, v), p).stored == (if IsPath(t, p) then At(t, p).stored else None)
    decreases |key|
  {
    var r := Insert(t, key, v);
    if |key| > 0 && |p| > 0 {
      var i := FindChild(t.children, key[0]);
      var child := if i < |t.children| then t.children[i] else Tree(Some(key[0]), None, []);
      var marked := if |key| == 1 then child.(stored := Some(v)) else child;
      var grown := Insert(marked, key[1..], v);
      var j, rest := p[0], p[1..];
      if j != i {
        assert j < |t.children| && r.children[j] == t.children[j];
      } else {
        assert r.children[i] == grown;
        assert InsertPath(t.children, key) == [i] + InsertPath(marked.children, key[1..]);
        assert rest != InsertPath(marked.children, key[1..]);
        InsertLeavesOthers(marked, key[1..], v, rest);
        if |rest| > 0 {
          SameChildrenAt(marked, child, rest);
        }
      }
    }
  }

  /** Every node of the old tree is still there, with the same letter and
      at least as many children. */
  lemma {:induction false} InsertKeepsPaths(t: Tree, key: string, v: string, p: seq<nat>)
    requires IsPath(t, p)
    ensures IsPath(Insert(t, key, v), p)
    ensures At(Insert(t, key, v), p).letter == At(t, p).letter
    ensures |At(Insert(t, key, v), p).children| >= |At(t, p).children|
    decreases |p|
  {
    var r := Insert(t, key, v);
    if |key| > 0 && |p| > 0 {
      var i := FindChild(t.children, key[0]);
      if p[0] == i {
        var child := t.children[i];
        var marked := if |key| == 1 then child.(stored := Some(v)) else child;
        assert r.children[i] == Insert(marked, key[1..], v);
        if |p| > 1 {
          SameChildrenAt(marked, child, p[1..]);
        }
        InsertKeepsPaths(marked, key[1..], v, p[1..]);
      } else {
        assert r.children[p[0]] == t.children[p[0]];
      }
    }
  }

  /** A second insertion with the same key overwrites the first: the tree is
      exactly as if only the second value had been inserted. */
  lemma {:induction false} InsertTwice(t: Tree, key: string, v1: string, v2: string)
    ensures Insert(Insert(t, key, v1), key, v2) == Insert(t, key, v2)
    decreases |key|
  {
    if |key| > 0 {
      var i := FindChild(t.children, key[0]);
      var child := if i < |t.children| then t.children[i] else Tree(Some(key[0]), None, []);
      var marked1 := if |key| == 1 then child.(stored := Some(v1)) else child;
      var marked2 := if |key| == 1 then child.(stored := Some(v2)) else child;
      var grown1 := Insert(marked1, key[1..], v1);
      var r1 := Insert(t, key, v1);
      FindChildAfterInsert(t, key, v1);
      assert r1.children[i] == grown1;
      var again := if |key| == 1 then grown1.(stored := Some(v2)) else grown1;
      if |key| > 1 {
        InsertTwice(child, key[1..], v1, v2);
      }
      assert Insert(again, key[1..], v2) == Insert(marked2, key[1..], v2);
      if i < |t.children| {
        assert r1.children[i := Insert(again, key[1..], v2)] == t.children[i := Insert(marked2, key[1..], v2)];
      } else {
        assert r1.children[i := Insert(again, key[1..], v2)] == t.children + [Insert(marked2, key[1..], v2)];
      }
    }
  }

  /** `expand` with two values whose keys coincide keeps only the later one. */
  lemma ExpandOverwrites(t: Tree, v1: string, v2: string)
    requires Sanitize(v1) == Sanitize(v2)
    ensures Expand(Expand(t, v1), v2) == Expand(t, v2)
  {
    InsertTwice(t, Sanitize(v1), v1, v2);
  }

  /** `expand` descends into the first matching child and appends a child
      only when none matches, so distinct siblings stay distinct. */
  lemma {:induction false} InsertDistinct(t: Tree, key: string, v: string)
    requires DistinctSiblings(t)
    ensures DistinctSiblings(Insert(t, key, v))
    decreases |key|
  {
    if |key| > 0 {
      var r := Insert(t, key, v);
      var i := FindChild(t.children, key[0]);
      var child := if i < |t.children| then t.children[i] else Tree(Some(key[0]), None, []);
      var marked := if |key| == 1 then child.(stored := Some(v)) else child;
      InsertDistinct(marked, key[1..], v);
      assert r.children[i] == Insert(marked, key[1..], v);
      forall k | 0 <= k < |r.children|
        ensures DistinctSiblings(r.children[k])
      {
        if k != i {
          assert r.children[k] == t.children[k];
        }
      }
    }
  }

  /** Nodes created by `expand` always carry a letter. */
  lemma {:induction false} InsertLettered(t: Tree, key: string, v: string)
    requires Lettered(t)
    ensures Lettered(Insert(t, key, v))
    decreases |key|
  {
    if |key| > 0 {
      var r := Insert(t, key, v);
      var i := FindChild(t.children, key[0]);
      var child := if i < |t.children| then t.children[i] else Tree(Some(key[0]), None, []);
      var marked := if |key| == 1 then child.(stored := Some(v)) else child;
      InsertLettered(marked, key[1..], v);
      assert r.children[i] == Insert(marked, key[1..], v);
      forall k | 0 <= k < |r.children|
        ensures r.children[k].letter.Some? && Lettered(r.children[k])
      {
        if k != i {
          assert r.children[k] == t.children[k];
        }
      }
    }
  }

  /** `expand` stores a value on the node its own sanitised key spells. */
  lemma {:induction false} InsertKeyed(t: Tree, prefix: string, key: string, v: string)
    requires Keyed(t, prefix)
    requires Sanitize(v) == prefix + key
    ensures Keyed(Insert(t, key, v), prefix)
    decreases |key|
  {
    if |key| > 0 {
      var r := Insert(t, key, v);
      var i := FindChild(t.children, key[0]);
      var child := if i < |t.children| then t.children[i] else Tree(Some(key[0]), None, []);
      var marked := if |key| == 1 then child.(stored := Some(v)) else child;
      var below := prefix + [key[0]];
      assert Keyed(Insert(marked, key[1..], v), below) by {
        assert Keyed(child, below);
        assert Sanitize(v) == below + key[1..] by { assert key == [key[0]] + key[1..]; }
        InsertKeyed(marked, below, key[1..], v);
      }
      assert r.children[i] == Insert(marked, key[1..], v);
      forall k | 0 <= k < |r.children|
        ensures r.children[k].letter.Some? && Keyed(r.children[k], prefix + [r.children[k].letter.value])
      {
        if k != i {
          assert r.children[k] == t.children[k];
        }
      }
    }
  }

  /** The invariants hold of a new trie (trie.js:15-21). */
  lemma EmptyInvariants()
    ensures Lettered(Empty) && DistinctSiblings(Empty) && Keyed(Empty, "")
  {
  }

  /** The invariants survive every `expand`. */
  lemma ExpandInvariants(t: Tree, v: string)
    requires Lettered(t) && DistinctSiblings(t) && Keyed(t, "")
    ensures Lettered(Expand(t, v)) && DistinctSiblings(Expand(t, v)) && Keyed(Expand(t, v), "")
  {
    InsertLettered(t, Sanitize(v), v);
    InsertDistinct(t, Sanitize(v), v);
    assert Sanitize(v) == "" + Sanitize(v);
    InsertKeyed(t, "", Sanitize(v), v);
  }

  /** The trie a fresh node becomes after `expand` of each of `vs`, in order. */
  function Built(vs: seq<string>): Tree
    decreases |vs|
  {
    if |vs| == 0 then Empty else Expand(Built(vs[..|vs| - 1]), vs[|vs| - 1])
  }

  /** Every trie built from a fresh node by `expand` keeps the invariants. */
  lemma {:induction false} BuiltInvariants(vs: seq<string>)
    ensures Lettered(Built(vs)) && DistinctSiblings(Built(vs)) && Keyed(Built(vs), "")
    decreases |vs|
  {
    if |vs| == 0 {
      EmptyInvariants();
    } else {
      BuiltInvariants(vs[..|vs| - 1]);
      ExpandInvariants(Built(vs[..|vs| - 1]), vs[|vs| - 1]);
    }
  }
}
