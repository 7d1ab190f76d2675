/**
 * Value view of the trie in trie.js. A `Tree` is what one `Trie.Node`
 * and everything below it hold: the node's letter (`_node`, absent on
 * a root), its stored original string (`_actualValue`) and its children
 * (`_children`) in insertion order. The functions here define what
 * `expand`, `search`, `collect`, `collapse` and `toArray` compute; the
 * lemmas state what they promise. The class in module Trie is proved
 * to follow these definitions.
 */
module TrieSpec {
  import opened Wrappers
  import opened Keys

  datatype Tree = Tree(letter: Option<char>, stored: Option<string>, children: seq<Tree>)

  /** A freshly initialised node: no letter, no value, no children (trie.js:15-21). */
  const Empty: Tree := Tree(None, None, [])

  // ---------------------------------------------------------------------
  // Paths: a path is the sequence of child indices followed from a node.
  // ---------------------------------------------------------------------

  ghost predicate IsPath(t: Tree, p: seq<nat>)
    decreases |p|
  {
    |p| == 0 || (p[0] < |t.children| && IsPath(t.children[p[0]], p[1..]))
  }

  /** The node reached by following `p` from `t`. */
  ghost function At(t: Tree, p: seq<nat>): Tree
    requires IsPath(t, p)
    decreases |p|
  {
    if |p| == 0 then t else At(t.children[p[0]], p[1..])
  }

  /** Following `p` from `t` spells `key`: the i-th node below `t` carries key[i]. */
  ghost predicate Spells(t: Tree, p: seq<nat>, key: string)
    decreases |p|, 1
  {
    SpellsAmong(t.children, p, key)
  }

  /** The same, starting among the sibling list `cs`. */
  ghost predicate SpellsAmong(cs: seq<Tree>, p: seq<nat>, key: string)
    decreases |p|, 0
  {
    |p| == |key| &&
    (|p| == 0 ||
     (p[0] < |cs| && cs[p[0]].letter == Some(key[0]) &&
      Spells(cs[p[0]], p[1..], key[1..])))
  }

  lemma {:induction false} SpellsIsPath(t: Tree, p: seq<nat>, key: string)
    requires Spells(t, p, key)
    ensures IsPath(t, p)
    decreases |p|
  {
    if |p| > 0 {
      SpellsIsPath(t.children[p[0]], p[1..], key[1..]);
    }
  }

  /** Following `p` and then `q` is following `p + q`. */
  lemma {:induction false} AtConcat(t: Tree, p: seq<nat>, q: seq<nat>)
    requires IsPath(t, p) && IsPath(At(t, p), q)
    ensures IsPath(t, p + q) && At(t, p + q) == At(At(t, p), q)
    decreases |p|
  {
    if |p| > 0 {
      assert (p + q)[0] == p[0] && (p + q)[1..] == p[1..] + q;
      AtConcat(t.children[p[0]], p[1..], q);
    } else {
      assert p + q == q;
    }
  }

  /** The first `n` steps of a path spelling `key` spell the first `n` letters. */
  lemma {:induction false} SpellsPrefix(t: Tree, p: seq<nat>, key: string, n: nat)
    requires Spells(t, p, key) && n <= |p| && n <= |key|
    ensures Spells(t, p[..n], key[..n])
    decreases |p|
  {
    if n > 0 {
      assert p[..n][1..] == p[1..][..n - 1] && key[..n][1..] == key[1..][..n - 1];
      SpellsPrefix(t.children[p[0]], p[1..], key[1..], n - 1);
    }
  }

  /** Every node below the root carries a letter. */
  ghost predicate Lettered(t: Tree) {
    forall k :: 0 <= k < |t.children| ==> t.children[k].letter.Some? && Lettered(t.children[k])
  }

  /** No two siblings anywhere in the tree carry the same letter. */
  ghost predicate DistinctSiblings(t: Tree) {
    (forall i, j :: 0 <= i < j < |t.children| ==> t.children[i].letter != t.children[j].letter) &&
    (forall k :: 0 <= k < |t.children| ==> DistinctSiblings(t.children[k]))
  }

  /** Every stored value sits on the node its own sanitised key leads to;
      `prefix` is what the path from the root down to `t` spells. */
  ghost predicate Keyed(t: Tree, prefix: string) {
    (t.stored.Some? ==> Sanitize(t.stored.value) == prefix) &&
    forall k :: 0 <= k < |t.children| ==>
      t.children[k].letter.Some? && Keyed(t.children[k], prefix + [t.children[k].letter.value])
  }

  // ---------------------------------------------------------------------
  // expand (trie.js:101-156)
  // ---------------------------------------------------------------------

  /** `_.find(node.children(), child => child.nodeValue() == c)`, as an index:
      the first child carrying `c`, or |cs| when there is none (trie.js:117-121). */
  function FindChild(cs: seq<Tree>, c: char): (i: nat)
    ensures i <= |cs|
    ensures i < |cs| ==> cs[i].letter == Some(c)
    ensures forall j :: 0 <= j < i ==> cs[j].letter != Some(c)
  {
    if |cs| == 0 then 0
    else if cs[0].letter == Some(c) then 0
    else 1 + FindChild(cs[1..], c)
  }

  /** `_expand(node, key)`: descend into the first child carrying key[0], or
      append a new child for it; the node for the last letter gets `v`. */
  function Insert(t: Tree, key: string, v: string): (r: Tree)
    decreases |key|
    // the receiver keeps its own letter and value; an empty key changes nothing
    ensures r.letter == t.letter && r.stored == t.stored
    ensures |key| == 0 ==> r == t
    // existing children keep their letters and order; at most one is appended
    ensures |key| > 0 ==>
      |r.children| == |t.children| + (if FindChild(t.children, key[0]) < |t.children| then 0 else 1)
    ensures forall k :: 0 <= k < |r.children| ==>
      r.children[k].letter == (if k < |t.children| then t.children[k].letter else Some(key[0]))
  {
    if |key| == 0 then t
    else
      var i := FindChild(t.children, key[0]);
      var child := if i < |t.children| then t.children[i] else Tree(Some(key[0]), None, []);
      var marked := if |key| == 1 then child.(stored := Some(v)) else child;
      var grown := Insert(marked, key[1..], v);
      t.(children := if i < |t.children| then t.children[i := grown] else t.children + [grown])
  }

  /** `node.expand(v)`: insert `v` along its sanitised key. */
  function Expand(t: Tree, v: string): (r: Tree)
    // the receiver keeps its letter and value, and its children their letters
    ensures r.letter == t.letter && r.stored == t.stored
    ensures |t.children| <= |r.children| <= |t.children| + 1
    ensures forall k :: 0 <= k < |t.children| ==> r.children[k].letter == t.children[k].letter
    // a value without a letter has nowhere to go
    ensures Sanitize(v) == "" ==> r == t
  {
    Insert(t, Sanitize(v), v)
  }

  /** The child indices `Insert(t, key, v)` walks along from a node whose
      children are `cs` (the walk does not depend on `v`). */
  function InsertPath(cs: seq<Tree>, key: string): (p: seq<nat>)
    decreases |key|
    ensures |p| == |key|
  {
    if |key| == 0 then []
    else
      var i := FindChild(cs, key[0]);
      [i] + InsertPath(if i < |cs| then cs[i].children else [], key[1..])
  }

  // ---------------------------------------------------------------------
  // search (trie.js:162-216)
  // ---------------------------------------------------------------------

  /** `_search(node, key)`: the last match in the subtree of `t` for a key
      whose first letter `t` itself must carry. The path is relative to `t`
      ([] means `t` itself). */
  function SearchFrom(t: Tree, key: string): (r: Option<seq<nat>>)
    decreases |key|, 1
    ensures r.Some? ==> |key| > 0 && t.letter == Some(key[0]) && Spells(t, r.value, key[1..])
    ensures r.Some? ==> IsPath(t, r.value)
  {
    if |key| == 1 then
      if t.letter == Some(key[0]) then Some([]) else None
    else if |key| > 1 then
      if t.letter == Some(key[0]) && |t.children| > 0 then
        var r := SearchAmong(t.children, key[1..]);
        if r.Some? then SpellsIsPath(t, r.value, key[1..]); r else None
      else None
    else None
  }

  /** `_.each(children, child => _search(child, key))` with the shared
      `matchingNode`: every child is tried and the last match wins. */
  function SearchAmong(cs: seq<Tree>, key: string): (r: Option<seq<nat>>)
    decreases |key| + 1, 0, |cs|
    ensures r.Some? ==> |r.value| > 0 && SpellsAmong(cs, r.value, key)
  {
    if |cs| == 0 then None
    else
      var last := |cs| - 1;
      match SearchFrom(cs[last], key)
      case Some(q) => Some([last] + q)
      case None =>
        var r := SearchAmong(cs[..last], key);
        if r.Some? then SpellsAmongPrefix(cs, last, r.value, key); r else None
  }

  lemma SpellsAmongPrefix(cs: seq<Tree>, n: nat, p: seq<nat>, key: string)
    requires n <= |cs|
    requires SpellsAmong(cs[..n], p, key)
    ensures SpellsAmong(cs, p, key)
  {
    if |p| > 0 {
      assert cs[..n][p[0]] == cs[p[0]];
    }
  }

  /** `node.search(value)`: `false` (None) for an empty raw query, otherwise
      the last node below `t` whose path spells the sanitised query. */
  function Search(t: Tree, value: string): (r: Option<seq<nat>>)
    ensures value == "" ==> r.None?
    ensures Sanitize(value) == "" ==> r.None?
    ensures t.children == [] ==> r.None?
    ensures r.Some? ==> |r.value| > 0 && Spells(t, r.value, Sanitize(value)) && IsPath(t, r.value)
  {
    if value == "" then None
    else
      var r := SearchAmong(t.children, Sanitize(value));
      if r.Some? then SpellsIsPath(t, r.value, Sanitize(value)); r else None
  }

  // ---------------------------------------------------------------------
  // collect (trie.js:266-280)
  // ---------------------------------------------------------------------

  /** `this.actualValue()` is tested for truthiness: an empty string is skipped. */
  function Own(t: Tree): (r: seq<string>)
    ensures |r| <= 1
    ensures forall w :: w in r <==> t.stored == Some(w) && w != ""
  {
    if t.stored.Some? && t.stored.value != "" then [t.stored.value] else []
  }

  /** The node's own value first, then each child's collection in child order. */
  function Collect(t: Tree): (r: seq<string>)
    ensures Own(t) <= r
    ensures forall w :: w in r ==> w != ""
  {
    Own(t) + CollectAll(t.children)
  }

  function CollectAll(cs: seq<Tree>): (r: seq<string>)
    ensures |cs| > 0 ==> Collect(cs[0]) <= r
    ensures forall w :: w in r ==> w != ""
  {
    if |cs| == 0 then [] else Collect(cs[0]) + CollectAll(cs[1..])
  }

  // ---------------------------------------------------------------------
  // collapse and toArray (trie.js:221-261)
  // ---------------------------------------------------------------------

  /** `collapse()` of a node with letter `letter` whose lettered ancestors
      (up to the first one without a letter) spell `above`. `nodeValue()`
      of a node without a letter is `false`, which `join("")` prints. */
  function CollapseOf(above: string, letter: Option<char>): (s: string)
    ensures above <= s && |s| > |above|
    ensures letter.Some? ==> s[|above|] == letter.value
  {
    above + (if letter.Some? then [letter.value] else "false")
  }

  /** What the children of such a node see above them: the upward walk
      stops at the first ancestor without a letter. */
  function Below(above: string, letter: Option<char>): (s: string)
    // a lettered node's children see its own collapse above them
    ensures letter.Some? ==> s == CollapseOf(above, letter)
    ensures letter.None? ==> s == ""
  {
    if letter.Some? then above + [letter.value] else ""
  }

  /** Level `i` of a merge is level `i` of `a` followed by level `i` of `b`. */
  function Merge(a: seq<seq<string>>, b: seq<seq<string>>): (r: seq<seq<string>>)
    ensures |r| == if |a| < |b| then |b| else |a|
  {
    if |a| == 0 then b
    else if |b| == 0 then a
    else [a[0] + b[0]] + Merge(a[1..], b[1..])
  }

  /** `toArray` from a node whose lettered ancestors spell `above`: level 0
      holds the node's own collapse, level i+1 the levels i of its children,
      merged in child order (pre-order). */
  function Levels(t: Tree, above: string): (r: seq<seq<string>>)
    ensures |r| > 0 && r[0] == [CollapseOf(above, t.letter)]
  {
    [[CollapseOf(above, t.letter)]] + LevelsAll(t.children, Below(above, t.letter))
  }

  function LevelsAll(cs: seq<Tree>, above: string): (r: seq<seq<string>>)
    ensures |r| == 0 <==> |cs| == 0
  {
    if |cs| == 0 then [] else Merge(LevelsAll(cs[..|cs| - 1], above), Levels(cs[|cs| - 1], above))
  }
}
