/**
 * The trie node of trie.js as a heap object. `expand` changes the tree in
 * place (it appends to `_children` and sets `_actualValue`); `search`,
 * `collapse`, `toArray` and `collect` only read it. Each method is proved
 * against the value view in TrieSpec: the ghost field `model` is the
 * `Tree` this node and its descendants hold, and `Repr` is the set of
 * nodes of the subtree.
 */
module Trie {
  import opened Wrappers
  import opened Keys
  import opened TrieSpec
  import ExpandProps
  import CollectProps
  import SearchProps
  import LevelsProps
  import UsageProps

  class Node {
    var letter: Option<char>         // `_node`; `nodeValue()` reports None as `false`
    var actualValue: Option<string>  // `_actualValue`
    var parent: Node?                // `parentNode`, the non-owning back-pointer
    var children: seq<Node>          // `_children`, in insertion order

    ghost var model: Tree
    ghost var Repr: set<Node>

    /** The subtree is a tree: children own disjoint parts of it, point back
        to this node as their parent, carry a letter, and their models are
        this model's children. */
    ghost predicate Valid()
      reads this, Repr
      decreases Repr
    {
      this in Repr &&
      model.letter == letter && model.stored == actualValue &&
      |model.children| == |children| &&
      (forall i :: 0 <= i < |children| ==>
        children[i] in Repr && children[i].Repr <= Repr && this !in children[i].Repr &&
        children[i].parent == this && children[i].letter.Some? &&
        children[i].model == model.children[i] && children[i].Valid()) &&
      (forall i, j :: 0 <= i < |children| && 0 <= j < |children| && i != j ==> children[i].Repr !! children[j].Repr)
    }

    /** `initialize()` (trie.js:15-21): no letter, no value, no parent, no children. */
    constructor Initialize()
      ensures Valid() && fresh(Repr) && Repr == {this}
      ensures model == Empty && parent == null && children == []
    {
      letter := None;
      actualValue := None;
      parent := null;
      children := [];
      model := Empty;
      Repr := {this};
    }

    /** `hasChildren()` (trie.js:88-92). */
    function HasChildren(): (b: bool)
      reads this, Repr
      requires Valid()
      ensures b <==> model.children != []
    {
      |children| > 0
    }

    /** `_.find(node.children(), child => child.nodeValue() == c)` (trie.js:117-121),
        as the index of the first child carrying `c`, or |children| when none does. */
    method FindMatchingChild(c: char) returns (i: nat)
      requires Valid()
      ensures i == TrieSpec.FindChild(model.children, c)
    {
      i := 0;
      while i < |children| && children[i].letter != Some(c)
        invariant i <= |children|
        invariant forall j :: 0 <= j < i ==> model.children[j].letter != Some(c)
      {
        i := i + 1;
      }
      ExpandProps.FindChildIs(model.children, c, i);
    }

    /** `nodeValue(c)` as a setter (trie.js:25-39). */
    method SetNodeValue(c: char)
      requires Valid()
      modifies this
      ensures Valid() && model == old(model).(letter := Some(c))
      ensures letter == Some(c) && actualValue == old(actualValue) && parent == old(parent)
      ensures children == old(children) && Repr == old(Repr)
    {
      letter := Some(c);
      model := model.(letter := Some(c));
    }

    /** `parent(p)` as a setter (trie.js:61-70). */
    method SetParent(p: Node)
      requires Valid()
      modifies this
      ensures Valid() && parent == p
      ensures letter == old(letter) && actualValue == old(actualValue)
      ensures children == old(children) && model == old(model) && Repr == old(Repr)
    {
      parent := p;
    }

    /** `actualValue(v)` as a setter (trie.js:43-57). Only this node's own
        `Valid()` is kept; when the node is a child, `StoreAt` restores the
        parent's. */
    method SetActualValue(v: string)
      requires Valid()
      modifies this
      ensures Valid() && model == old(model).(stored := Some(v))
      ensures actualValue == Some(v) && letter == old(letter) && parent == old(parent)
      ensures children == old(children) && Repr == old(Repr)
    {
      actualValue := Some(v);
      model := model.(stored := Some(v));
    }

    /** `matchingChild.actualValue(v)` seen from the parent: child `i` now holds `v`. */
    method StoreAt(i: nat, v: string)
      requires Valid() && i < |children|
      modifies this, children[i]
      ensures Valid()
      ensures model == old(model).(children := old(model.children)[i := old(model.children[i]).(stored := Some(v))])
      ensures children == old(children) && Repr == old(Repr)
      ensures letter == old(letter) && actualValue == old(actualValue) && parent == old(parent)
      ensures Grown(old(Repr))
    {
      var child := children[i];
      child.SetActualValue(v);
      model := model.(children := model.children[i := child.model]);
      assert forall j :: 0 <= j < |children| && j != i ==> children[j].Repr !! child.Repr;
    }

    /** `node.children([n])` as a setter (trie.js:75-84): appends `n` with its
        subtree, which must be disjoint from this one and point back here. */
    method AddChild(n: Node)
      requires Valid() && n.Valid()
      requires n.parent == this && n.letter.Some? && n.Repr !! Repr
      modifies this
      ensures Valid()
      ensures children == old(children) + [n]
      ensures model == old(model).(children := old(model.children) + [n.model])
      ensures Repr == old(Repr) + n.Repr
      ensures letter == old(letter) && actualValue == old(actualValue) && parent == old(parent)
      ensures Grown(old(Repr))
    {
      children := children + [n];
      Repr := Repr + n.Repr;
      model := model.(children := model.children + [n.model]);
    }

    /** `_expand(node, key)` (trie.js:108-151) with this node as `node`. */
    method ExpandFrom(key: string, value: string)
      requires Valid()
      modifies Repr
      ensures Valid() && old(Repr) <= Repr && fresh(Repr - old(Repr))
      ensures model == Insert(old(model), key, value)
      ensures parent == old(parent)
      ensures old(children) <= children
      decreases |key|, 2
      ensures Grown(old(Repr))
    {
      if |key| > 0 {
        var i := FindMatchingChild(key[0]);
        if i < |children| {
          ExpandMatched(i, key, value);
        } else {
          ExpandUnmatched(key, value);
        }
      }
    }

    /** trie.js:122-133: child `i` carries key[0]; it takes the value when
        the key ends there, and the rest of the key is expanded below it. */
    method ExpandMatched(i: nat, key: string, value: string)
      requires Valid() && |key| > 0
      requires i == FindChild(model.children, key[0]) && i < |children|
      modifies Repr
      ensures Valid() && old(Repr) <= Repr && fresh(Repr - old(Repr))
      ensures model == Insert(old(model), key, value)
      ensures parent == old(parent) && children == old(children)
      decreases |key|, 1
      ensures Grown(old(Repr))
    {
      ghost var before := model;
      if |key| == 1 {
        StoreAt(i, value);
      }
      ghost var marked := model.children[i];
      ExpandChild(i, key[1..], value);
      assert model == before.(children := before.children[i := Insert(marked, key[1..], value)]);
    }

    /** trie.js:134-149: no child carries key[0]; a new one is appended and
        the rest of the key is expanded below it. */
    method ExpandUnmatched(key: string, value: string)
      requires Valid() && |key| > 0
      requires FindChild(model.children, key[0]) == |children|
      modifies Repr
      ensures Valid() && old(Repr) <= Repr && fresh(Repr - old(Repr))
      ensures model == Insert(old(model), key, value)
      ensures parent == old(parent) && old(children) <= children
      decreases |key|, 1
      ensures Grown(old(Repr))
    {
      ghost var footprint, kids := Repr, children;
      var newNode := NewChildNode(key[0], |key| == 1, value);
      AddChild(newNode);
      assert Repr == footprint + {newNode} && children == kids + [newNode];
      ExpandChild(|children| - 1, key[1..], value);
    }

    /** trie.js:136-143: a fresh node carrying `c` whose parent is this node,
        holding `value` when it ends the key; not yet attached. */
    method NewChildNode(c: char, last: bool, value: string) returns (n: Node)
      ensures fresh(n) && n.Valid() && n.Repr == {n}
      ensures n.parent == this && n.letter == Some(c) && n.children == []
      ensures n.model == Tree(Some(c), if last then Some(value) else None, [])
    {
      n := new Node.Initialize();
      n.SetNodeValue(c);
      n.SetParent(this);
      if last {
        n.SetActualValue(value);
      }
    }

    /** `_expand(child, rest)` on child `i`, seen from this node. */
    method ExpandChild(i: nat, rest: string, value: string)
      requires Valid() && i < |children|
      modifies Repr
      ensures Valid() && old(Repr) <= Repr && fresh(Repr - old(Repr))
      ensures model == old(model).(children := old(model.children)[i := Insert(old(model.children[i]), rest, value)])
      ensures children == old(children)
      ensures letter == old(letter) && actualValue == old(actualValue) && parent == old(parent)
      decreases |rest| + 1, 0
      ensures Grown(old(Repr))
    {
      var child := children[i];
      model := model.(children := model.children[i := Insert(child.model, rest, value)]);
      child.ExpandFrom(rest, value);
      Repr := Repr + child.Repr;
      ChildExpanded(i);
    }

    /** After child `i` grew inside its own footprint and this node's model
        caught up, this node is valid again. */
    twostate lemma ChildExpanded(i: nat)
      requires old(Valid()) && i < |children| && children == old(children)
      requires letter == old(letter) && actualValue == old(actualValue)
      requires model.letter == letter && model.stored == actualValue
      requires |model.children| == |children|
      requires forall j :: 0 <= j < |children| && j != i ==> model.children[j] == old(model.children[j])
      requires children[i].Valid() && children[i].model == model.children[i]
      requires children[i].parent == this && children[i].letter.Some?
      requires old(children[i].Repr) <= children[i].Repr && fresh(children[i].Repr - old(children[i].Repr))
      requires unchanged(old(Repr) - old(children[i].Repr) - {this})
      requires Repr == old(Repr) + children[i].Repr
      ensures Valid()
    {
      forall j | 0 <= j < |children| && j != i
        ensures children[j].Valid() && children[j].Repr == old(children[j].Repr)
      {
        Untouched(children[j]);
      }
    }

    /** A node none of whose subtree was written to is as valid as before. */
    twostate lemma Untouched(n: Node)
      requires old(n.Valid()) && unchanged(old(n.Repr))
      ensures n.Valid() && n.Repr == old(n.Repr)
    {
    }

    /** `expand(value)` (trie.js:101-156): inserts `value` along its sanitised
        key and returns the receiver. */
    method Expand(value: string) returns (r: Node)
      requires Valid()
      modifies Repr
      ensures r == this
      ensures Valid() && old(Repr) <= Repr && fresh(Repr - old(Repr))
      ensures model == TrieSpec.Expand(old(model), value)
      ensures parent == old(parent)
      ensures old(children) <= children
      ensures Grown(old(Repr))
    {
      var key := Sanitize(value);
      ExpandFrom(key, value);
      r := this;
    }
  
    /** The node reached from this one by following the child indices `p`. */
    ghost function NodeAt(p: seq<nat>): (n: Node)
      reads this, Repr
      requires Valid() && IsPath(model, p)
      ensures n in Repr && n.model == At(model, p)
      ensures n.Valid() && n.Repr <= Repr
      decreases Repr
    {
      if |p| == 0 then this else children[p[0]].NodeAt(p[1..])
    }

    /** `_search(node, key)` (trie.js:169-202) with this node as `node`;
        `matching` is the shared `matchingNode` before the call, `m` after. */
    method SearchHere(key: string, matching: Node?) returns (m: Node?)
      requires Valid()
      ensures var s := SearchFrom(model, key); m == if s.Some? then NodeAt(s.value) else matching
      decreases Repr, 1
    {
      if |key| == 1 {
        m := if letter == Some(key[0]) then this else matching;
      } else if |key| > 1 && letter == Some(key[0]) && HasChildren() {
        m := SearchChildren(key[1..], matching);
      } else {
        m := matching;
      }
    }

    /** `_.each(children, child => _search(child, key))` (trie.js:193-195,
        207-209): every child is searched in order, so the last match wins. */
    method SearchChildren(key: string, matching: Node?) returns (m: Node?)
      requires Valid()
      ensures var s := SearchAmong(model.children, key); s.Some? ==> IsPath(model, s.value)
      ensures var s := SearchAmong(model.children, key); m == if s.Some? then NodeAt(s.value) else matching
      decreases Repr, 0
    {
      m := matching;
      var j := 0;
      while j < |children|
        invariant j <= |children|
        invariant var s := SearchAmong(model.children[..j], key); s.Some? ==> IsPath(model, s.value)
        invariant Valid()
        invariant var s := SearchAmong(model.children[..j], key); m == if s.Some? then NodeAt(s.value) else matching
      {
        m := SearchChild(j, key, matching, m);
        j := j + 1;
      }
      assert model.children[..j] == model.children;
    }

    /** One round of the `_.each` above: child `j` is searched, and its
        match, if any, replaces the one found among the earlier children. */
    method SearchChild(j: nat, key: string, matching: Node?, before: Node?) returns (m: Node?)
      requires Valid() && j < |children|
      requires var s := SearchAmong(model.children[..j], key); s.Some? ==> IsPath(model, s.value)
      requires var s := SearchAmong(model.children[..j], key); before == if s.Some? then NodeAt(s.value) else matching
      ensures Valid()
      ensures var s := SearchAmong(model.children[..j + 1], key); s.Some? ==> IsPath(model, s.value)
      ensures var s := SearchAmong(model.children[..j + 1], key); m == if s.Some? then NodeAt(s.value) else matching
      decreases Repr, 0, |children| - j
    {
      SearchProps.SearchAmongSnoc(model.children, j, key);
      SearchProps.SearchAmongPath(model, j + 1, key);
      ghost var r := SearchFrom(model.children[j], key);
      if r.Some? {
        NodeAtChild(j, r.value);
      }
      m := children[j].SearchHere(key, before);
    }

    /** Following child `j` and then `q` is following `q` from child `j`. */
    lemma NodeAtChild(j: nat, q: seq<nat>)
      requires Valid() && j < |children| && IsPath(model.children[j], q)
      ensures IsPath(model, [j] + q) && NodeAt([j] + q) == children[j].NodeAt(q)
    {
      assert ([j] + q)[0] == j && ([j] + q)[1..] == q;
    }

    /** `search(value)` (trie.js:162-216): `false` (null) for an empty query,
        otherwise the node of the last match below this one, never this node. */
    method Search(value: string) returns (r: Node?)
      requires Valid()
      ensures var s := TrieSpec.Search(model, value); r == if s.Some? then NodeAt(s.value) else null
    {
      if value == "" {
        return null;
      }
      var key := Sanitize(value);
      r := null;
      if HasChildren() {
        r := SearchChildren(key, null);
      }
    }

    /** `collect()` (trie.js:266-280): the node's own value when it is a
        non-empty string, then each child's collection in order. */
    method Collect() returns (r: seq<string>)
      requires Valid()
      ensures r == TrieSpec.Collect(model)
      decreases Repr
    {
      r := if actualValue.Some? && actualValue.value != "" then [actualValue.value] else [];
      var j := 0;
      while j < |children|
        invariant j <= |children|
        invariant r == Own(model) + CollectAll(model.children[..j])
      {
        var sub := children[j].Collect();
        CollectProps.CollectStep(model, j);
        r := r + sub;
        j := j + 1;
      }
      assert model.children[..j] == model.children;
    }

    // -------------------------------------------------------------------
    // collapse walks up the `parent` pointers, outside this node's Repr.
    // The ghost argument `anc` names the nodes that walk passes through.
    // -------------------------------------------------------------------

    /** `anc`, outermost first, are the ancestors `collapse` walks through,
        `above` their letters and `stop` where the walk ends: each one's
        parent is the one before it, the first one's parent is `stop`, and
        `stop` is missing or carries no letter. */
    ghost predicate Ancestry(anc: seq<Node>, above: string, stop: Node?)
      reads this, anc, stop
    {
      |anc| == |above| &&
      parent == (if |anc| == 0 then stop else anc[|anc| - 1]) &&
      (|anc| > 0 ==> anc[0].parent == stop) &&
      (forall k :: 0 <= k < |anc| ==> anc[k].letter == Some(above[k])) &&
      (forall k, l :: 0 <= k < |anc| && l == k + 1 && l < |anc| ==> anc[l].parent == anc[k]) &&
      (stop == null || stop.letter.None?)
    }

    /** `collapse()` (trie.js:249-261): the letters of the ancestors it walks
        through, then this node's own letter, or "false" when it has none. */
    method Collapse(ghost anc: seq<Node>, ghost above: string, ghost stop: Node?) returns (s: string)
      requires Ancestry(anc, above, stop)
      ensures s == CollapseOf(above, letter)
    {
      var collapsed := if letter.Some? then [letter.value] else "false";
      var p := parent;
      ghost var k: nat := |anc|;
      assert above[k..] == [];
      while p != null && p.letter.Some?
        invariant k <= |anc|
        invariant p == if k == 0 then stop else anc[k - 1]
        invariant collapsed == CollapseOf(above[k..], letter)
        decreases k
      {
        CollapseUnshift(above, k, letter);
        collapsed := [p.letter.value] + collapsed;
        p := p.parent;
        k := k - 1;
      }
      s := collapsed;
    }

    /** `_toArray(node, level)` (trie.js:224-239) with this node as `node`:
        `levels` is the shared `resultsArray` before the call, `res` after. */
    method ToArrayFrom(level: nat, ghost anc: seq<Node>, ghost above: string, ghost stop: Node?,
                       levels: seq<seq<string>>) returns (res: seq<seq<string>>)
      requires Valid() && Ancestry(anc, above, stop) && level <= |levels|
      ensures res == Merge(levels, LevelsProps.Pad(level) + Levels(model, above))
      decreases Repr, 1
    {
      var own := Collapse(anc, above, stop);
      res := if level == |levels| then levels + [[]] else levels;
      res := res[level := res[level] + [own]];
      LevelsProps.PushAt(levels, level, own);
      ghost var below := Below(above, letter);
      assert [[own]] + LevelsAll(model.children[..0], below) == [[own]];
      var j := 0;
      while j < |children|
        invariant j <= |children|
        invariant Valid() && Ancestry(anc, above, stop)
        invariant res == Merge(levels, LevelsProps.Pad(level) + ([[own]] + LevelsAll(model.children[..j], below)))
      {
        res := ToArrayChild(j, level, anc, above, stop, own, levels, res);
        j := j + 1;
      }
      assert model.children[..j] == model.children;
    }

    /** One round of the `_.each` in `_toArray`: child `j` adds its levels
        one level further down, after those of the earlier children. */
    method ToArrayChild(j: nat, level: nat, ghost anc: seq<Node>, ghost above: string, ghost stop: Node?,
                        ghost own: string, ghost levels: seq<seq<string>>, current: seq<seq<string>>)
      returns (res: seq<seq<string>>)
      requires Valid() && Ancestry(anc, above, stop) && j < |children|
      requires current == Merge(levels, LevelsProps.Pad(level) + ([[own]] + LevelsAll(model.children[..j], Below(above, letter))))
      ensures Valid() && Ancestry(anc, above, stop)
      ensures res == Merge(levels, LevelsProps.Pad(level) + ([[own]] + LevelsAll(model.children[..j + 1], Below(above, letter))))
      decreases Repr, 0, |children| - j
    {
      ChildAncestry(j, anc, above, stop);
      LevelsProps.ChildStep(levels, level, own, model.children, j, Below(above, letter));
      ghost var inner: seq<Node>, top: Node? := [], this;
      if letter.Some? {
        inner, top := anc + [this], stop;
      }
      res := children[j].ToArrayFrom(level + 1, inner, Below(above, letter), top, current);
      Untouched(this);
    }

    /** The children see this node's ancestry, extended by this node when it
        carries a letter and cut off at it when it does not. */
    lemma ChildAncestry(j: nat, anc: seq<Node>, above: string, stop: Node?)
      requires Valid() && Ancestry(anc, above, stop) && j < |children|
      ensures letter.Some? ==> children[j].Ancestry(anc + [this], above + [letter.value], stop)
      ensures letter.None? ==> children[j].Ancestry([], "", this)
    {
      assert children[j].parent == this;
      if letter.Some? {
        var inner, word := anc + [this], above + [letter.value];
        assert |anc| > 0 ==> inner[0] == anc[0];
        assert forall k :: 0 <= k < |inner| ==> inner[k].letter == Some(word[k]) by {
          assert forall k :: 0 <= k < |anc| ==> inner[k] == anc[k] && word[k] == above[k];
        }
        assert forall k, l :: 0 <= k < |inner| && l == k + 1 && l < |inner| ==> inner[l].parent == inner[k] by {
          assert forall k :: 0 <= k < |anc| ==> inner[k] == anc[k];
        }
      }
    }

    /** `toArray()` (trie.js:221-244): level i lists the collapse of every
        node i levels below this one, in pre-order. */
    method ToArray(ghost anc: seq<Node>, ghost above: string, ghost stop: Node?) returns (res: seq<seq<string>>)
      requires Valid() && Ancestry(anc, above, stop)
      ensures res == Levels(model, above)
    {
      res := ToArrayFrom(0, anc, above, stop, []);
      assert LevelsProps.Pad(0) + Levels(model, above) == Levels(model, above);
    }
  }

  /** `collapsedNodes.unshift(c)` puts one more ancestor's letter in front. */
  lemma CollapseUnshift(above: string, k: nat, letter: Option<char>)
    requires 0 < k <= |above|
    ensures CollapseOf(above[k - 1..], letter) == [above[k - 1]] + CollapseOf(above[k..], letter)
  {
    assert above[k - 1..] == [above[k - 1]] + above[k..];
  }

  /** Every node of `nodes` keeps its character, its parent and its old
      children, in order, at the front of its child list: the tree only
      grows in place. */
  twostate predicate Grown(nodes: set<Node>)
    reads nodes
  {
    forall n :: n in nodes ==> GrownNode(n)
  }

  /** One node of `Grown`. */
  twostate predicate GrownNode(n: Node)
    reads n
  {
    n.letter == old(n.letter) && n.parent == old(n.parent) && old(n.children) <= n.children
  }

  /** The usage comment at the top of trie.js (trie.js:10-14), on heap
      nodes: a fresh trie, `expand("Testing")`, then `search("Test")` and
      `collect()` on the node it returns. */
  method UsageExample() returns (res: seq<string>)
    ensures res == ["Testing"]
  {
    var trie := new Node.Initialize();
    var root := trie.Expand("Testing");
    UsageProps.TestingExample();
    var found := root.Search("Test");
    res := found.Collect();
  }
}
