# trie.js in Dafny

This project models the prefix tree of `trie.js`, a small autosuggest library.
A trie is a tree of `Trie.Node` objects:

- the root carries no character;
- every other node carries one character (`nodeValue`);
- a node may hold the original string (`actualValue`) whose sanitised form ends there;
- each node keeps a `parentNode` back-pointer and an ordered list of children.

The library offers these operations:

- `expand(value)` sanitises `value` and grows the branch for its key. The key keeps only the ASCII letters of `value`, lower-cased. The node for the key's last letter records the original string.
- `search(value)` returns the node whose path from the receiver spells the sanitised query. It returns `false` when there is no such node.
- `collect()` lists every stored value in a subtree.
- `collapse()` spells the prefix a node stands for by walking up the parent pointers.
- `toArray()` lists, level by level, the collapse of the receiver and of every node below it.

The model has two layers.

- **Value layer.** `TrieSpec` describes a subtree as the value `Tree(letter, stored, children)`. It defines what each operation computes as a pure function:
  - `Insert` and `Expand`;
  - `SearchFrom`, `SearchAmong` and `Search`;
  - `Collect`;
  - `CollapseOf` and `Levels`.

  The modules `ExpandProps`, `SearchProps`, `CollectProps`, `LevelsProps` and `UsageProps` prove what those functions promise.
- **Heap layer.** In `Trie.Node`, `expand` changes the nodes in place, and `search`, `collect`, `collapse` and `toArray` only read them.
  - Each method is proved against the value layer through the ghost field `model`, the `Tree` the subtree holds.
  - `Valid()` states that the subtree really is a tree. Children own disjoint parts of it, point back to their parent and carry a character.

The properties proved:

- **Sanitisation.** It yields only lower-case letters. It is idempotent, and it is empty exactly when the input has no ASCII letter.
- **Expand.**
  - The inserted path spells the key and ends on the value.
  - No other node changes its value.
  - Old nodes stay in place: each keeps its character, its parent and its old children, at the front of its child list.
  - A second value with the same key overwrites the first.
  - The trie invariants are preserved: letters below the root, distinct siblings, and each value on the node of its own key.
- **Search.** It is sound and complete. With distinct siblings it finds exactly the one node that spells the query. When two siblings share a letter, the last match wins.
- **Collect.** It returns every non-empty stored value and nothing else. In a keyed trie, the key of each value it returns extends the node's prefix.
- **toArray and collapse.** Level `i` holds, in pre-order, the collapse of every node `i` levels down. A root collapses to `"false"`. Every string at depth `d` below a root has `d` letters.
- **Round trip.** On a trie built from a fresh node by `expand`, the three invariants always hold. After one more `expand(v)` on such a trie, every non-empty prefix of v's key is found, and collecting from the node found yields `v`. On a trie whose siblings may share a character, which `expand` never builds, this can fail: the last match of the search may lie on another branch. The usage comment at the top of `trie.js` is proved, taking `Trie.Node` to be the node constructor, on values (`UsageProps.TestingExample`) and on heap nodes (`Trie.UsageExample`): `expand("Testing")`, then `search("Test").collect()`, gives `["Testing"]`.

## Model

| member | source | states |
|---|---|---|
| Keys.Sanitize | trie.js:104 | the key has only lower-case ASCII letters and is no longer than the input |
| Keys.SanitizeConcat | trie.js:104 | the global replace works character by character: the key of `a + b` is the key of `a` followed by the key of `b` |
| Keys.SanitizeKey | trie.js:166 | a string of lower-case letters is its own key |
| Keys.SanitizeIdempotent | trie.js:104 | sanitising a key again changes nothing |
| Keys.SanitizeEmpty | trie.js:104 | the key is empty if and only if the input holds no ASCII letter |
| Keys.QueryKey | trie.js:13 | the query "Test" of the usage comment has the key "test" |
| Keys.ValueKey | trie.js:12 | the value "Testing" of the usage comment has the key "testing" |
| TrieSpec.FindChild | trie.js:117-121 | the index of the first child carrying the character, or the number of children when none does |
| TrieSpec.Insert | trie.js:108-151 | the receiver keeps its character and value; an empty key changes nothing; existing children keep their characters and order; one child with the first character is appended exactly when none carried it |
| TrieSpec.Expand | trie.js:101-156 | the receiver keeps its character and value and its children keep theirs; at most one child is added; a value with no ASCII letter changes nothing |
| TrieSpec.InsertPath | trie.js:113-148 | the walk of an insertion takes one step per key letter |
| TrieSpec.SearchFrom | trie.js:169-201 | a match means the node carries the first letter of the key and a path below it spells the rest |
| TrieSpec.SearchAmong | trie.js:193-195 | a match among siblings is a non-empty path from them that spells the key |
| TrieSpec.Search | trie.js:162-216 | no result for an empty query, an empty key or a childless receiver; a result is a non-empty path (never the receiver itself) that spells the sanitised query |
| TrieSpec.Own | trie.js:268-270 | at most one value: the stored one, exactly when it is a non-empty string |
| TrieSpec.Collect | trie.js:266-280 | the node's own value comes first, and no collected value is empty |
| TrieSpec.CollectAll | trie.js:272-276 | the first child's collection comes first, and no collected value is empty |
| TrieSpec.CollapseOf | trie.js:249-261 | the collapse extends the ancestors' letters by the node's own character, or by `"false"` for a node without one |
| TrieSpec.Below | trie.js:254-258 | the children of a lettered node see its collapse above them; below a node without a character the upward walk stops |
| TrieSpec.Merge | trie.js:227-237 | merging two level arrays gives as many levels as the deeper one |
| TrieSpec.Levels | trie.js:221-244 | level 0 holds exactly the node's own collapse |
| TrieSpec.LevelsAll | trie.js:234-237 | siblings contribute levels exactly when there is at least one sibling |
| ExpandProps.FindChildIs | trie.js:117-121 | proof helper for `Trie.Node.FindMatchingChild`: any index with the three properties of a first match is the one `_.find` returns |
| ExpandProps.FindChildAfterInsert | trie.js:117-133 | after an insertion the same letter still leads to the same child |
| ExpandProps.InsertSpells | trie.js:108-151 | the inserted path spells the key from the receiver and its last node holds the value |
| ExpandProps.InsertLeavesOthers | trie.js:122-148 | every node off the inserted path's end holds what it held before, and a new node holds nothing |
| ExpandProps.InsertKeepsPaths | trie.js:108-151 | every old node is still reachable by the same path, with the same character and at least its old children |
| ExpandProps.InsertTwice | trie.js:122-127 | inserting two values under one key gives the tree of inserting only the second |
| ExpandProps.ExpandOverwrites | trie.js:97-100 | expanding two values with the same sanitised key keeps only the later one |
| ExpandProps.InsertDistinct | trie.js:116-148 | if siblings carry distinct characters, they still do after an insertion |
| ExpandProps.InsertLettered | trie.js:136-138 | if every non-root node carries a character, it still does after an insertion |
| ExpandProps.InsertKeyed | trie.js:101-156 | every stored value sits on the node that its own sanitised key spells, and insertion keeps it so |
| ExpandProps.EmptyInvariants | trie.js:15-21 | a fresh node satisfies all three invariants |
| ExpandProps.ExpandInvariants | trie.js:101-156 | `expand` preserves all three invariants: characters below the root, distinct siblings, values on their own key |
| ExpandProps.BuiltInvariants | trie.js:101-156 | every trie built from a fresh node by a sequence of `expand` calls satisfies all three invariants |
| SearchProps.SearchFromFinds | trie.js:172-199 | whenever a path below a node spells the rest of the key, `_search` on that node matches |
| SearchProps.SearchAmongFinds | trie.js:193-195 | whenever a path among the siblings spells the key, some sibling matches |
| SearchProps.SearchComplete | trie.js:162-216 | whenever some node below the receiver spells the sanitised query, `search` finds a node |
| SearchProps.SearchExact | trie.js:162-216 | with distinct siblings, `search` returns exactly the node that spells the query |
| SearchProps.SearchAmongSnoc | trie.js:193-195 | searching one more child: its match, if any, replaces all earlier ones (last match wins) |
| SearchProps.ExpandThenSearch | trie.js:10-14 | after `expand(v)` on a trie with distinct siblings, any query whose key is a non-empty prefix of v's key finds the node the insertion walked through at that depth |
| SearchProps.ExpandThenCollect | trie.js:10-14 | after `expand(v)` on a trie with distinct siblings, `search(q).collect()` contains `v` for every such query |
| SearchProps.OverwriteHidesEarlier | trie.js:97-100 | on a trie with distinct siblings and each value on its own key, after expanding `v1` and then `v2` with the same key, collecting from the node found gives `v2` and no longer `v1` |
| SearchProps.BuiltThenCollect | trie.js:10-14 | on a trie built from a fresh node by `expand`, one more `expand(v)` and then `search(q).collect()` contains `v` for every query whose key is a non-empty prefix of v's key |
| SearchProps.BuiltOverwrite | trie.js:97-100 | on a trie built from a fresh node by `expand`, expanding `v1` and then `v2` with the same key leaves `v2` and no longer `v1` in the collection of the node found |
| CollectProps.CollectHas | trie.js:266-280 | every non-empty value stored anywhere in the subtree is collected |
| CollectProps.CollectAllHas | trie.js:274-276 | a value collected from one child is in the collection of the siblings |
| CollectProps.CollectFrom | trie.js:266-280 | every collected value is non-empty and stored on some node of the subtree, below the node unless it is the node's own |
| CollectProps.CollectAllFrom | trie.js:274-276 | every value collected from siblings is stored below one of them |
| CollectProps.CollectKeyed | trie.js:263-280 | in a keyed trie every collected value's key extends the node's prefix, strictly for values from below the node |
| CollectProps.CollectAllSnoc | trie.js:274-276 | collecting one more child appends that child's collection |
| CollectProps.CollectStep | trie.js:266-277 | the node's own value comes first, then the children's collections in order |
| LevelsProps.PushAt | trie.js:227-232 | creating a missing level and pushing onto it is merging in a one-string level array |
| LevelsProps.LevelsStep | trie.js:234-237 | one more child's levels, one level down, extend the node's levels |
| LevelsProps.ChildStep | trie.js:234-237 | with the shared array, child `j`'s levels land after those of the earlier children |
| LevelsProps.LevelsAreRows | trie.js:221-244 | level `i` of `toArray` is the collapse of every node `i` levels down, left to right, against an independent depth-by-depth definition |
| LevelsProps.LevelsAllAreRows | trie.js:235-237 | the same for a list of siblings |
| LevelsProps.RowLengths | trie.js:249-261 | below a lettered node, the collapse `i` levels down is `i` letters longer than its prefix |
| LevelsProps.RootLevels | trie.js:249-261 | on a root, level 0 is `"false"` and every collapse at depth `d >= 1` has length `d` |
| UsageProps.Chain | trie.js:134-148 | the chain of fresh nodes an insertion appends starts with the key's first character |
| UsageProps.InsertIntoLeaf | trie.js:134-148 | inserting below a childless node appends one chain of new nodes |
| UsageProps.ChainCollect | trie.js:266-280 | collecting from such a chain yields exactly the inserted value |
| UsageProps.ExpandIntoEmpty | trie.js:10-14 | after expanding `v` into a childless node, collecting from the node found for any non-empty prefix of its key yields exactly `[v]` |
| UsageProps.TestingExample | trie.js:10-14 | `expand("Testing")` on a fresh node, then `search("Test").collect()`, gives `["Testing"]` |
| Trie.Node.Initialize | trie.js:15-21 | a new node has no character, no value, no parent and no children |
| Trie.Node.HasChildren | trie.js:88-92 | true exactly when the node has a child |
| Trie.Node.FindMatchingChild | trie.js:117-121 | the loop returns the index of the first child carrying the character, as specified |
| Trie.Node.SetNodeValue | trie.js:25-39 | sets the character and nothing else |
| Trie.Node.SetParent | trie.js:61-70 | sets the parent pointer and nothing else |
| Trie.Node.SetActualValue | trie.js:43-57 | sets the stored value and nothing else |
| Trie.Node.StoreAt | trie.js:125-127 | child `i` now holds the value; nothing else changes and the tree stays valid |
| Trie.Node.AddChild | trie.js:75-84 | the child list grows by the new node at its end; the tree stays valid |
| Trie.Node.NewChildNode | trie.js:136-143 | a fresh node carrying the character, pointing back to this node, holding the value when it ends the key |
| Trie.Node.ExpandFrom | trie.js:108-151 | the subtree becomes the value-level insertion of the key; every old node stays in the tree with its character, parent and old children; new nodes are fresh; the tree stays valid |
| Trie.Node.ExpandMatched | trie.js:122-133 | the insertion when a child matches: that child takes the value at the key's end and grows below |
| Trie.Node.ExpandUnmatched | trie.js:134-149 | the insertion when no child matches: a new child is appended and grows below |
| Trie.Node.ExpandChild | trie.js:133 | the rest of the key is inserted below child `i`, in place, and the other children are unchanged |
| Trie.Node.Expand | trie.js:101-156 | returns the receiver, whose subtree becomes the value-level `expand` of the old one; every old node stays in the tree with its character, parent and old children |
| Trie.Node.NodeAt | trie.js:162-216 | the node a search result names belongs to the receiver's tree, is itself a valid tree, and holds the subtree at that path |
| Trie.Node.SearchHere | trie.js:169-201 | `_search` leaves the shared match as it was, or sets it to the last node found below |
| Trie.Node.SearchChildren | trie.js:193-195 | searching every child in order leaves the node of the last match |
| Trie.Node.SearchChild | trie.js:193-195 | one round of the loop: child `j`'s match replaces the earlier one |
| Trie.Node.Search | trie.js:162-216 | returns null (`false`) or exactly the node the value-level search finds |
| Trie.Node.Collect | trie.js:266-280 | returns the value-level collection of the subtree |
| Trie.Node.Collapse | trie.js:249-261 | the letters of the lettered ancestors, then the node's own character, or `"false"` for a node without one |
| Trie.Node.ToArrayFrom | trie.js:225-239 | the shared array gains the subtree's levels, shifted down to the node's level |
| Trie.Node.ToArrayChild | trie.js:235-237 | one round of the loop: child `j`'s levels are merged in after the earlier children's |
| Trie.Node.ChildAncestry | trie.js:255-258 | proof helper for `Trie.Node.ToArrayChild`: a child's upward walk is its parent's walk extended by the parent, or cut off at a parent without a character |
| Trie.Node.ToArray | trie.js:221-244 | returns exactly the value-level levels of the subtree |
| Trie.UsageExample | trie.js:10-14 | on heap nodes, a fresh trie given `expand("Testing")` returns `["Testing"]` from `search("Test").collect()` |
| Trie.CollapseUnshift | trie.js:256 | proof helper for `Trie.Node.Collapse`: `unshift` puts one more ancestor's letter in front of the collapse |

## Left out

- Underscore helpers. `_.find`, `_.each` and `_.flatten` are modelled by their meaning: a first-match loop, an in-order loop and sequence concatenation.
- Sanitisation uses no regular expression engine and no Unicode `toLowerCase`. An explicit ASCII filter gives the same key, because only ASCII letters survive the replace.
- Object plumbing is not modelled:
  - the argument-dispatching getters and setters of `nodeValue`, `actualValue`, `parent` and `children` become plain fields, read directly, plus setter methods;
  - `Object.create` and the prototype become a class and a constructor;
  - trie.js:2 binds the constructor to a global `Node` and never to `Trie.Node`, so the file as shown throws at trie.js:15 unless another script defines `Trie.Node`; the model takes `Trie.Node` to be that constructor;
  - the unused `_parent` field, set by `initialize`, is dropped, and `parentNode` is the `parent` field.
- Trie.Node.AddChild appends a single node. The setter accepts any array, but the library only ever passes one new node.
- Trie.Node.SetActualValue: the value is a string. The library never stores anything else.
- The accidental globals `_expand`, `_search` and `_toArray` are ordinary methods. Re-entrancy through the shared globals is not modelled.
- The `matched` flag of `search` is written but never read, so it is dropped. The shared `matchingNode` is threaded through as an argument and a result.
- Loose `==` on characters is character equality.
- Trie.Node.Collapse and Trie.Node.ToArray take ghost arguments:
  - the chain of ancestors that `collapse` walks through;
  - their letters;
  - the first ancestor without a character, where the walk stops.

  So their contracts hold for parent chains that end, which is what `expand` builds. A cyclic parent chain, which would make `collapse` loop forever, is not modelled.
- Inputs that are not strings are not modelled: `search(undefined)` or a number passed to `expand`.
