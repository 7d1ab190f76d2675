/**
 * What `search` (trie.js:162-216) promises, stated about TrieSpec.Search:
 * a result always spells the sanitised query below the receiver; a node
 * spelling it is always found; with distinct siblings the one found is
 * the only one. Together with ExpandProps and CollectProps this gives the
 * autosuggest round trip of the usage comment (trie.js:10-14): after
 * `expand(v)` every non-empty prefix of v's key is found, and collecting
 * from the node found yields `v`.
 */
module SearchProps {
  import opened Wrappers
  import opened Keys
  import opened TrieSpec
  import opened ExpandProps
  import opened CollectProps

  /** `_search` reaches a node whose path spells the rest of the key. */
  lemma {:induction false} SearchFromFinds(t: Tree, p: seq<nat>, key: string)
    requires |key| > 0 && t.letter == Some(key[0]) && Spells(t, p, key[1..])
    ensures SearchFrom(t, key).Some?
    decreases |key|, 1
  {
    if |key| > 1 {
      SearchAmongFinds(t.children, p, key[1..]);
    }
  }

  lemma {:induction false} SearchAmongFinds(cs: seq<Tree>, p: seq<nat>, key: string)
    requires |key| > 0 && SpellsAmong(cs, p, key)
    ensures SearchAmong(cs, key).Some?
    decreases |key| + 1, 0, |cs|
  {
    var last := |cs| - 1;
    if SearchFrom(cs[last], key).None? {
      if p[0] == last {
        SearchFromFinds(cs[last], p[1..], key);
      } else {
        assert cs[..last][p[0]] == cs[p[0]];
        assert SpellsAmong(cs[..last], p, key);
        SearchAmongFinds(cs[..last], p, key);
      }
    }
  }

  /** With distinct siblings at most one path spells a key. */
  lemma {:induction false} SpellsUnique(t: Tree, p: seq<nat>, q: seq<nat>, key: string)
    requires DistinctSiblings(t) && Spells(t, p, key) && Spells(t, q, key)
    ensures p == q
    decreases |p|
  {
    if |p| > 0 {
      assert t.children[p[0]].letter == t.children[q[0]].letter;
      assert p[0] == q[0];
      SpellsUnique(t.children[p[0]], p[1..], q[1..], key[1..]);
      assert p == [p[0]] + p[1..] && q == [q[0]] + q[1..];
    }
  }

  /** Whenever some node below the receiver spells the sanitised query,
      `search` finds a node (possibly another one spelling the same key). */
  lemma SearchComplete(t: Tree, value: string, p: seq<nat>)
    requires Sanitize(value) != "" && Spells(t, p, Sanitize(value))
    ensures Search(t, value).Some?
  {
    SearchAmongFinds(t.children, p, Sanitize(value));
  }

  /** With distinct siblings `search` returns exactly the node spelling the
      sanitised query, and `false` when there is none. */
  lemma SearchExact(t: Tree, value: string, p: seq<nat>)
    requires DistinctSiblings(t)
    requires Sanitize(value) != "" && Spells(t, p, Sanitize(value))
    ensures Search(t, value) == Some(p)
  {
    SearchComplete(t, value, p);
    SpellsUnique(t, Search(t, value).value, p, Sanitize(value));
  }

  /** After `expand(v)` on a trie with distinct siblings, searching any query
      whose key is a non-empty prefix of v's key finds the node the
      insertion walked through at that depth. */
  lemma ExpandThenSearch(t: Tree, v: string, q: string)
    requires DistinctSiblings(t)
    requires Sanitize(q) != "" && Sanitize(q) <= Sanitize(v)
    ensures Search(Expand(t, v), q) == Some(InsertPath(t.children, Sanitize(v))[..|Sanitize(q)|])
  {
    var key, n := Sanitize(v), |Sanitize(q)|;
    var r, path := Expand(t, v), InsertPath(t.children, key);
    InsertSpells(t, key, v);
    SpellsPrefix(r, path, key, n);
    assert key[..n] == Sanitize(q);
    InsertDistinct(t, key, v);
    SearchExact(r, q, path[..n]);
  }

  /** The autosuggest round trip: `search(q).collect()` after `expand(v)`
      contains `v` whenever q's key is a non-empty prefix of v's key. */
  lemma ExpandThenCollect(t: Tree, v: string, q: string)
    requires DistinctSiblings(t)
    requires Sanitize(q) != "" && Sanitize(q) <= Sanitize(v)
    ensures var r := Expand(t, v);
            Search(r, q).Some? && v in Collect(At(r, Search(r, q).value))
  {
    var key, n := Sanitize(v), |Sanitize(q)|;
    var r, path := Expand(t, v), InsertPath(t.children, key);
    ExpandThenSearch(t, v, q);
    InsertSpells(t, key, v);
    AtSplit(r, path, n);
    CollectHas(At(r, path[..n]), path[n..], v);
  }

  /** A path splits at any point `n` into a path and a path from its end. */
  lemma {:induction false} AtSplit(t: Tree, p: seq<nat>, n: nat)
    requires IsPath(t, p) && n <= |p|
    ensures IsPath(t, p[..n]) && IsPath(At(t, p[..n]), p[n..]) && At(At(t, p[..n]), p[n..]) == At(t, p)
    decreases n
  {
    if n > 0 {
      assert p[..n][1..] == p[1..][..n - 1] && p[n..] == p[1..][n - 1..];
      AtSplit(t.children[p[0]], p[1..], n - 1);
    }
  }

  /** Overwrite semantics: after `expand(v1)` then `expand(v2)` with the same
      key, collecting from the node `search(v1)` finds yields `v2` but no
      longer `v1`. */
  lemma OverwriteHidesEarlier(t: Tree, v1: string, v2: string)
    requires Keyed(t, "") && DistinctSiblings(t)
    requires Sanitize(v1) == Sanitize(v2) != "" && v1 != v2
    ensures var r := Expand(Expand(t, v1), v2);
            Search(r, v1).Some? &&
            v2 in Collect(At(r, Search(r, v1).value)) &&
            v1 !in Collect(At(r, Search(r, v1).value))
  {
    var key := Sanitize(v1);
    ExpandOverwrites(t, v1, v2);
    var r := Expand(t, v2);
    ExpandThenCollect(t, v2, v1);
    var path := InsertPath(t.children, key);
    ExpandThenSearch(t, v2, v1);
    assert path[..|key|] == path by { InsertSpells(t, key, v2); }
    InsertSpells(t, key, v2);
    assert key == "" + key;
    InsertKeyed(t, "", key, v2);
    if v1 in Collect(At(r, path)) {
      var p := CollectFrom(At(r, path), v1);
      AtConcat(r, path, p);
      KeyedPath(r, "", path + p);
      assert false;
    }
  }

  /** Searching one more child: its match, if any, overrides the earlier ones. */
  lemma SearchAmongSnoc(cs: seq<Tree>, j: nat, key: string)
    requires j < |cs|
    ensures SearchAmong(cs[..j + 1], key) ==
      match SearchFrom(cs[j], key)
      case Some(q) => Some([j] + q)
      case None => SearchAmong(cs[..j], key)
  {
    assert cs[..j + 1][j] == cs[j] && cs[..j + 1][..j] == cs[..j];
  }

  /** A match among the first `j` children is a path from their parent. */
  lemma SearchAmongPath(t: Tree, j: nat, key: string)
    requires j <= |t.children|
    ensures var s := SearchAmong(t.children[..j], key); s.Some? ==> IsPath(t, s.value)
  {
    var s := SearchAmong(t.children[..j], key);
    if s.Some? {
      SpellsAmongPrefix(t.children, j, s.value, key);
      SpellsIsPath(t, s.value, key);
    }
  }

  /** The round trip on any trie built from a fresh node by `expand`: one
      more `expand(v)`, and `search(q).collect()` contains `v` whenever q's
      key is a non-empty prefix of v's key. */
  lemma BuiltThenCollect(vs: seq<string>, v: string, q: string)
    requires Sanitize(q) != "" && Sanitize(q) <= Sanitize(v)
    ensures var r := Expand(Built(vs), v);
            Search(r, q).Some? && v in Collect(At(r, Search(r, q).value))
  {
    BuiltInvariants(vs);
    ExpandThenCollect(Built(vs), v, q);
  }

  /** Overwrite on any trie built from a fresh node by `expand`. */
  lemma BuiltOverwrite(vs: seq<string>, v1: string, v2: string)
    requires Sanitize(v1) == Sanitize(v2) != "" && v1 != v2
    ensures var r := Expand(Expand(Built(vs), v1), v2);
            Search(r, v1).Some? &&
            v2 in Collect(At(r, Search(r, v1).value)) &&
            v1 !in Collect(At(r, Search(r, v1).value))
  {
    BuiltInvariants(vs);
    OverwriteHidesEarlier(Built(vs), v1, v2);
  }
}
