/**
 * What `toArray` (trie.js:221-244) and `collapse` (trie.js:249-261)
 * promise, stated about TrieSpec.Levels: level i lists, left to right, the
 * collapse of every node i steps below the node it starts from; below the
 * root, the collapse of a node at depth d is d letters long; and the
 * root's own level is the string "false".
 */
module LevelsProps {
  import opened TrieSpec

  /** Level i of a level array, empty past its end. */
  function Get(levels: seq<seq<string>>, i: nat): seq<string> {
    if i < |levels| then levels[i] else []
  }

  /** Reference definition: the collapse of every node `i` steps below `t`,
      left to right, built one depth at a time. */
  function Row(t: Tree, above: string, i: nat): seq<string>
    decreases t, 0
  {
    if i == 0 then [CollapseOf(above, t.letter)] else RowAll(t.children, Below(above, t.letter), i - 1)
  }

  function RowAll(cs: seq<Tree>, above: string, i: nat): seq<string>
    decreases cs, 1
  {
    if |cs| == 0 then [] else RowAll(cs[..|cs| - 1], above, i) + Row(cs[|cs| - 1], above, i)
  }

  lemma {:induction false} MergeGet(a: seq<seq<string>>, b: seq<seq<string>>, i: nat)
    ensures Get(Merge(a, b), i) == Get(a, i) + Get(b, i)
    decreases |a|
  {
    if |a| > 0 && |b| > 0 && i > 0 {
      MergeGet(a[1..], b[1..], i - 1);
    }
  }

  /** `level` empty rows: shifts a level array down to start at `level`. */
  function Pad(level: nat): (r: seq<seq<string>>)
    ensures |r| == level && forall i :: 0 <= i < level ==> r[i] == []
  {
    seq(level, _ => [])
  }

  /** Two level arrays of one length with the same rows are equal. */
  lemma SameRows(x: seq<seq<string>>, y: seq<seq<string>>)
    requires |x| == |y| && forall i :: 0 <= i < |x| ==> Get(x, i) == Get(y, i)
    ensures x == y
  {
    forall i | 0 <= i < |x| ensures x[i] == y[i] {
      assert Get(x, i) == Get(y, i);
    }
  }

  lemma MergeAssoc(a: seq<seq<string>>, b: seq<seq<string>>, c: seq<seq<string>>)
    ensures Merge(Merge(a, b), c) == Merge(a, Merge(b, c))
  {
    var x, y := Merge(Merge(a, b), c), Merge(a, Merge(b, c));
    forall i | 0 <= i < |x| ensures Get(x, i) == Get(y, i) {
      MergeGet(Merge(a, b), c, i);
      MergeGet(a, b, i);
      MergeGet(a, Merge(b, c), i);
      MergeGet(b, c, i);
    }
    SameRows(x, y);
  }

  /** Merging two arrays shifted by the same padding is shifting their merge. */
  lemma MergePad(level: nat, x: seq<seq<string>>, y: seq<seq<string>>)
    ensures Merge(Pad(level) + x, Pad(level) + y) == Pad(level) + Merge(x, y)
  {
    var l, r := Merge(Pad(level) + x, Pad(level) + y), Pad(level) + Merge(x, y);
    forall i | 0 <= i < |l| ensures Get(l, i) == Get(r, i) {
      MergeGet(Pad(level) + x, Pad(level) + y, i);
      if i >= level {
        MergeGet(x, y, i - level);
      }
    }
    SameRows(l, r);
  }

  /** `resultsArray[level].push(s)`, creating the level when it is missing. */
  lemma PushAt(levels: seq<seq<string>>, level: nat, s: string)
    requires level <= |levels|
    ensures var grown := if level == |levels| then levels + [[]] else levels;
            grown[level := grown[level] + [s]] == Merge(levels, Pad(level) + [[s]])
  {
    var grown := if level == |levels| then levels + [[]] else levels;
    var shifted := Pad(level) + [[s]];
    var l, r := grown[level := grown[level] + [s]], Merge(levels, shifted);
    assert |grown| == |l| == |r|;
    forall i | 0 <= i < |l| ensures Get(l, i) == Get(r, i) {
      MergeGet(levels, shifted, i);
      assert Get(shifted, i) == if i == level then [s] else [];
      assert Get(grown, i) == Get(levels, i);
    }
    SameRows(l, r);
  }

  /** One more child's levels, merged one level down, extend the node's levels. */
  lemma LevelsStep(cs: seq<Tree>, i: nat, above: string, own: string)
    requires i < |cs|
    ensures Merge([[own]] + LevelsAll(cs[..i], above), [[]] + Levels(cs[i], above))
         == [[own]] + LevelsAll(cs[..i + 1], above)
  {
    assert cs[..i + 1][..i] == cs[..i];
    var a, b := [[own]] + LevelsAll(cs[..i], above), [[]] + Levels(cs[i], above);
    assert a[1..] == LevelsAll(cs[..i], above) && b[1..] == Levels(cs[i], above);
    assert [own] + [] == [own];
  }

  /** The levels of child `j`, merged in one level further down, continue
      its parent's levels after those of the earlier children. */
  lemma ChildStep(levels: seq<seq<string>>, level: nat, own: string, cs: seq<Tree>, j: nat, above: string)
    requires j < |cs|
    ensures Merge(Merge(levels, Pad(level) + ([[own]] + LevelsAll(cs[..j], above))), Pad(level + 1) + Levels(cs[j], above))
         == Merge(levels, Pad(level) + ([[own]] + LevelsAll(cs[..j + 1], above)))
  {
    var x, l := [[own]] + LevelsAll(cs[..j], above), Levels(cs[j], above);
    MergeAssoc(levels, Pad(level) + x, Pad(level + 1) + l);
    assert Pad(level + 1) + l == Pad(level) + ([[]] + l);
    MergePad(level, x, [[]] + l);
    LevelsStep(cs, j, above, own);
  }

  /** `toArray` puts the collapse of every node at depth i into level i, in
      left-to-right (pre-order) order, and nothing else. */
  lemma {:induction false} LevelsAreRows(t: Tree, above: string, i: nat)
    ensures Get(Levels(t, above), i) == Row(t, above, i)
    decreases t, 0
  {
    if i > 0 {
      LevelsAllAreRows(t.children, Below(above, t.letter), i - 1);
    }
  }

  lemma {:induction false} LevelsAllAreRows(cs: seq<Tree>, above: string, i: nat)
    ensures Get(LevelsAll(cs, above), i) == RowAll(cs, above, i)
    decreases cs, 1
  {
    if |cs| > 0 {
      var last := |cs| - 1;
      MergeGet(LevelsAll(cs[..last], above), Levels(cs[last], above), i);
      LevelsAllAreRows(cs[..last], above, i);
      LevelsAreRows(cs[last], above, i);
    }
  }

  /** Below a lettered node, or below any node past its own level, the
      collapse at depth i is i letters longer than what the node's children
      see above them. */
  lemma {:induction false} RowLengths(t: Tree, above: string, i: nat)
    requires Lettered(t) && (t.letter.Some? || i > 0)
    ensures forall j :: 0 <= j < |Row(t, above, i)| ==>
      |Row(t, above, i)[j]| == |Below(above, t.letter)| + i
    decreases t, 0
  {
    if i > 0 {
      RowAllLengths(t.children, Below(above, t.letter), i - 1);
    }
  }

  lemma {:induction false} RowAllLengths(cs: seq<Tree>, above: string, i: nat)
    requires forall k :: 0 <= k < |cs| ==> cs[k].letter.Some? && Lettered(cs[k])
    ensures forall j :: 0 <= j < |RowAll(cs, above, i)| ==> |RowAll(cs, above, i)[j]| == |above| + 1 + i
    decreases cs, 1
  {
    if |cs| > 0 {
      var last := |cs| - 1;
      RowAllLengths(cs[..last], above, i);
      RowLengths(cs[last], above, i);
      var a, b := RowAll(cs[..last], above, i), Row(cs[last], above, i);
      assert forall j :: 0 <= j < |b| ==> (a + b)[|a| + j] == b[j];
    }
  }

  /** On a root (no letter) every string at level d >= 1 of `toArray` has
      length d, and level 0 is the string "false". */
  lemma RootLevels(t: Tree, d: nat)
    requires t.letter.None? && Lettered(t)
    ensures Get(Levels(t, ""), 0) == ["false"]
    ensures d > 0 ==> forall s :: s in Get(Levels(t, ""), d) ==> |s| == d
  {
    LevelsAreRows(t, "", 0);
    assert CollapseOf("", t.letter) == "false";
    if d > 0 {
      LevelsAreRows(t, "", d);
      RowLengths(t, "", d);
    }
  }
}
