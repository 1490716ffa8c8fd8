/** The mock syntax tree of the analyser (`createSyntaxTree`): the word list
    is split at its midpoint, the middle word becomes the node and the two
    halves become its children, until a slice has at most one word or the
    recursion is deeper than 3, where a leaf holding the slice's first word
    ends it. The later words of a capped slice are dropped.

    A slice `words.slice(...)` of the whole word list is represented by the
    index range [lo, hi) it covers. */
module SyntaxTrees {
  import opened Wrappers
  import opened Tables
  import opened Seqs

  /** `SyntaxNode`; `relation` is optional in the record type. */
  datatype SyntaxNode = SyntaxNode(word: string, tag: string, children: seq<SyntaxNode>, relation: Option<string>)

  /** The draws of one tree: the tag and relation picked by the call at a
      given recursion depth whose slice starts at a given index of the word
      list. No two calls share a depth and a start index. */
  datatype TreeDraws = TreeDraws(tag: (nat, nat) -> PosIndex, relation: (nat, nat) -> RelationIndex)

  /** `createSyntaxTree(words.slice(lo, hi), depth)`. */
  function CreateSyntaxTree(words: seq<string>, lo: nat, hi: nat, depth: nat, d: TreeDraws): SyntaxNode
    requires lo <= hi <= |words|
    decreases hi - lo
  {
    if hi - lo <= 1 || depth > 3 then
      SyntaxNode(if hi - lo > 0 then words[lo] else "", PosTags[d.tag(depth, lo)], [], Some(LeafRelation))
    else
      var mid := (hi - lo) / 2;
      SyntaxNode(
        words[lo + mid],
        PosTags[d.tag(depth, lo)],
        (if mid > 0 then [CreateSyntaxTree(words, lo, lo + mid, depth + 1, d)] else [])
        + (if lo + mid + 1 < hi then [CreateSyntaxTree(words, lo + mid + 1, hi, depth + 1, d)] else []),
        Some(Relations[d.relation(depth, lo)]))
  }

  /** The tree of the whole word list, `createSyntaxTree(wordList)`. */
  function SyntaxTreeOf(words: seq<string>, d: TreeDraws): SyntaxNode {
    CreateSyntaxTree(words, 0, |words|, 0, d)
  }

  /** In-order traversal of a node with at most two children, as every node
      built here is: the first child, the node, then the second child. */
  function InOrder(n: SyntaxNode): seq<string>
    decreases n
  {
    if |n.children| == 0 then [n.word]
    else InOrder(n.children[0]) + [n.word] + (if |n.children| > 1 then InOrder(n.children[1]) else [])
  }

  /** Every node is either a childless leaf labelled "leaf", or an inner node
      with a relation from `Relations` and one or two children; every tag is
      one of `PosTags`. */
  predicate Shaped(n: SyntaxNode)
    decreases n
  {
    && n.tag in PosTags
    && n.relation.Some?
    && (if n.children == [] then n.relation.value == LeafRelation
        else n.relation.value in Relations && |n.children| <= 2)
    && forall i :: 0 <= i < |n.children| ==> Shaped(n.children[i])
  }

  /** No path from `n` down has more than `h` edges. */
  predicate DepthAtMost(n: SyntaxNode, h: nat)
    decreases n
  {
    forall i :: 0 <= i < |n.children| ==> h > 0 && DepthAtMost(n.children[i], h - 1)
  }

  /** How many words a call at `depth` can take without dropping one:
      31 at the root. */
  function Capacity(depth: nat): (c: nat)
    ensures c >= 1
    decreases 4 - depth
  {
    if depth >= 4 then 1 else 2 * Capacity(depth + 1) + 1
  }

  /** Both halves of a slice that fits under a node fit under its children. */
  lemma HalvesFit(len: nat, depth: nat)
    requires 2 <= len <= Capacity(depth) && depth <= 4
    ensures depth <= 3
    ensures 1 <= len / 2 <= Capacity(depth + 1) && len - len / 2 - 1 <= Capacity(depth + 1)
  {
    assert Capacity(depth) == 2 * Capacity(depth + 1) + 1;
  }

  /** A slice cut around one of its elements. */
  lemma SplitAround<T>(xs: seq<T>, lo: nat, m: nat, m1: nat, hi: nat)
    requires lo <= m < hi <= |xs| && m1 == m + 1
    ensures xs[lo..hi] == xs[lo..m] + [xs[m]] + xs[m1..hi]
  {
  }

  /** What one call builds: a leaf exactly when the slice has at most one
      word or the depth exceeds 3, holding the slice's first word (or "") and
      the relation "leaf"; otherwise a node holding the middle word, with a
      relation drawn from `Relations`, whose left child is always there and
      first, and whose right child is missing exactly for a two-word slice. */
  lemma CreateSyntaxTreeNode(words: seq<string>, lo: nat, hi: nat, depth: nat, d: TreeDraws)
    requires lo <= hi <= |words|
    ensures var n := CreateSyntaxTree(words, lo, hi, depth, d);
      && n.tag == PosTags[d.tag(depth, lo)]
      && (n.children == [] <==> hi - lo <= 1 || depth > 3)
      && (n.children == [] ==> n.word == (if hi - lo > 0 then words[lo] else "") && n.relation == Some(LeafRelation))
      && (n.children != [] ==>
            var m := lo + (hi - lo) / 2;
            && n.word == words[m]
            && n.relation == Some(Relations[d.relation(depth, lo)])
            && n.children[0] == CreateSyntaxTree(words, lo, m, depth + 1, d)
            && (|n.children| == 1 <==> hi - lo == 2)
            && (hi - lo > 2 ==> |n.children| == 2 && n.children[1] == CreateSyntaxTree(words, m + 1, hi, depth + 1, d)))
  {
  }

  /** The children of an uncapped call on a slice of two or more words. */
  lemma ChildrenOf(words: seq<string>, lo: nat, m: nat, m1: nat, hi: nat, depth: nat, dd: nat, d: TreeDraws)
    requires lo <= hi <= |words| && 2 <= hi - lo && depth <= 3
    requires m == lo + (hi - lo) / 2 && m1 == m + 1 && dd == depth + 1
    ensures var n := CreateSyntaxTree(words, lo, hi, depth, d);
      && |n.children| == (if m1 < hi then 2 else 1)
      && n.children[0] == CreateSyntaxTree(words, lo, m, dd, d)
      && (m1 < hi ==> n.children[1] == CreateSyntaxTree(words, m1, hi, dd, d))
  {
  }

  /** Every node the recursion builds is well shaped. */
  lemma {:induction false} CreateSyntaxTreeShaped(words: seq<string>, lo: nat, hi: nat, depth: nat, d: TreeDraws)
    requires lo <= hi <= |words|
    ensures Shaped(CreateSyntaxTree(words, lo, hi, depth, d))
    decreases hi - lo
  {
    if 2 <= hi - lo && depth <= 3 {
      var n := CreateSyntaxTree(words, lo, hi, depth, d);
      var m := lo + (hi - lo) / 2;
      var m1 := m + 1;
      var dd := depth + 1;
      ChildrenOf(words, lo, m, m1, hi, depth, dd, d);
      CreateSyntaxTreeShaped(words, lo, m, dd, d);
      if m1 < hi {
        CreateSyntaxTreeShaped(words, m1, hi, dd, d);
      }
      assert forall i :: 0 <= i < |n.children| ==> Shaped(n.children[i]);
    }
  }

  /** A call at `depth` builds a tree of at most `4 - depth` levels below it,
      so the whole tree is at most 4 edges deep. */
  lemma {:induction false} CreateSyntaxTreeDepth(words: seq<string>, lo: nat, hi: nat, depth: nat, d: TreeDraws)
    requires lo <= hi <= |words| && depth <= 4
    ensures DepthAtMost(CreateSyntaxTree(words, lo, hi, depth, d), 4 - depth)
    decreases hi - lo
  {
    if 2 <= hi - lo && depth <= 3 {
      var n := CreateSyntaxTree(words, lo, hi, depth, d);
      var m := lo + (hi - lo) / 2;
      var m1 := m + 1;
      var dd := depth + 1;
      ChildrenOf(words, lo, m, m1, hi, depth, dd, d);
      CreateSyntaxTreeDepth(words, lo, m, dd, d);
      if m1 < hi {
        CreateSyntaxTreeDepth(words, m1, hi, dd, d);
      }
      assert forall i :: 0 <= i < |n.children| ==> DepthAtMost(n.children[i], 4 - dd);
    }
  }

  /** The whole tree is well shaped and at most 4 edges deep. */
  lemma SyntaxTreeShapedAndShallow(words: seq<string>, d: TreeDraws)
    ensures Shaped(SyntaxTreeOf(words, d)) && DepthAtMost(SyntaxTreeOf(words, d), 4)
  {
    CreateSyntaxTreeShaped(words, 0, |words|, 0, d);
    CreateSyntaxTreeDepth(words, 0, |words|, 0, d);
  }

  /** The in-order words of a node with two children. */
  lemma InOrderOfFull(words: seq<string>, lo: nat, m: nat, m1: nat, hi: nat, depth: nat, dd: nat, d: TreeDraws)
    requires lo <= hi <= |words| && hi - lo >= 2 && depth <= 3
    requires m == lo + (hi - lo) / 2 && m1 == m + 1 && m1 < hi && dd == depth + 1
    ensures InOrder(CreateSyntaxTree(words, lo, hi, depth, d))
      == InOrder(CreateSyntaxTree(words, lo, m, dd, d)) + [words[m]] + InOrder(CreateSyntaxTree(words, m1, hi, dd, d))
  {
    ChildrenOf(words, lo, m, m1, hi, depth, dd, d);
  }

  /** The in-order words of a node with only a left child. */
  lemma InOrderOfHalf(words: seq<string>, lo: nat, m: nat, hi: nat, depth: nat, dd: nat, d: TreeDraws)
    requires lo <= hi <= |words| && hi - lo >= 2 && depth <= 3
    requires m == lo + (hi - lo) / 2 && m + 1 == hi && dd == depth + 1
    ensures InOrder(CreateSyntaxTree(words, lo, hi, depth, d)) == InOrder(CreateSyntaxTree(words, lo, m, dd, d)) + [words[m]]
  {
    ChildrenOf(words, lo, m, hi, hi, depth, dd, d);
  }

  /** The node words, in order, are a subsequence of the slice: the tree
      never invents, repeats or reorders a word. */
  lemma {:induction false} InOrderIsSubseq(words: seq<string>, lo: nat, hi: nat, depth: nat, d: TreeDraws)
    requires lo < hi <= |words|
    ensures IsSubseq(InOrder(CreateSyntaxTree(words, lo, hi, depth, d)), words[lo..hi])
    decreases hi - lo
  {
    if hi - lo <= 1 || depth > 3 {
      SubseqRefl([words[lo]]);
      assert IsSubseq([], words[lo + 1..hi]);
      SubseqConcat([words[lo]], [words[lo]], [], words[lo + 1..hi]);
      assert [words[lo]] + words[lo + 1..hi] == words[lo..hi];
    } else {
      var m := lo + (hi - lo) / 2;
      var m1 := m + 1;
      var dd := depth + 1;
      InOrderIsSubseq(words, lo, m, dd, d);
      var tl := InOrder(CreateSyntaxTree(words, lo, m, dd, d));
      SubseqRefl([words[m]]);
      SubseqConcat(tl, words[lo..m], [words[m]], [words[m]]);
      var tr := if m1 < hi then InOrder(CreateSyntaxTree(words, m1, hi, dd, d)) else [];
      if m1 < hi {
        InOrderOfFull(words, lo, m, m1, hi, depth, dd, d);
        InOrderIsSubseq(words, m1, hi, dd, d);
      } else {
        InOrderOfHalf(words, lo, m, hi, depth, dd, d);
      }
      assert IsSubseq(tr, words[m1..hi]);
      SubseqConcat(tl + [words[m]], words[lo..m] + [words[m]], tr, words[m1..hi]);
      SplitAround(words, lo, m, m1, hi);
    }
  }

  /** Every node word of the tree of a non-empty word list is one of its
      words. */
  lemma SyntaxTreeWordsFromInput(words: seq<string>, d: TreeDraws)
    requires |words| >= 1
    ensures forall w :: w in InOrder(SyntaxTreeOf(words, d)) ==> w in words
  {
    InOrderIsSubseq(words, 0, |words|, 0, d);
    assert words[0..|words|] == words;
    SubseqMembers(InOrder(SyntaxTreeOf(words, d)), words);
  }

  /** Within its capacity a call keeps every word: the traversal is the slice. */
  lemma {:induction false} InOrderWithinCapacity(words: seq<string>, lo: nat, hi: nat, depth: nat, d: TreeDraws)
    requires lo < hi <= |words|
    requires depth <= 4 && hi - lo <= Capacity(depth)
    ensures InOrder(CreateSyntaxTree(words, lo, hi, depth, d)) == words[lo..hi]
    decreases hi - lo
  {
    if hi - lo == 1 {
      assert words[lo..hi] == [words[lo]];
    } else {
      HalvesFit(hi - lo, depth);
      var m := lo + (hi - lo) / 2;
      var m1 := m + 1;
      var dd := depth + 1;
      InOrderWithinCapacity(words, lo, m, dd, d);
      SplitAround(words, lo, m, m1, hi);
      if m1 < hi {
        InOrderOfFull(words, lo, m, m1, hi, depth, dd, d);
        InOrderWithinCapacity(words, m1, hi, dd, d);
      } else {
        InOrderOfHalf(words, lo, m, hi, depth, dd, d);
        assert words[m1..hi] == [];
      }
    }
  }

  /** No call keeps more words than its capacity. */
  lemma {:induction false} InOrderAtMostCapacity(words: seq<string>, lo: nat, hi: nat, depth: nat, d: TreeDraws)
    requires lo <= hi <= |words|
    ensures |InOrder(CreateSyntaxTree(words, lo, hi, depth, d))| <= Capacity(depth)
    decreases hi - lo
  {
    if 2 <= hi - lo && depth <= 3 {
      assert Capacity(depth) == 2 * Capacity(depth + 1) + 1;
      var m := lo + (hi - lo) / 2;
      var m1 := m + 1;
      var dd := depth + 1;
      InOrderAtMostCapacity(words, lo, m, dd, d);
      if m1 < hi {
        InOrderOfFull(words, lo, m, m1, hi, depth, dd, d);
        InOrderAtMostCapacity(words, m1, hi, dd, d);
      } else {
        InOrderOfHalf(words, lo, m, hi, depth, dd, d);
      }
    }
  }

  /** For a non-empty word list, the tree keeps every word, in order,
      exactly when there are at most 31 words. */
  lemma SyntaxTreeKeepsAllWordsIff(words: seq<string>, d: TreeDraws)
    requires |words| >= 1
    ensures InOrder(SyntaxTreeOf(words, d)) == words <==> |words| <= 31
  {
    assert Capacity(0) == 31;
    assert words[0..|words|] == words;
    if |words| <= 31 {
      InOrderWithinCapacity(words, 0, |words|, 0, d);
    } else {
      InOrderAtMostCapacity(words, 0, |words|, 0, d);
    }
  }

  /** The tree of no words is a single leaf holding the empty string. */
  lemma SyntaxTreeOfNothing(d: TreeDraws)
    ensures var n := SyntaxTreeOf([], d); n.children == [] && n.word == "" && n.relation == Some(LeafRelation)
  {
  }
}
