/** Sequence helpers: selection of elements by a per-index mask (the shape
    of `xs.filter(() => Math.random() > p)` once the draws are inputs) and
    the subsequence order. */
module Seqs {

  /** The elements `xs[j]`, `j >= i`, whose index the mask `keep` accepts,
      in order. */
  function SelectFrom<T>(xs: seq<T>, keep: nat -> bool, i: nat): (r: seq<T>)
    requires i <= |xs|
    ensures |r| <= |xs| - i
    decreases |xs| - i
  {
    if i == |xs| then [] else (if keep(i) then [xs[i]] else []) + SelectFrom(xs, keep, i + 1)
  }

  /** The elements of `xs` whose index the mask `keep` accepts, in order. */
  function Select<T>(xs: seq<T>, keep: nat -> bool): (r: seq<T>)
    ensures |r| <= |xs|
  {
    SelectFrom(xs, keep, 0)
  }

  /** `a` is obtained from `b` by deleting elements. */
  predicate IsSubseq<T(==)>(a: seq<T>, b: seq<T>)
    decreases |b|
  {
    a == [] || (b != [] && (IsSubseq(a, b[1..]) || (a[0] == b[0] && IsSubseq(a[1..], b[1..]))))
  }

  lemma {:induction false} SubseqRefl<T>(a: seq<T>)
    ensures IsSubseq(a, a)
    decreases |a|
  {
    if a != [] {
      SubseqRefl(a[1..]);
    }
  }

  /** Subsequences can be put side by side. */
  lemma {:induction false} SubseqConcat<T>(a1: seq<T>, b1: seq<T>, a2: seq<T>, b2: seq<T>)
    requires IsSubseq(a1, b1) && IsSubseq(a2, b2)
    ensures IsSubseq(a1 + a2, b1 + b2)
    decreases |b1|
  {
    if b1 == [] {
      assert a1 == [];
      assert a1 + a2 == a2 && b1 + b2 == b2;
    } else {
      assert (b1 + b2)[1..] == b1[1..] + b2;
      if IsSubseq(a1, b1[1..]) {
        SubseqConcat(a1, b1[1..], a2, b2);
      } else {
        SubseqConcat(a1[1..], b1[1..], a2, b2);
        assert (a1 + a2)[1..] == a1[1..] + a2;
      }
    }
  }

  /** The subsequence order is transitive. */
  lemma {:induction false} SubseqTrans<T>(a: seq<T>, b: seq<T>, c: seq<T>)
    requires IsSubseq(a, b) && IsSubseq(b, c)
    ensures IsSubseq(a, c)
    decreases |c|
  {
    if a != [] {
      if IsSubseq(b, c[1..]) {
        SubseqTrans(a, b, c[1..]);
      } else if IsSubseq(a, b[1..]) {
        SubseqTrans(a, b[1..], c[1..]);
      } else {
        SubseqTrans(a[1..], b[1..], c[1..]);
      }
    }
  }

  /** Every element of a subsequence is an element of the whole. */
  lemma {:induction false} SubseqMembers<T>(a: seq<T>, b: seq<T>)
    requires IsSubseq(a, b)
    ensures forall x :: x in a ==> x in b
    decreases |b|
  {
    if a != [] {
      if IsSubseq(a, b[1..]) {
        SubseqMembers(a, b[1..]);
      } else {
        SubseqMembers(a[1..], b[1..]);
        assert forall x :: x in a ==> x == a[0] || x in a[1..];
      }
    }
  }

  /** A selection from `i` on is a subsequence of `xs[i..]`. */
  lemma {:induction false} SelectFromIsSubseq<T>(xs: seq<T>, keep: nat -> bool, i: nat)
    requires i <= |xs|
    ensures IsSubseq(SelectFrom(xs, keep, i), xs[i..])
    decreases |xs| - i
  {
    if i < |xs| {
      SelectFromIsSubseq(xs, keep, i + 1);
      var a, b, rest := SelectFrom(xs, keep, i), xs[i..], SelectFrom(xs, keep, i + 1);
      assert b != [] && b[0] == xs[i] && b[1..] == xs[i + 1..];
      if keep(i) {
        assert a == [xs[i]] + rest;
        assert a[0] == b[0] && a[1..] == rest;
      } else {
        assert a == rest;
      }
    }
  }

  /** A selection is a subsequence. */
  lemma SelectIsSubseq<T>(xs: seq<T>, keep: nat -> bool)
    ensures IsSubseq(Select(xs, keep), xs)
  {
    SelectFromIsSubseq(xs, keep, 0);
    assert xs[0..] == xs;
  }

  /** Exactly the accepted elements are selected: `x` is selected iff it
      stands at some accepted index. */
  lemma {:induction false} SelectFromMembers<T>(xs: seq<T>, keep: nat -> bool, i: nat, x: T)
    requires i <= |xs|
    ensures x in SelectFrom(xs, keep, i) <==> exists j :: i <= j < |xs| && keep(j) && xs[j] == x
    decreases |xs| - i
  {
    if i < |xs| {
      SelectFromMembers(xs, keep, i + 1, x);
      var head := if keep(i) then [xs[i]] else [];
      assert SelectFrom(xs, keep, i) == head + SelectFrom(xs, keep, i + 1);
      assert x in head <==> keep(i) && xs[i] == x;
    }
  }

  /** A prefix is a subsequence. */
  lemma PrefixIsSubseq<T>(xs: seq<T>, n: nat)
    requires n <= |xs|
    ensures IsSubseq(xs[..n], xs)
  {
    SubseqRefl(xs[..n]);
    assert IsSubseq([], xs[n..]);
    SubseqConcat(xs[..n], xs[..n], [], xs[n..]);
    assert xs[..n] + [] == xs[..n] && xs[..n] + xs[n..] == xs;
  }

  /** The position of the first occurrence of `x` in `xs`. */
  function FirstIndex<T(==)>(xs: seq<T>, x: T): (i: nat)
    requires x in xs
    ensures i < |xs| && xs[i] == x
    ensures forall j :: 0 <= j < i ==> xs[j] != x
    decreases |xs|
  {
    if xs[0] == x then 0 else 1 + FirstIndex(xs[1..], x)
  }

  /** The distinct elements of `xs`, each kept at its first occurrence:
      `Array.from(new Set(xs))`. */
  function Dedup<T(==)>(xs: seq<T>): (r: seq<T>)
    ensures forall i :: 0 <= i < |r| ==> r[i] in xs
    ensures forall i :: 0 <= i < |xs| ==> xs[i] in r
    ensures forall i, j :: 0 <= i < j < |r| ==> r[i] != r[j]
    decreases |xs|
  {
    if xs == [] then []
    else
      var init, last := xs[..|xs| - 1], xs[|xs| - 1];
      assert xs == init + [last];
      var p := Dedup(init);
      if last in init then p else p + [last]
  }

  /** A first occurrence within a prefix is the first occurrence in the whole. */
  lemma FirstIndexPrefix<T>(xs: seq<T>, n: nat, x: T)
    requires n <= |xs| && x in xs[..n]
    ensures FirstIndex(xs, x) == FirstIndex(xs[..n], x)
  {
    var a, b := FirstIndex(xs, x), FirstIndex(xs[..n], x);
    assert xs[b] == x;
    assert a <= b;
    assert xs[..n][a] == x;
  }

  /** `Dedup` keeps first-appearance order: an earlier element of the result
      first occurs earlier in the input. */
  lemma {:induction false} DedupFirstAppearance<T>(xs: seq<T>)
    ensures forall i, j :: 0 <= i < j < |Dedup(xs)| ==> FirstIndex(xs, Dedup(xs)[i]) < FirstIndex(xs, Dedup(xs)[j])
    decreases |xs|
  {
    if xs != [] {
      var n := |xs| - 1;
      var init, last := xs[..n], xs[n];
      var p, r := Dedup(init), Dedup(xs);
      DedupFirstAppearance(init);
      forall i | 0 <= i < |p| ensures FirstIndex(xs, p[i]) == FirstIndex(init, p[i]) {
        assert p[i] in init;
        FirstIndexPrefix(xs, n, p[i]);
      }
      if last !in init {
        assert r == p + [last];
        forall j | 0 <= j < n ensures xs[j] != last {
          assert xs[j] == init[j];
        }
        assert FirstIndex(xs, last) == n;
      }
    }
  }
}
