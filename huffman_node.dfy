/**
  The Huffman tree built by the compressor.

  A `HuffmanNode` record holds a character, a frequency and two child
  pointers; the builder only ever creates leaves (both children NULL, `ch`
  the symbol) and internal nodes (`ch == -1`, both children set), so the tree
  is a value of an algebraic datatype here. The weight `w` is the record's
  `frequency` field.
*/
module HuffmanNode {
  import opened Wrappers

  /** Size of the alphabet: the symbols 0 to 127. */
  const ALPHABET: int := 128

  predicate InAlphabet(x: int)
  {
    0 <= x < ALPHABET
  }

  /** Marker stored in `ch` of every node that carries no symbol. */
  const INTERNAL_CH: int := -1

  /**
    A node of the compressor's tree. The builder gives every joined node
    `ch == INTERNAL_CH`, so `Internal` stores no `ch` of its own.
  */
  datatype Tree =
    | Leaf(ch: int, w: int)
    | Internal(w: int, left: Tree, right: Tree)

  /** The symbols of the leaves, left to right. */
  function Symbols(t: Tree): (s: seq<int>)
    ensures |s| >= 1
  {
    match t
    case Leaf(c, _) => [c]
    case Internal(_, l, r) => Symbols(l) + Symbols(r)
  }

  function LeafCount(t: Tree): (n: nat)
  {
    match t
    case Leaf(_, _) => 1
    case Internal(_, l, r) => LeafCount(l) + LeafCount(r)
  }

  /** Number of edges on the longest root-to-leaf path. */
  function Height(t: Tree): nat
  {
    match t
    case Leaf(_, _) => 0
    case Internal(_, l, r) =>
      1 + (if Height(l) < Height(r) then Height(r) else Height(l))
  }

  /**
    The node reached from `t` by reading `code` as a path: '0' goes to the
    left child, '1' to the right child. A step below a leaf, or any other
    character, leads nowhere.
  */
  function Follow(t: Tree, code: string): Option<Tree>
    decreases code
  {
    if code == [] then Some(t)
    else match t
      case Leaf(_, _) => None
      case Internal(_, l, r) =>
        if code[0] == '0' then Follow(l, code[1..])
        else if code[0] == '1' then Follow(r, code[1..])
        else None
  }

  /** `code` leads from the root of `t` to a leaf holding symbol `c`. */
  predicate LeafAt(t: Tree, code: string, c: int)
  {
    var n := Follow(t, code);
    n.Some? && n.value.Leaf? && n.value.ch == c
  }

  /** `a` is a prefix of `b`. */
  predicate IsPrefix<T(==)>(a: seq<T>, b: seq<T>)
  {
    |a| <= |b| && b[..|a|] == a
  }

  predicate IsBitString(code: string)
  {
    forall i :: 0 <= i < |code| ==> code[i] == '0' || code[i] == '1'
  }

  /** The bits a code spells: '1' is a set bit, any other character a clear one. */
  function CodeBits(code: string): (bits: seq<bool>)
    ensures |bits| == |code|
    ensures forall i :: 0 <= i < |code| ==> (bits[i] <==> code[i] == '1')
  {
    seq(|code|, i requires 0 <= i < |code| => code[i] == '1')
  }

  /** On strings of '0' and '1', spelling bits keeps prefixes and tells codes apart. */
  lemma CodeBitsPrefix(x: string, y: string)
    requires IsBitString(x) && IsBitString(y)
    ensures IsPrefix(CodeBits(x), CodeBits(y)) <==> IsPrefix(x, y)
  {
    if IsPrefix(CodeBits(x), CodeBits(y)) {
      forall i | 0 <= i < |x|
        ensures y[i] == x[i]
      {
        assert CodeBits(y)[i] == CodeBits(x)[i];
      }
      assert y[..|x|] == x;
    }
    if IsPrefix(x, y) {
      forall i | 0 <= i < |x|
        ensures CodeBits(y)[i] == CodeBits(x)[i]
      {
        assert y[i] == y[..|x|][i];
      }
      assert CodeBits(y)[..|x|] == CodeBits(x);
    }
  }

  /**
    The weight discipline of the builder: a leaf weighs its symbol's count,
    an internal node weighs the sum of its children, and the left child
    (the first one extracted from the queue) is never heavier than the right.
  */
  ghost predicate WellWeighted(t: Tree, freq: seq<int>)
  {
    match t
    case Leaf(c, w) => 0 <= c < |freq| && w == freq[c]
    case Internal(w, l, r) =>
      w == l.w + r.w && l.w <= r.w && WellWeighted(l, freq) && WellWeighted(r, freq)
  }

  /** Sum of `freq` over a sequence of symbols. */
  function SumOver(freq: seq<int>, s: seq<int>): int
    requires forall i :: 0 <= i < |s| ==> 0 <= s[i] < |freq|
  {
    if s == [] then 0 else freq[s[0]] + SumOver(freq, s[1..])
  }

  /** No symbol is in both subtrees of any node, so every symbol has a single leaf. */
  ghost predicate DistinctLeaves(t: Tree)
  {
    match t
    case Leaf(_, _) => true
    case Internal(_, l, r) =>
      DistinctLeaves(l) && DistinctLeaves(r) && forall x :: x in Symbols(l) ==> x !in Symbols(r)
  }

  /** A tree in which every symbol occurs at most once has distinct leaves. */
  lemma {:induction false} OnceIsDistinct(t: Tree)
    requires forall x :: multiset(Symbols(t))[x] <= 1
    ensures DistinctLeaves(t)
  {
    match t
    case Leaf(_, _) =>
    case Internal(_, l, r) =>
      var ml, mr := multiset(Symbols(l)), multiset(Symbols(r));
      assert multiset(Symbols(t)) == ml + mr;
      forall x
        ensures ml[x] <= 1 && mr[x] <= 1 && (ml[x] == 0 || mr[x] == 0)
      {
        assert (ml + mr)[x] == ml[x] + mr[x];
      }
      forall x | x in Symbols(l)
        ensures x !in Symbols(r)
      {
        assert ml[x] > 0;
      }
      OnceIsDistinct(l);
      OnceIsDistinct(r);
  }

  /** A tree has at most one edge per leaf beyond the first on any path. */
  lemma {:induction false} HeightBelowLeafCount(t: Tree)
    ensures Height(t) + 1 <= LeafCount(t)
  {
    match t
    case Leaf(_, _) =>
    case Internal(_, l, r) =>
      HeightBelowLeafCount(l);
      HeightBelowLeafCount(r);
  }

  lemma {:induction false} LeafCountIsSymbolCount(t: Tree)
    ensures LeafCount(t) == |Symbols(t)|
  {
    match t
    case Leaf(_, _) =>
    case Internal(_, l, r) =>
      LeafCountIsSymbolCount(l);
      LeafCountIsSymbolCount(r);
  }

  lemma {:induction false} SumOverAppend(freq: seq<int>, a: seq<int>, b: seq<int>)
    requires forall i :: 0 <= i < |a| ==> 0 <= a[i] < |freq|
    requires forall i :: 0 <= i < |b| ==> 0 <= b[i] < |freq|
    ensures SumOver(freq, a + b) == SumOver(freq, a) + SumOver(freq, b)
  {
    if a != [] {
      assert (a + b)[0] == a[0];
      assert (a + b)[1..] == a[1..] + b;
      SumOverAppend(freq, a[1..], b);
    } else {
      assert a + b == b;
    }
  }

  /** The weight of a well-weighted tree is the total count of its leaves' symbols. */
  lemma {:induction false} WeightIsSumOfLeaves(t: Tree, freq: seq<int>)
    requires WellWeighted(t, freq)
    ensures forall i :: 0 <= i < |Symbols(t)| ==> 0 <= Symbols(t)[i] < |freq|
    ensures t.w == SumOver(freq, Symbols(t))
  {
    match t
    case Leaf(c, w) =>
      assert Symbols(t)[1..] == [];
    case Internal(w, l, r) =>
      WeightIsSumOfLeaves(l, freq);
      WeightIsSumOfLeaves(r, freq);
      SumOverAppend(freq, Symbols(l), Symbols(r));
  }

  /** Following `p + q` is following `p`, then following `q` from there. */
  lemma {:induction false} FollowAppend(t: Tree, p: string, q: string)
    ensures Follow(t, p + q) ==
            (if Follow(t, p).Some? then Follow(Follow(t, p).value, q) else None)
    decreases p
  {
    if p == [] {
      assert p + q == q;
    } else {
      assert (p + q)[0] == p[0];
      assert (p + q)[1..] == p[1..] + q;
      match t
      case Leaf(_, _) =>
      case Internal(_, l, r) =>
        if p[0] == '0' { FollowAppend(l, p[1..], q); }
        else if p[0] == '1' { FollowAppend(r, p[1..], q); }
    }
  }

  /** A path that leads somewhere spells only '0' and '1'. */
  lemma {:induction false} FollowIsBitString(t: Tree, code: string)
    requires Follow(t, code).Some?
    ensures IsBitString(code)
    decreases code
  {
    if code != [] {
      match t
      case Internal(_, l, r) =>
        FollowIsBitString(if code[0] == '0' then l else r, code[1..]);
    }
  }

  /**
    Codes that end at leaves form a prefix-free set: if one is a prefix of
    the other they are equal, and so are the symbols they lead to.
  */
  lemma LeafCodesPrefixFree(t: Tree, a: string, b: string, c: int, d: int)
    requires LeafAt(t, a, c) && LeafAt(t, b, d)
    requires IsPrefix(a, b)
    ensures a == b && c == d
  {
    FollowAppend(t, a, b[|a|..]);
    assert a + b[|a|..] == b;
  }
}
