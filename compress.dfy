/**
  The compressor's front half: counting the 7-bit symbols of the input,
  filing them into per-count buckets, and building the Huffman tree with
  the priority queue by repeatedly merging the two lightest nodes.

  The input file is the sequence of values `fgetc` returns before EOF.
  Column 0 of the C frequency table always holds the row index, so the
  table is the sequence of counts (column 1), indexed by symbol.
*/
module Compress {
  import opened Wrappers
  import opened HuffmanNode
  import opened PriorityQueue
  import opened LinkedList

  /** The input values that are symbols of the alphabet, in input order. */
  function InRange(input: seq<int>): (r: seq<int>)
    ensures |r| <= |input|
    ensures forall i :: 0 <= i < |r| ==> InAlphabet(r[i])
  {
    if input == [] then []
    else (if InAlphabet(input[0]) then [input[0]] else []) + InRange(input[1..])
  }

  /** A table of counts, one non-negative entry per symbol. */
  predicate IsCountTable(freq: seq<int>)
  {
    |freq| == ALPHABET && forall c :: 0 <= c < ALPHABET ==> freq[c] >= 0
  }

  /** The symbols below `n` with a nonzero count, in ascending order. */
  function Present(freq: seq<int>, n: int): (s: seq<int>)
    requires 0 <= n <= |freq|
    ensures |s| <= n
    ensures forall i :: 0 <= i < |s| ==> 0 <= s[i] < n && freq[s[i]] > 0
  {
    if n == 0 then []
    else Present(freq, n - 1) + (if freq[n - 1] > 0 then [n - 1] else [])
  }

  /** The sum of the counts of the symbols below `n`. */
  function SumFreq(freq: seq<int>, n: int): int
    requires 0 <= n <= |freq|
  {
    if n == 0 then 0 else SumFreq(freq, n - 1) + freq[n - 1]
  }

  /** One leaf per symbol below `n` with a nonzero count, in ascending order. */
  function Leaves(freq: seq<int>, n: int): seq<Tree>
    requires 0 <= n <= |freq|
  {
    if n == 0 then []
    else Leaves(freq, n - 1) + (if freq[n - 1] > 0 then [Leaf(n - 1, freq[n - 1])] else [])
  }

  /**
    The symbols below `n` whose count is exactly `f` (and nonzero), highest
    first: the order in which pushing them in ascending order stacks them.
  */
  function Bucket(freq: seq<int>, f: int, n: int): seq<int>
    requires 0 <= n <= |freq|
  {
    if n == 0 then []
    else (if freq[n - 1] > 0 && freq[n - 1] == f then [n - 1] else []) + Bucket(freq, f, n - 1)
  }

  /** The symbols of a forest of trees, tree after tree. */
  function AllSymbols(forest: seq<Tree>): seq<int>
  {
    if forest == [] then [] else Symbols(forest[0]) + AllSymbols(forest[1..])
  }

  /** The sum of the weights of a forest's roots. */
  function TotalWeight(forest: seq<Tree>): int
  {
    if forest == [] then 0 else forest[0].w + TotalWeight(forest[1..])
  }

  function RemoveAt(forest: seq<Tree>, j: int): (r: seq<Tree>)
    requires 0 <= j < |forest|
    ensures multiset(r) == multiset(forest) - multiset{forest[j]}
  {
    assert forest == forest[..j] + [forest[j]] + forest[j + 1..];
    forest[..j] + forest[j + 1..]
  }

  // ----- Properties of the specification functions -----

  /** Exactly the symbols with a nonzero count are present, each once, ascending. */
  lemma {:induction false} PresentIsExact(freq: seq<int>, n: int)
    requires 0 <= n <= |freq|
    ensures forall c :: c in Present(freq, n) <==> 0 <= c < n && freq[c] > 0
    ensures forall i, j :: 0 <= i < j < |Present(freq, n)| ==> Present(freq, n)[i] < Present(freq, n)[j]
  {
    if n > 0 {
      PresentIsExact(freq, n - 1);
    }
  }

  /** Each present symbol is listed once. */
  lemma PresentOnce(freq: seq<int>, n: int)
    requires 0 <= n <= |freq|
    ensures forall x :: multiset(Present(freq, n))[x] <= 1
  {
    PresentIsExact(freq, n);
    AscendingOnce(Present(freq, n));
  }

  /** A strictly ascending sequence holds each value at most once. */
  lemma {:induction false} AscendingOnce(s: seq<int>)
    requires forall i, j :: 0 <= i < j < |s| ==> s[i] < s[j]
    ensures forall x :: multiset(s)[x] <= 1
  {
    if s != [] {
      var rest := s[1..];
      AscendingOnce(rest);
      assert s == [s[0]] + rest;
      assert multiset(s) == multiset([s[0]]) + multiset(rest);
      assert s[0] !in rest;
    }
  }

  /** A bucket holds exactly the present symbols with that count, highest first. */
  lemma {:induction false} BucketIsExact(freq: seq<int>, f: int, n: int)
    requires 0 <= n <= |freq|
    ensures forall c :: c in Bucket(freq, f, n) <==> 0 <= c < n && freq[c] == f && f > 0
    ensures forall i, j :: 0 <= i < j < |Bucket(freq, f, n)| ==> Bucket(freq, f, n)[i] > Bucket(freq, f, n)[j]
  {
    if n > 0 {
      BucketIsExact(freq, f, n - 1);
      var b := Bucket(freq, f, n - 1);
      if freq[n - 1] > 0 && freq[n - 1] == f {
        var s := [n - 1] + b;
        forall i, j | 0 <= i < j < |s|
          ensures s[i] > s[j]
        {
          if i == 0 {
            assert s[j] == b[j - 1] && b[j - 1] in b;
          }
        }
      }
    }
  }

  lemma {:induction false} AllSymbolsAppend(a: seq<Tree>, b: seq<Tree>)
    ensures AllSymbols(a + b) == AllSymbols(a) + AllSymbols(b)
    ensures TotalWeight(a + b) == TotalWeight(a) + TotalWeight(b)
  {
    if a == [] {
      assert a + b == b;
    } else {
      assert (a + b)[0] == a[0];
      assert (a + b)[1..] == a[1..] + b;
      AllSymbolsAppend(a[1..], b);
    }
  }

  lemma SingletonForest(t: Tree)
    ensures AllSymbols([t]) == Symbols(t) && TotalWeight([t]) == t.w
  {
    assert [t][1..] == [];
  }

  /** Taking one tree out of a forest takes out its symbols and its weight. */
  lemma RemoveAtParts(forest: seq<Tree>, j: int)
    requires 0 <= j < |forest|
    ensures multiset(AllSymbols(forest)) ==
            multiset(AllSymbols(RemoveAt(forest, j))) + multiset(Symbols(forest[j]))
    ensures TotalWeight(forest) == TotalWeight(RemoveAt(forest, j)) + forest[j].w
  {
    var a, x, b := forest[..j], forest[j], forest[j + 1..];
    assert forest == a + ([x] + b);
    assert RemoveAt(forest, j) == a + b;
    AllSymbolsAppend(a, [x] + b);
    AllSymbolsAppend([x], b);
    AllSymbolsAppend(a, b);
    SingletonForest(x);
    var sa, sx, sb := AllSymbols(a), Symbols(x), AllSymbols(b);
    assert multiset(sa + (sx + sb)) == multiset(sa + sb) + multiset(sx);
  }

  /** The initial leaves carry exactly the present symbols, in the same order. */
  lemma {:induction false} LeavesSymbols(freq: seq<int>, n: int)
    requires 0 <= n <= |freq|
    ensures AllSymbols(Leaves(freq, n)) == Present(freq, n)
  {
    if n > 0 {
      LeavesSymbols(freq, n - 1);
      var last := if freq[n - 1] > 0 then [Leaf(n - 1, freq[n - 1])] else [];
      AllSymbolsAppend(Leaves(freq, n - 1), last);
      if freq[n - 1] > 0 {
        SingletonForest(Leaf(n - 1, freq[n - 1]));
      }
    }
  }

  /** The initial leaves weigh the whole count, one leaf per present symbol. */
  lemma {:induction false} LeavesWeight(freq: seq<int>, n: int)
    requires 0 <= n <= |freq| && forall c :: 0 <= c < |freq| ==> freq[c] >= 0
    ensures TotalWeight(Leaves(freq, n)) == SumFreq(freq, n)
    ensures |Leaves(freq, n)| == |Present(freq, n)|
  {
    if n > 0 {
      LeavesWeight(freq, n - 1);
      var last := if freq[n - 1] > 0 then [Leaf(n - 1, freq[n - 1])] else [];
      AllSymbolsAppend(Leaves(freq, n - 1), last);
      if freq[n - 1] > 0 {
        SingletonForest(Leaf(n - 1, freq[n - 1]));
      }
    }
  }

  /** Each initial leaf weighs its symbol's count. */
  lemma {:induction false} LeavesWellWeighted(freq: seq<int>, n: int)
    requires 0 <= n <= |freq|
    ensures forall i :: 0 <= i < |Leaves(freq, n)| ==> WellWeighted(Leaves(freq, n)[i], freq)
  {
    if n > 0 {
      LeavesWellWeighted(freq, n - 1);
    }
  }

  /** The input values below `n`, in input order. */
  function InRangeBelow(input: seq<int>, n: int): seq<int>
  {
    if input == [] then []
    else (if 0 <= input[0] < n then [input[0]] else []) + InRangeBelow(input[1..], n)
  }

  /** Raising the bound from `n - 1` to `n` lets through the occurrences of `n - 1`. */
  lemma {:induction false} InRangeBelowStep(input: seq<int>, n: int)
    requires n >= 1
    ensures |InRangeBelow(input, n)| == |InRangeBelow(input, n - 1)| + multiset(input)[n - 1]
  {
    if input != [] {
      assert input == [input[0]] + input[1..];
      InRangeBelowStep(input[1..], n);
    }
  }

  lemma {:induction false} InRangeBelowZero(input: seq<int>)
    ensures InRangeBelow(input, 0) == []
  {
    if input != [] {
      InRangeBelowZero(input[1..]);
    }
  }

  /** Summing the counts of a table built from `input` counts its values below `n`. */
  lemma {:induction false} SumOfCountsIsInRangeLength(input: seq<int>, freq: seq<int>, n: int)
    requires |freq| == ALPHABET && 0 <= n <= ALPHABET
    requires forall c :: 0 <= c < ALPHABET ==> freq[c] == multiset(input)[c]
    ensures SumFreq(freq, n) == |InRangeBelow(input, n)|
  {
    if n == 0 {
      InRangeBelowZero(input);
    } else {
      SumOfCountsIsInRangeLength(input, freq, n - 1);
      InRangeBelowStep(input, n);
    }
  }

  /** Every value below 128 is a symbol, so the two filters agree at 128. */
  lemma {:induction false} InRangeIsBelowAlphabet(input: seq<int>)
    ensures InRange(input) == InRangeBelow(input, ALPHABET)
  {
    if input != [] {
      InRangeIsBelowAlphabet(input[1..]);
    }
  }

  /** The weight the merge loop ends with: the number of in-alphabet input values. */
  lemma TotalCountIsInRangeLength(input: seq<int>, freq: seq<int>)
    requires |freq| == ALPHABET
    requires forall c :: 0 <= c < ALPHABET ==> freq[c] == multiset(input)[c]
    ensures SumFreq(freq, ALPHABET) == |InRange(input)|
  {
    SumOfCountsIsInRangeLength(input, freq, ALPHABET);
    InRangeIsBelowAlphabet(input);
  }

  // ----- The compressor's loops -----

  /**
    The counting loop: one count per symbol, values outside the alphabet
    ignored, and `largest` the highest count (0 for no symbol at all).
  */
  method CountFrequencies(input: seq<int>) returns (freq: seq<int>, largest: int)
    ensures IsCountTable(freq)
    ensures forall c :: 0 <= c < ALPHABET ==> freq[c] == multiset(input)[c]
    ensures largest >= 0 && forall c :: 0 <= c < ALPHABET ==> freq[c] <= largest
    ensures largest > 0 ==> exists c :: 0 <= c < ALPHABET && freq[c] == largest
  {
    var table := new int[ALPHABET];
    forall i | 0 <= i < ALPHABET {
      table[i] := 0;
    }
    largest := 0;
    ghost var top := 0;
    var k := 0;
    while k < |input|
      invariant 0 <= k <= |input|
      invariant forall c :: 0 <= c < ALPHABET ==> table[c] == multiset(input[..k])[c]
      invariant largest >= 0 && forall c :: 0 <= c < ALPHABET ==> table[c] <= largest
      invariant largest > 0 ==> 0 <= top < ALPHABET && table[top] == largest
    {
      var character := input[k];
      assert input[..k + 1] == input[..k] + [character];
      if 0 <= character < ALPHABET {
        table[character] := table[character] + 1;
        if table[character] > largest {
          largest := table[character];
          top := character;
        }
      }
      k := k + 1;
    }
    assert input[..k] == input;
    freq := table[..];
  }

  /** `linked_list_push(&key[f], c)`: one list of the array gains a head, the others stay. */
  method PushOnto(key: array<Node?>, f: int, c: int)
    requires 0 <= f < key.Length
    requires forall g :: 0 <= g < key.Length ==> ListValid(key[g])
    modifies key
    ensures forall g :: 0 <= g < key.Length ==> ListValid(key[g])
    ensures Contents(key[f]) == [c] + old(Contents(key[f]))
    ensures forall g :: 0 <= g < key.Length && g != f ==> Contents(key[g]) == old(Contents(key[g]))
  {
    ghost var before := key[..];
    key[f] := Push(key[f], c);
    forall g | 0 <= g < key.Length && g != f
      ensures ListValid(key[g]) && Contents(key[g]) == old(Contents(key[g]))
    {
      assert key[g] == before[g];
    }
  }

  /**
    The bucket loop: symbol `c` with count `f > 0` is pushed onto list
    `key[f]`, and `unique` counts the symbols pushed.
  */
  method FillBuckets(freq: seq<int>, largest: int) returns (key: array<Node?>, unique: int)
    requires IsCountTable(freq) && largest >= 0
    requires forall c :: 0 <= c < ALPHABET ==> freq[c] <= largest
    ensures fresh(key) && key.Length == largest + 1
    ensures unique == |Present(freq, ALPHABET)|
    ensures forall f :: 0 <= f <= largest ==>
      ListValid(key[f]) && Contents(key[f]) == Bucket(freq, f, ALPHABET)
  {
    key := new Node?[largest + 1];
    forall i | 0 <= i <= largest {
      key[i] := null;
    }
    unique := 0;
    var i := 0;
    while i < ALPHABET
      invariant 0 <= i <= ALPHABET
      invariant unique == |Present(freq, i)|
      invariant forall f :: 0 <= f <= largest ==> ListValid(key[f])
      invariant forall f :: 0 <= f <= largest ==> Contents(key[f]) == Bucket(freq, f, i)
    {
      unique := FileSymbol(key, freq, largest, i, unique);
      i := i + 1;
    }
  }

  /** One round of the bucket loop: symbol `i`, if present, goes onto the list of its count. */
  method FileSymbol(key: array<Node?>, freq: seq<int>, largest: int, i: int, unique: int)
    returns (newUnique: int)
    requires IsCountTable(freq) && 0 <= i < ALPHABET && key.Length == largest + 1
    requires forall c :: 0 <= c < ALPHABET ==> freq[c] <= largest
    requires unique == |Present(freq, i)|
    requires forall f :: 0 <= f <= largest ==> ListValid(key[f]) && Contents(key[f]) == Bucket(freq, f, i)
    modifies key
    ensures newUnique == |Present(freq, i + 1)|
    ensures forall f :: 0 <= f <= largest ==> ListValid(key[f]) && Contents(key[f]) == Bucket(freq, f, i + 1)
  {
    newUnique := unique;
    var frequency := freq[i];
    if frequency > 0 {
      PushOnto(key, frequency, i);
      newUnique := unique + 1;
    }
  }

  /** A new queue of the given capacity holding one leaf per present symbol. */
  method LeafQueue(freq: seq<int>, capacity: nat) returns (pq: MinPriorityQueue)
    requires IsCountTable(freq)
    ensures pq.Valid() && fresh(pq.Repr)
    ensures pq.Elements() == multiset(Leaves(freq, ALPHABET))
    ensures pq.size == |Leaves(freq, ALPHABET)|
  {
    pq := new MinPriorityQueue(capacity);
    InsertLeaves(pq, freq);
  }

  /** The leaf insertion loop: one leaf per present symbol, in ascending order. */
  method InsertLeaves(pq: MinPriorityQueue, freq: seq<int>)
    requires IsCountTable(freq) && pq.Valid() && pq.size == 0
    modifies pq.Repr
    ensures pq.Valid() && fresh(pq.Repr - old(pq.Repr))
    ensures pq.Elements() == multiset(Leaves(freq, ALPHABET))
    ensures pq.size == |Leaves(freq, ALPHABET)|
  {
    var i := 0;
    while i < ALPHABET
      invariant 0 <= i <= ALPHABET
      invariant pq.Valid() && fresh(pq.Repr - old(pq.Repr))
      invariant pq.Elements() == multiset(Leaves(freq, i)) && pq.size == |Leaves(freq, i)|
    {
      InsertLeaf(pq, freq, i);
      i := i + 1;
    }
  }

  /** One round of the leaf insertion loop: a leaf for symbol `i` if it is present. */
  method InsertLeaf(pq: MinPriorityQueue, freq: seq<int>, i: int)
    requires IsCountTable(freq) && 0 <= i < ALPHABET && pq.Valid()
    requires pq.Elements() == multiset(Leaves(freq, i)) && pq.size == |Leaves(freq, i)|
    modifies pq.Repr
    ensures pq.Valid() && fresh(pq.Repr - old(pq.Repr))
    ensures pq.Elements() == multiset(Leaves(freq, i + 1)) && pq.size == |Leaves(freq, i + 1)|
  {
    if freq[i] > 0 {
      pq.Insert(Some(Leaf(i, freq[i])));
    } else {
      assert Leaves(freq, i + 1) == Leaves(freq, i) + [];
    }
  }

  /**
    The tree builder: one leaf per present symbol goes into a queue sized
    `unique + 1`; while more than one node is queued, the two lightest are
    taken out and joined under a new internal node, the first one taken on
    the left. No symbol means no tree.
  */
  method BuildHuffmanTree(freq: seq<int>, unique: int) returns (root: Option<Tree>)
    requires IsCountTable(freq) && unique == |Present(freq, ALPHABET)|
    ensures root.None? <==> unique == 0
    ensures root.Some? ==> WellWeighted(root.value, freq)
    ensures root.Some? ==> multiset(Symbols(root.value)) == multiset(Present(freq, ALPHABET))
    ensures root.Some? ==> root.value.w == SumFreq(freq, ALPHABET)
  {
    root := None;
    if unique == 0 {
      return;
    }
    var pq := LeafQueue(freq, unique + 1);
    LeavesInvariant(freq);
    ghost var forest := MergeAll(pq, Leaves(freq, ALPHABET), freq);
    root := TakeRoot(pq, forest, freq);
  }

  /**
    The last queued node becomes the root. The fallbacks for a queue that
    does not hold exactly one node cannot be reached after the merge loop.
  */
  method TakeRoot(pq: MinPriorityQueue, ghost forest: seq<Tree>, freq: seq<int>)
    returns (root: Option<Tree>)
    requires IsCountTable(freq) && ForestInvariant(forest, freq)
    requires pq.Valid() && pq.Elements() == multiset(forest) && pq.size == |forest| == 1
    modifies pq.Repr
    ensures root.Some?
    ensures WellWeighted(root.value, freq)
    ensures multiset(Symbols(root.value)) == multiset(Present(freq, ALPHABET))
    ensures root.value.w == SumFreq(freq, ALPHABET)
  {
    if pq.size == 1 {
      root := pq.ExtractMin();
      LastTree(forest, root.value, freq);
    } else {
      assert false;
    }
  }

  /** A forest of one tree that keeps the merge invariant is a finished tree. */
  lemma LastTree(forest: seq<Tree>, t: Tree, freq: seq<int>)
    requires IsCountTable(freq) && ForestInvariant(forest, freq)
    requires |forest| == 1 && t in multiset(forest)
    ensures WellWeighted(t, freq)
    ensures multiset(Symbols(t)) == multiset(Present(freq, ALPHABET))
    ensures t.w == SumFreq(freq, ALPHABET)
  {
    assert forest == [t] by {
      assert forest[0] in multiset(forest);
    }
    SingletonForest(t);
  }

  /**
    With a single present symbol the merge loop never runs: the tree the
    builder returns is the leaf of that symbol, weighing its count.
  */
  lemma SingleSymbolTree(t: Tree, freq: seq<int>)
    requires IsCountTable(freq) && WellWeighted(t, freq)
    requires multiset(Symbols(t)) == multiset(Present(freq, ALPHABET)) && |Present(freq, ALPHABET)| == 1
    ensures t == Leaf(Present(freq, ALPHABET)[0], freq[Present(freq, ALPHABET)[0]])
  {
    var c := Present(freq, ALPHABET)[0];
    assert |Symbols(t)| == |multiset(Symbols(t))| == 1;
    match t
    case Internal(_, _, _) =>
    case Leaf(d, _) =>
      assert Present(freq, ALPHABET) == [c];
      assert d in multiset(Symbols(t));
  }

  /** The merge loop: runs while more than one node is queued. */
  method MergeAll(pq: MinPriorityQueue, ghost forest: seq<Tree>, freq: seq<int>)
    returns (ghost last: seq<Tree>)
    requires IsCountTable(freq) && ForestInvariant(forest, freq)
    requires pq.Valid() && pq.Elements() == multiset(forest) && pq.size == |forest| >= 1
    modifies pq.Repr
    ensures pq.Valid() && fresh(pq.Repr - old(pq.Repr))
    ensures pq.Elements() == multiset(last) && pq.size == |last| == 1
    ensures ForestInvariant(last, freq)
  {
    last := forest;
    ghost var l0: Tree, r0: Tree;
    while pq.size > 1
      invariant pq.Valid() && fresh(pq.Repr - old(pq.Repr))
      invariant pq.Elements() == multiset(last) && pq.size == |last| >= 1
      invariant ForestInvariant(last, freq)
      decreases pq.size
    {
      last, l0, r0 := MergeLightestTwo(pq, last, freq);
    }
  }

  /**
    One round of the merge loop: the two lightest nodes are taken out and
    joined under a new internal node (`ch == -1`), the first one taken on
    the left, and the join goes back into the queue. Both extractions
    succeed because the queue holds at least two nodes.
  */
  method MergeLightestTwo(pq: MinPriorityQueue, ghost forest: seq<Tree>, freq: seq<int>)
    returns (ghost merged: seq<Tree>, ghost l: Tree, ghost r: Tree)
    requires IsCountTable(freq) && ForestInvariant(forest, freq)
    requires pq.Valid() && pq.Elements() == multiset(forest) && pq.size == |forest| > 1
    modifies pq.Repr
    ensures pq.Valid() && fresh(pq.Repr - old(pq.Repr))
    ensures Lightest(l, multiset(forest)) && Lightest(r, multiset(forest) - multiset{l})
    ensures multiset(merged) ==
      multiset(forest) - multiset{l} - multiset{r} + multiset{Internal(l.w + r.w, l, r)}
    ensures pq.Elements() == multiset(merged) && pq.size == |merged| == |forest| - 1
    ensures ForestInvariant(merged, freq)
  {
    var leftChild, rightChild := TakeLightestTwo(pq, forest);
    if leftChild.None? || rightChild.None? {
      assert false;
    }
    var left, right := leftChild.value, rightChild.value;
    InsertJoin(pq, left, right);
    l, r := left, right;
    merged := MergeForest(forest, l, r, freq);
  }

  /** The join of `l` and `r`, weighing their sum, goes into the queue. */
  method InsertJoin(pq: MinPriorityQueue, l: Tree, r: Tree)
    requires pq.Valid()
    modifies pq.Repr
    ensures pq.Valid() && fresh(pq.Repr - old(pq.Repr))
    ensures pq.Elements() == old(pq.Elements()) + multiset{Internal(l.w + r.w, l, r)}
    ensures pq.size == old(pq.size) + 1
  {
    var parent := Internal(l.w + r.w, l, r);
    pq.Insert(Some(parent));
  }

  /** `t` is held in `m` and no tree held in `m` is lighter. */
  ghost predicate Lightest(t: Tree, m: multiset<Tree>)
  {
    t in m && forall u | u in m :: t.w <= u.w
  }

  /**
    The two extractions of a merge round: with more than one node queued,
    both succeed. The first node taken is a lightest of the queue, and the
    second a lightest of what remains.
  */
  method TakeLightestTwo(pq: MinPriorityQueue, ghost forest: seq<Tree>)
    returns (leftChild: Option<Tree>, rightChild: Option<Tree>)
    requires pq.Valid() && pq.Elements() == multiset(forest) && pq.size == |forest| > 1
    modifies pq.Repr
    ensures pq.Valid() && pq.Repr == old(pq.Repr)
    ensures leftChild.Some? && rightChild.Some?
    ensures Lightest(leftChild.value, multiset(forest))
    ensures Lightest(rightChild.value, multiset(forest) - multiset{leftChild.value})
    ensures leftChild.value.w <= rightChild.value.w
    ensures pq.Elements() == multiset(forest) - multiset{leftChild.value} - multiset{rightChild.value}
    ensures pq.size == |forest| - 2
  {
    leftChild := pq.ExtractMin();
    ghost var remaining := pq.Elements();
    rightChild := pq.ExtractMin();
    assert rightChild.value in remaining;
  }

  /**
    What the merge loop keeps: every queued tree is well weighted, together
    they hold each present symbol once, and their weights add up to the
    total count.
  */
  ghost predicate ForestInvariant(forest: seq<Tree>, freq: seq<int>)
    requires IsCountTable(freq)
  {
    (forall k :: 0 <= k < |forest| ==> WellWeighted(forest[k], freq)) &&
    multiset(AllSymbols(forest)) == multiset(Present(freq, ALPHABET)) &&
    TotalWeight(forest) == SumFreq(freq, ALPHABET)
  }

  lemma LeavesInvariant(freq: seq<int>)
    requires IsCountTable(freq)
    ensures ForestInvariant(Leaves(freq, ALPHABET), freq)
    ensures |Leaves(freq, ALPHABET)| == |Present(freq, ALPHABET)|
  {
    LeavesSymbols(freq, ALPHABET);
    LeavesWeight(freq, ALPHABET);
    LeavesWellWeighted(freq, ALPHABET);
  }

  /**
    Taking one occurrence of `t` out of a well-weighted forest: `t` and the
    rest are well weighted, and symbols and weight are split between them.
  */
  lemma TakeOut(forest: seq<Tree>, t: Tree, freq: seq<int>) returns (rest: seq<Tree>)
    requires t in multiset(forest)
    requires forall k :: 0 <= k < |forest| ==> WellWeighted(forest[k], freq)
    ensures multiset(rest) == multiset(forest) - multiset{t} && |rest| == |forest| - 1
    ensures WellWeighted(t, freq)
    ensures forall k :: 0 <= k < |rest| ==> WellWeighted(rest[k], freq)
    ensures multiset(AllSymbols(forest)) == multiset(AllSymbols(rest)) + multiset(Symbols(t))
    ensures TotalWeight(forest) == TotalWeight(rest) + t.w
  {
    var j :| 0 <= j < |forest| && forest[j] == t;
    rest := RemoveAt(forest, j);
    RemoveAtParts(forest, j);
    forall k | 0 <= k < |rest|
      ensures WellWeighted(rest[k], freq)
    {
      assert rest[k] == if k < j then forest[k] else forest[k + 1];
    }
  }

  /**
    The forest after one merge: `l` and `r` replaced by the internal node
    joining them. Given that `l` is no heavier than `r`, the merge keeps the
    loop's invariant.
  */
  lemma MergeForest(forest: seq<Tree>, l: Tree, r: Tree, freq: seq<int>) returns (g: seq<Tree>)
    requires IsCountTable(freq) && ForestInvariant(forest, freq)
    requires l in multiset(forest) && r in multiset(forest) - multiset{l} && l.w <= r.w
    ensures multiset(g) ==
      multiset(forest) - multiset{l} - multiset{r} + multiset{Internal(l.w + r.w, l, r)}
    ensures |g| == |forest| - 1
    ensures ForestInvariant(g, freq)
  {
    var f1 := TakeOut(forest, l, freq);
    var f2 := TakeOut(f1, r, freq);
    g := Joined(f2, l, r, freq);
    Regroup(multiset(AllSymbols(forest)), multiset(AllSymbols(f1)), multiset(AllSymbols(f2)),
            multiset(AllSymbols(g)), multiset(Symbols(l)), multiset(Symbols(r)));
  }

  /** Two parts taken out one after the other and put back together. */
  lemma Regroup(whole: multiset<int>, m1: multiset<int>, m2: multiset<int>, g: multiset<int>,
                a: multiset<int>, b: multiset<int>)
    requires whole == m1 + a && m1 == m2 + b && g == m2 + a + b
    ensures g == whole
  {
  }

  /** Appending the join of `l` and `r` to the rest of the forest. */
  lemma Joined(rest: seq<Tree>, l: Tree, r: Tree, freq: seq<int>) returns (g: seq<Tree>)
    requires forall k :: 0 <= k < |rest| ==> WellWeighted(rest[k], freq)
    requires WellWeighted(l, freq) && WellWeighted(r, freq) && l.w <= r.w
    ensures |g| == |rest| + 1
    ensures multiset(g) == multiset(rest) + multiset{Internal(l.w + r.w, l, r)}
    ensures forall k :: 0 <= k < |g| ==> WellWeighted(g[k], freq)
    ensures multiset(AllSymbols(g)) ==
      multiset(AllSymbols(rest)) + multiset(Symbols(l)) + multiset(Symbols(r))
    ensures TotalWeight(g) == TotalWeight(rest) + l.w + r.w
  {
    var p := Internal(l.w + r.w, l, r);
    AllSymbolsAppend(rest, [p]);
    SingletonForest(p);
    AppendWellWeighted(rest, p, freq);
    g := rest + [p];
  }

  lemma AppendWellWeighted(forest: seq<Tree>, t: Tree, freq: seq<int>)
    requires forall k :: 0 <= k < |forest| ==> WellWeighted(forest[k], freq)
    requires WellWeighted(t, freq)
    ensures forall k :: 0 <= k < |forest| + 1 ==> WellWeighted((forest + [t])[k], freq)
  {
    forall k | 0 <= k < |forest| + 1
      ensures WellWeighted((forest + [t])[k], freq)
    {
      if k < |forest| {
        assert (forest + [t])[k] == forest[k];
      }
    }
  }
}
