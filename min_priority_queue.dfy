/**
  The binary min-heap of tree nodes, keyed on the node weight, that drives
  Huffman's merge loop. The queue owns a growable array; its first `size`
  slots hold the heap, and `capacity` is the length of the allocation.
*/
module PriorityQueue {
  import opened Wrappers
  import opened HuffmanNode

  /** The slot above slot `c` of the heap. */
  function Parent(c: int): int
  {
    (c - 1) / 2
  }

  /** Every slot but the root is no lighter than its parent. */
  ghost predicate HeapOrdered(s: seq<Tree>)
  {
    forall c {:trigger s[Parent(c)]} :: 0 < c < |s| ==> s[Parent(c)].w <= s[c].w
  }

  /** Heap order holds on every edge except the one from `k` up to its parent. */
  ghost predicate OrderedExceptAbove(s: seq<Tree>, k: int)
  {
    forall c {:trigger s[Parent(c)]} :: 0 < c < |s| && c != k ==> s[Parent(c)].w <= s[c].w
  }

  /** Heap order holds on every edge except those from `k` down to its children. */
  ghost predicate OrderedExceptBelow(s: seq<Tree>, k: int)
  {
    forall c {:trigger s[Parent(c)]} :: 0 < c < |s| && Parent(c) != k ==> s[Parent(c)].w <= s[c].w
  }

  /** The parent of `k` is no heavier than the children of `k`. */
  ghost predicate ParentBoundsChildren(s: seq<Tree>, k: int)
  {
    0 < k < |s| ==>
      forall c :: 0 < c < |s| && Parent(c) == k ==> s[Parent(k)].w <= s[c].w
  }

  /** In a heap the root is a lightest element. */
  lemma {:induction false} RootIsLightest(s: seq<Tree>, i: int)
    requires HeapOrdered(s) && 0 <= i < |s|
    ensures s[0].w <= s[i].w
    decreases i
  {
    if i > 0 {
      RootIsLightest(s, Parent(i));
      assert s[Parent(i)].w <= s[i].w;
    }
  }

  /** No node held by a heap is lighter than its root. */
  lemma RootIsLightestOfAll(s: seq<Tree>)
    requires HeapOrdered(s) && |s| > 0
    ensures forall t | t in multiset(s) :: s[0].w <= t.w
  {
    forall t | t in multiset(s)
      ensures s[0].w <= t.w
    {
      var i :| 0 <= i < |s| && s[i] == t;
      RootIsLightest(s, i);
    }
  }

  /** The sequence with the entries at `i` and `j` exchanged. */
  function Swap(s: seq<Tree>, i: int, j: int): (r: seq<Tree>)
    requires 0 <= i < |s| && 0 <= j < |s|
    ensures |r| == |s| && multiset(r) == multiset(s)
  {
    s[i := s[j]][j := s[i]]
  }

  /** One round of `sift_up`'s loop: swapping with a heavier parent moves the fault up. */
  lemma SiftUpStep(s: seq<Tree>, i: int)
    requires 0 < i < |s| && s[Parent(i)].w > s[i].w
    requires OrderedExceptAbove(s, i) && ParentBoundsChildren(s, i)
    ensures OrderedExceptAbove(Swap(s, Parent(i), i), Parent(i))
    ensures ParentBoundsChildren(Swap(s, Parent(i), i), Parent(i))
  {
    var p := Parent(i);
    var t := Swap(s, p, i);
    forall c | 0 < c < |t| && c != p
      ensures t[Parent(c)].w <= t[c].w
    {
      if c == i {
      } else if Parent(c) == i {
        assert s[Parent(i)].w <= s[c].w;
      } else if Parent(c) == p {
        assert s[Parent(c)].w <= s[c].w;
      } else {
        assert s[Parent(c)].w <= s[c].w;
      }
    }
    if 0 < p {
      forall c | 0 < c < |t| && Parent(c) == p
        ensures t[Parent(p)].w <= t[c].w
      {
        assert s[Parent(p)].w <= s[p].w;
        if c != i {
          assert s[Parent(c)].w <= s[c].w;
        }
      }
    }
  }

  /** `sift_up` stops at the root or below a parent that is no heavier: a heap. */
  lemma SiftUpDone(s: seq<Tree>, i: int)
    requires 0 <= i < |s| && (i == 0 || s[Parent(i)].w <= s[i].w)
    requires OrderedExceptAbove(s, i)
    ensures HeapOrdered(s)
  {
    forall c | 0 < c < |s|
      ensures s[Parent(c)].w <= s[c].w
    {
      if c != i {
        assert s[Parent(c)].w <= s[c].w;
      }
    }
  }

  /** One call of `sift_down`: swapping with the lightest child moves the fault down. */
  lemma SiftDownStep(s: seq<Tree>, k: int, m: int)
    requires 0 <= k && (m == 2 * k + 1 || m == 2 * k + 2) && m < |s|
    requires 2 * k + 1 < |s| ==> s[m].w <= s[2 * k + 1].w
    requires 2 * k + 2 < |s| ==> s[m].w <= s[2 * k + 2].w
    requires s[m].w < s[k].w
    requires OrderedExceptBelow(s, k) && ParentBoundsChildren(s, k)
    ensures OrderedExceptBelow(Swap(s, k, m), m)
    ensures ParentBoundsChildren(Swap(s, k, m), m)
  {
    var t := Swap(s, k, m);
    assert Parent(m) == k;
    forall c | 0 < c < |t| && Parent(c) != m
      ensures t[Parent(c)].w <= t[c].w
    {
      if Parent(c) == k {
        assert c == 2 * k + 1 || c == 2 * k + 2;
      } else if c == k {
        assert s[Parent(k)].w <= s[m].w;
      } else {
        assert s[Parent(c)].w <= s[c].w;
      }
    }
    forall c | 0 < c < |t| && Parent(c) == m
      ensures t[Parent(m)].w <= t[c].w
    {
      assert s[Parent(c)].w <= s[c].w;
    }
  }

  /** `sift_down` stops when no child is lighter: a heap. */
  lemma SiftDownDone(s: seq<Tree>, k: int)
    requires 0 <= k
    requires 2 * k + 1 < |s| ==> s[k].w <= s[2 * k + 1].w
    requires 2 * k + 2 < |s| ==> s[k].w <= s[2 * k + 2].w
    requires OrderedExceptBelow(s, k)
    ensures HeapOrdered(s)
  {
    forall c | 0 < c < |s|
      ensures s[Parent(c)].w <= s[c].w
    {
      if Parent(c) != k {
        assert s[Parent(c)].w <= s[c].w;
      } else {
        assert c == 2 * k + 1 || c == 2 * k + 2;
      }
    }
  }

  /** The heap left when the root is removed and the last node takes its slot. */
  function RootReplaced(s: seq<Tree>): (t: seq<Tree>)
    requires |s| > 0
    ensures |t| == |s| - 1
  {
    if |s| == 1 then [] else [s[|s| - 1]] + s[1..|s| - 1]
  }

  /** Moving the last node to the root leaves only the root's edges to repair. */
  lemma ReplaceRoot(s: seq<Tree>)
    requires HeapOrdered(s) && |s| > 0
    ensures OrderedExceptBelow(RootReplaced(s), 0) && ParentBoundsChildren(RootReplaced(s), 0)
    ensures multiset(RootReplaced(s)) == multiset(s) - multiset{s[0]}
  {
    var t := RootReplaced(s);
    forall c | 0 < c < |t| && Parent(c) != 0
      ensures t[Parent(c)].w <= t[c].w
    {
      assert s[Parent(c)].w <= s[c].w;
    }
    if |s| > 1 {
      assert s == [s[0]] + s[1..|s| - 1] + [s[|s| - 1]];
    }
  }

  /** A node placed after the last slot of a heap can only break the edge above it. */
  lemma AppendToHeap(s: seq<Tree>, v: Tree)
    requires HeapOrdered(s)
    ensures OrderedExceptAbove(s + [v], |s|) && ParentBoundsChildren(s + [v], |s|)
  {
    var t := s + [v];
    forall c | 0 < c < |t| && c != |s|
      ensures t[Parent(c)].w <= t[c].w
    {
      assert s[Parent(c)].w <= s[c].w;
    }
  }

  /** The capacity `insert_pq` moves to when the array is full. */
  function GrownCapacity(capacity: int): (c: int)
    requires capacity >= 0
    ensures c > capacity
  {
    if capacity * 2 == 0 then 10 else capacity * 2
  }

  class MinPriorityQueue {
    var nodes: array<Tree>  // `array` in the C struct
    var size: int
    var capacity: int
    ghost var Repr: set<object>

    /** The fields describe an allocation of `capacity` slots, `size` of them used. */
    ghost predicate Allocated()
      reads this, Repr
    {
      this in Repr && nodes in Repr &&
      nodes.Length == capacity && 0 <= size <= capacity
    }

    ghost predicate Valid()
      reads this, Repr
    {
      Allocated() && HeapOrdered(nodes[..size])
    }

    /** The nodes held by the queue. */
    ghost function Elements(): multiset<Tree>
      reads this, Repr
      requires Allocated()
    {
      multiset(nodes[..size])
    }

    /** `create_min_pq`: an empty queue with room for `capacity` nodes. */
    constructor (capacity: nat)
      ensures Valid() && fresh(Repr)
      ensures size == 0 && this.capacity == capacity
      ensures Elements() == multiset{}
    {
      nodes := new Tree[capacity];
      size := 0;
      this.capacity := capacity;
      Repr := {this, nodes};
    }

    /** `is_empty_pq`: the queue holds no node. */
    function IsEmpty(): (r: bool)
      reads this, Repr
      requires Allocated()
      ensures r <==> Elements() == multiset{}
    {
      size == 0
    }

    /** `swap_nodes`: exchanges the nodes in two used slots. */
    method SwapSlots(i: int, j: int)
      requires Allocated() && 0 <= i < size && 0 <= j < size
      modifies nodes
      ensures nodes[..size] == Swap(old(nodes[..size]), i, j)
    {
      nodes[i], nodes[j] := nodes[j], nodes[i];
    }

    /** `sift_up`: moves the node at `index` up until its parent is no heavier. */
    method SiftUp(index: int)
      requires Allocated() && 0 <= index < size
      requires OrderedExceptAbove(nodes[..size], index)
      requires ParentBoundsChildren(nodes[..size], index)
      modifies nodes
      ensures HeapOrdered(nodes[..size])
      ensures multiset(nodes[..size]) == old(multiset(nodes[..size]))
    {
      var i := index;
      while i > 0 && nodes[(i - 1) / 2].w > nodes[i].w
        invariant 0 <= i < size
        invariant OrderedExceptAbove(nodes[..size], i)
        invariant ParentBoundsChildren(nodes[..size], i)
        invariant multiset(nodes[..size]) == old(multiset(nodes[..size]))
        decreases i
      {
        var parent := (i - 1) / 2;
        SiftUpStep(nodes[..size], i);
        SwapSlots(parent, i);
        i := parent;
      }
      SiftUpDone(nodes[..size], i);
    }

    /** `sift_down`: moves the node at `index` down below any lighter child. */
    method SiftDown(index: int)
      requires Allocated() && 0 <= index
      requires OrderedExceptBelow(nodes[..size], index)
      requires ParentBoundsChildren(nodes[..size], index)
      modifies nodes
      ensures HeapOrdered(nodes[..size])
      ensures multiset(nodes[..size]) == old(multiset(nodes[..size]))
      decreases size - index
    {
      var smallest := index;
      var leftChild := 2 * index + 1;
      var rightChild := 2 * index + 2;
      if leftChild < size && nodes[leftChild].w < nodes[smallest].w {
        smallest := leftChild;
      }
      if rightChild < size && nodes[rightChild].w < nodes[smallest].w {
        smallest := rightChild;
      }
      if smallest != index {
        SiftDownStep(nodes[..size], index, smallest);
        SwapSlots(index, smallest);
        SiftDown(smallest);
      } else {
        SiftDownDone(nodes[..size], index);
      }
    }

    /** The `realloc` step of `insert_pq`: a larger array holding the same nodes. */
    method Grow()
      requires Valid()
      modifies this
      ensures Valid() && fresh(nodes) && Repr == {this, nodes}
      ensures size == old(size) && capacity == GrownCapacity(old(capacity))
      ensures nodes[..size] == old(nodes[..size])
    {
      var newCapacity := GrownCapacity(capacity);
      var newArray := new Tree[newCapacity];
      forall i | 0 <= i < size {
        newArray[i] := nodes[i];
      }
      assert newArray[..size] == nodes[..size];
      nodes := newArray;
      capacity := newCapacity;
      Repr := {this, nodes};
    }

    /** Stores a node in the first free slot of a queue with room for it. */
    method Place(v: Tree)
      requires Allocated() && size < capacity
      modifies this, nodes
      ensures Allocated() && nodes == old(nodes) && Repr == old(Repr) && capacity == old(capacity)
      ensures size == old(size) + 1 && nodes[..size] == old(nodes[..size]) + [v]
    {
      nodes[size] := v;
      size := size + 1;
    }

    /**
      `insert_pq`: adds a node, first growing a full array to twice its
      capacity (ten slots when it had none). A NULL node changes nothing.
    */
    method Insert(node: Option<Tree>)
      requires Valid()
      modifies Repr
      ensures Valid() && fresh(Repr - old(Repr))
      ensures node.None? ==>
        size == old(size) && capacity == old(capacity) && Elements() == old(Elements())
      ensures node.Some? ==>
        size == old(size) + 1 && Elements() == old(Elements()) + multiset{node.value}
      ensures node.Some? ==>
        capacity == if old(size) == old(capacity) then GrownCapacity(old(capacity)) else old(capacity)
    {
      if node.None? {
        return;
      }
      if size == capacity {
        Grow();
      }
      AppendToHeap(nodes[..size], node.value);
      Place(node.value);
      SiftUp(size - 1);
    }

    /** Takes the root out and moves the last node into its slot. */
    method MoveLastToRoot() returns (root: Tree)
      requires Allocated() && size > 0
      modifies this, nodes
      ensures Allocated() && nodes == old(nodes) && Repr == old(Repr) && capacity == old(capacity)
      ensures root == old(nodes[0]) && size == old(size) - 1
      ensures nodes[..size] == RootReplaced(old(nodes[..size]))
    {
      root := nodes[0];
      nodes[0] := nodes[size - 1];
      size := size - 1;
    }

    /**
      `extract_min_pq`: removes and returns a lightest node, moving the last
      node to the root and sifting it down. An empty queue yields NULL.
    */
    method ExtractMin() returns (min: Option<Tree>)
      requires Valid()
      modifies Repr
      ensures Valid() && Repr == old(Repr) && capacity == old(capacity)
      ensures old(size) == 0 ==> min.None? && size == 0 && Elements() == old(Elements())
      ensures old(size) > 0 ==>
        min.Some? && min.value in old(Elements()) &&
        (forall t | t in old(Elements()) :: min.value.w <= t.w) &&
        size == old(size) - 1 &&
        Elements() == old(Elements()) - multiset{min.value}
    {
      if size <= 0 {
        return None;
      }
      RootIsLightestOfAll(nodes[..size]);
      ReplaceRoot(nodes[..size]);
      var root := MoveLastToRoot();
      SiftDown(0);
      min := Some(root);
    }
  }
}
