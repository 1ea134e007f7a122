/**
  The decompressor: the decoding tree rebuilt from the entries of the map
  file, and the bit-by-bit walk that turns the compressed bytes back into
  symbols.

  The C decoder allocates one `HuffmanNode` per tree node and links them by
  pointer. Here the nodes are the slots of an arena: slot `n` holds the
  node's `ch` and the slot numbers of its children, with `NULL` (-1) for a
  missing child; slot 0 is the root. A node's `frequency` is always 0 in the
  decoder and is not stored.
*/
module Decoder {
  import opened Wrappers
  import opened HuffmanNode
  import opened BitPacking

  const NULL: int := -1

  datatype Arena = Arena(ch: seq<int>, left: seq<int>, right: seq<int>)

  /** Every slot has both child fields, and each child is NULL or a slot. */
  predicate WellFormed(a: Arena)
  {
    |a.ch| >= 1 && |a.left| == |a.ch| && |a.right| == |a.ch| &&
    (forall n :: 0 <= n < |a.ch| ==> a.left[n] == NULL || 0 <= a.left[n] < |a.ch|) &&
    (forall n :: 0 <= n < |a.ch| ==> a.right[n] == NULL || 0 <= a.right[n] < |a.ch|)
  }

  /** The child of slot `n` a bit leads to: right for a set bit, left otherwise. */
  function Child(a: Arena, n: int, b: bool): (c: int)
    requires WellFormed(a) && 0 <= n < |a.ch|
    ensures c == NULL || 0 <= c < |a.ch|
  {
    if b then a.right[n] else a.left[n]
  }

  predicate Childless(a: Arena, n: int)
    requires WellFormed(a) && 0 <= n < |a.ch|
  {
    a.left[n] == NULL && a.right[n] == NULL
  }

  /** The slot reached from the root along `p`, or NULL when a child is missing on the way. */
  function Walk(a: Arena, p: seq<bool>): (n: int)
    requires WellFormed(a)
    ensures n == NULL || 0 <= n < |a.ch|
  {
    if p == [] then 0
    else
      var m := Walk(a, p[..|p| - 1]);
      if m == NULL then NULL else Child(a, m, p[|p| - 1])
  }

  // ----- What the map describes -----

  /** All prefixes of `s`, `s` and the empty sequence included. */
  function Prefixes(s: seq<bool>): (r: set<seq<bool>>)
    ensures forall p :: p in r <==> IsPrefix(p, s)
  {
    set m | 0 <= m <= |s| :: s[..m]
  }

  /** The paths of the tree the map describes: the root and every prefix of every code. */
  function TrieSet(entries: seq<(int, string)>): set<seq<bool>>
  {
    if entries == [] then {[]}
    else TrieSet(entries[..|entries| - 1]) + Prefixes(CodeBits(entries[|entries| - 1].1))
  }

  /**
    The `ch` the map leaves at the end of path `p`: the symbol of the last
    entry whose code spells `p`, or -1 when no entry does.
  */
  function Label(entries: seq<(int, string)>, p: seq<bool>): int
  {
    if entries == [] then INTERNAL_CH
    else if CodeBits(entries[|entries| - 1].1) == p then entries[|entries| - 1].0
    else Label(entries[..|entries| - 1], p)
  }

  /**
    The arena is the tree of the map: a path leads to a slot exactly when
    it is in the tree of the map, and that slot holds the path's label.
  */
  ghost predicate Represents(a: Arena, entries: seq<(int, string)>)
  {
    WellFormed(a) &&
    forall p :: (Walk(a, p) != NULL <==> p in TrieSet(entries)) &&
                (Walk(a, p) != NULL ==> a.ch[Walk(a, p)] == Label(entries, p))
  }

  predicate AllBitStrings(entries: seq<(int, string)>)
  {
    forall j :: 0 <= j < |entries| ==> IsBitString(entries[j].1)
  }

  // ----- Properties of the map's tree -----

  ghost predicate PrefixClosed(P: set<seq<bool>>)
  {
    forall q :: q in P && q != [] ==> q[..|q| - 1] in P
  }

  lemma {:induction false} TrieSetClosed(entries: seq<(int, string)>)
    ensures [] in TrieSet(entries) && PrefixClosed(TrieSet(entries))
  {
    if entries != [] {
      TrieSetClosed(entries[..|entries| - 1]);
      var s := CodeBits(entries[|entries| - 1].1);
      forall q | q in Prefixes(s) && q != []
        ensures q[..|q| - 1] in Prefixes(s)
      {
        assert IsPrefix(q[..|q| - 1], s);
      }
    }
  }

  /** A path is in the map's tree exactly when it is the root or a prefix of some code. */
  lemma {:induction false} TrieSetMembers(entries: seq<(int, string)>, p: seq<bool>)
    ensures p in TrieSet(entries) <==>
      p == [] || exists j :: 0 <= j < |entries| && IsPrefix(p, CodeBits(entries[j].1))
  {
    if entries != [] {
      var init := entries[..|entries| - 1];
      TrieSetMembers(init, p);
      if p in TrieSet(entries) && p != [] && p !in TrieSet(init) {
        assert IsPrefix(p, CodeBits(entries[|entries| - 1].1));
      }
      if exists j :: 0 <= j < |entries| && IsPrefix(p, CodeBits(entries[j].1)) {
        var j :| 0 <= j < |entries| && IsPrefix(p, CodeBits(entries[j].1));
        if j < |init| {
          assert init[j] == entries[j];
        }
      }
    }
  }

  /** A path no code spells is labelled -1. */
  lemma {:induction false} LabelOfUncoded(entries: seq<(int, string)>, p: seq<bool>)
    requires forall j :: 0 <= j < |entries| ==> CodeBits(entries[j].1) != p
    ensures Label(entries, p) == INTERNAL_CH
  {
    if entries != [] {
      var init := entries[..|entries| - 1];
      assert forall j :: 0 <= j < |init| ==> init[j] == entries[j];
      LabelOfUncoded(init, p);
    }
  }

  /** The code of the last entry that spells it labels its path. */
  lemma {:induction false} LabelOfCode(entries: seq<(int, string)>, j: int)
    requires 0 <= j < |entries|
    requires forall k :: j < k < |entries| ==> CodeBits(entries[k].1) != CodeBits(entries[j].1)
    ensures Label(entries, CodeBits(entries[j].1)) == entries[j].0
  {
    if j < |entries| - 1 {
      var init := entries[..|entries| - 1];
      assert init[j] == entries[j];
      assert forall k :: j < k < |init| ==> init[k] == entries[k];
      LabelOfCode(init, j);
    }
  }

  // ----- Building the decoding tree -----

  /**
    The builder's invariant: `paths[n]` is the path from the root to slot
    `n`; the paths are distinct and lie in `P`; a slot has a child in a
    direction exactly when its path extended by that bit is in `P`, and
    that child's path is that extension.
  */
  ghost predicate Grown(a: Arena, paths: seq<seq<bool>>, P: set<seq<bool>>)
  {
    WellFormed(a) && |paths| == |a.ch| && paths[0] == [] &&
    (forall n :: 0 <= n < |paths| ==> paths[n] in P) &&
    (forall n, m :: 0 <= n < m < |paths| ==> paths[n] != paths[m]) &&
    (forall n, b: bool :: 0 <= n < |paths| ==> (Child(a, n, b) == NULL <==> paths[n] + [b] !in P)) &&
    (forall n, b: bool :: 0 <= n < |paths| && Child(a, n, b) != NULL ==> paths[Child(a, n, b)] == paths[n] + [b])
  }

  /** Every slot is labelled as the entries so far label its path. */
  ghost predicate Labelled(a: Arena, paths: seq<seq<bool>>, entries: seq<(int, string)>)
    requires |paths| == |a.ch|
  {
    forall n :: 0 <= n < |paths| ==> a.ch[n] == Label(entries, paths[n])
  }

  /** In a grown arena the walk along a path finds the slot of that path, if any. */
  lemma {:induction false} WalkFindsPath(a: Arena, paths: seq<seq<bool>>, P: set<seq<bool>>, p: seq<bool>)
    requires Grown(a, paths, P) && PrefixClosed(P) && [] in P
    ensures Walk(a, p) != NULL <==> p in P
    ensures Walk(a, p) != NULL ==> paths[Walk(a, p)] == p
  {
    if p != [] {
      var q, b := p[..|p| - 1], p[|p| - 1];
      assert p == q + [b];
      WalkFindsPath(a, paths, P, q);
    }
  }

  /** A grown, labelled arena represents the map. */
  lemma GrownRepresents(a: Arena, paths: seq<seq<bool>>, entries: seq<(int, string)>)
    requires Grown(a, paths, TrieSet(entries)) && Labelled(a, paths, entries)
    ensures Represents(a, entries)
  {
    TrieSetClosed(entries);
    forall p
      ensures (Walk(a, p) != NULL <==> p in TrieSet(entries)) &&
              (Walk(a, p) != NULL ==> a.ch[Walk(a, p)] == Label(entries, p))
    {
      WalkFindsPath(a, paths, TrieSet(entries), p);
    }
  }

  /** The root alone: a childless node with `ch == -1`. */
  lemma StartGrown(entries: seq<(int, string)>)
    requires entries == []
    ensures Grown(Arena([INTERNAL_CH], [NULL], [NULL]), [[]], TrieSet(entries))
    ensures Labelled(Arena([INTERNAL_CH], [NULL], [NULL]), [[]], entries)
  {
    assert [] + [false] != [] && [] + [true] != [];
  }

  /** The arena with one more slot: a childless node with `ch == -1`. */
  function AddNode(a: Arena): (r: Arena)
    requires WellFormed(a)
    ensures WellFormed(r) && |r.ch| == |a.ch| + 1 && r.ch[..|a.ch|] == a.ch && r.ch[|a.ch|] == INTERNAL_CH
  {
    Arena(a.ch + [INTERNAL_CH], a.left + [NULL], a.right + [NULL])
  }

  /** The arena with the child of slot `n` in direction `b` set to `c`. */
  function SetChild(a: Arena, n: int, b: bool, c: int): (r: Arena)
    requires WellFormed(a) && 0 <= n < |a.ch| && 0 <= c < |a.ch|
    ensures WellFormed(r) && r.ch == a.ch
  {
    if b then a.(right := a.right[n := c]) else a.(left := a.left[n := c])
  }

  /**
    One step of a code: the child of `current` in direction `b` is created
    (childless, `ch == -1`) when it is missing, and becomes the current node.
  */
  method Descend(a: Arena, ghost paths: seq<seq<bool>>, ghost P: set<seq<bool>>, current: int, b: bool)
    returns (r: Arena, ghost rpaths: seq<seq<bool>>, next: int)
    requires Grown(a, paths, P) && PrefixClosed(P) && 0 <= current < |a.ch|
    ensures Grown(r, rpaths, P + {paths[current] + [b]})
    ensures 0 <= next < |r.ch| && rpaths[next] == paths[current] + [b]
    ensures |rpaths| >= |paths| && rpaths[..|paths|] == paths && r.ch[..|a.ch|] == a.ch
    ensures forall n :: |paths| <= n < |rpaths| ==> r.ch[n] == INTERNAL_CH && rpaths[n] !in P
  {
    next := if b then a.right[current] else a.left[current];
    if next != NULL {
      ExistingChildGrown(a, paths, P, current, b);
      return a, paths, next;
    }
    next := |a.ch|;
    r := SetChild(AddNode(a), current, b, next);
    rpaths := paths + [paths[current] + [b]];
    NewChildGrown(a, paths, P, current, b);
  }

  /** Following a child that exists adds nothing to the tree. */
  lemma ExistingChildGrown(a: Arena, paths: seq<seq<bool>>, P: set<seq<bool>>, current: int, b: bool)
    requires Grown(a, paths, P) && 0 <= current < |a.ch| && Child(a, current, b) != NULL
    ensures P + {paths[current] + [b]} == P
  {
  }

  /** The children of the arena after a missing child is created. */
  lemma NewChildren(a: Arena, current: int, b: bool, n: int, c: bool)
    requires WellFormed(a) && 0 <= current < |a.ch| && 0 <= n <= |a.ch|
    ensures Child(SetChild(AddNode(a), current, b, |a.ch|), n, c) ==
      if n == current && c == b then |a.ch| else if n == |a.ch| then NULL else Child(a, n, c)
  {
  }

  /** The invariant after a missing child is created. */
  lemma NewChildGrown(a: Arena, paths: seq<seq<bool>>, P: set<seq<bool>>, current: int, b: bool)
    requires Grown(a, paths, P) && PrefixClosed(P) && 0 <= current < |a.ch|
    requires Child(a, current, b) == NULL
    ensures paths[current] + [b] !in P
    ensures Grown(SetChild(AddNode(a), current, b, |a.ch|), paths + [paths[current] + [b]],
                  P + {paths[current] + [b]})
  {
    var N := |a.ch|;
    var r := SetChild(AddNode(a), current, b, N);
    var q := paths[current] + [b];
    var rp := paths + [q];
    var P' := P + {q};
    assert q !in P;
    forall n | 0 <= n < |rp|
      ensures rp[n] in P'
    {
    }
    forall n, m | 0 <= n < m < |rp|
      ensures rp[n] != rp[m]
    {
      assert rp[n] == paths[n] && paths[n] in P;
      if m < N {
        assert rp[m] == paths[m];
      }
    }
    forall n, c: bool | 0 <= n < |rp|
      ensures Child(r, n, c) == NULL <==> rp[n] + [c] !in P'
    {
      NewChildren(a, current, b, n, c);
      if n == N {
        assert (q + [c])[..|q + [c]| - 1] == q;
        assert |q + [c]| != |q|;
      } else if n != current || c != b {
        assert rp[n] == paths[n];
        assert (paths[n] + [c])[..|paths[n]|] == paths[n] && (paths[n] + [c])[|paths[n]|] == c;
        assert q[..|paths[current]|] == paths[current] && q[|paths[current]|] == b;
      }
    }
    forall n, c: bool | 0 <= n < |rp| && Child(r, n, c) != NULL
      ensures rp[Child(r, n, c)] == rp[n] + [c]
    {
      NewChildren(a, current, b, n, c);
      if n < N && (n != current || c != b) {
        assert rp[n] == paths[n] && rp[Child(a, n, c)] == paths[Child(a, n, c)];
      }
    }
  }

  /** The tree of the map grows by the prefixes of the newest entry's code. */
  lemma TrieSetStep(entries: seq<(int, string)>, k: int)
    requires 0 <= k < |entries|
    ensures TrieSet(entries[..k + 1]) == TrieSet(entries[..k]) + Prefixes(CodeBits(entries[k].1))
  {
    assert entries[..k + 1][..k] == entries[..k];
  }

  /** The prefixes of a code read one more character. */
  lemma PrefixesStep(code: string, i: int)
    requires 0 <= i < |code|
    ensures CodeBits(code[..i + 1]) == CodeBits(code[..i]) + [code[i] == '1']
    ensures Prefixes(CodeBits(code[..i + 1])) ==
      Prefixes(CodeBits(code[..i])) + {CodeBits(code[..i]) + [code[i] == '1']}
  {
    var s, s' := CodeBits(code[..i]), CodeBits(code[..i + 1]);
    assert s' == s + [code[i] == '1'];
    forall p | p in Prefixes(s')
      ensures p in Prefixes(s) || p == s'
    {
      if |p| <= |s| {
        assert s'[..|p|] == s[..|p|];
      }
    }
  }

  lemma UnionClosed(P: set<seq<bool>>, s: seq<bool>)
    requires PrefixClosed(P)
    ensures PrefixClosed(P + Prefixes(s))
  {
    forall q | q in Prefixes(s) && q != []
      ensures q[..|q| - 1] in Prefixes(s)
    {
      assert IsPrefix(q[..|q| - 1], s);
    }
  }

  /** Slots that are added for paths outside the map's tree keep the arena labelled. */
  lemma NewSlotsLabelled(tree: Arena, before: seq<seq<bool>>, r: Arena, rpaths: seq<seq<bool>>,
                         entries: seq<(int, string)>, P: set<seq<bool>>)
    requires |before| == |tree.ch| && |rpaths| == |r.ch| && |before| <= |rpaths|
    requires rpaths[..|before|] == before && r.ch[..|tree.ch|] == tree.ch
    requires TrieSet(entries) <= P && Labelled(tree, before, entries)
    requires forall n :: |before| <= n < |rpaths| ==> r.ch[n] == INTERNAL_CH && rpaths[n] !in P
    ensures Labelled(r, rpaths, entries)
  {
    forall n | 0 <= n < |rpaths|
      ensures r.ch[n] == Label(entries, rpaths[n])
    {
      if n < |before| {
        assert r.ch[n] == r.ch[..|tree.ch|][n] && rpaths[n] == rpaths[..|before|][n];
      } else {
        TrieSetMembers(entries, rpaths[n]);
        forall j | 0 <= j < |entries|
          ensures CodeBits(entries[j].1) != rpaths[n]
        {
          assert IsPrefix(CodeBits(entries[j].1), CodeBits(entries[j].1));
        }
        LabelOfUncoded(entries, rpaths[n]);
      }
    }
  }

  /**
    The walk of one entry's code: from the root, a '0' goes to the left
    child and a '1' to the right one, each created when missing. Returns
    None at the first other character.
  */
  method InsertCode(a: Arena, ghost paths: seq<seq<bool>>, ghost entries: seq<(int, string)>, code: string)
    returns (result: Option<(Arena, int)>, ghost rpaths: seq<seq<bool>>)
    requires Grown(a, paths, TrieSet(entries)) && Labelled(a, paths, entries)
    ensures result.None? <==> !IsBitString(code)
    ensures result.Some? ==>
      Grown(result.value.0, rpaths, TrieSet(entries) + Prefixes(CodeBits(code))) &&
      Labelled(result.value.0, rpaths, entries) &&
      0 <= result.value.1 < |rpaths| && rpaths[result.value.1] == CodeBits(code)
    ensures result.Some? ==> WellFormed(result.value.0) && Walk(result.value.0, CodeBits(code)) == result.value.1
  {
    TrieSetClosed(entries);
    var tree := a;
    rpaths := paths;
    var current := 0;
    var i := 0;
    assert TrieSet(entries) + Prefixes(CodeBits(code[..0])) == TrieSet(entries);
    while i < |code|
      invariant 0 <= i <= |code| && IsBitString(code[..i])
      invariant Grown(tree, rpaths, TrieSet(entries) + Prefixes(CodeBits(code[..i])))
      invariant Labelled(tree, rpaths, entries)
      invariant 0 <= current < |rpaths| && rpaths[current] == CodeBits(code[..i])
    {
      if code[i] == '0' || code[i] == '1' {
        tree, rpaths, current := InsertBit(tree, rpaths, entries, code, i, current);
      } else {
        assert !IsBitString(code);
        return None, rpaths;
      }
      i := i + 1;
    }
    assert code[..i] == code;
    UnionClosed(TrieSet(entries), CodeBits(code));
    WalkFindsPath(tree, rpaths, TrieSet(entries) + Prefixes(CodeBits(code)), CodeBits(code));
    result := Some((tree, current));
  }

  /** One '0' or '1' of a code: the invariant of `InsertCode` moves one character on. */
  method InsertBit(tree: Arena, ghost paths: seq<seq<bool>>, ghost entries: seq<(int, string)>,
                   code: string, i: int, current: int)
    returns (r: Arena, ghost rpaths: seq<seq<bool>>, next: int)
    requires 0 <= i < |code| && IsBitString(code[..i]) && (code[i] == '0' || code[i] == '1')
    requires Grown(tree, paths, TrieSet(entries) + Prefixes(CodeBits(code[..i])))
    requires Labelled(tree, paths, entries)
    requires 0 <= current < |paths| && paths[current] == CodeBits(code[..i])
    ensures IsBitString(code[..i + 1])
    ensures Grown(r, rpaths, TrieSet(entries) + Prefixes(CodeBits(code[..i + 1])))
    ensures Labelled(r, rpaths, entries)
    ensures 0 <= next < |rpaths| && rpaths[next] == CodeBits(code[..i + 1])
    ensures WellFormed(r) && Walk(r, CodeBits(code[..i + 1])) == next
  {
    ghost var P := TrieSet(entries) + Prefixes(CodeBits(code[..i]));
    OneMorePrefix(entries, code, i);
    r, rpaths, next := Descend(tree, paths, P, current, code[i] == '1');
    NewSlotsLabelled(tree, paths, r, rpaths, entries, P);
    TrieSetClosed(entries);
    UnionClosed(TrieSet(entries), CodeBits(code[..i + 1]));
    WalkFindsPath(r, rpaths, TrieSet(entries) + Prefixes(CodeBits(code[..i + 1])), CodeBits(code[..i + 1]));
  }

  /** The set of paths `InsertBit` grows towards, one character further on. */
  lemma OneMorePrefix(entries: seq<(int, string)>, code: string, i: int)
    requires 0 <= i < |code| && IsBitString(code[..i]) && (code[i] == '0' || code[i] == '1')
    ensures IsBitString(code[..i + 1]) && CodeBits(code[..i + 1]) == CodeBits(code[..i]) + [code[i] == '1']
    ensures PrefixClosed(TrieSet(entries) + Prefixes(CodeBits(code[..i])))
    ensures TrieSet(entries) + Prefixes(CodeBits(code[..i])) + {CodeBits(code[..i]) + [code[i] == '1']} ==
      TrieSet(entries) + Prefixes(CodeBits(code[..i + 1]))
  {
    TrieSetClosed(entries);
    UnionClosed(TrieSet(entries), CodeBits(code[..i]));
    PrefixesStep(code, i);
    assert code[..i + 1] == code[..i] + [code[i]];
  }

  /**
    `build_decoding_tree_from_map_file`, over the entries the map file
    holds: each entry's code is walked from the root and its symbol stored
    in the node the walk ends at, even when that node has children. Any
    character other than '0' and '1' in a code abandons the tree.
  */
  method BuildDecodingTree(entries: seq<(int, string)>) returns (tree: Option<Arena>)
    ensures tree.None? <==> !AllBitStrings(entries)
    ensures tree.Some? ==> Represents(tree.value, entries)
  {
    var a := Arena([INTERNAL_CH], [NULL], [NULL]);
    ghost var paths: seq<seq<bool>> := [[]];
    StartGrown(entries[..0]);
    var k := 0;
    while k < |entries|
      invariant 0 <= k <= |entries| && AllBitStrings(entries[..k])
      invariant Grown(a, paths, TrieSet(entries[..k])) && Labelled(a, paths, entries[..k])
    {
      var walked;
      walked, paths := InsertCode(a, paths, entries[..k], entries[k].1);
      if walked.None? {
        assert !IsBitString(entries[k].1);
        return None;
      }
      a := StoreSymbol(walked.value.0, paths, entries, k, walked.value.1);
      k := k + 1;
    }
    assert entries[..k] == entries;
    GrownRepresents(a, paths, entries);
    tree := Some(a);
  }

  /** Storing the symbol of entry `k` in the node its code ends at. */
  method StoreSymbol(grown: Arena, ghost paths: seq<seq<bool>>, entries: seq<(int, string)>, k: int,
                     current: int)
    returns (a: Arena)
    requires 0 <= k < |entries| && AllBitStrings(entries[..k]) && IsBitString(entries[k].1)
    requires Grown(grown, paths, TrieSet(entries[..k]) + Prefixes(CodeBits(entries[k].1)))
    requires Labelled(grown, paths, entries[..k])
    requires 0 <= current < |paths| && paths[current] == CodeBits(entries[k].1)
    ensures AllBitStrings(entries[..k + 1])
    ensures Grown(a, paths, TrieSet(entries[..k + 1])) && Labelled(a, paths, entries[..k + 1])
  {
    TrieSetStep(entries, k);
    a := grown.(ch := grown.ch[current := entries[k].0]);
    LabelStep(grown, a, paths, entries, k, current);
    var e := entries[..k + 1];
    forall j | 0 <= j < |e|
      ensures IsBitString(e[j].1)
    {
      if j < k {
        assert e[j] == entries[..k][j];
      }
    }
  }

  /** Storing the symbol at the end of the code keeps every slot labelled. */
  lemma LabelStep(grown: Arena, a: Arena, paths: seq<seq<bool>>, entries: seq<(int, string)>, k: int,
                  current: int)
    requires 0 <= k < |entries| && |paths| == |grown.ch| && 0 <= current < |paths|
    requires forall n, m :: 0 <= n < m < |paths| ==> paths[n] != paths[m]
    requires Labelled(grown, paths, entries[..k]) && paths[current] == CodeBits(entries[k].1)
    requires a == grown.(ch := grown.ch[current := entries[k].0])
    ensures Labelled(a, paths, entries[..k + 1])
  {
    var e := entries[..k + 1];
    assert e[..k] == entries[..k] && e[k] == entries[k];
    forall n | 0 <= n < |paths|
      ensures a.ch[n] == Label(e, paths[n])
    {
      if n != current {
        assert paths[n] != paths[current];
      }
    }
  }

  // ----- Decoding -----

  /**
    One bit of the walk from slot `cur`: move to the left child on a clear
    bit, to the right child on a set one; a childless node emits its `ch`,
    as the byte `fputc` writes, and the walk restarts at the root. A
    missing child is None (a NULL dereference in C).
  */
  function Step(a: Arena, cur: int, b: bool): (r: Option<(seq<int>, int)>)
    requires WellFormed(a) && 0 <= cur < |a.ch|
    ensures r.Some? ==> 0 <= r.value.1 < |a.ch|
  {
    var next := Child(a, cur, b);
    if next == NULL then None
    else if Childless(a, next) then Some(([a.ch[next] % 256], 0))
    else Some(([], next))
  }

  /** Decoding `bits` from slot `cur` with `out` already written. */
  function Run(a: Arena, out: seq<int>, cur: int, bits: seq<bool>): (r: Option<(seq<int>, int)>)
    requires WellFormed(a) && 0 <= cur < |a.ch|
    ensures r.Some? ==> 0 <= r.value.1 < |a.ch|
  {
    if bits == [] then Some((out, cur))
    else
      match Run(a, out, cur, bits[..|bits| - 1])
      case None => None
      case Some((o, c)) =>
        match Step(a, c, bits[|bits| - 1])
        case None => None
        case Some((e, c')) => Some((o + e, c'))
  }

  /** Decoding `x + y` is decoding `x` and then decoding `y` from where it stopped. */
  lemma {:induction false} RunAppend(a: Arena, out: seq<int>, cur: int, x: seq<bool>, y: seq<bool>)
    requires WellFormed(a) && 0 <= cur < |a.ch|
    ensures Run(a, out, cur, x + y) ==
      match Run(a, out, cur, x)
      case None => None
      case Some((o, c)) => Run(a, o, c, y)
    decreases |y|
  {
    if y == [] {
      assert x + y == x;
    } else {
      var y', b := y[..|y| - 1], y[|y| - 1];
      assert (x + y)[..|x + y| - 1] == x + y' && (x + y)[|x + y| - 1] == b;
      RunAppend(a, out, cur, x, y');
    }
  }

  /** Decoding `x + y` when decoding `x` stops at slot `c` with `o` written. */
  lemma RunThen(a: Arena, out: seq<int>, cur: int, x: seq<bool>, y: seq<bool>, o: seq<int>, c: int)
    requires WellFormed(a) && 0 <= cur < |a.ch| && 0 <= c < |a.ch|
    requires Run(a, out, cur, x) == Some((o, c))
    ensures Run(a, out, cur, x + y) == Run(a, o, c, y)
  {
    RunAppend(a, out, cur, x, y);
  }

  /**
    Reading a code from the root: each proper prefix ends at a node with
    children, so nothing is emitted until the code's own node, which is
    childless, emits the entry's symbol and returns to the root.
  */
  lemma DecodeCode(a: Arena, entries: seq<(int, string)>, j: int, out: seq<int>)
    requires Represents(a, entries) && AllBitStrings(entries)
    requires PrefixFree(entries) && 0 <= j < |entries| && entries[j].1 != ""
    ensures Run(a, out, 0, CodeBits(entries[j].1)) == Some((out + [entries[j].0 % 256], 0))
  {
    var s := CodeBits(entries[j].1);
    forall m | 0 <= m < |s|
      ensures Run(a, out, 0, s[..m]) == Some((out, Walk(a, s[..m])))
    {
      DecodeInside(a, entries, j, out, m);
    }
    var q := s[..|s| - 1];
    assert s[..|s| - 1] == q && q + [s[|s| - 1]] == s;
    var n := Walk(a, q);
    TrieSetMembers(entries, q);
    assert IsPrefix(q, s);
    TrieSetMembers(entries, s);
    assert IsPrefix(s, s);
    assert Walk(a, s) != NULL;
    CodeNodeChildless(a, entries, j);
    LabelOfPrefixFree(entries, j);
  }

  /** Code strings of different entries are never prefixes of one another. */
  ghost predicate PrefixFree(entries: seq<(int, string)>)
  {
    forall j, k :: 0 <= j < |entries| && 0 <= k < |entries| && j != k ==>
      !IsPrefix(entries[j].1, entries[k].1)
  }

  /** With a prefix-free map, no other code spells the same bits as entry `j`. */
  lemma LabelOfPrefixFree(entries: seq<(int, string)>, j: int)
    requires AllBitStrings(entries) && PrefixFree(entries) && 0 <= j < |entries|
    ensures Label(entries, CodeBits(entries[j].1)) == entries[j].0
  {
    forall k | j < k < |entries|
      ensures CodeBits(entries[k].1) != CodeBits(entries[j].1)
    {
      CodeBitsPrefix(entries[k].1, entries[j].1);
    }
    LabelOfCode(entries, j);
  }

  /** The node at the end of a code of a prefix-free map has no children. */
  lemma CodeNodeChildless(a: Arena, entries: seq<(int, string)>, j: int)
    requires Represents(a, entries) && AllBitStrings(entries)
    requires PrefixFree(entries) && 0 <= j < |entries|
    requires Walk(a, CodeBits(entries[j].1)) != NULL
    ensures Childless(a, Walk(a, CodeBits(entries[j].1)))
  {
    var s := CodeBits(entries[j].1);
    var n := Walk(a, s);
    forall b: bool
      ensures Child(a, n, b) == NULL
    {
      var p := s + [b];
      assert p[..|p| - 1] == s && p[|p| - 1] == b;
      forall k | 0 <= k < |entries|
        ensures !IsPrefix(p, CodeBits(entries[k].1))
      {
        var code := CodeBits(entries[k].1);
        CodeBitsPrefix(entries[j].1, entries[k].1);
        assert IsPrefix(p, code) ==> IsPrefix(s, code);
      }
      TrieSetMembers(entries, p);
    }
    assert Child(a, n, false) == NULL && Child(a, n, true) == NULL;
  }

  /** Along a code, before its last bit, decoding only moves the cursor. */
  lemma {:induction false} DecodeInside(a: Arena, entries: seq<(int, string)>, j: int, out: seq<int>, m: int)
    requires Represents(a, entries)
    requires 0 <= j < |entries| && 0 <= m < |CodeBits(entries[j].1)|
    ensures Run(a, out, 0, CodeBits(entries[j].1)[..m]) == Some((out, Walk(a, CodeBits(entries[j].1)[..m])))
  {
    var s := CodeBits(entries[j].1);
    if m > 0 {
      DecodeInside(a, entries, j, out, m - 1);
      var prev, q, q' := s[..m - 1], s[..m], s[..m + 1];
      assert q[..m - 1] == prev && q[m - 1] == s[m - 1];
      assert q'[..m] == q && q'[m] == s[m];
      TrieSetMembers(entries, q);
      TrieSetMembers(entries, q');
      assert IsPrefix(q, s) && IsPrefix(q', s);
      var c := Walk(a, q);
      assert c != NULL && c == Child(a, Walk(a, prev), s[m - 1]);
      assert Child(a, c, s[m]) != NULL;
      assert Step(a, Walk(a, prev), s[m - 1]) == Some(([], c));
      assert out + [] == out;
    } else {
      assert s[..0] == [];
    }
  }

  /**
    Decoding the codes of the entries `js` one after another yields their
    symbols in order and ends at the root.
  */
  function DecodedSymbols(entries: seq<(int, string)>, js: seq<int>): seq<int>
    requires forall i :: 0 <= i < |js| ==> 0 <= js[i] < |entries|
  {
    if js == [] then [] else DecodedSymbols(entries, js[..|js| - 1]) + [entries[js[|js| - 1]].0 % 256]
  }

  function Concat(entries: seq<(int, string)>, js: seq<int>): seq<bool>
    requires forall i :: 0 <= i < |js| ==> 0 <= js[i] < |entries|
  {
    if js == [] then [] else Concat(entries, js[..|js| - 1]) + CodeBits(entries[js[|js| - 1]].1)
  }

  /** The decoder inverts the concatenation of codes of a prefix-free map. */
  lemma {:induction false} DecodeConcat(a: Arena, entries: seq<(int, string)>, js: seq<int>)
    requires Represents(a, entries) && AllBitStrings(entries) && PrefixFree(entries)
    requires forall i :: 0 <= i < |js| ==> 0 <= js[i] < |entries| && entries[js[i]].1 != ""
    ensures Run(a, [], 0, Concat(entries, js)) == Some((DecodedSymbols(entries, js), 0))
  {
    if js != [] {
      var init := js[..|js| - 1];
      DecodeConcat(a, entries, init);
      RunAppend(a, [], 0, Concat(entries, init), CodeBits(entries[js[|js| - 1]].1));
      DecodeCode(a, entries, js[|js| - 1], DecodedSymbols(entries, init));
    }
  }

  // ----- Runs of zero bits -----

  /**
    Every node of the map's tree that has a child has a left child, as in
    a tree whose internal nodes all have two children.
  */
  ghost predicate LeftFull(entries: seq<(int, string)>)
  {
    forall q :: q in TrieSet(entries) && q != [] ==> q[..|q| - 1] + [false] in TrieSet(entries)
  }

  /** In an arena of such a map, a node with children that the walk reaches has a left child. */
  lemma LeftChildExists(a: Arena, entries: seq<(int, string)>, p: seq<bool>)
    requires Represents(a, entries) && LeftFull(entries) && p in TrieSet(entries)
    requires !Childless(a, Walk(a, p))
    ensures p + [false] in TrieSet(entries) && Walk(a, p + [false]) == Child(a, Walk(a, p), false) != NULL
  {
    var n := Walk(a, p);
    var b := a.left[n] == NULL;
    var q := p + [b];
    WalkStep(a, p, b);
    WalkStep(a, p, false);
    assert q in TrieSet(entries) && q != [];
    assert q[..|q| - 1] == p;
  }

  /** One more bit of a path takes one more step from where the walk got to. */
  lemma WalkStep(a: Arena, p: seq<bool>, b: bool)
    requires WellFormed(a)
    ensures Walk(a, p + [b]) == if Walk(a, p) == NULL then NULL else Child(a, Walk(a, p), b)
  {
    var q := p + [b];
    assert q[..|q| - 1] == p && q[|q| - 1] == b;
  }

  /** The slots of the nodes with children that the walk reaches from the root. */
  ghost function Inner(a: Arena, entries: seq<(int, string)>): set<int>
    requires WellFormed(a)
  {
    set p | p in TrieSet(entries) && Walk(a, p) != NULL && !Childless(a, Walk(a, p)) :: Walk(a, p)
  }

  /**
    Zero bits can be read from every slot of `R`: the root is in `R`, and
    each slot of `R` has a left child that is either childless or in `R`.
  */
  ghost predicate ZeroSafe(a: Arena, R: set<int>)
  {
    WellFormed(a) && 0 in R &&
    forall n :: n in R ==>
      0 <= n < |a.ch| && a.left[n] != NULL && (Childless(a, a.left[n]) || a.left[n] in R)
  }

  /** The reachable nodes with children of a left-full map, whose root has a left child, are safe for zeros. */
  lemma MapZeroSafe(a: Arena, entries: seq<(int, string)>)
    requires Represents(a, entries) && LeftFull(entries) && [false] in TrieSet(entries)
    ensures ZeroSafe(a, Inner(a, entries))
  {
    var R := Inner(a, entries);
    TrieSetClosed(entries);
    WalkStep(a, [], false);
    assert [] + [false] == [false];
    assert Walk(a, []) == 0 && 0 in R;
    forall n | n in R
      ensures 0 <= n < |a.ch| && a.left[n] != NULL && (Childless(a, a.left[n]) || a.left[n] in R)
    {
      var p :| p in TrieSet(entries) && Walk(a, p) != NULL && !Childless(a, Walk(a, p)) && Walk(a, p) == n;
      LeftChildExists(a, entries, p);
    }
  }

  /**
    Zero bits read from a slot of a zero-safe set never meet a missing
    child: the walk succeeds, only appends to the output, at most one
    symbol per bit, and stops in the set again.
  */
  lemma {:induction false} ZerosDecode(a: Arena, R: set<int>, out: seq<int>, cur: int, k: nat)
    returns (o: seq<int>, c: int)
    requires ZeroSafe(a, R) && cur in R
    ensures c in R && Run(a, out, cur, Zeros(k)) == Some((o, c))
    ensures IsPrefix(out, o) && |o| <= |out| + k
  {
    if k == 0 {
      assert Zeros(0) == [];
      o, c := out, cur;
    } else {
      var o1, c1 := ZerosDecode(a, R, out, cur, k - 1);
      assert Zeros(k) == Zeros(k - 1) + [false];
      RunThen(a, out, cur, Zeros(k - 1), [false], o1, c1);
      o, c := ZeroStep(a, R, o1, c1);
    }
  }

  /** One zero bit from a slot of a zero-safe set: the step that `ZerosDecode` repeats. */
  lemma ZeroStep(a: Arena, R: set<int>, out: seq<int>, cur: int) returns (o: seq<int>, c: int)
    requires ZeroSafe(a, R) && cur in R
    ensures c in R && Run(a, out, cur, [false]) == Some((o, c))
    ensures IsPrefix(out, o) && |o| <= |out| + 1
  {
    var next := a.left[cur];
    assert [false][..0] == [];
    if Childless(a, next) {
      o, c := out + [a.ch[next] % 256], 0;
    } else {
      assert out + [] == out;
      o, c := out, next;
    }
  }

  // ----- Reading the compressed bytes -----

  lemma {:induction false} UnpackAppend(x: seq<bv8>, y: seq<bv8>)
    ensures Unpack(x + y) == Unpack(x) + Unpack(y)
  {
    if x == [] {
      assert x + y == y;
    } else {
      assert (x + y)[0] == x[0] && (x + y)[1..] == x[1..] + y;
      UnpackAppend(x[1..], y);
    }
  }

  /** Decoding can only get through a sequence if it gets through each prefix. */
  lemma RunPrefix(a: Arena, x: seq<bool>, y: seq<bool>)
    requires WellFormed(a) && Run(a, [], 0, x + y).Some?
    ensures Run(a, [], 0, x).Some?
  {
    RunAppend(a, [], 0, x, y);
  }

  /**
    `decode_and_write_file`: every bit of every byte, most significant
    first, moves the cursor; each childless node reached emits its `ch` and
    sends the cursor back to the root. Padding bits are decoded like any
    others. The walk must never meet a missing child.
  */
  method DecodeAndWrite(a: Arena, bytes: seq<bv8>) returns (out: seq<int>)
    requires WellFormed(a) && Run(a, [], 0, Unpack(bytes)).Some?
    ensures out == Run(a, [], 0, Unpack(bytes)).value.0
  {
    out := [];
    var cur := 0;
    var k := 0;
    while k < |bytes|
      invariant 0 <= k <= |bytes| && 0 <= cur < |a.ch|
      invariant Run(a, [], 0, Unpack(bytes[..k])) == Some((out, cur))
    {
      ghost var before := Unpack(bytes[..k]);
      UnpackAppend(bytes[..k + 1], bytes[k + 1..]);
      UnpackAppend(bytes[..k], [bytes[k]]);
      assert bytes[..k + 1] + bytes[k + 1..] == bytes && bytes[..k] + [bytes[k]] == bytes[..k + 1];
      assert Unpack([bytes[k]]) == ByteBits(bytes[k]);
      RunPrefix(a, Unpack(bytes[..k + 1]), Unpack(bytes[k + 1..]));
      out, cur := DecodeByte(a, bytes[k], out, cur, before);
      k := k + 1;
    }
    assert bytes[..k] == bytes;
  }

  /** The inner loop of the decoder: the eight bits of one byte. */
  method DecodeByte(a: Arena, byteBuffer: bv8, out: seq<int>, cur: int, ghost before: seq<bool>)
    returns (newOut: seq<int>, newCur: int)
    requires WellFormed(a) && 0 <= cur < |a.ch|
    requires Run(a, [], 0, before) == Some((out, cur))
    requires Run(a, [], 0, before + ByteBits(byteBuffer)).Some?
    ensures 0 <= newCur < |a.ch|
    ensures Run(a, [], 0, before + ByteBits(byteBuffer)) == Some((newOut, newCur))
  {
    newOut, newCur := out, cur;
    var bitIndex := 0;
    ghost var bits := ByteBits(byteBuffer);
    assert before + bits[..0] == before;
    while bitIndex < 8
      invariant 0 <= bitIndex <= 8 && 0 <= newCur < |a.ch|
      invariant Run(a, [], 0, before + bits[..bitIndex]) == Some((newOut, newCur))
    {
      var bit := BitValue(byteBuffer, bitIndex);
      ghost var x := before + bits[..bitIndex];
      NextBit(before, byteBuffer, bitIndex);
      RunPrefix(a, x + [bit == 1], bits[bitIndex + 1..]);
      newOut, newCur := DecodeBit(a, newOut, newCur, bit, x);
      bitIndex := bitIndex + 1;
    }
    assert bits[..8] == bits;
  }

  /** The bit the decoder extracts at `i` is the next bit of the byte. */
  lemma NextBit(before: seq<bool>, byte: bv8, i: int)
    requires 0 <= i < 8
    ensures before + ByteBits(byte)[..i] + [BitValue(byte, i) == 1] == before + ByteBits(byte)[..i + 1]
    ensures before + ByteBits(byte) ==
      (before + ByteBits(byte)[..i] + [BitValue(byte, i) == 1]) + ByteBits(byte)[i + 1..]
  {
    var bits, v := ByteBits(byte), BitValue(byte, i) == 1;
    assert bits[i] == v;
    var head := bits[..i] + [v];
    assert head == bits[..i + 1];
    assert bits == head + bits[i + 1..];
    assert before + bits[..i] + [v] == before + head;
  }

  /**
    One bit: a clear bit moves to the left child, a set one to the right
    child; a childless node reached emits its `ch` and the cursor goes back
    to the root.
  */
  method DecodeBit(a: Arena, out: seq<int>, cur: int, bit: bv8, ghost x: seq<bool>)
    returns (newOut: seq<int>, newCur: int)
    requires WellFormed(a) && 0 <= cur < |a.ch| && (bit == 0 || bit == 1)
    requires Run(a, [], 0, x) == Some((out, cur))
    requires Run(a, [], 0, x + [bit == 1]).Some?
    ensures 0 <= newCur < |a.ch|
    ensures Run(a, [], 0, x + [bit == 1]) == Some((newOut, newCur))
  {
    ghost var y := x + [bit == 1];
    assert y[..|y| - 1] == x && y[|y| - 1] == (bit == 1);
    if bit == 0 {
      newCur := a.left[cur];
    } else {
      newCur := a.right[cur];
    }
    if a.left[newCur] == NULL && a.right[newCur] == NULL {
      newOut := out + [a.ch[newCur] % 256];
      newCur := 0;
    } else {
      newOut := out;
      assert out + [] == out;
    }
  }
}
