/**
  The compressor and the decompressor together. The compressor counts the
  input, builds the Huffman tree, writes the map of codes and packs the
  codes of the input into bytes; the decompressor rebuilds a decoding tree
  from the entries of the map and walks it over the bytes. Decoding gives
  back the input's symbols of the alphabet, in order, followed by whatever
  the zero padding of the last byte decodes to.
*/
module Codec {
  import opened Wrappers
  import opened HuffmanNode
  import opened BitPacking
  import opened Compress
  import opened Encoder
  import opened Decoder

  /** The entries the map file of tree `t` holds, one per line, as the decoder reads them back. */
  function TreeEntries(t: Tree): (entries: seq<(int, string)>)
    ensures |entries| <= ALPHABET
  {
    MapEntries(CodeTable(Some(t)), ALPHABET)
  }

  /** The symbols `InRange` keeps are those of the input that are in the alphabet. */
  lemma {:induction false} InRangeMembers(input: seq<int>, x: int)
    ensures x in InRange(input) <==> x in input && InAlphabet(x)
  {
    if input != [] {
      InRangeMembers(input[1..], x);
      assert input == [input[0]] + input[1..];
    }
  }

  /** `InRange` read from the back: one more input value adds itself when it is in the alphabet. */
  lemma {:induction false} InRangeSnoc(input: seq<int>, c: int)
    ensures InRange(input + [c]) == InRange(input) + (if InAlphabet(c) then [c] else [])
  {
    if input == [] {
      assert [] + [c] == [c];
      assert [c][1..] == [];
    } else {
      assert (input + [c])[0] == input[0];
      assert (input + [c])[1..] == input[1..] + [c];
      InRangeSnoc(input[1..], c);
    }
  }

  /**
    The tree the builder returns for counted input: it holds every symbol
    of the alphabet that occurs in the input, and it is shallow enough for
    the code buffer of `build_huffman_codes`.
  */
  lemma TreeCoversInput(input: seq<int>, freq: seq<int>, t: Tree)
    requires IsCountTable(freq) && forall c :: 0 <= c < ALPHABET ==> freq[c] == multiset(input)[c]
    requires multiset(Symbols(t)) == multiset(Present(freq, ALPHABET))
    ensures forall i :: 0 <= i < |input| && InAlphabet(input[i]) ==> input[i] in Symbols(t)
    ensures Height(t) < MAX_CODE_LENGTH
  {
    PresentIsExact(freq, ALPHABET);
    forall i | 0 <= i < |input| && InAlphabet(input[i])
      ensures input[i] in Symbols(t)
    {
      assert input[i] in multiset(input);
      assert input[i] in multiset(Present(freq, ALPHABET));
      assert input[i] in multiset(Symbols(t));
    }
    LeafCountIsSymbolCount(t);
    HeightBelowLeafCount(t);
    assert |Symbols(t)| == |multiset(Symbols(t))| == |multiset(Present(freq, ALPHABET))| == |Present(freq, ALPHABET)|;
  }

  /**
    The tree is empty exactly when the input holds no symbol of the
    alphabet: no unique symbol, no tree, no codes.
  */
  lemma NoTreeForNoSymbols(input: seq<int>, freq: seq<int>)
    requires IsCountTable(freq) && forall c :: 0 <= c < ALPHABET ==> freq[c] == multiset(input)[c]
    ensures |Present(freq, ALPHABET)| == 0 <==> InRange(input) == []
  {
    PresentIsExact(freq, ALPHABET);
    if InRange(input) != [] {
      var x := InRange(input)[0];
      InRangeMembers(input, x);
      assert x in Present(freq, ALPHABET);
    }
    if Present(freq, ALPHABET) != [] {
      var x := Present(freq, ALPHABET)[0];
      assert x in multiset(input);
      InRangeMembers(input, x);
    }
  }

  /**
    The map of a tree is a prefix code: every code is a string of '0' and
    '1', and no code is a prefix of another entry's code.
  */
  lemma MapOfTreeIsPrefixCode(t: Tree)
    ensures AllBitStrings(TreeEntries(t)) && PrefixFree(TreeEntries(t))
  {
    var codes := CodeTable(Some(t));
    var e := TreeEntries(t);
    MapEntriesExact(codes, ALPHABET);
    forall k | 0 <= k < |e|
      ensures IsBitString(e[k].1)
    {
      CodeTableIsPrefixCode(t, e[k].0, e[k].0);
    }
    forall j, k | 0 <= j < |e| && 0 <= k < |e| && j != k
      ensures !IsPrefix(e[j].1, e[k].1)
    {
      assert e[j].0 != e[k].0;
      CodeTableIsPrefixCode(t, e[j].0, e[k].0);
    }
  }

  /** A symbol of the tree has a line in the map, holding its code, which is not empty. */
  lemma EntryOf(t: Tree, c: int) returns (j: int)
    requires InAlphabet(c) && c in Symbols(t)
    ensures 0 <= j < |TreeEntries(t)|
    ensures TreeEntries(t)[j] == (c, CodeTable(Some(t))[c]) && CodeTable(Some(t))[c] != ""
  {
    var codes := CodeTable(Some(t));
    CodeTableOfTree(t, c);
    MapEntriesExact(codes, ALPHABET);
    assert (c, codes[c]) in TreeEntries(t);
    j :| 0 <= j < |TreeEntries(t)| && TreeEntries(t)[j] == (c, codes[c]);
  }

  /**
    Walking the decoding tree of the map over the concatenated codes of the
    input gives back the input's symbols of the alphabet, in order, and
    leaves the cursor at the root.
  */
  lemma {:induction false} DecodeEncoded(a: Arena, t: Tree, input: seq<int>)
    requires Represents(a, TreeEntries(t))
    requires forall i :: 0 <= i < |input| && InAlphabet(input[i]) ==> input[i] in Symbols(t)
    ensures Run(a, [], 0, EncodedBits(CodeTable(Some(t)), input)) == Some((InRange(input), 0))
    decreases |input|
  {
    var codes := CodeTable(Some(t));
    if input != [] {
      var init, c := input[..|input| - 1], input[|input| - 1];
      assert input == init + [c];
      DecodeEncoded(a, t, init);
      InRangeSnoc(init, c);
      assert EncodedBits(codes, input) == EncodedBits(codes, init) + SymbolBits(codes, c);
      RunThen(a, [], 0, EncodedBits(codes, init), SymbolBits(codes, c), InRange(init), 0);
      DecodeSymbol(a, t, c, InRange(init));
    }
  }

  /**
    The code of one input value, read from the root, emits that value when
    it is a symbol of the alphabet and nothing otherwise, and returns to
    the root.
  */
  lemma DecodeSymbol(a: Arena, t: Tree, c: int, out: seq<int>)
    requires Represents(a, TreeEntries(t))
    requires InAlphabet(c) ==> c in Symbols(t)
    ensures Run(a, out, 0, SymbolBits(CodeTable(Some(t)), c)) ==
      Some((out + (if InAlphabet(c) then [c] else []), 0))
  {
    var codes := CodeTable(Some(t));
    if InAlphabet(c) {
      var j := EntryOf(t, c);
      MapOfTreeIsPrefixCode(t);
      DecodeCode(a, TreeEntries(t), j, out);
      assert SymbolBits(codes, c) == CodeBits(TreeEntries(t)[j].1);
      SymbolIsItsByte(c);
    } else {
      assert SymbolBits(codes, c) == [] && out + [] == out;
    }
  }

  /**
    Packing the input's codes into bytes and decoding them yields the
    input's symbols of the alphabet, in order, and then the decoding of
    the zero bits that pad the last byte; with no padding, exactly those
    symbols.
  */
  lemma PackedRoundTrip(a: Arena, t: Tree, input: seq<int>)
    requires Represents(a, TreeEntries(t))
    requires forall i :: 0 <= i < |input| && InAlphabet(input[i]) ==> input[i] in Symbols(t)
    ensures Run(a, [], 0, Unpack(Pack(EncodedBits(CodeTable(Some(t)), input)))) ==
      Run(a, InRange(input), 0, Zeros(Padding(|EncodedBits(CodeTable(Some(t)), input)|)))
    ensures |EncodedBits(CodeTable(Some(t)), input)| % 8 == 0 ==>
      Run(a, [], 0, Unpack(Pack(EncodedBits(CodeTable(Some(t)), input)))) == Some((InRange(input), 0))
  {
    var bits := EncodedBits(CodeTable(Some(t)), input);
    DecodeEncoded(a, t, input);
    DecodePacked(a, bits, InRange(input));
    if |bits| % 8 == 0 {
      NoPadding(|bits|);
    }
  }

  /** Decoding packed bits is decoding the bits and then the zero padding. */
  lemma DecodePacked(a: Arena, bits: seq<bool>, out: seq<int>)
    requires WellFormed(a) && Run(a, [], 0, bits) == Some((out, 0))
    ensures Run(a, [], 0, Unpack(Pack(bits))) == Run(a, out, 0, Zeros(Padding(|bits|)))
  {
    UnpackPack(bits);
    RunThen(a, [], 0, bits, Zeros(Padding(|bits|)), out, 0);
  }

  /** The builder's tree for a count table has distinct symbols, all of the alphabet. */
  lemma CountedTree(freq: seq<int>, t: Tree)
    requires IsCountTable(freq) && multiset(Symbols(t)) == multiset(Present(freq, ALPHABET))
    ensures DistinctLeaves(t) && forall x :: x in Symbols(t) ==> InAlphabet(x)
  {
    PresentOnce(freq, ALPHABET);
    OnceIsDistinct(t);
    PresentIsExact(freq, ALPHABET);
    forall x | x in Symbols(t)
      ensures InAlphabet(x)
    {
      assert x in multiset(Symbols(t));
    }
  }

  /**
    Below a node of `t` that has children, the next '0' starts the code of
    some symbol, so the map's tree has the left child of that node.
  */
  lemma LeftOf(t: Tree, s: string, u: Tree)
    requires t.Internal? && DistinctLeaves(t) && (forall x :: x in Symbols(t) ==> InAlphabet(x))
    requires Follow(t, s) == Some(u) && u.Internal?
    ensures CodeBits(s) + [false] in TrieSet(TreeEntries(t))
  {
    var l, s0 := u.left, s + "0";
    var d := Symbols(l)[0];
    FollowAppend(t, s, "0");
    assert "0"[1..] == [] && Follow(u, "0") == Some(l);
    PathThrough(t, s0, l, d);
    var j := EntryOf(t, d);
    CodeTableOfTree(t, d);
    MapOfTreeIsPrefixCode(t);
    FollowIsBitString(t, s0);
    var code := TreeEntries(t)[j].1;
    assert code == s0 + PathTo(l, d) && IsBitString(code);
    assert IsPrefix(s0, code);
    CodeBitsPrefix(s0, code);
    assert CodeBits(s0) == CodeBits(s) + [false];
    TrieSetMembers(TreeEntries(t), CodeBits(s0));
  }

  /** A node of the map's tree of a tree with children, other than the root, has a left sibling path. */
  lemma InnerLeftFull(t: Tree, q: seq<bool>)
    requires t.Internal? && DistinctLeaves(t) && (forall x :: x in Symbols(t) ==> InAlphabet(x))
    requires q in TrieSet(TreeEntries(t)) && q != []
    ensures q[..|q| - 1] + [false] in TrieSet(TreeEntries(t))
  {
    var e := TreeEntries(t);
    TrieSetMembers(e, q);
    var k :| 0 <= k < |e| && IsPrefix(q, CodeBits(e[k].1));
    var m := |q| - 1;
    var u := InsideCode(t, k, m);
    LeftOf(t, e[k].1[..m], u);
    CodeBitsSlice(e[k].1, m);
    assert CodeBits(e[k].1)[..m] == q[..m];
  }

  /** Short of its end, a code of the map stops at a node with children. */
  lemma InsideCode(t: Tree, k: int, m: int) returns (u: Tree)
    requires t.Internal? && 0 <= k < |TreeEntries(t)| && 0 <= m < |TreeEntries(t)[k].1|
    ensures Follow(t, TreeEntries(t)[k].1[..m]) == Some(u) && u.Internal?
  {
    var c, code := TreeEntries(t)[k].0, TreeEntries(t)[k].1;
    MapEntriesExact(CodeTable(Some(t)), ALPHABET);
    CodeTableOfTree(t, c);
    CodeLeadsToLeaf(t, c);
    var s, y := code[..m], code[m..];
    assert code == s + y && y != [];
    FollowAppend(t, s, y);
    u := Follow(t, s).value;
  }

  /** The bits of a code's first `m` characters are its first `m` bits. */
  lemma CodeBitsSlice(code: string, m: int)
    requires 0 <= m <= |code|
    ensures CodeBits(code[..m]) == CodeBits(code)[..m]
  {
  }

  /** The map of a lone leaf: its one code is "0", whose node is the root's left child. */
  lemma LeafMapLeftFull(c: int, w: int)
    requires InAlphabet(c)
    ensures LeftFull(TreeEntries(Leaf(c, w))) && [false] in TrieSet(TreeEntries(Leaf(c, w)))
  {
    var e := TreeEntries(Leaf(c, w));
    var j := EntryOf(Leaf(c, w), c);
    LeafMapCode(c, w, j);
    TrieSetMembers(e, [false]);
    forall q | q in TrieSet(e) && q != []
      ensures q[..|q| - 1] + [false] in TrieSet(e)
    {
      TrieSetMembers(e, q);
      var k :| 0 <= k < |e| && IsPrefix(q, CodeBits(e[k].1));
      LeafMapCode(c, w, k);
      assert q == [false] && q[..0] + [false] == [false];
    }
  }

  /** Every line of a lone leaf's map holds the code "0". */
  lemma LeafMapCode(c: int, w: int, k: int)
    requires 0 <= k < |TreeEntries(Leaf(c, w))|
    ensures TreeEntries(Leaf(c, w))[k].1 == "0" && CodeBits("0") == [false]
  {
    var t := Leaf(c, w);
    MapEntriesExact(CodeTable(Some(t)), ALPHABET);
    CodeTableOfTree(t, TreeEntries(t)[k].0);
  }

  /**
    The map of a tree with distinct symbols of the alphabet has the shape
    of a tree whose nodes with children all have a left child, the root
    included.
  */
  lemma TreeMapLeftFull(t: Tree)
    requires DistinctLeaves(t) && forall x :: x in Symbols(t) ==> InAlphabet(x)
    ensures LeftFull(TreeEntries(t)) && [false] in TrieSet(TreeEntries(t))
  {
    match t
    case Leaf(c, w) =>
      LeafMapLeftFull(c, w);
    case Internal(_, _, _) =>
      LeftOf(t, "", t);
      assert CodeBits("") + [false] == [false];
      forall q | q in TrieSet(TreeEntries(t)) && q != []
        ensures q[..|q| - 1] + [false] in TrieSet(TreeEntries(t))
      {
        InnerLeftFull(t, q);
      }
  }

  /**
    The zero bits that pad the last byte never meet a missing child in the
    decoding tree of such a map: decoding them from the root succeeds and
    appends at most one symbol per bit.
  */
  lemma PaddingDecodes(a: Arena, t: Tree, out: seq<int>, k: nat)
    requires Represents(a, TreeEntries(t)) && DistinctLeaves(t)
    requires forall x :: x in Symbols(t) ==> InAlphabet(x)
    ensures Run(a, out, 0, Zeros(k)).Some?
    ensures IsPrefix(out, Run(a, out, 0, Zeros(k)).value.0)
    ensures |Run(a, out, 0, Zeros(k)).value.0| <= |out| + k
  {
    TreeMapLeftFull(t);
    MapZeroSafe(a, TreeEntries(t));
    var o, c := ZerosDecode(a, Inner(a, TreeEntries(t)), out, 0, k);
  }

  /**
    The round trip. Count the input, build a tree as the builder does,
    derive its codes and map, pack the input's codes into bytes, and
    rebuild a decoding tree from the map: decoding the bytes yields the
    input's symbols of the alphabet, in order, and then the decoding of the
    zero bits that pad the last byte. That decoding never meets a missing
    child, and the padding adds at most seven symbols. When the codes fill
    whole bytes there is no padding and the output is exactly those
    symbols.
  */
  lemma RoundTrip(input: seq<int>, freq: seq<int>, t: Tree, a: Arena)
    requires IsCountTable(freq) && forall c :: 0 <= c < ALPHABET ==> freq[c] == multiset(input)[c]
    requires multiset(Symbols(t)) == multiset(Present(freq, ALPHABET))
    requires Represents(a, TreeEntries(t))
    ensures Run(a, [], 0, Unpack(Pack(EncodedBits(CodeTable(Some(t)), input)))) ==
      Run(a, InRange(input), 0, Zeros(Padding(|EncodedBits(CodeTable(Some(t)), input)|)))
    ensures Run(a, [], 0, Unpack(Pack(EncodedBits(CodeTable(Some(t)), input)))).Some?
    ensures IsPrefix(InRange(input), Run(a, [], 0, Unpack(Pack(EncodedBits(CodeTable(Some(t)), input)))).value.0)
    ensures |Run(a, [], 0, Unpack(Pack(EncodedBits(CodeTable(Some(t)), input)))).value.0| < |InRange(input)| + 8
    ensures |EncodedBits(CodeTable(Some(t)), input)| % 8 == 0 ==>
      Run(a, [], 0, Unpack(Pack(EncodedBits(CodeTable(Some(t)), input)))) == Some((InRange(input), 0))
  {
    TreeCoversInput(input, freq, t);
    PackedRoundTrip(a, t, input);
    CountedTree(freq, t);
    PaddingDecodes(a, t, InRange(input), Padding(|EncodedBits(CodeTable(Some(t)), input)|));
  }

  /**
    When some symbol's code is "0", every run of zero bits read from the
    root decodes to that symbol once per bit.
  */
  lemma {:induction false} ZerosDecodeToSymbol(a: Arena, t: Tree, j: int, out: seq<int>, n: nat)
    requires Represents(a, TreeEntries(t)) && 0 <= j < |TreeEntries(t)| && TreeEntries(t)[j].1 == "0"
    ensures Run(a, out, 0, Zeros(n)) == Some((out + Copies(TreeEntries(t)[j].0 % 256, n), 0))
  {
    var sym := TreeEntries(t)[j].0 % 256;
    if n == 0 {
      assert Zeros(0) == [] && out + [] == out;
    } else {
      ZerosDecodeToSymbol(a, t, j, out, n - 1);
      var before := out + Copies(sym, n - 1);
      MapOfTreeIsPrefixCode(t);
      DecodeCode(a, TreeEntries(t), j, before);
      assert CodeBits("0") == [false];
      assert Zeros(n) == Zeros(n - 1) + [false];
      RunThen(a, out, 0, Zeros(n - 1), [false], before, 0);
      assert before + [sym] == out + (Copies(sym, n - 1) + [sym]);
    }
  }

  /** `n` copies of `x`. */
  function Copies(x: int, n: nat): (s: seq<int>)
    ensures |s| == n && forall i :: 0 <= i < n ==> s[i] == x
  {
    if n == 0 then [] else Copies(x, n - 1) + [x]
  }

  /**
    The padding caveat: a file holding a single distinct symbol `c` once
    is coded by the one bit of "0"; the seven zero bits that pad its only
    byte decode as well, so `c` comes back eight times.
  */
  lemma LoneSymbolComesBackEightTimes(c: int, w: int, a: Arena)
    requires InAlphabet(c) && Represents(a, TreeEntries(Leaf(c, w)))
    ensures Run(a, [], 0, Unpack(Pack(EncodedBits(CodeTable(Some(Leaf(c, w))), [c])))) ==
      Some(([c, c, c, c, c, c, c, c], 0))
  {
    var t := Leaf(c, w);
    LoneSymbolPadding(c, w, a);
    var j := EntryOf(t, c);
    SymbolIsItsByte(c);
    ZerosDecodeToSymbol(a, t, j, [c], 7);
    EightCopies(c);
  }

  /** One copy of `c` and seven more make eight. */
  lemma EightCopies(c: int)
    ensures [c] + Copies(c, 7) == [c, c, c, c, c, c, c, c]
  {
  }

  /** The lone symbol's byte decodes as the symbol followed by seven bits of padding. */
  lemma LoneSymbolPadding(c: int, w: int, a: Arena)
    requires InAlphabet(c) && Represents(a, TreeEntries(Leaf(c, w)))
    ensures Run(a, [], 0, Unpack(Pack(EncodedBits(CodeTable(Some(Leaf(c, w))), [c])))) ==
      Run(a, [c], 0, Zeros(7))
  {
    var t := Leaf(c, w);
    var j := EntryOf(t, c);
    PackedRoundTrip(a, t, [c]);
    LoneSymbolBits(c, w);
    PaddingSmall(1);
  }

  /** A symbol of the alphabet is written back by `fputc` as itself. */
  lemma SymbolIsItsByte(c: int)
    requires InAlphabet(c)
    ensures c % 256 == c
  {
  }

  /** A file holding one symbol once is coded by the single bit of "0". */
  lemma LoneSymbolBits(c: int, w: int)
    requires InAlphabet(c)
    ensures EncodedBits(CodeTable(Some(Leaf(c, w))), [c]) == [false]
    ensures CodeTable(Some(Leaf(c, w)))[c] == "0" && InRange([c]) == [c]
  {
    var codes := CodeTable(Some(Leaf(c, w)));
    assert codes[c] == "0" && [c][..0] == [];
    assert [c][1..] == [];
  }

  /**
    The two programs one after the other: count the input, file the
    symbols into buckets, build the tree, derive the codes and pack the
    input; then rebuild the decoding tree from the entries of the map and
    decode the packed bytes. With no symbol of the alphabet the compressor
    stops before writing anything.
  */
  method CompressThenDecompress(input: seq<int>) returns (packed: seq<bv8>, output: seq<int>)
    ensures IsPrefix(InRange(input), output) && |output| < |InRange(input)| + 8
    ensures InRange(input) == [] <==> packed == []
    ensures InRange(input) == [] ==> output == []
  {
    var freq, largest := CountFrequencies(input);
    var key, unique := FillBuckets(freq, largest);
    var root := BuildHuffmanTree(freq, unique);
    NoTreeForNoSymbols(input, freq);
    if root.None? {
      return [], [];
    }
    var t := root.value;
    TreeCoversInput(input, freq, t);
    var codes := new string[ALPHABET];
    BuildHuffmanCodes(root, codes);
    packed := EncodeAndWrite(codes, input);
    MapOfTreeIsPrefixCode(t);
    var decoding := BuildDecodingTree(MapEntries(codes[..], ALPHABET));
    var a := decoding.value;
    RoundTrip(input, freq, t, a);
    assert Unpack([]) == [];
    output := DecodeAndWrite(a, packed);
  }
}
