/**
  The encoder: the 128-slot code table filled by a depth-first walk of the
  Huffman tree, the bit writer that packs codes into bytes, the encoding of
  the input, and the text of the map file.

  The C table `huffman_codes` is a global array of 128 NUL-terminated
  strings; here it is an `array<string>` passed to the methods, and the
  empty string stands for a slot whose first character is NUL.
*/
module Encoder {
  import opened Wrappers
  import opened HuffmanNode
  import opened BitPacking

  /** Size of the DFS buffer and of each slot of the code table. */
  const MAX_CODE_LENGTH: int := 256

  /** The table with every code empty. */
  function EmptyTable(): (table: seq<string>)
    ensures |table| == ALPHABET
    ensures forall c :: 0 <= c < ALPHABET ==> table[c] == ""
  {
    seq(ALPHABET, _ => "")
  }

  /** `init_huffman_codes_array`: every slot of the table becomes empty. */
  method InitHuffmanCodesArray(codes: array<string>)
    requires codes.Length == ALPHABET
    modifies codes
    ensures codes[..] == EmptyTable()
  {
    var i := 0;
    while i < ALPHABET
      invariant 0 <= i <= ALPHABET
      invariant forall c :: 0 <= c < i ==> codes[c] == ""
    {
      codes[i] := "";
      i := i + 1;
    }
  }

  // ----- Code assignment -----

  /**
    The table after the walk of `t` that starts with `path` already
    written: a leaf with a symbol of the alphabet gets the path, a leaf
    with any other symbol changes nothing, and an internal node walks its
    left child with '0' appended and then its right child with '1'.
  */
  function AssignCodes(t: Tree, path: string, table: seq<string>): (r: seq<string>)
    requires |table| == ALPHABET
    ensures |r| == ALPHABET
  {
    match t
    case Leaf(c, _) => if InAlphabet(c) then table[c := path] else table
    case Internal(_, l, r) => AssignCodes(r, path + "1", AssignCodes(l, path + "0", table))
  }

  /**
    The path from the root of `t` to the last leaf, in left-to-right
    order, that holds `c`.
  */
  function PathTo(t: Tree, c: int): (p: string)
    requires c in Symbols(t)
  {
    match t
    case Leaf(_, _) => ""
    case Internal(_, l, r) =>
      if c in Symbols(r) then "1" + PathTo(r, c) else "0" + PathTo(l, c)
  }

  /** The path to a symbol leads to a leaf that holds it. */
  lemma {:induction false} PathToLeadsToLeaf(t: Tree, c: int)
    requires c in Symbols(t)
    ensures LeafAt(t, PathTo(t, c), c)
  {
    match t
    case Leaf(_, _) =>
    case Internal(_, l, r) =>
      var p := PathTo(t, c);
      if c in Symbols(r) {
        PathToLeadsToLeaf(r, c);
        assert p[0] == '1' && p[1..] == PathTo(r, c);
      } else {
        PathToLeadsToLeaf(l, c);
        assert p[0] == '0' && p[1..] == PathTo(l, c);
      }
  }

  /**
    The walk writes `path` followed by the path to the symbol into the slot
    of every symbol of the alphabet found in the tree, and leaves every
    other slot alone.
  */
  lemma {:induction false} AssignCodesWritesPaths(t: Tree, path: string, table: seq<string>, c: int)
    requires |table| == ALPHABET && InAlphabet(c)
    ensures c in Symbols(t) ==> AssignCodes(t, path, table)[c] == path + PathTo(t, c)
    ensures c !in Symbols(t) ==> AssignCodes(t, path, table)[c] == table[c]
  {
    match t
    case Leaf(_, _) =>
      if c in Symbols(t) {
        assert path + PathTo(t, c) == path;
      }
    case Internal(_, l, r) =>
      var left := AssignCodes(l, path + "0", table);
      AssignCodesWritesPaths(l, path + "0", table, c);
      AssignCodesWritesPaths(r, path + "1", left, c);
      if c in Symbols(r) {
        assert path + "1" + PathTo(r, c) == path + PathTo(t, c);
      } else if c in Symbols(l) {
        assert path + "0" + PathTo(l, c) == path + PathTo(t, c);
      }
  }

  /**
    `generate_codes_dfs`: `buf[..top]` holds the path to `t`. At a leaf the
    path is terminated and copied into the slot of the leaf's symbol when
    that is a symbol of the alphabet; at an internal node '0' and then '1'
    are written at `top` before walking the left and the right child.
    The buffer must have room for the deepest path below `t`.
  */
  method GenerateCodesDfs(t: Tree, buf: array<char>, top: nat, codes: array<string>)
    requires codes.Length == ALPHABET
    requires top + Height(t) < buf.Length
    modifies buf, codes
    ensures codes[..] == AssignCodes(t, old(buf[..top]), old(codes[..]))
    ensures buf[..top] == old(buf[..top])
    decreases t
  {
    match t
    case Leaf(c, _) =>
      buf[top] := '\0';
      if 0 <= c < ALPHABET {
        codes[c] := buf[..top];
      }
    case Internal(_, l, r) =>
      ghost var path := buf[..top];
      ghost var table := codes[..];
      buf[top] := '0';
      assert buf[..top + 1] == path + "0";
      GenerateCodesDfs(l, buf, top + 1, codes);
      ghost var afterLeft := codes[..];
      assert buf[..top] == buf[..top + 1][..top];
      buf[top] := '1';
      assert buf[..top + 1] == path + "1";
      GenerateCodesDfs(r, buf, top + 1, codes);
      assert buf[..top] == buf[..top + 1][..top];
  }

  /**
    The table `build_huffman_codes` leaves: all empty for no tree; for a
    tree that is a single leaf, "0" for its symbol when that is in the
    alphabet; otherwise the codes the walk assigns from the empty path.
  */
  function CodeTable(root: Option<Tree>): (table: seq<string>)
    ensures |table| == ALPHABET
  {
    match root
    case None => EmptyTable()
    case Some(Leaf(c, _)) => if InAlphabet(c) then EmptyTable()[c := "0"] else EmptyTable()
    case Some(t) => AssignCodes(t, "", EmptyTable())
  }

  /** `build_huffman_codes`: reset the table, then fill it from the tree. */
  method BuildHuffmanCodes(root: Option<Tree>, codes: array<string>)
    requires codes.Length == ALPHABET
    requires root.Some? ==> Height(root.value) < MAX_CODE_LENGTH
    modifies codes
    ensures codes[..] == CodeTable(root)
  {
    var buf := new char[MAX_CODE_LENGTH];
    InitHuffmanCodesArray(codes);
    if root.None? {
      return;
    }
    var t := root.value;
    if t.Leaf? {
      if 0 <= t.ch < ALPHABET {
        codes[t.ch] := "0";
      }
      return;
    }
    GenerateCodesDfs(t, buf, 0, codes);
  }

  /** With distinct leaves, the path to a symbol below the node at `s` runs through `s`. */
  lemma {:induction false} PathThrough(t: Tree, s: string, u: Tree, d: int)
    requires DistinctLeaves(t) && Follow(t, s) == Some(u) && d in Symbols(u)
    ensures d in Symbols(t) && PathTo(t, d) == s + PathTo(u, d)
    decreases s
  {
    if s == [] {
      assert s + PathTo(u, d) == PathTo(u, d);
    } else {
      match t
      case Internal(_, l, r) =>
        var rest := s[1..];
        assert s == [s[0]] + rest;
        if s[0] == '0' {
          PathThrough(l, rest, u, d);
          assert d !in Symbols(r);
        } else {
          PathThrough(r, rest, u, d);
        }
        assert [s[0]] + (rest + PathTo(u, d)) == s + PathTo(u, d);
    }
  }

  /** The code a symbol of the tree gets: "0" under a lone leaf, its path otherwise. */
  function CodeFor(t: Tree, c: int): string
    requires c in Symbols(t)
  {
    if t.Leaf? then "0" else PathTo(t, c)
  }

  /**
    The table holds exactly the codes of the tree's symbols: a symbol of
    the alphabet has a non-empty code if and only if it is in the tree, and
    that code is the one the tree gives it.
  */
  lemma CodeTableOfTree(t: Tree, c: int)
    requires InAlphabet(c)
    ensures c in Symbols(t) ==> CodeTable(Some(t))[c] == CodeFor(t, c) != ""
    ensures c !in Symbols(t) ==> CodeTable(Some(t))[c] == ""
  {
    if t.Internal? {
      AssignCodesWritesPaths(t, "", EmptyTable(), c);
      if c in Symbols(t) {
        assert "" + PathTo(t, c) == PathTo(t, c);
      }
    }
  }

  /** Under a tree with children, each symbol's code leads to a leaf holding it. */
  lemma CodeLeadsToLeaf(t: Tree, c: int)
    requires t.Internal? && InAlphabet(c) && c in Symbols(t)
    ensures LeafAt(t, CodeTable(Some(t))[c], c)
  {
    CodeTableOfTree(t, c);
    PathToLeadsToLeaf(t, c);
  }

  /** A path that leads somewhere is no longer than the tree is high. */
  lemma {:induction false} FollowWithinHeight(t: Tree, code: string)
    requires Follow(t, code).Some?
    ensures |code| <= Height(t)
    decreases code
  {
    if code != [] {
      match t
      case Internal(_, l, r) =>
        FollowWithinHeight(if code[0] == '0' then l else r, code[1..]);
    }
  }

  /**
    Every code in the table spells only '0' and '1', is no longer than
    the tree is high (one bit for a lone leaf), and the non-empty codes of
    two different symbols are never a prefix of one another.
  */
  lemma CodeTableIsPrefixCode(t: Tree, c: int, d: int)
    requires InAlphabet(c) && InAlphabet(d)
    ensures IsBitString(CodeTable(Some(t))[c])
    ensures |CodeTable(Some(t))[c]| <= (if t.Leaf? then 1 else Height(t))
    ensures c != d && CodeTable(Some(t))[c] != "" && CodeTable(Some(t))[d] != "" ==>
      !IsPrefix(CodeTable(Some(t))[c], CodeTable(Some(t))[d])
  {
    var table := CodeTable(Some(t));
    CodeTableOfTree(t, c);
    CodeTableOfTree(t, d);
    if t.Internal? {
      if c in Symbols(t) {
        CodeLeadsToLeaf(t, c);
        FollowIsBitString(t, table[c]);
        FollowWithinHeight(t, table[c]);
        if d in Symbols(t) && c != d {
          CodeLeadsToLeaf(t, d);
          if IsPrefix(table[c], table[d]) {
            LeafCodesPrefixFree(t, table[c], table[d], c, d);
          }
        }
      }
    }
  }

  // ----- Bit writer -----

  /**
    The state of the bit writer after writing `bits`: `out` holds the
    complete bytes, `buffer` the `pos` bits of the byte being filled, in its
    leading positions, with the rest clear.
  */
  ghost predicate Writing(out: seq<bv8>, buffer: bv8, pos: int, bits: seq<bool>)
  {
    0 <= pos < 8 && |bits| == 8 * |out| + pos &&
    out == Pack(bits[..8 * |out|]) && buffer == Fill(bits[8 * |out|..])
  }

  /** Adding a bit to the byte being filled ORs in its mask when it is set. */
  lemma FillStep(tail: seq<bool>, b: bool)
    requires |tail| < 8
    ensures Fill(tail + [b]) == if b then Fill(tail) | Mask(|tail|) else Fill(tail)
  {
    assert (tail + [b])[..|tail|] == tail;
  }

  /** Completing a byte appends it to the complete bytes. */
  lemma ByteComplete(done: seq<bool>, tail: seq<bool>)
    requires |done| % 8 == 0 && |tail| == 8
    ensures Pack(done + tail) == Pack(done) + [Fill(tail)]
  {
    PackAppend(done, tail);
  }

  /**
    One step of the bit writer on the abstract state: the byte being filled
    (cleared first when it is a fresh one) gets the bit ORed in, and an
    eighth bit moves the byte to the output.
  */
  lemma WriteBitStep(out: seq<bv8>, buffer: bv8, pos: int, bits: seq<bool>, x: bool, b: bv8)
    requires Writing(out, buffer, pos, bits)
    requires b == if x then (if pos == 0 then 0 else buffer) | Mask(pos)
                  else (if pos == 0 then 0 else buffer)
    ensures pos < 7 ==> Writing(out, b, pos + 1, bits + [x])
    ensures pos == 7 ==> Writing(out + [b], 0, 0, bits + [x])
  {
    var done := bits[..8 * |out|];
    var tail := bits[8 * |out|..];
    var next := bits + [x];
    assert next[..8 * |out|] == done && next[8 * |out|..] == tail + [x];
    NextByte(buffer, pos, tail, x, b);
    if pos == 7 {
      ByteComplete(done, tail + [x]);
      assert next[..8 * (|out| + 1)] == done + (tail + [x]);
      assert next[8 * (|out| + 1)..] == [];
    }
  }

  /** The byte being filled, after the bit `x` is added at `pos`. */
  lemma NextByte(buffer: bv8, pos: int, tail: seq<bool>, x: bool, b: bv8)
    requires 0 <= pos < 8 && |tail| == pos && buffer == Fill(tail)
    requires b == if x then (if pos == 0 then 0 else buffer) | Mask(pos)
                  else (if pos == 0 then 0 else buffer)
    ensures b == Fill(tail + [x])
  {
    FillStep(tail, x);
  }

  /**
    `write_bit`: a fresh byte starts cleared; bit value 1 sets the bit at
    `pos`, counting from the most significant bit; the eighth bit of a byte
    appends it to the output and clears the buffer.
  */
  method WriteBit(out: seq<bv8>, bit: int, buffer: bv8, pos: int, ghost bits: seq<bool>)
    returns (newOut: seq<bv8>, newBuffer: bv8, newPos: int)
    requires Writing(out, buffer, pos, bits)
    ensures Writing(newOut, newBuffer, newPos, bits + [bit == 1])
    ensures newPos == if pos == 7 then 0 else pos + 1
    ensures newPos == 0 ==> |newOut| == |out| + 1 && newOut[..|out|] == out && newBuffer == 0
    ensures newPos != 0 ==> newOut == out
  {
    var b := if pos == 0 then 0 else buffer;
    if bit == 1 {
      b := b | Mask(pos);
    }
    WriteBitStep(out, buffer, pos, bits, bit == 1, b);
    if pos + 1 == 8 {
      return out + [b], 0, 0;
    }
    return out, b, pos + 1;
  }

  /** The final flush: a partly filled byte is written out, zero padded. */
  lemma Flush(out: seq<bv8>, buffer: bv8, pos: int, bits: seq<bool>)
    requires Writing(out, buffer, pos, bits)
    ensures (if pos > 0 then out + [buffer] else out) == Pack(bits)
  {
    var done := bits[..8 * |out|];
    var tail := bits[8 * |out|..];
    assert bits == done + tail;
    PackAppend(done, tail);
  }

  // ----- Encoding -----

  /** The bits written for one input value: its code, or nothing outside the alphabet. */
  function SymbolBits(codes: seq<string>, c: int): seq<bool>
    requires |codes| == ALPHABET
  {
    if InAlphabet(c) then CodeBits(codes[c]) else []
  }

  /** The bits written for the whole input, in input order. */
  function EncodedBits(codes: seq<string>, input: seq<int>): seq<bool>
    requires |codes| == ALPHABET
  {
    if input == [] then []
    else EncodedBits(codes, input[..|input| - 1]) + SymbolBits(codes, input[|input| - 1])
  }

  lemma EncodedBitsStep(codes: seq<string>, input: seq<int>, k: int)
    requires |codes| == ALPHABET && 0 <= k < |input|
    ensures EncodedBits(codes, input[..k + 1]) ==
      EncodedBits(codes, input[..k]) + SymbolBits(codes, input[k])
  {
    assert input[..k + 1][..k] == input[..k];
  }

  /** Encoding a concatenation is concatenating the encodings. */
  lemma {:induction false} EncodedBitsAppend(codes: seq<string>, a: seq<int>, b: seq<int>)
    requires |codes| == ALPHABET
    ensures EncodedBits(codes, a + b) == EncodedBits(codes, a) + EncodedBits(codes, b)
    decreases |b|
  {
    if b == [] {
      assert a + b == a;
    } else {
      var b', x := b[..|b| - 1], b[|b| - 1];
      var ab := a + b;
      assert ab[..|ab| - 1] == a + b' && ab[|ab| - 1] == x;
      EncodedBitsAppend(codes, a, b');
      var ea, eb, sx := EncodedBits(codes, a), EncodedBits(codes, b'), SymbolBits(codes, x);
      assert EncodedBits(codes, ab) == EncodedBits(codes, a + b') + sx;
      assert EncodedBits(codes, b) == eb + sx;
      assert (ea + eb) + sx == ea + (eb + sx);
    }
  }

  /**
    `encode_and_write_file`: every input value of the alphabet with a
    non-empty code writes that code bit by bit through the bit writer;
    other values are skipped; a partly filled last byte is flushed.
  */
  method EncodeAndWrite(codes: array<string>, input: seq<int>) returns (out: seq<bv8>)
    requires codes.Length == ALPHABET
    ensures out == Pack(EncodedBits(codes[..], input))
  {
    var buffer, pos;
    out, buffer, pos := EncodeAll(codes, input);
    Flush(out, buffer, pos, EncodedBits(codes[..], input));
    if pos > 0 {
      out := out + [buffer];
    }
  }

  /** The encoding loop, before the flush: the writer has written every input value's bits. */
  method EncodeAll(codes: array<string>, input: seq<int>) returns (out: seq<bv8>, buffer: bv8, pos: int)
    requires codes.Length == ALPHABET
    ensures Writing(out, buffer, pos, EncodedBits(codes[..], input))
  {
    out, buffer, pos := [], 0, 0;
    var k := 0;
    while k < |input|
      invariant 0 <= k <= |input|
      invariant Writing(out, buffer, pos, EncodedBits(codes[..], input[..k]))
    {
      EncodedBitsStep(codes[..], input, k);
      out, buffer, pos := EncodeSymbol(codes, input[k], out, buffer, pos, EncodedBits(codes[..], input[..k]));
      k := k + 1;
    }
    assert input[..k] == input;
  }

  /**
    One input value: a value of the alphabet with a non-empty code writes
    that code; any other value writes nothing.
  */
  method EncodeSymbol(codes: array<string>, character: int, out: seq<bv8>, buffer: bv8, pos: int,
                      ghost bits: seq<bool>)
    returns (newOut: seq<bv8>, newBuffer: bv8, newPos: int)
    requires codes.Length == ALPHABET
    requires Writing(out, buffer, pos, bits)
    ensures Writing(newOut, newBuffer, newPos, bits + SymbolBits(codes[..], character))
  {
    newOut, newBuffer, newPos := out, buffer, pos;
    if 0 <= character < ALPHABET {
      var code := codes[character];
      if code != "" {
        newOut, newBuffer, newPos := WriteCode(code, out, buffer, pos, bits);
      } else {
        assert bits + CodeBits(code) == bits;
      }
    } else {
      assert bits + SymbolBits(codes[..], character) == bits;
    }
  }

  /** The inner loop of the encoder: all bits of one code through the bit writer. */
  method WriteCode(code: string, out: seq<bv8>, buffer: bv8, pos: int, ghost bits: seq<bool>)
    returns (newOut: seq<bv8>, newBuffer: bv8, newPos: int)
    requires Writing(out, buffer, pos, bits)
    ensures Writing(newOut, newBuffer, newPos, bits + CodeBits(code))
  {
    newOut, newBuffer, newPos := out, buffer, pos;
    var i := 0;
    assert bits + CodeBits(code[..0]) == bits;
    while i < |code|
      invariant 0 <= i <= |code|
      invariant Writing(newOut, newBuffer, newPos, bits + CodeBits(code[..i]))
    {
      var bit := code[i] as int - '0' as int;
      assert CodeBits(code[..i + 1]) == CodeBits(code[..i]) + [bit == 1];
      assert bits + CodeBits(code[..i + 1]) == bits + CodeBits(code[..i]) + [bit == 1];
      newOut, newBuffer, newPos := WriteBit(newOut, bit, newBuffer, newPos, bits + CodeBits(code[..i]));
      i := i + 1;
    }
    assert code[..i] == code;
  }

  // ----- The map file -----

  function DigitChar(d: int): char
    requires 0 <= d < 10
  {
    "0123456789"[d]
  }

  /** `%d` of a non-negative number: its decimal digits, most significant first. */
  function Decimal(n: nat): (s: string)
    ensures |s| >= 1
    ensures forall i :: 0 <= i < |s| ==> '0' <= s[i] <= '9'
  {
    if n < 10 then [DigitChar(n)] else Decimal(n / 10) + [DigitChar(n % 10)]
  }

  /** The value of a string of decimal digits. */
  function DigitsValue(s: string): nat
    requires forall i :: 0 <= i < |s| ==> '0' <= s[i] <= '9'
  {
    if s == [] then 0
    else 10 * DigitsValue(s[..|s| - 1]) + (s[|s| - 1] as int - '0' as int)
  }

  /** Reading the digits back gives the number. */
  lemma {:induction false} DecimalRoundTrip(n: nat)
    ensures DigitsValue(Decimal(n)) == n
  {
    var s := Decimal(n);
    if n >= 10 {
      assert s[..|s| - 1] == Decimal(n / 10);
      DecimalRoundTrip(n / 10);
    }
  }

  /** One line of the map: the symbol in decimal, a space, the code, a newline. */
  function MapLine(c: nat, code: string): string
  {
    Decimal(c) + " " + code + "\n"
  }

  /** The symbols below `n` with a non-empty code, in ascending order, with their codes. */
  function MapEntries(codes: seq<string>, n: nat): (entries: seq<(nat, string)>)
    requires n <= |codes|
    ensures |entries| <= n
  {
    if n == 0 then []
    else if codes[n - 1] != "" then MapEntries(codes, n - 1) + [(n - 1, codes[n - 1])]
    else MapEntries(codes, n - 1)
  }

  /**
    The entries are exactly the symbols with a non-empty code, each paired
    with its code, and strictly ascending.
  */
  lemma {:induction false} MapEntriesExact(codes: seq<string>, n: nat)
    requires n <= |codes|
    ensures forall k :: 0 <= k < |MapEntries(codes, n)| ==>
      0 <= MapEntries(codes, n)[k].0 < n &&
      codes[MapEntries(codes, n)[k].0] != "" &&
      MapEntries(codes, n)[k].1 == codes[MapEntries(codes, n)[k].0]
    ensures forall c :: 0 <= c < n && codes[c] != "" ==> (c, codes[c]) in MapEntries(codes, n)
    ensures forall k, m :: 0 <= k < m < |MapEntries(codes, n)| ==>
      MapEntries(codes, n)[k].0 < MapEntries(codes, n)[m].0
  {
    if n > 0 {
      MapEntriesExact(codes, n - 1);
    }
  }

  /** The text of the map file for a list of entries. */
  function MapText(entries: seq<(nat, string)>): string
  {
    if entries == [] then []
    else
      var e := entries[|entries| - 1];
      MapText(entries[..|entries| - 1]) + MapLine(e.0, e.1)
  }

  /**
    `write_huffman_map_to_file`: one line per symbol with a non-empty code,
    in ascending order of symbol.
  */
  method WriteHuffmanMap(codes: array<string>) returns (text: string)
    requires codes.Length == ALPHABET
    ensures text == MapText(MapEntries(codes[..], ALPHABET))
  {
    text := [];
    var i := 0;
    while i < ALPHABET
      invariant 0 <= i <= ALPHABET
      invariant text == MapText(MapEntries(codes[..], i))
    {
      if codes[i] != "" {
        text := text + MapLine(i, codes[i]);
        ghost var e := MapEntries(codes[..], i + 1);
        assert e[..|e| - 1] == MapEntries(codes[..], i);
      }
      i := i + 1;
    }
  }
}
