# A verified model of a Huffman codec over the 7-bit alphabet

The codec compresses a text file in two steps and decompresses it in one:

- **Compression.**
  - It counts how often each symbol 0–127 occurs. Bytes outside that range are ignored.
  - It files the symbols into per-count linked lists and counts the distinct symbols.
  - It builds a Huffman tree with a binary min-heap of tree nodes keyed on weight: one leaf per present symbol, then the two lightest nodes are repeatedly joined under an internal node (`ch == -1`) until one root is left.
  - A depth-first walk gives every leaf its root-to-leaf path as a code of '0' (left) and '1' (right) in a 128-slot table. A tree that is a single leaf gets the code "0".
  - The map file lists `<symbol> <code>` lines in ascending symbol order.
  - The codes of the input are packed into bytes, most significant bit first, and the last byte is padded with zero bits.
- **Decompression.**
  - A decoding tree is rebuilt from the map entries by walking each code from a shared root and creating missing children. Any character other than '0' and '1' in a code abandons the tree.
  - Every bit of every byte is then walked through the tree. Each childless node reached emits its symbol and sends the walk back to the root.

The Dafny modules follow the C files:

| module | file | models |
|---|---|---|
| `HuffmanNode` | huffman_node.dfy | the node record as a `Tree` datatype, paths, codes as bit strings |
| `PriorityQueue` | min_priority_queue.dfy | the heap: a class over a growable array with `size` and `capacity` fields |
| `LinkedList` | linked_list.dfy | the singly linked stack: a `Node` class with a head pointer passed in and returned |
| `Compress` | compress.dfy | the counting loop, the buckets, the leaf insertion and merge loops of the compressor's `main` |
| `BitPacking` | bit_packing.dfy | MSB-first bit order, packing with zero padding, unpacking |
| `Encoder` | encoder.dfy | the code table, the DFS, `write_bit`, the encoding loop, the map text |
| `Decoder` | decoder.dfy | the decoding tree as an arena of slots, the tree builder, the bit walk |
| `Codec` | codec.dfy | the round trip from input to decoded output, the decoding of the padding, and the padding caveat |

The central results:

- `Compress.BuildHuffmanTree` returns a tree that holds each present symbol once. Every leaf weighs its symbol's count, every internal node weighs the sum of its children, and the left child is never heavier than the right. The root weighs the number of in-alphabet input bytes (`Compress.TotalCountIsInRangeLength`).
- The code table is a prefix code of '0'/'1' strings, and every code leads to the leaf of its symbol (`Encoder.CodeTableIsPrefixCode`, `Encoder.CodeLeadsToLeaf`).
- `Encoder.EncodeAndWrite` writes exactly `Pack` of the concatenated codes of the input, and `BitPacking.UnpackPack` shows that unpacking gives the bits back followed by the padding.
- `Decoder.BuildDecodingTree` fails exactly when some code is not a bit string; otherwise its arena represents the map's tree.
- `Decoder.DecodeAndWrite` computes the decoding function `Run`, which inverts any concatenation of codes of a prefix-free map (`Decoder.DecodeConcat`).
- `Codec.RoundTrip` puts these together. Decoding the packed bytes never meets a missing child: zero bits always lead left to an existing node in a tree the compressor built (`Codec.PaddingDecodes`). The output starts with the input's alphabet symbols in order, and the padding adds fewer than eight symbols after them. When the codes fill whole bytes, decoding gives exactly the input's symbols. `Codec.LoneSymbolComesBackEightTimes` shows the padding caveat: one symbol occurring once comes back eight times.
- `Codec.CompressThenDecompress` runs the compressor's and the decompressor's steps one after the other on an input and states the same result for the whole pipeline.

## Model

| member | source | states |
|---|---|---|
| `HuffmanNode.HeightBelowLeafCount` | c_logic/encoder.h:10 | a tree is at most one edge deeper than its leaf count minus one, which keeps codes of 128 symbols within the 256-character buffer |
| `HuffmanNode.WeightIsSumOfLeaves` | c_logic/compress_main.c:193-195 | a tree built by joining weights weighs the total count of its leaves' symbols |
| `HuffmanNode.LeafCodesPrefixFree` | c_logic/encoder.c:33-51 | paths that end at leaves are never proper prefixes of one another, and equal paths lead to the same symbol |
| `HuffmanNode.CodeBits` | c_logic/encoder.c:162-164 | a code's bits, one per character, set exactly where the character is '1' |
| `HuffmanNode.CodeBitsPrefix` | c_logic/encoder.c:162-164 | on '0'/'1' strings, reading characters as bits preserves and reflects the prefix relation |
| `HuffmanNode.OnceIsDistinct` | c_logic/compress_main.c:170-175 | a tree that holds every symbol at most once has no symbol in both subtrees of any node, so each symbol labels one leaf |
| `PriorityQueue.Swap` | c_logic/min_priority_queue.c:23-27 | exchanging two slots keeps the length and the multiset of nodes |
| `PriorityQueue.RootIsLightestOfAll` | c_logic/min_priority_queue.c:103 | in a heap-ordered array the root weighs no more than any node held |
| `PriorityQueue.SiftUpStep` | c_logic/min_priority_queue.c:32-35 | swapping a node with a heavier parent moves the only heap fault one level up |
| `PriorityQueue.SiftUpDone` | c_logic/min_priority_queue.c:32 | when `sift_up` stops at the root or under a parent no heavier, the array is a heap |
| `PriorityQueue.SiftDownStep` | c_logic/min_priority_queue.c:41-54 | swapping a node with its lightest, lighter child moves the only heap fault one level down |
| `PriorityQueue.SiftDownDone` | c_logic/min_priority_queue.c:45-52 | when no child is lighter, the array is a heap |
| `PriorityQueue.ReplaceRoot` | c_logic/min_priority_queue.c:103-105 | moving the last node to the root removes exactly the root and leaves only the root's edges to repair |
| `PriorityQueue.AppendToHeap` | c_logic/min_priority_queue.c:94-95 | a node stored after the last slot can break only the edge above it |
| `PriorityQueue.GrownCapacity` | c_logic/min_priority_queue.c:83-84 | the new capacity is larger than the old one: twice it, or 10 when it was 0 |
| `PriorityQueue.MinPriorityQueue.constructor` | c_logic/min_priority_queue.c:60-76 | a new queue is an empty heap with `size == 0` and the requested capacity |
| `PriorityQueue.MinPriorityQueue.IsEmpty` | c_logic/min_priority_queue.c:110-112 | true exactly when the queue holds no node |
| `PriorityQueue.MinPriorityQueue.SwapSlots` | c_logic/min_priority_queue.c:23-27 | the used slots become their swap |
| `PriorityQueue.MinPriorityQueue.SiftUp` | c_logic/min_priority_queue.c:30-37 | with one fault above `index`, the loop restores heap order and keeps the multiset of nodes |
| `PriorityQueue.MinPriorityQueue.SiftDown` | c_logic/min_priority_queue.c:40-56 | with faults only below `index`, the recursion restores heap order and keeps the multiset of nodes |
| `PriorityQueue.MinPriorityQueue.Grow` | c_logic/min_priority_queue.c:81-92 | a full array is replaced by one of the grown capacity holding the same nodes |
| `PriorityQueue.MinPriorityQueue.Place` | c_logic/min_priority_queue.c:94-95 | the node goes into the first free slot and `size` grows by one |
| `PriorityQueue.MinPriorityQueue.Insert` | c_logic/min_priority_queue.c:78-97 | a NULL node changes nothing; otherwise the heap stays ordered, gains exactly that node, `size` grows by one, and a full array first grows to twice its capacity (10 from 0) |
| `PriorityQueue.MinPriorityQueue.MoveLastToRoot` | c_logic/min_priority_queue.c:103-105 | returns the root, moves the last node into its slot, and shrinks `size` by one |
| `PriorityQueue.MinPriorityQueue.ExtractMin` | c_logic/min_priority_queue.c:99-108 | an empty queue yields NULL and stays as it was; otherwise a lightest node is returned, removed exactly once, `size` shrinks by one, and heap order holds again |
| `LinkedList.Node.constructor` | c_logic/linked_list.c:3-12 | a one-node list holding `ch` with `next == NULL` |
| `LinkedList.Push` | c_logic/linked_list.c:14-18 | a new node holding `ch` becomes the head, and the old list becomes its tail |
| `LinkedList.Pop` | c_logic/linked_list.c:20-29 | an empty list yields -1 and stays empty; otherwise the head's symbol is returned and the head moves to the next node |
| `LinkedList.PopAfterPush` | c_logic/linked_list.c:14-29 | a pop right after a push returns the pushed symbol and restores the list |
| `LinkedList.Free` | c_logic/linked_list.c:31-41 | slots `0..k` of the head array become NULL, and slots above `k` are untouched |
| `Compress.InRange` | c_logic/compress_main.c:70 | only values 0–127 are kept, in order |
| `Compress.PresentIsExact` | c_logic/compress_main.c:94-101 | the present symbols are exactly those with a nonzero count, each once, ascending |
| `Compress.BucketIsExact` | c_logic/compress_main.c:94-101 | the list for count `f` holds exactly the symbols with count `f`, highest first, as pushing in ascending order stacks them |
| `Compress.PresentOnce` | c_logic/compress_main.c:94-101 | the present symbols, visited once each in ascending order, hold no symbol twice |
| `Compress.LeavesSymbols` | c_logic/compress_main.c:170-175 | the inserted leaves carry exactly the present symbols, in ascending order |
| `Compress.LeavesWeight` | c_logic/compress_main.c:170-175 | one leaf per present symbol, and together they weigh the total count |
| `Compress.LeavesWellWeighted` | c_logic/compress_main.c:171-173 | each leaf weighs its symbol's count |
| `Compress.TotalCountIsInRangeLength` | c_logic/compress_main.c:68-76 | the counts sum to the number of input values in 0–127 |
| `Compress.CountFrequencies` | c_logic/compress_main.c:59-76 | each symbol's count is its number of occurrences, values outside 0–127 are ignored, and `largest` is the highest count (0 for none) |
| `Compress.PushOnto` | c_logic/compress_main.c:98 | one list of the head array gains a head, and the others are unchanged |
| `Compress.FillBuckets` | c_logic/compress_main.c:88-101 | `unique` is the number of present symbols, and list `f` holds exactly the symbols with count `f` |
| `Compress.FileSymbol` | c_logic/compress_main.c:95-100 | one round of the bucket loop keeps both facts one symbol further |
| `Compress.LeafQueue` | c_logic/compress_main.c:166-175 | a new queue holding exactly one leaf per present symbol |
| `Compress.InsertLeaves` | c_logic/compress_main.c:170-175 | the loop leaves exactly the leaves of the present symbols in the queue |
| `Compress.InsertLeaf` | c_logic/compress_main.c:171-174 | one round inserts the leaf of symbol `i` when it is present, and nothing otherwise |
| `Compress.BuildHuffmanTree` | c_logic/compress_main.c:123-213 | no tree exactly when no symbol is present; otherwise a well-weighted tree holding each present symbol once and weighing the total count |
| `Compress.TakeRoot` | c_logic/compress_main.c:198-213 | with one node queued, the root is extracted; the fallback branches cannot be reached |
| `Compress.LastTree` | c_logic/compress_main.c:199-200 | a one-tree forest that keeps the merge invariant is a finished Huffman tree |
| `Compress.SingleSymbolTree` | c_logic/compress_main.c:199-205 | with a single present symbol, the tree is that symbol's leaf |
| `Compress.MergeAll` | c_logic/compress_main.c:178-196 | the merge loop ends with exactly one node queued and keeps the forest invariant |
| `Compress.MergeLightestTwo` | c_logic/compress_main.c:179-195 | one round takes out a lightest node `l` and a lightest `r` of the rest, and the forest becomes the old one without `l` and `r` plus their join with `l` on the left; the queue shrinks by one and the invariant is kept |
| `Compress.TakeLightestTwo` | c_logic/compress_main.c:179-191 | with more than one node queued, both extractions succeed: the first node is a lightest of the queue, the second a lightest of the rest, and exactly those two leave the queue |
| `Compress.InsertJoin` | c_logic/compress_main.c:193-195 | the new internal node weighs the sum of its children, and the queue gains exactly it and stays a heap |
| `Compress.LeavesInvariant` | c_logic/compress_main.c:170-175 | the initial leaves satisfy the merge invariant |
| `Compress.TakeOut` | c_logic/compress_main.c:179-180 | taking a node out of the forest splits its symbols and weight off the rest |
| `Compress.MergeForest` | c_logic/compress_main.c:193-195 | joining the left node under a parent with the right, left no heavier, keeps the merge invariant |
| `Compress.Joined` | c_logic/compress_main.c:194-195 | adding the join adds both children's symbols and weights |
| `BitPacking.BitValue` | c_logic/decoder.c:87 | the extracted bit is 0 or 1, and it is 1 exactly when the bit at that MSB-first position is set |
| `BitPacking.MaskSetsOneBit` | c_logic/encoder.c:118-120 | ORing in the mask of position `pos` sets that bit and no other |
| `BitPacking.BitsDetermineByte` | c_logic/decoder.c:85-87 | a byte is determined by its eight bits |
| `BitPacking.FillBits` | c_logic/encoder.c:113-120 | the byte built from up to eight bits holds them in its leading positions and zeros after |
| `BitPacking.ReadFilledByte` | c_logic/encoder.c:171-177 | reading back a partly filled byte gives its bits followed by zero padding |
| `BitPacking.FillByteBits` | c_logic/encoder.c:112-130 | writing a byte's own eight bits rebuilds the byte |
| `BitPacking.Pack` | c_logic/encoder.c:148-177 | the packed output has ⌈n/8⌉ bytes for n bits |
| `BitPacking.Unpack` | c_logic/decoder.c:84-87 | eight bits per byte, all of them read |
| `BitPacking.Padding` | c_logic/encoder.c:171-177 | fewer than eight padding bits complete the last byte |
| `BitPacking.UnpackPack` | c_logic/encoder.c:171-177 | unpacking packed bits gives the bits followed by the zero padding |
| `BitPacking.PackUnpack` | c_logic/decoder.c:84-103 | packing the unpacked bits of bytes gives the bytes back |
| `BitPacking.PackAppend` | c_logic/encoder.c:124-129 | after whole bytes, packing continues byte-aligned |
| `Encoder.EmptyTable` | c_logic/encoder.c:24-28 | all 128 codes empty |
| `Encoder.InitHuffmanCodesArray` | c_logic/encoder.c:24-28 | every slot of the table becomes empty |
| `Encoder.PathToLeadsToLeaf` | c_logic/encoder.c:31-52 | the path to a symbol leads from the root to a leaf holding it |
| `Encoder.PathThrough` | c_logic/encoder.c:43-51 | in a tree with distinct leaves, the code of a symbol below a node is the path to that node followed by the symbol's path inside it |
| `Encoder.AssignCodesWritesPaths` | c_logic/encoder.c:31-52 | the walk writes each alphabet symbol's path into its slot and leaves the slots of absent symbols alone |
| `Encoder.GenerateCodesDfs` | c_logic/encoder.c:31-52 | the recursion with the shared buffer leaves the table the walk specifies, and restores the buffer prefix |
| `Encoder.BuildHuffmanCodes` | c_logic/encoder.c:54-76 | the table is reset, stays empty for no tree, gets "0" for a lone leaf, and gets the walk's codes otherwise |
| `Encoder.CodeTableOfTree` | c_logic/encoder.c:54-76 | a symbol has a non-empty code exactly when it is in the tree: "0" under a lone leaf, its path otherwise |
| `Encoder.CodeLeadsToLeaf` | c_logic/encoder.c:31-52 | under a tree with children, each symbol's code leads to the leaf holding it |
| `Encoder.FollowWithinHeight` | c_logic/encoder.c:44-51 | a path that leads somewhere is no longer than the tree is high |
| `Encoder.CodeTableIsPrefixCode` | c_logic/encoder.c:31-76 | every code is a '0'/'1' string no longer than the tree is high, and no code of one symbol is a prefix of another's |
| `Encoder.FillStep` | c_logic/encoder.c:118-120 | adding a bit to the byte ORs in its mask when the bit is set |
| `Encoder.ByteComplete` | c_logic/encoder.c:125-126 | a completed byte is appended to the output |
| `Encoder.WriteBitStep` | c_logic/encoder.c:112-130 | one bit keeps the writer's state: complete bytes packed, the pending bits in the buffer |
| `Encoder.NextByte` | c_logic/encoder.c:113-120 | a fresh byte starts cleared, and the bit is ORed in at its position |
| `Encoder.WriteBit` | c_logic/encoder.c:112-130 | the bit is added at position `pos`, MSB first; after the eighth bit the byte is emitted and the buffer is cleared |
| `Encoder.Flush` | c_logic/encoder.c:171-177 | flushing a partial byte makes the output exactly the packed bits |
| `Encoder.EncodedBitsAppend` | c_logic/encoder.c:153-169 | encoding a concatenation concatenates the encodings |
| `Encoder.EncodeAndWrite` | c_logic/encoder.c:133-177 | the output is exactly the input's codes, in order, packed MSB-first with zero padding |
| `Encoder.EncodeAll` | c_logic/encoder.c:153-169 | after the loop the writer has written every input value's bits |
| `Encoder.EncodeSymbol` | c_logic/encoder.c:154-168 | a value of the alphabet with a code writes that code; other values and empty codes write nothing |
| `Encoder.WriteCode` | c_logic/encoder.c:162-165 | every character of the code goes through the bit writer, '1' as a set bit |
| `Encoder.Decimal` | c_logic/encoder.c:14 | `%d` of a symbol is a non-empty string of decimal digits |
| `Encoder.DecimalRoundTrip` | c_logic/encoder.c:14 | reading the digits back gives the symbol |
| `Encoder.MapEntries` | c_logic/encoder.c:12-16 | at most `n` entries for the first `n` slots; exactness and order in `Encoder.MapEntriesExact` |
| `Encoder.MapEntriesExact` | c_logic/encoder.c:12-16 | the entries are exactly the symbols with a non-empty code, each with its code, strictly ascending |
| `Encoder.WriteHuffmanMap` | c_logic/encoder.c:4-19 | the text is one `"<symbol> <code>\n"` line per entry, in ascending symbol order |
| `Decoder.Child` | c_logic/decoder.c:89-93 | a child is NULL or a slot of the arena |
| `Decoder.Prefixes` | c_logic/decoder.c:27-37 | exactly the prefixes of a path |
| `Decoder.TrieSetClosed` | c_logic/decoder.c:25-37 | the map's tree contains the root and is closed under taking prefixes |
| `Decoder.TrieSetMembers` | c_logic/decoder.c:25-37 | a path is in the map's tree exactly when it is the root or a prefix of some code |
| `Decoder.LabelOfUncoded` | c_logic/decoder.c:30 | a node no code ends at keeps `ch == -1` |
| `Decoder.LabelOfCode` | c_logic/decoder.c:52 | the last entry whose code ends at a node sets its symbol |
| `Decoder.WalkFindsPath` | c_logic/decoder.c:25-37 | in a grown arena the walk along a path finds the slot of that path exactly when the path is in the tree |
| `Decoder.GrownRepresents` | c_logic/decoder.c:13-59 | the builder's invariant at the end means the arena is the map's tree with its labels |
| `Decoder.StartGrown` | c_logic/decoder.c:20 | the root alone, childless with `ch == -1`, starts the invariant |
| `Decoder.AddNode` | c_logic/decoder.c:30 | a new slot is a childless node with `ch == -1`, and older slots are unchanged |
| `Decoder.SetChild` | c_logic/decoder.c:29-36 | linking a child changes no symbol |
| `Decoder.Descend` | c_logic/decoder.c:28-37 | the step of a code creates the child only when it is missing; existing slots and paths are kept, and new slots lie outside the tree so far |
| `Decoder.ExistingChildGrown` | c_logic/decoder.c:29-32 | following an existing child adds nothing to the tree |
| `Decoder.NewChildren` | c_logic/decoder.c:29-36 | after a missing child is created, only that link and the new childless slot differ |
| `Decoder.NewChildGrown` | c_logic/decoder.c:29-36 | creating a missing child extends the tree by exactly that path |
| `Decoder.TrieSetStep` | c_logic/decoder.c:24-55 | each entry adds the prefixes of its code to the tree |
| `Decoder.PrefixesStep` | c_logic/decoder.c:27-37 | one more character of a code adds one more prefix |
| `Decoder.UnionClosed` | c_logic/decoder.c:25-37 | adding the prefixes of a code keeps the tree prefix-closed |
| `Decoder.NewSlotsLabelled` | c_logic/decoder.c:30-35 | the slots created along a code keep `ch == -1` as long as no code ends there |
| `Decoder.InsertCode` | c_logic/decoder.c:25-45 | the walk of one code fails exactly when the code has a character other than '0'/'1'; otherwise it grows the tree by the code's prefixes and ends at the node the code's path walks to |
| `Decoder.InsertBit` | c_logic/decoder.c:28-37 | one '0' or '1' extends the tree by one step of the code and ends at the node that path walks to |
| `Decoder.OneMorePrefix` | c_logic/decoder.c:27-37 | the tree the walk grows towards, one character further on |
| `Decoder.BuildDecodingTree` | c_logic/decoder.c:13-59 | no tree exactly when some code is not a '0'/'1' string; otherwise the arena represents the map, overlapping codes included |
| `Decoder.StoreSymbol` | c_logic/decoder.c:46-54 | the node at the end of the code gets the entry's symbol, even when it has children |
| `Decoder.LabelStep` | c_logic/decoder.c:52 | labelling the code's node keeps every slot labelled as the entries so far say |
| `Decoder.Step` | c_logic/decoder.c:89-99 | a step ends in a slot of the arena |
| `Decoder.Run` | c_logic/decoder.c:84-103 | a successful walk ends in a slot of the arena |
| `Decoder.RunAppend` | c_logic/decoder.c:84-103 | decoding `x + y` is decoding `x`, then decoding `y` from where it stopped |
| `Decoder.RunThen` | c_logic/decoder.c:84-103 | decoding `x + y` continues from the end of a successful decoding of `x` |
| `Decoder.DecodeCode` | c_logic/decoder.c:89-99 | with a prefix-free map, reading one code from the root emits exactly its symbol and returns to the root |
| `Decoder.LabelOfPrefixFree` | c_logic/decoder.c:52 | with a prefix-free map, each code's node holds that entry's symbol |
| `Decoder.CodeNodeChildless` | c_logic/decoder.c:96 | with a prefix-free map, the node at the end of a code has no children |
| `Decoder.DecodeInside` | c_logic/decoder.c:89-96 | before the last bit of a code, the walk only moves the cursor along the code |
| `Decoder.DecodeConcat` | c_logic/decoder.c:84-103 | decoding any concatenation of codes of a prefix-free map yields their symbols in order and ends at the root |
| `Decoder.UnpackAppend` | c_logic/decoder.c:84-103 | the bits of concatenated bytes are the concatenated bits |
| `Decoder.RunPrefix` | c_logic/decoder.c:84-103 | a walk that gets through a sequence gets through each prefix |
| `Decoder.DecodeAndWrite` | c_logic/decoder.c:62-103 | the output is the decoding of all bits of all bytes, padding included |
| `Decoder.DecodeByte` | c_logic/decoder.c:85-100 | the eight bits of a byte, MSB first, extend the decoding |
| `Decoder.NextBit` | c_logic/decoder.c:87 | the bit extracted at index `i` is the next bit of the byte |
| `Decoder.DecodeBit` | c_logic/decoder.c:87-99 | bit 0 goes left, bit 1 goes right; a childless node emits its `ch` as a byte and the cursor returns to the root |
| `Decoder.WalkStep` | c_logic/decoder.c:89-93 | walking one more bit moves from the walked node to its child on that bit, and a missing node stays missing |
| `Decoder.LeftChildExists` | c_logic/decoder.c:89-90 | when every code's path also has a left branch at each step, a zero bit at a node with children reaches an existing left child |
| `Decoder.MapZeroSafe` | c_logic/decoder.c:24-45 | the decoding tree of such a map has a left child under the root and under every inner node, each of them a leaf or inner again |
| `Decoder.ZeroStep` | c_logic/decoder.c:89-99 | from the root or an inner node, one zero bit never meets a missing child, emits at most one symbol and ends at the root or an inner node |
| `Decoder.ZerosDecode` | c_logic/decoder.c:84-103 | from the root or an inner node, any run of zero bits decodes without a missing child, keeping the output so far and emitting at most one symbol per bit |
| `Codec.TreeEntries` | c_logic/encoder.c:12-16 | a map has at most 128 entries |
| `Codec.InRangeMembers` | c_logic/encoder.c:154 | the encoded values are exactly the input values of the alphabet |
| `Codec.InRangeSnoc` | c_logic/encoder.c:153-168 | one more input value adds itself exactly when it is in the alphabet |
| `Codec.TreeCoversInput` | c_logic/encoder.c:155-159 | every input symbol of the alphabet has a leaf, so the encoder's missing-code warning cannot fire, and codes fit the buffer |
| `Codec.NoTreeForNoSymbols` | c_logic/compress_main.c:123-128 | no symbol is present exactly when the input has no value 0–127 |
| `Codec.MapOfTreeIsPrefixCode` | c_logic/encoder.c:12-16 | the map of a tree is a prefix code of '0'/'1' strings |
| `Codec.EntryOf` | c_logic/encoder.c:12-16 | each symbol of the tree has a map line with its non-empty code |
| `Codec.DecodeEncoded` | c_logic/decoder.c:84-103 | walking the rebuilt tree over the input's concatenated codes gives back its alphabet symbols in order and ends at the root |
| `Codec.DecodeSymbol` | c_logic/decoder.c:89-99 | one input value's code emits that value, or nothing for a value outside the alphabet |
| `Codec.PackedRoundTrip` | c_logic/decoder.c:84-103 | decoding the packed codes gives the symbols, then the decoding of the padding; with no padding, exactly the symbols |
| `Codec.DecodePacked` | c_logic/decoder.c:84-103 | decoding packed bits is decoding the bits and then the padding |
| `Codec.RoundTrip` | c_logic/decoder.c:24-103 | from counting to decoding: decoding the packed bytes succeeds, its output is the input's alphabet symbols in order followed by fewer than eight padding symbols, and exactly those symbols when the codes fill whole bytes |
| `Codec.CountedTree` | c_logic/compress_main.c:170-196 | a tree holding the present symbols of a count table has distinct leaves, all in the alphabet |
| `Codec.InsideCode` | c_logic/encoder.c:43-51 | every proper prefix of a code in the tree's map leads to an internal node |
| `Codec.LeftOf` | c_logic/encoder.c:44-47 | below every internal node on a path the DFS goes left, so the path followed by a zero bit is a prefix of some code in the map |
| `Codec.InnerLeftFull` | c_logic/encoder.c:31-52 | for every prefix of a code in the map, replacing its last bit by a zero bit gives a prefix of some code again |
| `Codec.LeafMapCode` | c_logic/encoder.c:64-73 | the map of a lone leaf holds only the code "0", a single zero bit |
| `Codec.LeafMapLeftFull` | c_logic/encoder.c:64-73 | the map of a lone leaf starts with a zero bit and has a left branch wherever its code does |
| `Codec.TreeMapLeftFull` | c_logic/encoder.c:31-76 | the map of any tree the compressor builds starts a code with a zero bit and has a left branch at every step of every code |
| `Codec.PaddingDecodes` | c_logic/encoder.c:171-177 | on the decoding tree of such a map, any run of zero padding bits decodes from the root without a missing child, keeps the output so far and adds at most one symbol per bit |
| `Codec.ZerosDecodeToSymbol` | c_logic/decoder.c:84-99 | when some code is "0", each zero bit read from the root emits that symbol |
| `Codec.LoneSymbolComesBackEightTimes` | c_logic/decoder.c:105-109 | the padding caveat: one symbol occurring once decompresses to eight copies of it |
| `Codec.LoneSymbolPadding` | c_logic/decoder.c:84-103 | the lone symbol's byte is its code followed by seven padding bits |
| `Codec.LoneSymbolBits` | c_logic/encoder.c:64-73 | a file with one symbol once is coded by the single bit of "0" |
| `Codec.SymbolIsItsByte` | c_logic/decoder.c:97 | `fputc` writes a symbol 0–127 back as itself |
| `Codec.Copies` | c_logic/decoder.c:97 | `n` copies of a symbol |
| `Codec.CompressThenDecompress` | c_logic/compress_main.c:59-224 | counting, bucketing, tree building, code assignment, encoding, rebuilding the decoding tree and decoding, in turn: the output starts with the input's alphabet symbols, has fewer than eight more, nothing is written exactly when the input has no alphabet symbol, and then nothing is decoded |

## Left out

- File I/O and the command line are not modelled: `fopen`, `fgetc`, `fread` and `fclose`, and both `main` functions' argument handling. Input and output files are sequences: the input is the values `fgetc` returns before EOF, compressed data is a `seq<bv8>`, and decoded output is the sequence of bytes `fputc` writes.
- Reading the map file with `fscanf` is left out. The decoder takes the parsed `(symbol, code)` entries. An entry with an empty code, which `%s` cannot produce, is allowed and labels the root. The 256-character `code_str` buffer, which `%s` can overflow, is not modelled.
- Compression statistics, `get_file_size` and every `printf` of the program are left out: the frequency dump, the bucket dump, `print_huffman_codes` and the warnings. Warnings on stderr are not outputs of the model, so the overlapping-code warning of the tree builder and the missing-code and out-of-range warnings of the encoder are silent branches.
- Memory management is left out: `free`, `free_huffman_tree`, `free_min_pq`, and the exit on a failed `malloc` or `realloc`. `LinkedList.Free` walks each list and clears the slot without modelling the release of the nodes.
- The first population of the queue in the compressor (compress_main.c:136-167) is left out. It is discarded and rebuilt before use, so it has no effect on the result.
- c_logic/huffman_coding.c, an earlier draft with its own `main`, is not part of this model. c_logic/decompress_main.c only wires files to the decoder and is not part of this model either.
- Pointer trees are values: the compressor's nodes are a `Tree` datatype, and the decoder's nodes are the slots of an arena with NULL as -1. Aliasing between nodes does not arise in either program.
- The decoder's `frequency` field is always 0 and is not stored.
- Column 0 of the compressor's frequency table always holds the row index, so the table is modelled as its column of counts.
- A NULL queue pointer is not modelled. `insert_pq` and `extract_min_pq` are called on an allocated queue only, and a NULL node is `None`.
- 32-bit integer overflow is not modelled. Counts, weights and `capacity * 2` are unbounded integers, so inputs of 2^31 or more bytes are outside the model.
- Huffman optimality and the exact codes are not modelled. Ties between equal weights are broken by the heap's layout, and the model proves structural properties only: weights, symbol sets, prefix-freeness and the round trip.
- `Decoder.DecodeAndWrite` requires that the walk never meets a missing child, which in C would be a NULL dereference. For bytes the compressor wrote with a map of its own tree, `Codec.RoundTrip` proves that requirement, padding included, and `Codec.CompressThenDecompress` discharges it. For any other bytes or map the requirement stays with the caller.
- `fputc` of the decoder writes `ch` as an unsigned char, modelled as `ch % 256`. Values outside 0–255 therefore come back modulo 256.
- `Decoder.Step`: its contract only bounds the next slot; what it emits is stated by `Decoder.DecodeBit`, `Decoder.DecodeCode` and `Decoder.DecodeConcat`.
- `Decoder.Run`: its contract only bounds the end slot; its meaning is stated by `Decoder.RunAppend`, `Decoder.DecodeConcat` and `Codec.RoundTrip`.
