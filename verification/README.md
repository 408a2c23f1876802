# Huffman coding tree (HCTree) in Dafny

A model of the `HCTree` class of a byte-oriented Huffman compressor, together
with proofs about it. The class builds a Huffman coding tree from a table of
256 byte frequencies. It encodes and decodes bytes with that tree. It also
writes the tree into a compressed file's header (`serialize`) and rebuilds it
from there (`deserialize`).

Modules, one per file:

- `Results` (results.dfy): `Option` for nullable pointers, and `Result` for
  a read that can run out of bits.
- `Bits` (bits.dfy): the 8 bits of a leaf symbol, written most significant
  first, and the padding that realigns a bit stream to a byte boundary.
- `Nodes` (nodes.dfy): `HCNode` as the datatype `Tree`, with `Null` for the
  null pointer. A pointer into a tree is modelled as the node's address: its
  path from the root, where `false` stands for `c0`.
- `Codec` (codec.dfy): the tree object (`Coder`) is the root, the
  256-entry `leaves` table and a flag `linked`, which says whether the
  nodes' parent pointers `p` are set. `build` links every merged tree to its
  new parent; `deseriallization` never assigns `p`. The module has the
  constructor, `encode` (a method that walks up to the root through the
  parent pointers and reverses what it records) and `decode`.
- `Builder` (builder.dfy): `build`, which is one leaf per occurring byte,
  then the greedy merge of the two lightest trees.
- `Serial` (serial.dfy): `serialization`/`serialize` (the header weight and
  the preorder shape bits) and `deseriallization`/`deserialize` (the
  recursive reader with its `index`, `len` and `bitcounter`).
- `Pipeline` (pipeline.dfy): how the tree gets through a compressed file,
  from `build` through `serialize` to `deserialize`.

Streams are sequences of bits. A `FancyOutputStream` becomes the bits
written so far. A `FancyInputStream` becomes the unread bits, and a failed
read gives `Failure(TruncatedStream)`.

The reader takes a `Guard`. `NodeGuard(len)` is the check as the code
writes it, `index >= len` (see Findings). `BitGuard(8 * len)` is the
corrected check, which stops only once `len` bytes' worth of bits have been
read.

## Model

| member | source | states |
|---|---|---|
| `Codec.Empty` | HCTree.hpp:35-37 | a new tree object has a null root and 256 null leaf pointers, and it is valid |
| `Bits.ReadSymbol` | HCTree.cpp:319-336 | the j-th of the 8 bits read becomes bit 7 - j of the symbol |
| `Bits.SymbolBits` | HCTree.cpp:239-249 | the 8 bits written for a leaf symbol, most significant first, read back as that symbol |
| `Bits.BitsRoundTrip` | HCTree.cpp:322-336 | the symbol read from any 8 bits is written back as those same 8 bits |
| `Bits.SkipLength` | HCTree.cpp:371-375 | `deserialize` skips between 1 and 8 bits, ending on a byte boundary; it skips a whole byte exactly when the tree already ended on one |
| `Bits.FlushLength` | HCTree.cpp:276-278 | the flush after the shape bits pads with fewer than 8 bits and ends on a byte boundary |
| `Bits.PadsAgree` | HCTree.cpp:371-375 | after an odd number of shape bits, the reader skips exactly as many bits as the writer padded, which is between 1 and 7 |
| `Nodes.PathTo` | HCTree.cpp:338-340 | the table entry the reader leaves for a byte exists exactly when some leaf holds that byte, and it addresses such a leaf |
| `Nodes.UniqueLeaf` | HCTree.cpp:338-340 | when a single leaf holds a byte, the entry points to that leaf |
| `Nodes.StripKeepsLeaves` | HCTree.cpp:309-339 | rebuilding nodes with weight 0 keeps fullness, the node count and every byte's leaf address |
| `Nodes.FullSize` | HCTree.cpp:63-86 | a tree made only by merging two trees under a new node has one internal node fewer than it has leaves |
| `Codec.Reverse` | HCTree.cpp:134 | the reversed buffer has the same length, and element i is element n - 1 - i of the original |
| `Codec.Encode` | HCTree.cpp:108-139 | the walk from the leaf up to the root, once reversed, appends exactly the leaf's root-to-leaf address, and that address leads to a leaf holding the symbol. Unless the leaf is the root, the walk needs the parent pointers set |
| `Codec.Decode` | HCTree.cpp:153-174 | decoding consumes a prefix of the input. On a full tree it fails exactly when the input ends inside the tree, and otherwise the bits it consumed address a leaf holding the symbol it returns |
| `Codec.DecodePath` | HCTree.cpp:158-171 | decoding a leaf's address, followed by anything, returns that leaf's symbol and leaves the rest unread |
| `Codec.EncodeDecode` | HCTree.cpp:108-174 | for a valid tree object, decoding what `encode` writes for a byte, followed by anything, returns that byte and the rest |
| `Codec.PrefixFree` | HCTree.cpp:108-139 | no byte's code is a prefix of another byte's code |
| `Codec.DecodeStripped` | HCTree.cpp:153-174 | node weights play no part in decoding |
| `Codec.LeafTableValid` | HCTree.hpp:28-29 | the leaf table computed from a null or full root makes a valid tree object |
| `Builder.InitialQueue` | HCTree.cpp:46-56 | every tree the first loop queues is a leaf for a byte of nonzero frequency, carrying that byte and its frequency, in strictly increasing byte order, so no byte is queued twice |
| `Builder.InitialQueueHolds` | HCTree.cpp:46-51 | every byte of nonzero frequency is queued |
| `Builder.InitialTotals` | HCTree.cpp:46-56 | the initial queue weighs the sum of the frequencies and holds one leaf for each occurring byte and none for any other |
| `Builder.MinIndex` | HCTree.cpp:66-71 | a popped tree has the least weight in the queue, and it is the first such tree |
| `Builder.Remove` | HCTree.cpp:67-71 | the pop removes exactly one tree and keeps the order of the rest |
| `Builder.Step` | HCTree.cpp:63-86 | one round of the loop shrinks the queue by one, and every queued tree stays non-null |
| `Builder.StepKeeps` | HCTree.cpp:73-85 | one round of the loop keeps every queued tree full and well-weighted, and keeps the queue's total weight and its leaves |
| `Builder.Merge` | HCTree.cpp:63-94 | the root is the one tree left in the queue; it is an internal node whenever two or more trees were queued |
| `Builder.MergeKeeps` | HCTree.cpp:63-86 | the merged root is full and well-weighted, weighs the queue's total and holds exactly the queue's leaves |
| `Builder.Build` | HCTree.cpp:35-97 | after `build` the tree object is valid and its parent pointers are set. A non-null root is full and each internal node weighs the sum of its children; the root weighs the sum of all frequencies, and each occurring byte has exactly one leaf and every other byte none |
| `Builder.BuildLeaves` | HCTree.cpp:46-56 | `leaves[b]` is set exactly when `freqs[b] != 0`, and it points to a leaf holding `b` with weight `freqs[b]` |
| `Builder.BuildUniqueLeaf` | HCTree.cpp:46-56 | every leaf of the built tree that holds `b` is the one `leaves[b]` points to |
| `Builder.BuildRoot` | HCTree.cpp:88-94 | the root is null exactly when all frequencies are 0, and it is a single leaf exactly when one byte occurs; that byte's code is then empty |
| `Builder.BuildRoundTrip` | HCTree.cpp:35-97 | every occurring byte has a code, and decoding that code on the built tree returns the byte |
| `Serial.Shape` | HCTree.cpp:220-260 | a null pointer writes nothing and every other node writes at least its tag bit, which is 1 exactly when the node has no children |
| `Serial.ShapeLength` | HCTree.cpp:227-259 | a full tree's shape takes 9 bits per leaf and 1 bit per internal node, an odd number in total |
| `Serial.Serialize` | HCTree.cpp:271-279 | a null root writes nothing. Otherwise the header is the root weight, and the bits are the shape bits padded to a whole number of bytes with fewer than 8 bits |
| `Serial.ReadNode` | HCTree.cpp:294-345 | a read never moves the bit counter or the index backwards, and it never reads past the input |
| `Serial.ReadChildren` | HCTree.cpp:308-312 | reading both children never moves the bit counter or the index backwards |
| `Serial.ReadLeaf` | HCTree.cpp:316-343 | a leaf read consumes exactly 8 bits and leaves the index alone |
| `Serial.DeserializeWith` | HCTree.cpp:356-376 | a successful `deserialize` consumes a whole, nonzero number of bytes, and what remains is the unread tail of the input |
| `Serial.ReadNodeRoundTrip` | HCTree.cpp:294-345 | while the guard stays quiet, reading the shape bits of a full tree from any reader state rebuilds it with weights 0 and leaves the reader where the node-by-node walk `After` puts it |
| `Serial.AfterCounts` | HCTree.cpp:303-327 | reading a full tree advances the index once per node after its first, and the bit counter by 9 per leaf and 1 per internal node |
| `Serial.AfterLeaves` | HCTree.cpp:338-340 | reading a tree writes each leaf's address into its byte's entry, in preorder, so the last leaf of each byte wins |
| `Serial.ChildrenRoundTrip` | HCTree.cpp:308-312 | after an internal node's tag bit, reading its two quiet, encoded children rebuilds the node with weight 0 and leaves the reader where `After` says |
| `Serial.ShapeReads` | HCTree.cpp:294-345 | reading a full tree's shape from the start rebuilds it with weights 0 and its leaf table, having read exactly the shape bits |
| `Serial.ShapeRoundTripWith` | HCTree.cpp:356-376 | when the guard stays quiet, `deserialize` on shape bits, pad and rest returns the stripped tree and its leaf table and leaves exactly the rest unread |
| `Serial.StrippedValid` | HCTree.cpp:338-340 | the rebuilt tree object is valid. Its parent pointers are not set, so of `encode` it only supports a single-leaf tree |
| `Serial.Deserialize` | HCTree.cpp:297 | as written, a full tree read back has at most `len` nodes |
| `Serial.DeserializeBounded` | HCTree.cpp:356-376 | with the guard on bits, a full tree read back has at most `8 * len + 8` shape bits: every node starts within the `8 * len` bits, and a last leaf's symbol runs 8 bits past them |
| `Serial.DeserializeRoundTrip` | HCTree.cpp:356-376 | as written, the round trip holds when `len` is at least the number of nodes |
| `Serial.ReadIndexBound` | HCTree.cpp:294-312 | as written, a full subtree that is read back moved the index once per node after its first, and all of its nodes were read with an index below `len` |
| `Serial.ChildrenIndexBound` | HCTree.cpp:308-312 | the same bound holds for the two children of an internal node |
| `Serial.ReadWidthBound` | HCTree.cpp:294-327 | with the guard on bits, a full subtree read back moved the bit counter by its shape bits, and every node of it started below the bound |
| `Serial.ChildrenWidthBound` | HCTree.cpp:308-312 | the same bound holds for the two children of an internal node |
| `Serial.NodeGuardLosesTree` | HCTree.cpp:297 | as written, a full tree with more nodes than `len` is never the tree that comes back |
| `Serial.FourSymbolsLoseLeaf` | decompress.cpp:52-63 | for 4 bytes that appear once each, `len` is 6 while the tree has 7 nodes. The as-written reader loses the tree, and the corrected reader returns it |
| `Serial.BalancedFourAsWritten` | HCTree.cpp:294-376 | with `len` 6, the as-written read of a balanced tree of four leaves succeeds, but its second subtree keeps only its first leaf, the other child being null. The rest it returns starts at bit 32, 8 bits before the payload |
| `Serial.BoundedRoundTrip` | HCTree.cpp:356-376 | with the guard on bits, the round trip holds whenever the reported bytes cover the shape bits |
| `Serial.SerializeRoundTrip` | HCTree.cpp:271-279 | what `serialize` writes for a valid non-null tree object, followed by anything, reads back as the same tree with weights 0 and the same leaf table |
| `Pipeline.TreeTransfer` | compress.cpp:69-78 | with the bit-guarded reader, the tree read back from a built tree's serialized form is valid and has the same leaf table. It decodes every bit string exactly as the built tree does, and the header holds the sum of the counts |
| `Pipeline.SymbolTransfer` | decompress.cpp:58-85 | with the bit-guarded reader, every byte that occurs, encoded with the built tree, decodes to itself with the tree read back from the file |

## Left out

- The destructor and `clear` free memory. They have no observable result in a model without a heap.
- `compress`/`decompress` are command-line programs around the class: argument checks, file opening, and the byte-counting and decode loops. They are kept only as the callers whose arguments the lemmas fix: the `len` passed to `deserialize` and the order of the calls.
- `Helper.hpp` is not part of this model. `HCNode`, `HCNodePtrComp`, `FancyInputStream` and `FancyOutputStream` live there. Streams are bit sequences here. A read past the end is a `TruncatedStream` failure, because the stream's behaviour at the end of a file is not visible. A flush pads with zero bits, and the round-trip lemmas accept any pad bits.
- The priority queue's comparator (`HCNodePtrComp`) is not visible. The model's queue pops the first tree of least weight. The built tree's exact shape depends on how ties are broken, so no lemma states it. Every proved property holds under any tie-break.
- Optimality of the Huffman code (minimal weighted path length) is not stated.
- Frequencies are `nat`: the 32-bit `int` counts, their sums and the `int` header are unbounded here. Wrap-around on files of 2^31 bytes or more is not modelled.
- `Builder.Build`: requires at most 256 frequencies, because the `(unsigned char)` cast and the 256-entry `leaves` vector only fit a table of that size.
- `Codec.Decode`: requires a non-null root, because the code dereferences `root` unconditionally.
- `Codec.Encode`: requires that the byte has a leaf, because `encode` is only called for bytes `build` gave a leaf. With a null root and a null entry the code's loop exits at once and writes nothing; with a non-null root a null entry would be dereferenced. Neither case is modelled.
- Parent pointers are modelled only as the flag `linked`, not as stored addresses. `encode` on a tree read back by `deserialize` is not supported beyond a single-leaf tree, because the reader never sets `p`; the program only decodes with such a tree.
- `Serial.Serialize`: its comment asks for a non-null root. The model covers the null root too, which writes nothing.
- The trees `serialize` writes are full, so each round-trip lemma is stated for full trees. A node with one null child can only come from the as-written reader. The model writes and decodes such a node the way the code does, but no round trip is claimed for it.

## Findings

| source | as written | input that shows it | evidently intended | confidence | as-written member | corrected member |
|---|---|---|---|---|---|---|
| HCTree.cpp:297 | `deseriallization` stops with a null pointer once `index >= len`. `index` counts the nodes started so far, but `decompress.cpp:63` passes `len` as the byte size of the file after the 4-byte header. Whenever the tree has more nodes than the rest of the file has bytes, its last node reads as null. | The file "abcd": 4 leaves and 7 nodes. The shape is 39 bits, padded to 5 bytes, and the codes take 8 bits, or 1 byte. So `len` is 6 while the tree has 7 nodes. Node 6, the last leaf, reads as null, and its parent is left with a single child, which `decode` treats as a leaf holding '`'. The read also ends 8 bits early, so the codes are looked for at bit 32, among the last leaf's symbol bits. | Stop only once the bits read reach the `8 * len` bits the stream still holds, so that a well-formed header always reads back whole. | not executed | `Serial.NodeGuardLosesTree` (and `Serial.FourSymbolsLoseLeaf` and `Serial.BalancedFourAsWritten` for the concrete input) | `Serial.BoundedRoundTrip` (used by `Serial.SerializeRoundTrip` and `Pipeline.TreeTransfer`) |
