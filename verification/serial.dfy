/**
  Writing the tree into the compressed stream (`serialization`/`serialize`)
  and rebuilding it (`deseriallization`/`deserialize`).

  The stream is a header of `write<int>` values followed by a bit stream.
  Below the header the tree is written in preorder: a leaf as 1 and its
  symbol's 8 bits, most significant first; an internal node as 0, then its
  `c0` subtree, then its `c1` subtree. A flush pads the bit stream to a
  byte boundary. The reader rebuilds the shape with every weight 0, points
  `leaves[b]` at each leaf it makes, and then skips bits to the next byte
  boundary.
 */
module Serial {
  import opened Results
  import opened Bits
  import opened Nodes
  import opened Codec

  /**
    The preorder bits written for `t`. A null pointer writes nothing, and a
    node without children is written as a leaf: an internal node with two
    null children writes 1 and the bits of its symbol '`'.
   */
  function Shape(t: Tree): (r: seq<bool>)
    ensures t == Null <==> r == []
    ensures t != Null ==> (r[0] <==> Childless(t))
  {
    match t
    case Null => []
    case Leaf(s, _) => [true] + SymbolBits(s)
    case Node(_, c0, c1) =>
      if c0 == Null && c1 == Null then [true] + SymbolBits(InternalSymbol)
      else [false] + Shape(c0) + Shape(c1)
  }

  /** A node `serialization` writes as a leaf: one whose two child pointers are both null. */
  predicate Childless(t: Tree)
  {
    t.Leaf? || (t.Node? && t.c0 == Null && t.c1 == Null)
  }

  /** The shape bits of a full tree: 9 per leaf and 1 per internal node, an odd number. */
  lemma {:induction false} ShapeLength(t: Tree)
    requires Full(t)
    ensures |Shape(t)| == 10 * LeafCount(t) - 1
    ensures |Shape(t)| % 2 == 1
  {
    WidthCount(t);
    WidthShape(t);
    FullSize(t);
    var k := LeafCount(t);
    assert |Shape(t)| == 2 * (5 * k - 1) + 1;
    OddLength(|Shape(t)|, 5 * k - 1);
  }

  lemma {:induction false} OddLength(n: int, h: int)
    requires n == 2 * h + 1
    ensures n % 2 == 1
  {
  }

  /** What `serialize` leaves in the stream: the header values and the bits. */
  datatype Output = Output(header: seq<int>, bits: seq<bool>)

  /**
    `serialize`: nothing at all for a null root; otherwise the root's weight
    as the header, then the shape bits, flushed with zero bits to a byte
    boundary.
   */
  function Serialize(c: Coder): (o: Output)
    ensures c.root == Null ==> o == Output([], [])
    ensures c.root != Null ==> o.header == [c.root.count]
    ensures |o.bits| % 8 == 0
    ensures c.root != Null ==>
      && |Shape(c.root)| <= |o.bits| < |Shape(c.root)| + 8
      && o.bits[..|Shape(c.root)|] == Shape(c.root)
  {
    if c.root == Null then Output([], [])
    else
      var shape := Shape(c.root);
      var bits := shape + Zeros(FlushLength(|shape|));
      assert bits[..|shape|] == shape;
      Output([c.root.count], bits)
  }

  /**
    The check that makes `deseriallization` return a null pointer without
    reading. As written it is `index >= len`, where `index` counts the nodes
    started so far and `len` is the caller's byte count (`NodeGuard`);
    `BitGuard` compares the bits read so far with a bit count instead.
   */
  datatype Guard = NodeGuard(len: int) | BitGuard(bitLen: int)

  /**
    The state `deseriallization` threads through its calls: `index`, the
    leaf table, and `bitcounter`, the number of bits read so far, which is
    also the position of the next unread bit.
   */
  datatype Reader = Reader(index: int, bitcounter: nat, leaves: seq<Option<Path>>)

  /** The outcome of reading one subtree: the tree and the reader after it, or a stream that ran out. */
  datatype Parse = Parsed(tree: Tree, reader: Reader) | Truncated

  predicate Stops(g: Guard, r: Reader)
  {
    match g
    case NodeGuard(len) => r.index >= len
    case BitGuard(bitLen) => r.bitcounter >= bitLen
  }

  /**
    `deseriallization` on the stream `input`: the node at address `at`.
    Unless the guard stops it, read a bit; on 0 build an internal node of
    weight 0 and read its `c0` and then its `c1`, each after incrementing
    `index`; on 1 read a leaf. Running out of bits is a `TruncatedStream`
    failure.
   */
  function ReadNode(g: Guard, input: seq<bool>, r: Reader, at: Path): (res: Parse)
    requires |r.leaves| == 256
    requires r.bitcounter <= |input|
    ensures res.Parsed? ==> r.bitcounter <= res.reader.bitcounter <= |input|
    ensures res.Parsed? ==> r.index <= res.reader.index
    ensures res.Parsed? ==> |res.reader.leaves| == 256
    decreases |input| - r.bitcounter, 1
  {
    if Stops(g, r) then Parsed(Null, r)
    else if r.bitcounter == |input| then Truncated
    else if input[r.bitcounter] then ReadLeaf(input, Reader(r.index, r.bitcounter + 1, r.leaves), at)
    else ReadChildren(g, input, Reader(r.index, r.bitcounter + 1, r.leaves), at)
  }

  /**
    The two children of an internal node whose tag bit has been read: `c0`
    at address `at + [false]` and then `c1` at `at + [true]`, each read
    after incrementing `index`.
   */
  function ReadChildren(g: Guard, input: seq<bool>, r: Reader, at: Path): (res: Parse)
    requires |r.leaves| == 256
    requires 0 < r.bitcounter <= |input|
    ensures res.Parsed? ==> r.bitcounter <= res.reader.bitcounter <= |input|
    ensures res.Parsed? ==> r.index <= res.reader.index
    ensures res.Parsed? ==> |res.reader.leaves| == 256
    decreases |input| - r.bitcounter + 1, 0
  {
    var first := ReadNode(g, input, r.(index := r.index + 1), at + [false]);
    if first.Truncated? then Truncated
    else
      var r2 := first.reader;
      var second := ReadNode(g, input, r2.(index := r2.index + 1), at + [true]);
      if second.Truncated? then Truncated
      else Parsed(Node(0, first.tree, second.tree), second.reader)
  }

  /** The 8 symbol bits after a leaf's tag: a leaf of weight 0, which the table entry for its symbol now points to. */
  function ReadLeaf(input: seq<bool>, r: Reader, at: Path): (res: Parse)
    requires |r.leaves| == 256
    requires r.bitcounter <= |input|
    ensures res.Parsed? ==> res.reader.bitcounter == r.bitcounter + 8 <= |input|
    ensures res.Parsed? ==> res.reader.index == r.index
    ensures res.Parsed? ==> |res.reader.leaves| == 256
  {
    if |input| - r.bitcounter < 8 then Truncated
    else
      var s := ReadSymbol(input[r.bitcounter..r.bitcounter + 8]);
      Parsed(Leaf(s, 0), Reader(r.index, r.bitcounter + 8, r.leaves[s := Some(at)]))
  }

  /**
    `deserialize` under guard `g`: rebuild the root from the start of
    `input` into tree object `c`, then skip `8 - bitcounter % 8` bits. On
    success the bits consumed fill whole bytes and what is left is the
    unread tail of `input`.
   */
  function DeserializeWith(g: Guard, c: Coder, input: seq<bool>): (r: Result<(Coder, seq<bool>)>)
    requires |c.leaves| == 256
    ensures r.Success? ==> |r.value.1| < |input|
    ensures r.Success? ==> (|input| - |r.value.1|) % 8 == 0
    ensures r.Success? ==> r.value.1 == input[|input| - |r.value.1|..]
    ensures r.Success? ==> |r.value.0.leaves| == 256
  {
    match ReadNode(g, input, Reader(0, 0, c.leaves), [])
    case Truncated => Failure(TruncatedStream)
    case Parsed(root, r) =>
      var skip := SkipLength(r.bitcounter);
      if |input| - r.bitcounter < skip then Failure(TruncatedStream)
      else Success((Coder(root, r.leaves, false), input[r.bitcounter + skip..]))
  }

  /**
    `deserialize(len, in)` as written: the guard compares the node index
    with `len`, so a full tree it gives back has at most `len` nodes.
   */
  function Deserialize(c: Coder, len: int, input: seq<bool>): (r: Result<(Coder, seq<bool>)>)
    requires |c.leaves| == 256
    ensures r.Success? && Full(r.value.0.root) ==> Size(r.value.0.root) <= len
  {
    ReadIndexBound(len, input, Reader(0, 0, c.leaves), []);
    DeserializeWith(NodeGuard(len), c, input)
  }

  /**
    `deserialize(len, in)` with the guard on the bits read: a read stops
    early only once `bitcounter` reaches the `8 * len` bits the caller says
    the stream still holds. Every node of a full tree it gives back starts
    within those bits, so the tree's shape bits overrun them by at most the
    8 symbol bits of a last leaf.
   */
  function DeserializeBounded(c: Coder, len: int, input: seq<bool>): (r: Result<(Coder, seq<bool>)>)
    requires |c.leaves| == 256
    ensures r.Success? && Full(r.value.0.root) ==> Width(r.value.0.root) <= 8 * len + 8
  {
    ReadWidthBound(8 * len, input, Reader(0, 0, c.leaves), []);
    DeserializeWith(BitGuard(8 * len), c, input)
  }

  /** The number of shape bits of `t`, counted node by node. */
  function Width(t: Tree): nat
  {
    match t
    case Null => 0
    case Leaf(_, _) => 9
    case Node(_, c0, c1) => 1 + Width(c0) + Width(c1)
  }

  /** A full tree has 9 shape bits per leaf and 1 per internal node. */
  lemma {:induction false} WidthCount(t: Tree)
    requires Full(t)
    ensures Width(t) == 10 * LeafCount(t) - 1
  {
    match t
    case Leaf(_, _) =>
    case Node(_, c0, c1) =>
      WidthCount(c0);
      WidthCount(c1);
  }

  /** `Width` counts the shape bits. */
  lemma {:induction false} WidthShape(t: Tree)
    requires Full(t)
    ensures Width(t) == |Shape(t)|
  {
    match t
    case Leaf(_, _) =>
    case Node(_, c0, c1) =>
      WidthShape(c0);
      WidthShape(c1);
  }

  /** The guard does not fire while `t` is read from a reader at `index` with `counter` bits counted. */
  predicate Quiet(g: Guard, index: int, counter: nat, t: Tree)
  {
    match g
    case NodeGuard(len) => index + Size(t) <= len
    case BitGuard(bitLen) => counter + Width(t) <= bitLen
  }

  /** `input` holds the shape bits of `t` from position `pos` on, stated node by node. */
  predicate Encoded(input: seq<bool>, pos: nat, t: Tree)
    decreases t
  {
    match t
    case Null => pos <= |input|
    case Leaf(s, _) => pos + 9 <= |input| && input[pos] && input[pos + 1..pos + 9] == SymbolBits(s)
    case Node(_, c0, c1) =>
      pos < |input| && !input[pos] && Encoded(input, pos + 1, c0) && Encoded(input, pos + 1 + Width(c0), c1)
  }

  /** An encoded tree fits in the input. */
  lemma {:induction false} EncodedFits(input: seq<bool>, pos: nat, t: Tree)
    requires Encoded(input, pos, t)
    ensures pos + Width(t) <= |input|
    decreases t
  {
    match t
    case Null =>
    case Leaf(_, _) =>
    case Node(_, c0, c1) =>
      EncodedFits(input, pos + 1 + Width(c0), c1);
  }

  /** An internal node is encoded where its 0 tag bit is followed by its encoded children. */
  lemma {:induction false} EncodedNode(input: seq<bool>, pos: nat, w: nat, c0: Tree, c1: Tree)
    requires pos < |input| && !input[pos]
    requires Encoded(input, pos + 1, c0)
    requires Encoded(input, pos + 1 + Width(c0), c1)
    ensures Encoded(input, pos, Node(w, c0, c1))
  {
  }

  /** Shape bits placed after `pre` are encoded there node by node, whatever follows them. */
  lemma {:induction false} EncodedShape(pre: seq<bool>, t: Tree, post: seq<bool>)
    requires Full(t)
    ensures Encoded(pre + Shape(t) + post, |pre|, t)
    decreases t, 1
  {
    match t
    case Leaf(s, _) =>
      var input := pre + Shape(t) + post;
      assert input[|pre|] == true;
      assert input[|pre| + 1..|pre| + 9] == SymbolBits(s);
    case Node(_, _, _) =>
      EncodedShapeNode(pre, t, post);
  }

  /** The internal-node case of `EncodedShape`. */
  lemma {:induction false} EncodedShapeNode(pre: seq<bool>, t: Tree, post: seq<bool>)
    requires t.Node? && Full(t)
    ensures Encoded(pre + Shape(t) + post, |pre|, t)
    decreases t, 0
  {
    var Node(w, c0, c1) := t;
    ShapeNodeSplit(pre, t, post);
    WidthShape(c0);
    EncodedShape(pre + [false], c0, Shape(c1) + post);
    EncodedShape(pre + [false] + Shape(c0), c1, post);
    EncodedNode(pre + Shape(t) + post, |pre|, w, c0, c1);
  }

  /** Where the tag bit and the children's shapes of an internal node sit in a stream. */
  lemma {:induction false} ShapeNodeSplit(pre: seq<bool>, t: Tree, post: seq<bool>)
    requires t.Node? && Full(t)
    ensures pre + Shape(t) + post == (pre + [false]) + Shape(t.c0) + (Shape(t.c1) + post)
    ensures pre + Shape(t) + post == (pre + [false] + Shape(t.c0)) + Shape(t.c1) + post
    ensures (pre + Shape(t) + post)[|pre|] == false
  {
    assert Shape(t) == [false] + Shape(t.c0) + Shape(t.c1);
  }

  /** `table` after pointing each byte held by a leaf of `t` at that leaf, `t` sitting at address `at`. */
  function Overlay(table: seq<Option<Path>>, t: Tree, at: Path): (r: seq<Option<Path>>)
    requires |table| == 256
    ensures |r| == 256
  {
    seq(256, b requires 0 <= b < 256 =>
      if PathTo(t, b).Some? then Some(at + PathTo(t, b).value) else table[b])
  }

  /** Overlaying a node is overlaying its `c0` and then its `c1`, later leaves winning. */
  lemma {:induction false} OverlayNode(table: seq<Option<Path>>, w: nat, c0: Tree, c1: Tree, at: Path)
    requires |table| == 256
    ensures Overlay(Overlay(table, c0, at + [false]), c1, at + [true]) == Overlay(table, Node(w, c0, c1), at)
  {
    var t := Node(w, c0, c1);
    var lhs := Overlay(Overlay(table, c0, at + [false]), c1, at + [true]);
    var rhs := Overlay(table, t, at);
    forall b | 0 <= b < 256
      ensures lhs[b] == rhs[b]
    {
      if PathTo(c1, b).Some? {
        assert at + [true] + PathTo(c1, b).value == at + ([true] + PathTo(c1, b).value);
      } else if PathTo(c0, b).Some? {
        assert at + [false] + PathTo(c0, b).value == at + ([false] + PathTo(c0, b).value);
      }
    }
  }

  /** Overlaying a single leaf points its symbol's entry at its address. */
  lemma {:induction false} OverlayLeaf(table: seq<Option<Path>>, s: Byte, w: nat, at: Path)
    requires |table| == 256
    ensures Overlay(table, Leaf(s, w), at) == table[s := Some(at)]
  {
    assert at + [] == at;
  }

  /**
    The reader after `t` has been read from `r`, node by node in the order
    `ReadNode` visits them: a leaf takes 9 bits and points the table at
    itself; an internal node takes 1 bit, then its `c0` and its `c1`, each
    after an `index` increment.
   */
  function After(r: Reader, at: Path, t: Tree): (r': Reader)
    requires |r.leaves| == 256
    ensures |r'.leaves| == 256
    decreases t
  {
    match t
    case Null => r
    case Leaf(s, _) => Reader(r.index, r.bitcounter + 9, r.leaves[s := Some(at)])
    case Node(_, c0, c1) =>
      var r2 := After(Reader(r.index + 1, r.bitcounter + 1, r.leaves), at + [false], c0);
      After(Reader(r2.index + 1, r2.bitcounter, r2.leaves), at + [true], c1)
  }

  /** Reading a full tree advances `index` by one per node after the first and counts its shape bits. */
  lemma {:induction false} AfterCounts(r: Reader, at: Path, t: Tree)
    requires Full(t)
    requires |r.leaves| == 256
    ensures After(r, at, t).index == r.index + Size(t) - 1
    ensures After(r, at, t).bitcounter == r.bitcounter + Width(t)
    decreases t
  {
    match t
    case Leaf(_, _) =>
    case Node(_, c0, c1) =>
      var r1 := Reader(r.index + 1, r.bitcounter + 1, r.leaves);
      AfterCounts(r1, at + [false], c0);
      var r2 := After(r1, at + [false], c0);
      AfterCounts(Reader(r2.index + 1, r2.bitcounter, r2.leaves), at + [true], c1);
  }

  /** Reading a tree overlays its leaves on the table. */
  lemma {:induction false} AfterLeaves(r: Reader, at: Path, t: Tree)
    requires |r.leaves| == 256
    ensures After(r, at, t).leaves == Overlay(r.leaves, t, at)
    decreases t
  {
    match t
    case Null =>
      assert Overlay(r.leaves, t, at) == r.leaves;
    case Leaf(s, w) =>
      OverlayLeaf(r.leaves, s, w, at);
    case Node(w, c0, c1) =>
      var r1 := Reader(r.index + 1, r.bitcounter + 1, r.leaves);
      AfterLeaves(r1, at + [false], c0);
      var r2 := After(r1, at + [false], c0);
      AfterLeaves(Reader(r2.index + 1, r2.bitcounter, r2.leaves), at + [true], c1);
      OverlayNode(r.leaves, w, c0, c1, at);
  }

  /** Overlaying a tree at the root on the empty table gives its leaf table. */
  lemma {:induction false} OverlayEmpty(t: Tree)
    ensures Overlay(Empty().leaves, t, []) == LeafTable(t)
  {
    forall b | 0 <= b < 256
      ensures Overlay(Empty().leaves, t, [])[b] == LeafTable(t)[b]
    {
      if PathTo(t, b).Some? {
        assert [] + PathTo(t, b).value == PathTo(t, b).value;
      }
    }
  }

  /** One step of `ReadNode` on a leaf: the tag bit and 8 symbol bits make a leaf of weight 0 that the table points to. */
  lemma {:induction false} ReadLeafStep(g: Guard, input: seq<bool>, r: Reader, at: Path, s: Byte, w: nat)
    requires |r.leaves| == 256
    requires !Stops(g, r)
    requires Encoded(input, r.bitcounter, Leaf(s, w))
    ensures ReadNode(g, input, r, at) == Parsed(Leaf(s, 0), After(r, at, Leaf(s, w)))
  {
  }

  /** One step of `ReadNode` on an internal node: its tag bit, then the reads of `c0` and `c1`. */
  lemma {:induction false} ReadNodeChildren(g: Guard, input: seq<bool>, r: Reader, at: Path)
    requires |r.leaves| == 256
    requires !Stops(g, r)
    requires r.bitcounter < |input| && !input[r.bitcounter]
    ensures ReadNode(g, input, r, at) == ReadChildren(g, input, Reader(r.index, r.bitcounter + 1, r.leaves), at)
  {
  }

  /** `ReadChildren` builds an internal node of weight 0 from two successful reads. */
  lemma {:induction false} ReadChildrenStep(g: Guard, input: seq<bool>, r: Reader, at: Path,
                         left: Tree, r2: Reader, right: Tree, r3: Reader)
    requires |r.leaves| == 256
    requires 0 < r.bitcounter <= |input|
    requires ReadNode(g, input, Reader(r.index + 1, r.bitcounter, r.leaves), at + [false]) == Parsed(left, r2)
    requires |r2.leaves| == 256 && r2.bitcounter <= |input|
    requires ReadNode(g, input, Reader(r2.index + 1, r2.bitcounter, r2.leaves), at + [true]) == Parsed(right, r3)
    ensures ReadChildren(g, input, r, at) == Parsed(Node(0, left, right), r3)
  {
  }

  /**
    The guard does not fire on a quiet internal node, whose tag bit is a 0,
    and both its children are encoded and quiet where `ReadNode` reads them.
   */
  lemma {:induction false} QuietNode(g: Guard, input: seq<bool>, r: Reader, at: Path, t: Tree)
    requires t.Node? && Full(t)
    requires |r.leaves| == 256
    requires Encoded(input, r.bitcounter, t)
    requires Quiet(g, r.index, r.bitcounter, t)
    ensures !Stops(g, r)
    ensures r.bitcounter < |input| && !input[r.bitcounter]
    ensures Encoded(input, r.bitcounter + 1, t.c0) && Quiet(g, r.index + 1, r.bitcounter + 1, t.c0)
    ensures var r2 := After(Reader(r.index + 1, r.bitcounter + 1, r.leaves), at + [false], t.c0);
      && r2.bitcounter <= |input|
      && Encoded(input, r2.bitcounter, t.c1)
      && Quiet(g, r2.index + 1, r2.bitcounter, t.c1)
  {
    FullSize(t);
    FullSize(t.c0);
    AfterCounts(Reader(r.index + 1, r.bitcounter + 1, r.leaves), at + [false], t.c0);
    EncodedFits(input, r.bitcounter + 1, t.c0);
  }

  /**
    Reading the shape bits of a full tree, when the guard stays quiet,
    rebuilds the tree with weights 0 and leaves the reader where `After`
    says.
   */
  lemma {:induction false} ReadNodeRoundTrip(g: Guard, input: seq<bool>, r: Reader, at: Path, t: Tree)
    requires Full(t)
    requires |r.leaves| == 256
    requires Encoded(input, r.bitcounter, t)
    requires Quiet(g, r.index, r.bitcounter, t)
    ensures ReadNode(g, input, r, at) == Parsed(Strip(t), After(r, at, t))
    decreases t, 2
  {
    match t
    case Leaf(s, w) =>
      ReadLeafStep(g, input, r, at, s, w);
    case Node(_, _, _) =>
      ReadInternalRoundTrip(g, input, r, at, t);
  }

  /** The internal-node case of `ReadNodeRoundTrip`: the tag bit, then both children. */
  lemma {:induction false} ReadInternalRoundTrip(g: Guard, input: seq<bool>, r: Reader, at: Path, t: Tree)
    requires t.Node? && Full(t)
    requires |r.leaves| == 256
    requires Encoded(input, r.bitcounter, t)
    requires Quiet(g, r.index, r.bitcounter, t)
    ensures ReadNode(g, input, r, at) == Parsed(Strip(t), After(r, at, t))
    decreases t, 1
  {
    QuietNode(g, input, r, at, t);
    ChildrenRoundTrip(g, input, r, at, t);
    ReadNodeChildren(g, input, r, at);
  }

  /**
    Reading the two children of an internal node read from `r`, after its
    tag bit, when both are encoded and quiet where they are read, rebuilds
    the node with weight 0 and leaves the reader where `After` says.
   */
  lemma {:induction false} ChildrenRoundTrip(g: Guard, input: seq<bool>, r: Reader, at: Path, t: Tree)
    requires t.Node? && Full(t)
    requires |r.leaves| == 256
    requires r.bitcounter < |input|
    requires Encoded(input, r.bitcounter + 1, t.c0) && Quiet(g, r.index + 1, r.bitcounter + 1, t.c0)
    requires var r2 := After(Reader(r.index + 1, r.bitcounter + 1, r.leaves), at + [false], t.c0);
      && r2.bitcounter <= |input|
      && Encoded(input, r2.bitcounter, t.c1)
      && Quiet(g, r2.index + 1, r2.bitcounter, t.c1)
    ensures ReadChildren(g, input, Reader(r.index, r.bitcounter + 1, r.leaves), at) == Parsed(Strip(t), After(r, at, t))
    decreases t, 0
  {
    var Node(_, c0, c1) := t;
    var r1 := Reader(r.index + 1, r.bitcounter + 1, r.leaves);
    ReadNodeRoundTrip(g, input, r1, at + [false], c0);
    var r2 := After(r1, at + [false], c0);
    var r3 := Reader(r2.index + 1, r2.bitcounter, r2.leaves);
    ReadNodeRoundTrip(g, input, r3, at + [true], c1);
    assert After(r, at, t) == After(r3, at + [true], c1);
    assert Strip(t) == Node(0, Strip(c0), Strip(c1));
    ReadChildrenStep(g, input, Reader(r.index, r.bitcounter + 1, r.leaves), at, Strip(c0), r2, Strip(c1), After(r3, at + [true], c1));
  }

  /** Reading from the start of a stream that begins with the shape bits of a full tree rebuilds it, when the guard stays quiet. */
  lemma {:induction false} ShapeReads(g: Guard, t: Tree, post: seq<bool>)
    requires Full(t)
    requires Quiet(g, 0, 0, t)
    ensures ReadNode(g, Shape(t) + post, Reader(0, 0, Empty().leaves), [])
      == Parsed(Strip(t), Reader(Size(t) - 1, |Shape(t)|, LeafTable(t)))
  {
    var input := Shape(t) + post;
    WidthShape(t);
    EncodedShape([], t, post);
    assert [] + Shape(t) + post == input;
    var start := Reader(0, 0, Empty().leaves);
    ReadNodeRoundTrip(g, input, start, [], t);
    AfterCounts(start, [], t);
    AfterLeaves(start, [], t);
    OverlayEmpty(t);
  }

  /**
    Deserializing the shape bits of a full tree, followed by the pad bits
    the reader skips and anything else, rebuilds the tree with weights 0
    and its leaf table, and leaves exactly the rest unread, provided the
    guard stays quiet.
   */
  lemma {:induction false} ShapeRoundTripWith(g: Guard, t: Tree, pad: seq<bool>, rest: seq<bool>)
    requires Full(t)
    requires Quiet(g, 0, 0, t)
    requires |pad| == SkipLength(|Shape(t)|)
    ensures DeserializeWith(g, Empty(), Shape(t) + pad + rest) == Success((Coder(Strip(t), LeafTable(t), false), rest))
  {
    var input := Shape(t) + pad + rest;
    assert input == Shape(t) + (pad + rest);
    ShapeReads(g, t, pad + rest);
    assert input[|Shape(t)| + |pad|..] == rest;
  }

  /** The rebuilt tree object is valid and holds the same leaf table as the original tree. */
  lemma {:induction false} StrippedValid(t: Tree)
    requires Full(t)
    ensures Valid(Coder(Strip(t), LeafTable(t), false))
  {
    forall b: Byte
      ensures PathTo(Strip(t), b) == PathTo(t, b)
    {
      StripKeepsLeaves(t, b);
    }
    StripKeepsLeaves(t, 0);
    assert LeafTable(Strip(t)) == LeafTable(t);
    LeafTableValid(Strip(t), false);
  }

  /**
    The round trip of `deserialize` as written: when `len` is at least the
    number of nodes, the shape bits, the skipped pad and any following bits
    give back the tree with weights 0 and its leaf table, and the following
    bits are left unread.
   */
  lemma {:induction false} DeserializeRoundTrip(t: Tree, len: int, pad: seq<bool>, rest: seq<bool>)
    requires Full(t)
    requires Size(t) <= len
    requires |pad| == SkipLength(|Shape(t)|)
    ensures Deserialize(Empty(), len, Shape(t) + pad + rest) == Success((Coder(Strip(t), LeafTable(t), false), rest))
    ensures Valid(Coder(Strip(t), LeafTable(t), false))
  {
    ShapeRoundTripWith(NodeGuard(len), t, pad, rest);
    StrippedValid(t);
  }

  /**
    Under the guard as written, a full subtree read from `r` advanced
    `index` once per node after its root, and the last of its nodes was
    started with an index below `len`: a full tree comes back only when it
    has at most `len` nodes.
   */
  lemma {:induction false} ReadIndexBound(len: int, input: seq<bool>, r: Reader, at: Path)
    requires |r.leaves| == 256
    requires r.bitcounter <= |input|
    ensures var res := ReadNode(NodeGuard(len), input, r, at);
      res.Parsed? && Full(res.tree) ==>
        res.reader.index == r.index + Size(res.tree) - 1 && r.index + Size(res.tree) <= len
    decreases |input| - r.bitcounter, 1
  {
    if !Stops(NodeGuard(len), r) && r.bitcounter < |input| && !input[r.bitcounter] {
      ChildrenIndexBound(len, input, Reader(r.index, r.bitcounter + 1, r.leaves), at);
    }
  }

  /** The same bound for the two children of an internal node, read from `r`. */
  lemma {:induction false} ChildrenIndexBound(len: int, input: seq<bool>, r: Reader, at: Path)
    requires |r.leaves| == 256
    requires 0 < r.bitcounter <= |input|
    ensures var res := ReadChildren(NodeGuard(len), input, r, at);
      res.Parsed? && Full(res.tree) ==>
        res.reader.index == r.index + Size(res.tree) - 1 && r.index + Size(res.tree) <= len
    decreases |input| - r.bitcounter + 1, 0
  {
    var g := NodeGuard(len);
    var first := ReadNode(g, input, r.(index := r.index + 1), at + [false]);
    ReadIndexBound(len, input, r.(index := r.index + 1), at + [false]);
    if first.Parsed? {
      var r2 := first.reader;
      ReadIndexBound(len, input, r2.(index := r2.index + 1), at + [true]);
    }
  }

  /**
    Under the guard on bits, a full subtree read from `r` took exactly its
    shape bits, and each of its nodes started before `bitLen`: the last one
    is a leaf, so the read ends at most 8 bits past `bitLen`.
   */
  lemma {:induction false} ReadWidthBound(bitLen: int, input: seq<bool>, r: Reader, at: Path)
    requires |r.leaves| == 256
    requires r.bitcounter <= |input|
    ensures var res := ReadNode(BitGuard(bitLen), input, r, at);
      res.Parsed? && Full(res.tree) ==>
        res.reader.bitcounter == r.bitcounter + Width(res.tree) && res.reader.bitcounter <= bitLen + 8
    decreases |input| - r.bitcounter, 1
  {
    if !Stops(BitGuard(bitLen), r) && r.bitcounter < |input| && !input[r.bitcounter] {
      ChildrenWidthBound(bitLen, input, Reader(r.index, r.bitcounter + 1, r.leaves), at);
    }
  }

  /** The same bound for the two children of an internal node, read from `r`. */
  lemma {:induction false} ChildrenWidthBound(bitLen: int, input: seq<bool>, r: Reader, at: Path)
    requires |r.leaves| == 256
    requires 0 < r.bitcounter <= |input|
    ensures var res := ReadChildren(BitGuard(bitLen), input, r, at);
      res.Parsed? && Full(res.tree) ==>
        res.reader.bitcounter == r.bitcounter + Width(res.tree) - 1 && res.reader.bitcounter <= bitLen + 8
    decreases |input| - r.bitcounter + 1, 0
  {
    var g := BitGuard(bitLen);
    var first := ReadNode(g, input, r.(index := r.index + 1), at + [false]);
    ReadWidthBound(bitLen, input, r.(index := r.index + 1), at + [false]);
    if first.Parsed? {
      var r2 := first.reader;
      ReadWidthBound(bitLen, input, r2.(index := r2.index + 1), at + [true]);
    }
  }

  /**
    As written, `deserialize` loses any full tree with more nodes than
    `len`: whatever it reads, a full root it returns has at most `len`
    nodes, so it is never that tree.
   */
  lemma {:induction false} NodeGuardLosesTree(t: Tree, len: int, input: seq<bool>)
    requires Full(t)
    requires len < Size(t)
    ensures var d := Deserialize(Empty(), len, input);
      d.Success? ==> d.value.0.root != Strip(t)
  {
    StripKeepsLeaves(t, 0);
  }

  /**
    The round trip of `deserialize` with the guard on the bits read: when
    the `len` bytes the caller reports cover the shape bits, the tree comes
    back with weights 0 and its leaf table, and the bits after the pad are
    left unread.
   */
  lemma {:induction false} BoundedRoundTrip(t: Tree, len: int, pad: seq<bool>, rest: seq<bool>)
    requires Full(t)
    requires |Shape(t)| <= 8 * len
    requires |pad| == SkipLength(|Shape(t)|)
    ensures DeserializeBounded(Empty(), len, Shape(t) + pad + rest) == Success((Coder(Strip(t), LeafTable(t), false), rest))
    ensures Valid(Coder(Strip(t), LeafTable(t), false))
  {
    WidthShape(t);
    ShapeRoundTripWith(BitGuard(8 * len), t, pad, rest);
    StrippedValid(t);
  }

  /**
    What `serialize` writes for a valid tree object, followed by anything,
    is read back by the bounded `deserialize` as the tree with weights 0
    and the same leaf table, leaving the following bits unread.
   */
  lemma {:induction false} SerializeRoundTrip(c: Coder, len: int, rest: seq<bool>)
    requires Valid(c) && c.root != Null
    requires |Serialize(c).bits| <= 8 * len
    ensures DeserializeBounded(Empty(), len, Serialize(c).bits + rest) == Success((Coder(Strip(c.root), LeafTable(c.root), false), rest))
  {
    var shape := Shape(c.root);
    ShapeLength(c.root);
    PadsAgree(|shape|);
    var pad := Zeros(FlushLength(|shape|));
    assert Serialize(c).bits + rest == shape + pad + rest;
    BoundedRoundTrip(c.root, len, pad, rest);
  }

  /**
    The input "abcd": four bytes once each give a full tree of 4 leaves and
    7 nodes, balanced, so the four codes take 8 bits. After the header the
    stream holds 39 shape bits, 1 pad bit and the 8 code bits: 6 bytes,
    the `len` that `decompress` passes. As written the read stops at node
    6 and the tree is lost; with the guard on bits it comes back whole.
   */
  lemma {:induction false} FourSymbolsLoseLeaf(t: Tree, pad: seq<bool>, codes: seq<bool>)
    requires Full(t) && LeafCount(t) == 4
    requires |pad| == FlushLength(|Shape(t)|)
    requires |codes| == 8
    ensures |Shape(t) + pad + codes| == 8 * 6
    ensures Size(t) == 7
    ensures var d := Deserialize(Empty(), 6, Shape(t) + pad + codes);
      d.Success? ==> d.value.0.root != Strip(t)
    ensures DeserializeBounded(Empty(), 6, Shape(t) + pad + codes) == Success((Coder(Strip(t), LeafTable(t), false), codes))
  {
    ShapeLength(t);
    FullSize(t);
    PadsAgree(|Shape(t)|);
    NodeGuardLosesTree(t, 6, Shape(t) + pad + codes);
    BoundedRoundTrip(t, 6, pad, codes);
  }

  /** The sizes of a balanced tree of four leaves. */
  lemma {:induction false} BalancedFour(t: Tree)
    requires t.Node? && t.c0.Node? && t.c1.Node?
    requires t.c0.c0.Leaf? && t.c0.c1.Leaf? && t.c1.c0.Leaf? && t.c1.c1.Leaf?
    ensures Full(t) && |Shape(t)| == 39
    ensures Full(t.c0) && Width(t.c0) == 19 && Size(t.c0) == 3
    ensures Full(t.c1.c0)
  {
    var Node(_, l, r) := t;
    assert Full(l.c0) && Full(l.c1) && Full(r.c0) && Full(r.c1);
    assert Full(l) && LeafCount(l) == 2;
    assert Full(r) && LeafCount(r) == 2;
    ShapeLength(t);
  }

  /**
    With `len` 6, an internal node read as the fifth node keeps its first
    leaf, the sixth node, and loses its second to the guard.
   */
  lemma {:induction false} SecondPairCut(input: seq<bool>, p: nat, leaves: seq<Option<Path>>, t: Tree)
    requires |leaves| == 256
    requires t.Node? && t.c0.Leaf? && Encoded(input, p, t)
    ensures ReadNode(NodeGuard(6), input, Reader(4, p, leaves), [true])
         == Parsed(Node(0, Strip(t.c0), Null), Reader(6, p + 10, After(Reader(5, p + 1, leaves), [true, false], t.c0).leaves))
  {
    var g := NodeGuard(6);
    assert [true] + [false] == [true, false] && [true] + [true] == [true, true];
    ReadNodeChildren(g, input, Reader(4, p, leaves), [true]);
    ReadNodeRoundTrip(g, input, Reader(5, p + 1, leaves), [true, false], t.c0);
    var r3 := After(Reader(5, p + 1, leaves), [true, false], t.c0);
    assert ReadNode(g, input, Reader(6, p + 10, r3.leaves), [true, true]) == Parsed(Null, Reader(6, p + 10, r3.leaves));
    ReadChildrenStep(g, input, Reader(4, p + 1, leaves), [true], Strip(t.c0), r3, Null, Reader(6, p + 10, r3.leaves));
  }

  /**
    The as-written read of a balanced tree of four leaves, the shape `build`
    gives four bytes of equal frequency: with `len` 6 the guard stops at the
    seventh node, so the last leaf comes back as a null pointer, and the
    remaining stream starts at bit 32, the 8 bits of that leaf's symbol and
    padding that precede the payload.
   */
  lemma {:induction false} BalancedFourAsWritten(t: Tree, pad: seq<bool>, codes: seq<bool>)
    requires t.Node? && t.c0.Node? && t.c1.Node?
    requires t.c0.c0.Leaf? && t.c0.c1.Leaf? && t.c1.c0.Leaf? && t.c1.c1.Leaf?
    requires |pad| == 1 && |codes| == 8
    ensures var input := Shape(t) + pad + codes;
      var d := Deserialize(Empty(), 6, input);
      && |input| == 48
      && d.Success?
      && d.value.0.root == Node(0, Strip(t.c0), Node(0, Strip(t.c1.c0), Null))
      && d.value.1 == input[32..]
      && |d.value.1| == |codes| + 8
  {
    var input := Shape(t) + pad + codes;
    var g := NodeGuard(6);
    var e := Empty().leaves;
    BalancedFour(t);
    assert [] + Shape(t) + (pad + codes) == input;
    EncodedShape([], t, pad + codes);
    var Node(_, c0, c1) := t;
    assert [] + [false] == [false] && [] + [true] == [true];
    assert Encoded(input, 0, t);
    assert Encoded(input, 20, c1);
    // The root and its first subtree, which fits under the guard.
    ReadNodeChildren(g, input, Reader(0, 0, e), []);
    ReadNodeRoundTrip(g, input, Reader(1, 1, e), [false], c0);
    AfterCounts(Reader(1, 1, e), [false], c0);
    var r2 := After(Reader(1, 1, e), [false], c0);
    var r3 := After(Reader(5, 21, r2.leaves), [true, false], c1.c0);
    SecondPairCut(input, 20, r2.leaves, c1);
    ReadChildrenStep(g, input, Reader(0, 1, e), [], Strip(c0), r2,
                     Node(0, Strip(c1.c0), Null), Reader(6, 30, r3.leaves));
    assert SkipLength(30) == 2;
    assert Deserialize(Empty(), 6, input) == Success((Coder(Node(0, Strip(c0), Node(0, Strip(c1.c0), Null)), r3.leaves, false), input[32..]));
  }
}
