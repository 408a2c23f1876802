/**
  The coding tree object (`HCTree`): a root pointer and a table of 256 leaf
  pointers, one per byte value, with the two coding operations. `Encode`
  walks from a symbol's leaf up to the root and emits the choices in
  root-to-leaf order; `Decode` walks from the root down, one bit per
  internal node, to a leaf.
 */
module Codec {
  import opened Results
  import opened Bits
  import opened Nodes

  /**
    The tree object: `root` and `leaves`, where `leaves[b]` is the address of
    b's leaf. `linked` says whether every node below the root has its parent
    pointer `p` set: `build` links each merged tree to its new parent, while
    `deseriallization` creates its nodes and never assigns `p`.
   */
  datatype Coder = Coder(root: Tree, leaves: seq<Option<Path>>, linked: bool)

  /** A decoded symbol and the bits left unread after it. */
  datatype Decoded = Decoded(symbol: Byte, rest: seq<bool>)

  /**
    The tree invariant: no internal node with a single child, and each
    non-null entry `leaves[b]` points at a leaf of `root` that holds `b`;
    an entry is null exactly when no leaf holds its byte.
   */
  predicate Valid(c: Coder)
  {
    && |c.leaves| == 256
    && (c.root == Null || Full(c.root))
    && (forall b: Byte :: c.leaves[b].Some? <==> Occurrences(c.root, b) > 0)
    && (forall b: Byte :: c.leaves[b].Some? ==> LeafAt(c.root, c.leaves[b].value, b))
  }

  /** A freshly constructed tree object: null root and 256 null leaf pointers. */
  function Empty(): (c: Coder)
    ensures c.root == Null
    ensures |c.leaves| == 256 && forall b: Byte :: c.leaves[b] == None
    ensures Valid(c)
  {
    Coder(Null, seq(256, _ => None), true)
  }

  /** The leaf table of `t`: for every byte, the address of the (last) leaf holding it. */
  function LeafTable(t: Tree): seq<Option<Path>>
  {
    seq(256, b requires 0 <= b < 256 => PathTo(t, b))
  }

  /** The table of a null or full tree makes a valid tree object. */
  lemma LeafTableValid(t: Tree, linked: bool)
    requires t == Null || Full(t)
    ensures Valid(Coder(t, LeafTable(t), linked))
  {
  }

  /** `s` backwards, as `reverse` leaves it. */
  function Reverse(s: seq<bool>): (r: seq<bool>)
    ensures |r| == |s|
    ensures forall i :: 0 <= i < |s| ==> r[i] == s[|s| - 1 - i]
  {
    if s == [] then [] else Reverse(s[1..]) + [s[0]]
  }

  /**
    Appends to `out` the code of `s`. The walk starts at `leaves[s]` and
    climbs to the root, recording 0 when the node is its parent's `c0` and 1
    when it is `c1`; the record is then reversed and written out. Each step
    up follows a parent pointer, so unless the leaf is the root itself the
    parent pointers must have been set.
   */
  method Encode(c: Coder, s: Byte, out: seq<bool>) returns (written: seq<bool>)
    requires Valid(c)
    requires c.leaves[s].Some?
    requires c.linked || c.leaves[s].value == []
    ensures written == out + c.leaves[s].value
    ensures LeafAt(c.root, written[|out|..], s)
  {
    var leaf := c.leaves[s].value;
    var node := leaf;
    var buffer: seq<bool> := [];
    while node != []
      invariant |node| + |buffer| == |leaf|
      invariant node == leaf[..|node|]
      invariant forall i :: 0 <= i < |buffer| ==> buffer[i] == leaf[|leaf| - 1 - i]
      decreases |node|
    {
      buffer := buffer + [node[|node| - 1]];
      node := node[..|node| - 1];
    }
    var code := Reverse(buffer);
    assert code == leaf;
    written := out + code;
    assert written[|out|..] == code;
  }

  /**
    Reads one symbol: from the root, while the node has two children, read a
    bit and go to `c0` on 0 and `c1` on 1; return the symbol of the node
    reached. A node with a null child stops the walk like a leaf does.
   */
  function Decode(t: Tree, input: seq<bool>): (r: Result<Decoded>)
    requires t != Null
    ensures r.Success? ==> |r.value.rest| <= |input|
    ensures r.Success? ==> r.value.rest == input[|input| - |r.value.rest|..]
    ensures Full(t) ==> (r.Failure? <==> Subtree(t, input).Node?)
    ensures Full(t) && r.Success? ==>
      LeafAt(t, input[..|input| - |r.value.rest|], r.value.symbol)
    decreases |input|
  {
    match t
    case Leaf(s, _) =>
      Success(Decoded(s, input))
    case Node(_, c0, c1) =>
      if c0 == Null || c1 == Null then
        assert !Full(t);
        Success(Decoded(InternalSymbol, input))
      else if input == [] then Failure(TruncatedStream)
      else
        var r := Decode(if input[0] then c1 else c0, input[1..]);
        DecodeStep(t, input, r);
        r
  }

  /** One step of `Decode` at an internal node: what the child's result on the tail says of the node. */
  lemma DecodeStep(t: Tree, input: seq<bool>, r: Result<Decoded>)
    requires t.Node? && t.c0 != Null && t.c1 != Null && input != []
    requires r.Success? ==> |r.value.rest| < |input| && r.value.rest == input[1..][|input| - 1 - |r.value.rest|..]
    requires Full(t) ==> (r.Failure? <==> Subtree(if input[0] then t.c1 else t.c0, input[1..]).Node?)
    requires Full(t) && r.Success? ==>
      LeafAt(if input[0] then t.c1 else t.c0, input[1..][..|input| - 1 - |r.value.rest|], r.value.symbol)
    ensures r.Success? ==> r.value.rest == input[|input| - |r.value.rest|..]
    ensures Full(t) ==> (r.Failure? <==> Subtree(t, input).Node?)
    ensures Full(t) && r.Success? ==> LeafAt(t, input[..|input| - |r.value.rest|], r.value.symbol)
  {
    if r.Success? {
      var k := |input| - |r.value.rest|;
      assert input[..k][1..] == input[1..][..k - 1];
      assert input[..k][0] == input[0];
    }
  }

  /** Decoding the address of a leaf, followed by anything, yields that leaf's symbol and leaves the rest unread. */
  lemma {:induction false} DecodePath(t: Tree, p: Path, rest: seq<bool>)
    requires Full(t)
    requires Subtree(t, p).Leaf?
    ensures Decode(t, p + rest) == Success(Decoded(Subtree(t, p).symbol, rest))
    decreases |p|
  {
    if p == [] {
      assert p + rest == rest;
    } else {
      assert (p + rest)[0] == p[0];
      assert (p + rest)[1..] == p[1..] + rest;
      DecodePath(if p[0] then t.c1 else t.c0, p[1..], rest);
    }
  }

  /** The prefix round trip: decoding the code `Encode` writes for `s`, followed by anything, yields `s` and the rest. */
  lemma EncodeDecode(c: Coder, s: Byte, rest: seq<bool>)
    requires Valid(c)
    requires c.leaves[s].Some?
    ensures c.root != Null
    ensures Decode(c.root, c.leaves[s].value + rest) == Success(Decoded(s, rest))
  {
    DecodePath(c.root, c.leaves[s].value, rest);
  }

  /** No symbol's code is a prefix of another symbol's code. */
  lemma PrefixFree(c: Coder, s1: Byte, s2: Byte)
    requires Valid(c)
    requires c.leaves[s1].Some? && c.leaves[s2].Some?
    requires s1 != s2
    ensures var p, q := c.leaves[s1].value, c.leaves[s2].value;
      !(|p| <= |q| && q[..|p|] == p)
  {
    var p, q := c.leaves[s1].value, c.leaves[s2].value;
    if |p| <= |q| && q[..|p|] == p {
      var d := q[|p|..];
      assert q == p + d;
      SubtreeAppend(c.root, p, d);
    }
  }

  /** Leaf weights play no part in decoding. */
  lemma {:induction false} DecodeStripped(t: Tree, input: seq<bool>)
    requires t != Null
    ensures Decode(Strip(t), input) == Decode(t, input)
    decreases |input|
  {
    match t
    case Leaf(_, _) =>
    case Node(_, c0, c1) =>
      assert Strip(t) == Node(0, Strip(c0), Strip(c1));
      assert Strip(c0) == Null <==> c0 == Null;
      assert Strip(c1) == Null <==> c1 == Null;
      if c0 != Null && c1 != Null && input != [] {
        DecodeStripped(if input[0] then c1 else c0, input[1..]);
      }
  }
}
