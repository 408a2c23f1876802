/**
  The nodes of a Huffman coding tree (an `HCNode` and the pointers to it).

  A pointer to a node becomes the node's address: the path of child choices
  from the root, `false` for `c0` and `true` for `c1`. The root's address is
  the empty path, and stepping to the parent drops the last choice, so the
  parent back-pointer needs no field of its own.
 */
module Nodes {
  import opened Results
  import opened Bits

  /** The address of a node: the child choices from the root, `false` = c0, `true` = c1. */
  type Path = seq<bool>

  /** The symbol an internal node carries (the character '`'). */
  const InternalSymbol: Byte := 96

  /**
    A node pointer. `Null` is the null pointer; a `Leaf` has no children;
    a `Node` is an internal node with its subtrees `c0` and `c1`.
   */
  datatype Tree =
    | Null
    | Leaf(symbol: Byte, count: nat)
    | Node(count: nat, c0: Tree, c1: Tree)

  /** Every internal node has two non-null children, and the tree itself is not null. */
  predicate Full(t: Tree)
  {
    match t
    case Null => false
    case Leaf(_, _) => true
    case Node(_, c0, c1) => Full(c0) && Full(c1)
  }

  /** Every internal node weighs the sum of its two children. */
  predicate WellWeighted(t: Tree)
  {
    match t
    case Null => true
    case Leaf(_, _) => true
    case Node(w, c0, c1) =>
      && c0 != Null && c1 != Null
      && w == c0.count + c1.count
      && WellWeighted(c0) && WellWeighted(c1)
  }

  /** The number of (non-null) nodes. */
  function Size(t: Tree): nat
  {
    match t
    case Null => 0
    case Leaf(_, _) => 1
    case Node(_, c0, c1) => 1 + Size(c0) + Size(c1)
  }

  /** The number of leaves. */
  function LeafCount(t: Tree): nat
  {
    match t
    case Null => 0
    case Leaf(_, _) => 1
    case Node(_, c0, c1) => LeafCount(c0) + LeafCount(c1)
  }

  /** How many leaves carry symbol `b`. */
  function Occurrences(t: Tree, b: Byte): nat
  {
    match t
    case Null => 0
    case Leaf(s, _) => if s == b then 1 else 0
    case Node(_, c0, c1) => Occurrences(c0, b) + Occurrences(c1, b)
  }

  /** The node at address `p`, or `Null` when the walk leaves the tree. */
  function Subtree(t: Tree, p: Path): Tree
  {
    if p == [] then t
    else match t
      case Node(_, c0, c1) => Subtree(if p[0] then c1 else c0, p[1..])
      case _ => Null
  }

  /** A leaf of `t` carrying symbol `b` sits at address `p`. */
  predicate LeafAt(t: Tree, p: Path, b: Byte)
  {
    Subtree(t, p).Leaf? && Subtree(t, p).symbol == b
  }

  /**
    The address of the last leaf, in preorder, that carries `b`: the leaf a
    table overwritten in preorder ends up pointing to.
   */
  function PathTo(t: Tree, b: Byte): (r: Option<Path>)
    ensures r.Some? <==> Occurrences(t, b) > 0
    ensures r.Some? ==> LeafAt(t, r.value, b)
  {
    match t
    case Null => None
    case Leaf(s, _) => if s == b then Some([]) else None
    case Node(_, c0, c1) =>
      match PathTo(c1, b)
      case Some(p) =>
        assert ([true] + p)[1..] == p;
        Some([true] + p)
      case None =>
        match PathTo(c0, b)
        case Some(p) =>
          assert ([false] + p)[1..] == p;
          Some([false] + p)
        case None => None
  }

  /** The same tree with every weight set to 0, as `deseriallization` rebuilds it. */
  function Strip(t: Tree): Tree
  {
    match t
    case Null => Null
    case Leaf(s, _) => Leaf(s, 0)
    case Node(_, c0, c1) => Node(0, Strip(c0), Strip(c1))
  }

  /** Walking `p` and then `q` is walking `p + q`. */
  lemma {:induction false} SubtreeAppend(t: Tree, p: Path, q: Path)
    ensures Subtree(t, p + q) == Subtree(Subtree(t, p), q)
    decreases |p|
  {
    if p == [] {
      assert p + q == q;
    } else if t.Node? {
      assert (p + q)[0] == p[0];
      assert (p + q)[1..] == p[1..] + q;
      SubtreeAppend(if p[0] then t.c1 else t.c0, p[1..], q);
    } else {
      assert (p + q) != [];
      if q != [] {
        assert Subtree(Null, q) == Null;
      }
    }
  }

  /** When only one leaf carries `b`, that leaf is the one `PathTo` finds. */
  lemma {:induction false} UniqueLeaf(t: Tree, p: Path, b: Byte)
    requires Occurrences(t, b) == 1
    requires LeafAt(t, p, b)
    ensures PathTo(t, b) == Some(p)
    decreases |p|
  {
    match t
    case Leaf(_, _) =>
    case Node(_, c0, c1) =>
      if p[0] {
        OccurrencesOfLeaf(c1, p[1..], b);
        UniqueLeaf(c1, p[1..], b);
        assert [true] + p[1..] == p;
      } else {
        OccurrencesOfLeaf(c0, p[1..], b);
        assert Occurrences(c1, b) == 0;
        UniqueLeaf(c0, p[1..], b);
        assert [false] + p[1..] == p;
      }
  }

  /** A leaf carrying `b` is counted among the occurrences of `b`. */
  lemma {:induction false} OccurrencesOfLeaf(t: Tree, p: Path, b: Byte)
    requires LeafAt(t, p, b)
    ensures Occurrences(t, b) >= 1
    decreases |p|
  {
    if p != [] {
      match t
      case Node(_, c0, c1) =>
        OccurrencesOfLeaf(if p[0] then c1 else c0, p[1..], b);
    }
  }

  /** Stripping the weights keeps every address and every leaf symbol. */
  lemma {:induction false} StripKeepsShape(t: Tree, p: Path)
    ensures Subtree(Strip(t), p) == Strip(Subtree(t, p))
    decreases |p|
  {
    if p != [] {
      match t
      case Null =>
      case Leaf(_, _) =>
      case Node(_, c0, c1) =>
        StripKeepsShape(if p[0] then c1 else c0, p[1..]);
    }
  }

  /** Stripping the weights keeps fullness, leaf symbols and their addresses. */
  lemma {:induction false} StripKeepsLeaves(t: Tree, b: Byte)
    ensures Full(Strip(t)) == Full(t)
    ensures Size(Strip(t)) == Size(t)
    ensures PathTo(Strip(t), b) == PathTo(t, b)
  {
    match t
    case Null =>
    case Leaf(_, _) =>
    case Node(_, c0, c1) =>
      StripKeepsLeaves(c0, b);
      StripKeepsLeaves(c1, b);
  }

  /** A full tree has one fewer internal node than leaves. */
  lemma {:induction false} FullSize(t: Tree)
    requires Full(t)
    ensures Size(t) == 2 * LeafCount(t) - 1
    ensures LeafCount(t) >= 1
  {
    match t
    case Leaf(_, _) =>
    case Node(_, c0, c1) =>
      FullSize(c0);
      FullSize(c1);
  }
}
