/**
  Tree construction (`build`): one single-leaf tree per byte that occurs,
  then the greedy Huffman merge, which repeatedly takes the two lightest
  trees out of the queue and puts back a new internal node over them.

  The queue's comparator is not part of this model. The queue here is a
  sequence in arrival order (leaves by byte value, each merged node at the
  end) and a pop takes the first tree of least weight. Every property below
  holds whatever order breaks ties between equal weights.
 */
module Builder {
  import opened Results
  import opened Bits
  import opened Nodes
  import opened Codec

  /** The sum of a frequency table. */
  function Sum(s: seq<nat>): nat
  {
    if s == [] then 0 else s[0] + Sum(s[1..])
  }

  /** The weight of a tree, 0 for the null pointer. */
  function Weight(t: Tree): nat
  {
    match t
    case Null => 0
    case Leaf(_, w) => w
    case Node(w, _, _) => w
  }

  /** Every leaf of `t` holds a byte of the table with exactly that byte's frequency. */
  predicate WeighsFrequencies(t: Tree, freqs: seq<nat>)
  {
    match t
    case Null => true
    case Leaf(s, w) => s < |freqs| && w == freqs[s]
    case Node(_, c0, c1) => WeighsFrequencies(c0, freqs) && WeighsFrequencies(c1, freqs)
  }

  /** What every tree in the queue satisfies while `build` runs. */
  predicate Sound(t: Tree, freqs: seq<nat>)
  {
    t != Null && Full(t) && WellWeighted(t) && WeighsFrequencies(t, freqs)
  }

  /** The total weight of the trees in a queue. */
  function TotalWeight(q: seq<Tree>): nat
  {
    if q == [] then 0 else Weight(q[0]) + TotalWeight(q[1..])
  }

  /** How many leaves of the trees in a queue hold `b`. */
  function TotalOccurrences(q: seq<Tree>, b: Byte): nat
  {
    if q == [] then 0 else Occurrences(q[0], b) + TotalOccurrences(q[1..], b)
  }

  /**
    The first loop of `build`: a leaf for each byte `i >= start` with
    `freqs[i] != 0`, carrying `i` and `freqs[i]`, in byte order.
   */
  function InitialQueue(freqs: seq<nat>, start: nat): (q: seq<Tree>)
    requires |freqs| <= 256 && start <= |freqs|
    ensures forall k :: 0 <= k < |q| ==>
      && q[k].Leaf? && start <= q[k].symbol < |freqs|
      && q[k].count == freqs[q[k].symbol] && q[k].count != 0
    ensures forall k, l :: 0 <= k < l < |q| ==> q[k].symbol < q[l].symbol
    decreases |freqs| - start
  {
    if start == |freqs| then []
    else
      var tail := InitialQueue(freqs, start + 1);
      if freqs[start] != 0 then [Leaf(start, freqs[start])] + tail else tail
  }

  /** The first loop misses no byte: every `b >= start` with `freqs[b] != 0` has a leaf in the queue. */
  lemma {:induction false} InitialQueueHolds(freqs: seq<nat>, start: nat, b: nat)
    requires |freqs| <= 256 && start <= b < |freqs|
    requires freqs[b] != 0
    ensures exists k :: 0 <= k < |InitialQueue(freqs, start)| && InitialQueue(freqs, start)[k].symbol == b
    decreases |freqs| - start
  {
    var q := InitialQueue(freqs, start);
    if b == start {
      assert q[0].symbol == b;
    } else {
      var tail := InitialQueue(freqs, start + 1);
      InitialQueueHolds(freqs, start + 1, b);
      var k :| 0 <= k < |tail| && tail[k].symbol == b;
      if freqs[start] != 0 {
        assert q[k + 1] == tail[k];
      } else {
        assert q[k] == tail[k];
      }
    }
  }

  /**
    The position of the tree `pq.top()` returns: one of least weight, the
    first such in queue order.
   */
  function MinIndex(q: seq<Tree>): (m: nat)
    requires |q| > 0
    requires forall k :: 0 <= k < |q| ==> q[k] != Null
    ensures m < |q|
    ensures forall k :: 0 <= k < |q| ==> q[m].count <= q[k].count
    ensures forall k :: 0 <= k < m ==> q[k].count > q[m].count
  {
    if |q| == 1 then 0
    else
      var m := MinIndex(q[..|q| - 1]);
      if q[|q| - 1].count < q[m].count then |q| - 1 else m
  }

  /** The queue without its `m`-th tree. */
  function Remove(q: seq<Tree>, m: nat): (r: seq<Tree>)
    requires m < |q|
    ensures |r| == |q| - 1
    ensures forall k :: 0 <= k < |r| ==> r[k] == q[if k < m then k else k + 1]
  {
    q[..m] + q[m + 1..]
  }

  /**
    One round of the merge loop: pop the lightest tree, then the next
    lightest, and push a new node over them (first as `c0`, second as `c1`)
    weighing their sum.
   */
  function Step(q: seq<Tree>): (next: seq<Tree>)
    requires |q| >= 2
    requires forall k :: 0 <= k < |q| ==> q[k] != Null
    ensures |next| == |q| - 1
    ensures forall k :: 0 <= k < |next| ==> next[k] != Null
  {
    var i := MinIndex(q);
    var first := q[i];
    var rest := Remove(q, i);
    var j := MinIndex(rest);
    var second := rest[j];
    Remove(rest, j) + [Node(first.count + second.count, first, second)]
  }

  /** The merge loop of `build`: merge while more than one tree is queued; the last tree left is the root. */
  function Merge(q: seq<Tree>): (t: Tree)
    requires |q| >= 1
    requires forall k :: 0 <= k < |q| ==> q[k] != Null
    ensures t != Null
    ensures |q| == 1 ==> t == q[0]
    ensures |q| >= 2 ==> t.Node?
    decreases |q|
  {
    if |q| == 1 then q[0] else Merge(Step(q))
  }

  /** The root `build` leaves: the merged queue, or null when no byte occurs. */
  function BuiltRoot(freqs: seq<nat>): Tree
    requires |freqs| <= 256
  {
    var q := InitialQueue(freqs, 0);
    if q == [] then Null else Merge(q)
  }

  /**
    `build` on a freshly constructed tree object: the root is the merged
    tree, or null when no byte occurs, and `leaves[b]` is the address of the
    leaf created for `b`. The result is a valid tree object with its parent
    pointers set; the root is full with every internal node weighing the sum
    of its children and weighs the sum of all frequencies; each byte with a
    nonzero frequency has exactly one leaf and every other byte has none.
   */
  function Build(freqs: seq<nat>): (c: Coder)
    requires |freqs| <= 256
    ensures Valid(c) && c.linked
    ensures c.root != Null ==> Full(c.root) && WellWeighted(c.root)
    ensures Weight(c.root) == Sum(freqs)
    ensures forall b: Byte :: Occurrences(c.root, b) == if b < |freqs| && freqs[b] != 0 then 1 else 0
  {
    var root := BuiltRoot(freqs);
    BuiltRootSound(freqs);
    LeafTableValid(root, true);
    Coder(root, LeafTable(root), true)
  }

  /** Queue totals add up over concatenation. */
  lemma {:induction false} TotalsConcat(a: seq<Tree>, c: seq<Tree>)
    ensures TotalWeight(a + c) == TotalWeight(a) + TotalWeight(c)
    ensures forall b: Byte :: TotalOccurrences(a + c, b) == TotalOccurrences(a, b) + TotalOccurrences(c, b)
    decreases |a|
  {
    if a == [] {
      assert a + c == c;
    } else {
      assert (a + c)[0] == a[0];
      assert (a + c)[1..] == a[1..] + c;
      TotalsConcat(a[1..], c);
    }
  }

  /** Taking a tree out of the queue takes its weight and its leaves out of the totals. */
  lemma TotalsRemove(q: seq<Tree>, m: nat)
    requires m < |q|
    ensures TotalWeight(q) == TotalWeight(Remove(q, m)) + Weight(q[m])
    ensures forall b: Byte ::
      TotalOccurrences(q, b) == TotalOccurrences(Remove(q, m), b) + Occurrences(q[m], b)
  {
    assert q == q[..m] + ([q[m]] + q[m + 1..]);
    TotalsConcat(q[..m], [q[m]] + q[m + 1..]);
    TotalsConcat([q[m]], q[m + 1..]);
    TotalsConcat(q[..m], q[m + 1..]);
    assert ([q[m]] + q[m + 1..])[1..] == q[m + 1..];
  }

  /**
    A round of the merge keeps every queued tree sound, the queue's total
    weight, and the queue's leaves: the two popped trees become the children
    of a node that weighs their sum.
   */
  lemma StepKeeps(q: seq<Tree>, freqs: seq<nat>)
    requires |q| >= 2
    requires forall k :: 0 <= k < |q| ==> q[k] != Null && Sound(q[k], freqs)
    ensures forall k :: 0 <= k < |Step(q)| ==> Step(q)[k] != Null && Sound(Step(q)[k], freqs)
    ensures TotalWeight(Step(q)) == TotalWeight(q)
    ensures forall b: Byte :: TotalOccurrences(Step(q), b) == TotalOccurrences(q, b)
  {
    var i := MinIndex(q);
    var rest := Remove(q, i);
    var j := MinIndex(rest);
    var node := Node(q[i].count + rest[j].count, q[i], rest[j]);
    var kept := Remove(rest, j);
    assert Step(q) == kept + [node];
    assert Sound(node, freqs);
    forall k | 0 <= k < |kept| + 1
      ensures Sound((kept + [node])[k], freqs)
    {
      if k < |kept| {
        assert (kept + [node])[k] == kept[k];
      }
    }
    TotalsRemove(q, i);
    TotalsRemove(rest, j);
    TotalsConcat(kept, [node]);
    assert [node][1..] == [];
    forall b: Byte
      ensures TotalOccurrences(Step(q), b) == TotalOccurrences(q, b)
    {
      assert TotalOccurrences([node], b) == Occurrences(q[i], b) + Occurrences(rest[j], b);
    }
  }

  /**
    The merge keeps the weight invariants: the result is full, every
    internal node weighs the sum of its children, the root weighs the total
    of the queue, and the leaves are exactly the queue's leaves.
   */
  lemma {:induction false} MergeKeeps(q: seq<Tree>, freqs: seq<nat>)
    requires |q| >= 1
    requires forall k :: 0 <= k < |q| ==> q[k] != Null && Sound(q[k], freqs)
    ensures Sound(Merge(q), freqs)
    ensures Weight(Merge(q)) == TotalWeight(q)
    ensures forall b: Byte :: Occurrences(Merge(q), b) == TotalOccurrences(q, b)
    decreases |q|
  {
    if |q| == 1 {
      assert q[1..] == [];
    } else {
      StepKeeps(q, freqs);
      MergeKeeps(Step(q), freqs);
    }
  }

  /** The initial queue holds one leaf per occurring byte and weighs the whole table. */
  lemma {:induction false} InitialTotals(freqs: seq<nat>, start: nat)
    requires |freqs| <= 256 && start <= |freqs|
    ensures TotalWeight(InitialQueue(freqs, start)) == Sum(freqs[start..])
    ensures forall b: Byte ::
      TotalOccurrences(InitialQueue(freqs, start), b) == (if start <= b < |freqs| && freqs[b] != 0 then 1 else 0)
    decreases |freqs| - start
  {
    if start < |freqs| {
      InitialTotals(freqs, start + 1);
      assert freqs[start..][1..] == freqs[start + 1..];
      var tail := InitialQueue(freqs, start + 1);
      if freqs[start] != 0 {
        assert ([Leaf(start, freqs[start])] + tail)[1..] == tail;
      }
    }
  }

  /** A leaf reached in a tree weighing its frequencies carries its byte's frequency. */
  lemma {:induction false} LeafWeight(t: Tree, freqs: seq<nat>, p: Path)
    requires WeighsFrequencies(t, freqs)
    requires Subtree(t, p).Leaf?
    ensures Subtree(t, p).symbol < |freqs|
    ensures Subtree(t, p).count == freqs[Subtree(t, p).symbol]
    decreases |p|
  {
    if p != [] {
      LeafWeight(if p[0] then t.c1 else t.c0, freqs, p[1..]);
    }
  }

  /** The merge's invariants carried to the built root. */
  lemma BuiltRootSound(freqs: seq<nat>)
    requires |freqs| <= 256
    ensures var root := BuiltRoot(freqs);
      && (root != Null ==> Sound(root, freqs))
      && Weight(root) == Sum(freqs)
      && forall b: Byte :: Occurrences(root, b) == if b < |freqs| && freqs[b] != 0 then 1 else 0
  {
    var q := InitialQueue(freqs, 0);
    InitialTotals(freqs, 0);
    assert freqs[0..] == freqs;
    if q != [] {
      forall k | 0 <= k < |q|
        ensures Sound(q[k], freqs)
      {
      }
      MergeKeeps(q, freqs);
    }
  }

  /** `build` creates a leaf for byte `b`, holding `b` and `freqs[b]`, exactly when `freqs[b] != 0`, and `leaves[b]` points to it. */
  lemma BuildLeaves(freqs: seq<nat>, b: Byte)
    requires |freqs| <= 256
    ensures var c := Build(freqs);
      && (c.leaves[b].Some? <==> b < |freqs| && freqs[b] != 0)
      && (c.leaves[b].Some? ==> Subtree(c.root, c.leaves[b].value) == Leaf(b, freqs[b]))
  {
    var c := Build(freqs);
    if c.leaves[b].Some? {
      BuiltRootSound(freqs);
      LeafWeight(c.root, freqs, c.leaves[b].value);
    }
  }

  /** The leaf of a byte is unique: any leaf of the built tree holding `b` is the one `leaves[b]` points to. */
  lemma BuildUniqueLeaf(freqs: seq<nat>, b: Byte, p: Path)
    requires |freqs| <= 256
    requires LeafAt(Build(freqs).root, p, b)
    ensures Build(freqs).leaves[b] == Some(p)
  {
    var c := Build(freqs);
    OccurrencesOfLeaf(c.root, p, b);
    UniqueLeaf(c.root, p, b);
  }

  /** Exactly one byte of the table has a nonzero frequency. */
  predicate OneSymbol(freqs: seq<nat>)
  {
    exists i :: 0 <= i < |freqs| && freqs[i] != 0 &&
      forall j :: 0 <= j < |freqs| && freqs[j] != 0 ==> j == i
  }

  /**
    The root is null exactly when every frequency is zero, and is a single
    leaf exactly when one byte occurs; then that byte's code is empty.
   */
  lemma BuildRoot(freqs: seq<nat>)
    requires |freqs| <= 256
    ensures var c := Build(freqs);
      && (c.root == Null <==> forall i :: 0 <= i < |freqs| ==> freqs[i] == 0)
      && (c.root.Leaf? <==> OneSymbol(freqs))
      && (c.root.Leaf? ==> c.leaves[c.root.symbol] == Some([]))
  {
    var c := Build(freqs);
    var q := InitialQueue(freqs, 0);
    InitialTotals(freqs, 0);
    if q == [] {
      forall i | 0 <= i < |freqs|
        ensures freqs[i] == 0
      {
        assert TotalOccurrences(q, i) == 0;
      }
    } else {
      assert freqs[q[0].symbol] != 0;
      if |q| == 1 {
        var s := q[0].symbol;
        forall j | 0 <= j < |freqs| && freqs[j] != 0
          ensures j == s
        {
          assert q[1..] == [];
          assert TotalOccurrences(q, j) == Occurrences(q[0], j);
        }
        assert OneSymbol(freqs);
      } else {
        assert q[0].symbol < q[1].symbol;
        assert freqs[q[1].symbol] != 0;
        assert !OneSymbol(freqs);
      }
    }
  }

  /** The prefix round trip on a built tree: every byte that occurs decodes from its code, leaving the rest unread. */
  lemma BuildRoundTrip(freqs: seq<nat>, s: Byte, rest: seq<bool>)
    requires |freqs| <= 256
    requires s < |freqs| && freqs[s] != 0
    ensures Build(freqs).leaves[s].Some?
    ensures Decode(Build(freqs).root, Build(freqs).leaves[s].value + rest) == Success(Decoded(s, rest))
  {
    EncodeDecode(Build(freqs), s, rest);
  }
}
