/**
  The tree's trip through a compressed file: `build` from the byte counts,
  `serialize` into the header and shape bits, and `deserialize` (with the
  guard on bits) into a fresh tree object on the other side.
 */
module Pipeline {
  import opened Results
  import opened Bits
  import opened Nodes
  import opened Codec
  import opened Builder
  import opened Serial

  /**
    The tree rebuilt from the serialized bits of a built tree holds the same
    leaf table, is valid, and decodes every bit string exactly as the built
    tree does; the header carries the total of the counts.
   */
  lemma {:induction false} TreeTransfer(freqs: seq<nat>, len: int, rest: seq<bool>)
    requires |freqs| <= 256
    requires Build(freqs).root != Null
    requires |Serialize(Build(freqs)).bits| <= 8 * len
    ensures Serialize(Build(freqs)).header == [Sum(freqs)]
    ensures var c := Build(freqs);
      var d := DeserializeBounded(Empty(), len, Serialize(c).bits + rest);
      && d == Success((Coder(Strip(c.root), c.leaves, false), rest))
      && Valid(d.value.0)
      && forall bits :: Decode(d.value.0.root, bits) == Decode(c.root, bits)
  {
    var c := Build(freqs);
    SerializeRoundTrip(c, len, rest);
    StrippedValid(c.root);
    StripKeepsLeaves(c.root, 0);
    forall bits
      ensures Decode(Strip(c.root), bits) == Decode(c.root, bits)
    {
      DecodeStripped(c.root, bits);
    }
  }

  /**
    Every byte that occurs in the counts, encoded with the built tree and
    followed by anything, decodes to itself with the tree read back from
    the serialized bits.
   */
  lemma {:induction false} SymbolTransfer(freqs: seq<nat>, len: int, rest: seq<bool>, s: Byte, more: seq<bool>)
    requires |freqs| <= 256
    requires s < |freqs| && freqs[s] != 0
    requires |Serialize(Build(freqs)).bits| <= 8 * len
    ensures var c := Build(freqs);
      var d := DeserializeBounded(Empty(), len, Serialize(c).bits + rest);
      && c.leaves[s].Some?
      && d.Success? && d.value.0.root != Null
      && Decode(d.value.0.root, c.leaves[s].value + more) == Success(Decoded(s, more))
  {
    var c := Build(freqs);
    BuildRoundTrip(freqs, s, more);
    TreeTransfer(freqs, len, rest);
  }
}
