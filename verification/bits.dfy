/**
  Bit-level arithmetic of the codec: the 8-bit, most-significant-first
  representation of a leaf symbol in the serialized tree, and the padding
  that realigns a bit stream to a byte boundary.
 */
module Bits {

  /** A byte value, the type of a leaf symbol (`unsigned char`). */
  type Byte = x: int | 0 <= x < 256

  function Pow2(n: nat): (p: nat)
    ensures p >= 1
  {
    if n == 0 then 1 else 2 * Pow2(n - 1)
  }

  /** Bit `i` of `x`, counting from the least significant bit: `(x >> i) & 1 == 1`. */
  predicate BitAt(x: nat, i: nat)
  {
    if i == 0 then x % 2 == 1 else BitAt(x / 2, i - 1)
  }

  /**
    The bits `serialization` writes for a leaf symbol: bit 7 first, bit 0
    last. Reading them back yields the symbol.
   */
  function SymbolBits(b: Byte): (r: seq<bool>)
    ensures |r| == 8
    ensures ReadSymbol(r) == b
  {
    var r := seq(8, j requires 0 <= j < 8 => BitAt(b, 7 - j));
    ReadsBack(b, r);
    r
  }

  /** Any 8 bits holding the bits of `b`, most significant first, read back as `b`. */
  lemma ReadsBack(b: Byte, r: seq<bool>)
    requires |r| == 8
    requires forall j :: 0 <= j < 8 ==> r[j] == BitAt(b, 7 - j)
    ensures ReadSymbol(r) == b
  {
    var x := ReadSymbol(r);
    assert Pow2(8) == 256;
    forall i | 0 <= i < 8
      ensures BitAt(x, i) == BitAt(b, i)
    {
      assert BitAt(x, 7 - (7 - i)) == r[7 - i];
    }
    BitsDetermine(x, b, 8);
  }

  /** The number whose binary digits, most significant first, are `bits`. */
  function FromBits(bits: seq<bool>): (v: nat)
    ensures v < Pow2(|bits|)
    ensures forall j :: 0 <= j < |bits| ==> BitAt(v, |bits| - 1 - j) == bits[j]
  {
    if bits == [] then 0
    else
      var init := bits[..|bits| - 1];
      var v := 2 * FromBits(init) + (if bits[|bits| - 1] then 1 else 0);
      assert v / 2 == FromBits(init);
      v
  }

  /**
    The symbol `deseriallization` assembles from 8 bits: the j-th bit read
    sets or clears bit 7 - j of a byte that starts at 0.
   */
  function ReadSymbol(bits: seq<bool>): (b: Byte)
    requires |bits| == 8
    ensures forall j :: 0 <= j < 8 ==> BitAt(b, 7 - j) == bits[j]
  {
    assert Pow2(8) == 256;
    FromBits(bits)
  }

  /** Two numbers below 2^n that agree on their n low bits are equal. */
  lemma {:induction false} BitsDetermine(x: nat, y: nat, n: nat)
    requires x < Pow2(n) && y < Pow2(n)
    requires forall i :: 0 <= i < n ==> BitAt(x, i) == BitAt(y, i)
    ensures x == y
  {
    if n > 0 {
      forall i | 0 <= i < n - 1
        ensures BitAt(x / 2, i) == BitAt(y / 2, i)
      {
        assert BitAt(x, i + 1) == BitAt(y, i + 1);
      }
      BitsDetermine(x / 2, y / 2, n - 1);
      assert BitAt(x, 0) == BitAt(y, 0);
    }
  }

  /** Writing the symbol read from any 8 bits reproduces those bits. */
  lemma BitsRoundTrip(bits: seq<bool>)
    requires |bits| == 8
    ensures SymbolBits(ReadSymbol(bits)) == bits
  {
  }

  /**
    The number of bits `deserialize` discards after the tree so that the
    count of bits read, `counter`, reaches a byte boundary: 8 - counter % 8,
    which is a full 8 when `counter` is already a multiple of 8.
   */
  function SkipLength(counter: nat): (n: nat)
    ensures 1 <= n <= 8
    ensures (counter + n) % 8 == 0
    ensures n == 8 <==> counter % 8 == 0
  {
    8 - counter % 8
  }

  /** The number of pad bits a flush appends after `n` bits to complete the last byte. */
  function FlushLength(n: nat): (k: nat)
    ensures k < 8
    ensures (n + k) % 8 == 0
  {
    (8 - n % 8) % 8
  }

  /** After an odd number of bits the reader skips exactly the bits the writer padded. */
  lemma PadsAgree(n: nat)
    requires n % 2 == 1
    ensures SkipLength(n) == FlushLength(n)
    ensures 1 <= SkipLength(n) <= 7
  {
  }

  /** A run of `n` zero bits, the padding a flush writes. */
  function Zeros(n: nat): (z: seq<bool>)
    ensures |z| == n
    ensures forall i :: 0 <= i < n ==> !z[i]
  {
    seq(n, _ => false)
  }
}
