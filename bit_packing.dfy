/**
  Bits and bytes as the compressed stream lays them out: the first bit of a
  byte is its most significant bit, and a final byte that is not full is
  padded with zero bits.
*/
module BitPacking {

  /** The bit `write_bit` sets for position `pos` of the byte being filled. */
  function Mask(pos: nat): (m: bv8)
    requires pos < 8
  {
    (1 as bv8) << (7 - pos)
  }

  /** Bit `i` of `b`, counting from the most significant bit, as the decoder reads it. */
  predicate BitOf(b: bv8, i: nat)
    requires i < 8
  {
    ((b >> (7 - i)) & 1) == 1
  }

  /** Bit `i` of `b` as the value 0 or 1, the way the decoder extracts it. */
  function BitValue(b: bv8, i: nat): (v: bv8)
    requires i < 8
    ensures (v == 0 || v == 1) && (v == 1 <==> BitOf(b, i))
  {
    (b >> (7 - i)) & 1
  }

  /** Setting the mask of position `pos` turns on bit `pos` and no other. */
  lemma MaskSetsOneBit(b: bv8, pos: nat, i: nat)
    requires pos < 8 && i < 8
    ensures BitOf(b | Mask(pos), i) <==> (i == pos || BitOf(b, i))
  {
    assert (b | Mask(pos)) >> (7 - i) == (b >> (7 - i)) | (Mask(pos) >> (7 - i));
  }

  lemma ZeroHasNoBits(i: nat)
    requires i < 8
    ensures !BitOf(0, i)
  {
  }

  /** Bytes are determined by their eight bits. */
  lemma BitsDetermineByte(x: bv8, y: bv8)
    requires forall i: nat :: i < 8 ==> (BitOf(x, i) <==> BitOf(y, i))
    ensures x == y
  {
    assert BitOf(x, 0) == BitOf(y, 0) && BitOf(x, 1) == BitOf(y, 1);
    assert BitOf(x, 2) == BitOf(y, 2) && BitOf(x, 3) == BitOf(y, 3);
    assert BitOf(x, 4) == BitOf(y, 4) && BitOf(x, 5) == BitOf(y, 5);
    assert BitOf(x, 6) == BitOf(y, 6) && BitOf(x, 7) == BitOf(y, 7);
  }

  /**
    The byte that holds `bits` in its leading positions and zeros after
    them: starting from 0, each set bit ORs in its mask.
  */
  function Fill(bits: seq<bool>): bv8
    requires |bits| <= 8
  {
    if bits == [] then 0
    else
      var b := Fill(bits[..|bits| - 1]);
      if bits[|bits| - 1] then b | Mask(|bits| - 1) else b
  }

  /** Bit `i` of `Fill(bits)` is `bits[i]`, and the positions after `bits` are clear. */
  lemma {:induction false} FillBits(bits: seq<bool>, i: nat)
    requires |bits| <= 8 && i < 8
    ensures BitOf(Fill(bits), i) <==> (i < |bits| && bits[i])
  {
    if bits == [] {
      ZeroHasNoBits(i);
    } else {
      var init := bits[..|bits| - 1];
      FillBits(init, i);
      if bits[|bits| - 1] {
        MaskSetsOneBit(Fill(init), |bits| - 1, i);
      }
    }
  }

  /** The eight bits of a byte, most significant first. */
  function ByteBits(b: bv8): (bits: seq<bool>)
    ensures |bits| == 8
  {
    seq(8, i requires 0 <= i < 8 => BitOf(b, i))
  }

  function Zeros(n: nat): (z: seq<bool>)
    ensures |z| == n && forall i :: 0 <= i < n ==> !z[i]
  {
    seq(n, _ => false)
  }

  /** Reading back a filled byte gives the bits followed by zero padding. */
  lemma ReadFilledByte(bits: seq<bool>)
    requires |bits| <= 8
    ensures ByteBits(Fill(bits)) == bits + Zeros(8 - |bits|)
  {
    var r := bits + Zeros(8 - |bits|);
    forall i | 0 <= i < 8
      ensures ByteBits(Fill(bits))[i] == r[i]
    {
      FillBits(bits, i);
    }
  }

  /** Filling a byte with its own bits gives the byte back. */
  lemma FillByteBits(b: bv8)
    ensures Fill(ByteBits(b)) == b
  {
    forall i: nat | i < 8
      ensures BitOf(Fill(ByteBits(b)), i) <==> BitOf(b, i)
    {
      FillBits(ByteBits(b), i);
    }
    BitsDetermineByte(Fill(ByteBits(b)), b);
  }

  /** Packing: eight bits per byte, MSB first; a final partial byte is zero padded. */
  function Pack(bits: seq<bool>): (out: seq<bv8>)
    ensures |out| == (|bits| + 7) / 8
    decreases |bits|
  {
    if bits == [] then []
    else if |bits| <= 8 then [Fill(bits)]
    else [Fill(bits[..8])] + Pack(bits[8..])
  }

  /** Unpacking: all bits of all bytes, padding included. */
  function Unpack(bytes: seq<bv8>): (bits: seq<bool>)
    ensures |bits| == 8 * |bytes|
  {
    if bytes == [] then [] else ByteBits(bytes[0]) + Unpack(bytes[1..])
  }

  /** Number of zero bits the last byte is padded with. */
  function Padding(n: nat): (p: nat)
    ensures p < 8 && (n + p) % 8 == 0
  {
    (8 - n % 8) % 8
  }

  lemma PaddingSmall(n: nat)
    requires 1 <= n <= 8
    ensures Padding(n) == 8 - n
  {
  }

  lemma NoPadding(n: nat)
    requires n % 8 == 0
    ensures Padding(n) == 0 && Zeros(Padding(n)) == []
  {
  }

  lemma PaddingShift(n: nat)
    ensures Padding(n + 8) == Padding(n)
  {
    assert (n + 8) % 8 == n % 8;
  }

  /** Bits survive packing, followed by the padding of the last byte. */
  lemma {:induction false} UnpackPack(bits: seq<bool>)
    ensures Unpack(Pack(bits)) == bits + Zeros(Padding(|bits|))
    decreases |bits|
  {
    if bits == [] {
    } else if |bits| <= 8 {
      ReadFilledByte(bits);
      assert Pack(bits) == [Fill(bits)];
      assert Unpack([Fill(bits)]) == ByteBits(Fill(bits)) + Unpack([]) by {
        assert [Fill(bits)][1..] == [];
      }
      PaddingSmall(|bits|);
    } else {
      var p, first, rest := Pack(bits), bits[..8], bits[8..];
      assert p[0] == Fill(first) && p[1..] == Pack(rest);
      ReadFilledByte(first);
      assert ByteBits(p[0]) == first by {
        assert Zeros(0) == [] && first + [] == first;
      }
      UnpackPack(rest);
      PaddingShift(|rest|);
      calc {
        Unpack(p);
        ByteBits(p[0]) + Unpack(p[1..]);
        first + (rest + Zeros(Padding(|rest|)));
        { assert bits == first + rest; }
        bits + Zeros(Padding(|bits|));
      }
    }
  }

  /** Bytes survive unpacking and packing. */
  lemma {:induction false} PackUnpack(bytes: seq<bv8>)
    ensures Pack(Unpack(bytes)) == bytes
  {
    if bytes != [] {
      var u := Unpack(bytes);
      FillByteBits(bytes[0]);
      PackUnpack(bytes[1..]);
      assert u[..8] == ByteBits(bytes[0]);
      assert u[8..] == Unpack(bytes[1..]);
      if |bytes| == 1 {
        assert u == ByteBits(bytes[0]);
        assert bytes == [bytes[0]];
      } else {
        assert bytes == [bytes[0]] + bytes[1..];
      }
    }
  }

  /** Packing whole bytes' worth of bits commutes with concatenation. */
  lemma {:induction false} PackAppend(a: seq<bool>, b: seq<bool>)
    requires |a| % 8 == 0
    ensures Pack(a + b) == Pack(a) + Pack(b)
    decreases |a|
  {
    if a == [] {
      assert a + b == b;
    } else {
      assert (a + b)[..8] == a[..8];
      assert (a + b)[8..] == a[8..] + b;
      PackAppend(a[8..], b);
      if |a| == 8 {
        assert a[8..] == [];
        assert a[..8] == a;
      }
      if b == [] {
        assert a + b == a;
      }
    }
  }
}
