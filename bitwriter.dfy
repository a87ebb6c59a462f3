/**
 * `BitWriter`: the bit-level writer the bitcode writer appends to. Bits go out
 * least significant first and fill each byte from its lowest bit, so the
 * buffer is modelled as the sequence of bits written so far.
 */
module BitWriters {
  import opened Bitstream

  class BitWriter {
    /** Every bit written so far, in order. */
    var bits: Bits

    constructor()
      ensures bits == []
    {
      bits := [];
    }

    /** `GetByteOffset`: the number of whole bytes written. */
    function GetByteOffset(): (r: nat)
      reads this
      ensures 8 * r <= |bits| < 8 * r + 8
    {
      |bits| / 8
    }

    /** `fixed(w, v)`: the low `w` bits of `v`, least significant first. */
    method Fixed(w: nat, v: nat)
      modifies this
      ensures bits == old(bits) + FixedBits(w, v)
    {
      var i, x := 0, v;
      while i < w
        invariant i <= w
        invariant bits + FixedBits(w - i, x) == old(bits) + FixedBits(w, v)
      {
        assert FixedBits(w - i, x) == [x % 2 == 1] + FixedBits(w - i - 1, x / 2);
        AppendAssoc(bits, [x % 2 == 1], FixedBits(w - i - 1, x / 2));
        bits := bits + [x % 2 == 1];
        x := x / 2;
        i := i + 1;
      }
    }

    /**
     * `vbr(w, v)`: `v` in chunks of `w - 1` bits, least significant chunk
     * first, each followed by a continuation bit that is set when more chunks
     * follow.
     */
    method Vbr(w: nat, v: nat)
      requires 2 <= w
      modifies this
      ensures bits == old(bits) + VbrBits(w, v)
    {
      var x := v;
      while Pow2(w - 1) <= x
        invariant bits + VbrBits(w, x) == old(bits) + VbrBits(w, v)
        decreases x
      {
        VbrChunkStep(bits, w, x);
        Chunk(w, x);
        x := Shr(x, w - 1);
      }
      Fixed(w, x);
    }

    /** One chunk of `vbr`: the low `w - 1` bits of `x` and a set continuation bit. */
    method Chunk(w: nat, x: nat)
      requires 2 <= w
      modifies this
      ensures bits == old(bits) + VbrChunk(w, x)
    {
      Fixed(w - 1, x);
      Fixed(1, 1);
      assert FixedBits(1, 1) == [true];
      AppendAssoc(old(bits), FixedBits(w - 1, x), [true]);
    }

    /** `c6(c)`: one character of the 6-bit alphabet, as its 6-bit code. */
    method C6(c: char)
      requires IsChar6(c)
      modifies this
      ensures bits == old(bits) + FixedBits(6, Char6Code(c))
    {
      Fixed(6, Char6Code(c));
    }

    /** `align32bits`: zero bits up to the next multiple of 32. */
    method Align32()
      modifies this
      ensures bits == Align32Bits(old(bits))
    {
      bits := bits + Zeros(Pad32(|bits|));
    }

    /** `Write<byte>`. */
    method WriteByte(x: byte)
      modifies this
      ensures bits == old(bits) + FixedBits(8, x)
    {
      Fixed(8, x);
    }

    /** `Write<uint32_t>`. */
    method Write32(x: u32)
      modifies this
      ensures bits == old(bits) + FixedBits(32, x)
    {
      Fixed(32, x);
    }

    /** `WriteBlob`: the byte count as vbr6, padding, the bytes, padding. */
    method WriteBlob(bytes: seq<byte>)
      modifies this
      ensures bits == BlobBits(old(bits), 6, bytes)
    {
      Vbr(6, |bytes|);
      Align32();
      ghost var head := bits;
      for i := 0 to |bytes|
        invariant bits + BytesBits(bytes[i..]) == head + BytesBits(bytes)
      {
        assert bytes[i..][1..] == bytes[i + 1..];
        AppendAssoc(bits, FixedBits(8, bytes[i]), BytesBits(bytes[i + 1..]));
        WriteByte(bytes[i]);
      }
      assert bytes[|bytes|..] == [];
      Align32();
    }

    /** `PatchLengthWord(offs, v)`: overwrites the 32 bits of the byte-aligned word at byte `offs` with `v`. */
    method PatchLengthWord(offs: nat, v: u32)
      requires 8 * offs + 32 <= |bits|
      modifies this
      ensures bits == Patch(old(bits), 8 * offs, FixedBits(32, v))
    {
      bits := bits[..8 * offs] + FixedBits(32, v) + bits[8 * offs + 32..];
    }
  }

  /** Writing one chunk with its continuation bit leaves the rest of the value to write. */
  lemma {:induction false} VbrChunkStep(pre: Bits, w: nat, x: nat)
    requires 2 <= w && Pow2(w - 1) <= x
    ensures pre + VbrBits(w, x) == (pre + VbrChunk(w, x)) + VbrBits(w, Shr(x, w - 1))
  {
    AppendAssoc(pre, VbrChunk(w, x), VbrBits(w, Shr(x, w - 1)));
  }
}
