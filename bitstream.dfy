/**
 * Bit-level encodings of the LLVM bitstream and a reference decoder for each.
 *
 * A stream is a sequence of bits, least significant bit first: bit 8*k + j of
 * the stream is bit j of byte k of the output buffer. Every encoding below is
 * paired with a decoder that reads at an absolute bit position and returns the
 * decoded value together with the position after it; the round-trip lemmas
 * state that whatever an encoder wrote at a position reads back there.
 */
module Bitstream {

  type Bits = seq<bool>
  type u32 = x: nat | x < 0x1_0000_0000
  type u64 = x: nat | x < 0x1_0000_0000_0000_0000
  type byte = x: nat | x < 0x100

  datatype Option<T> = None | Some(value: T)

  function Pow2(n: nat): (r: nat)
    ensures 1 <= r
    ensures 1 <= n ==> 2 <= r
  {
    if n == 0 then 1 else 2 * Pow2(n - 1)
  }

  /** `n` zero bits: the padding that alignment and placeholders write. */
  function Zeros(n: nat): (r: Bits)
    ensures |r| == n
    ensures forall i :: 0 <= i < n ==> !r[i]
  {
    seq(n, _ => false)
  }

  /** `fixed(w, v)`: the low `w` bits of `v`, least significant first. */
  function FixedBits(w: nat, v: nat): (r: Bits)
    ensures |r| == w
    decreases w, v
  {
    if w == 0 then [] else [v % 2 == 1] + FixedBits(w - 1, v / 2)
  }

  /** `e` occurs in `s` starting at bit position `pos`. */
  predicate IsAt(s: Bits, pos: nat, e: Bits)
  {
    pos + |e| <= |s| && forall i | 0 <= i < |e| :: s[pos + i] == e[i]
  }

  lemma {:induction false} IsAtConcat(s: Bits, pos: nat, a: Bits, b: Bits)
    requires IsAt(s, pos, a + b)
    ensures IsAt(s, pos, a) && IsAt(s, pos + |a|, b)
  {
    forall i | 0 <= i < |a|
      ensures s[pos + i] == a[i]
    {
      assert (a + b)[i] == a[i];
    }
    forall i | 0 <= i < |b|
      ensures s[pos + |a| + i] == b[i]
    {
      assert (a + b)[|a| + i] == b[i];
    }
  }

  /** What was written last sits at the end of the stream. */
  lemma {:induction false} IsAtSuffix(p: Bits, e: Bits)
    ensures IsAt(p + e, |p|, e)
  {
    forall i | 0 <= i < |e|
      ensures (p + e)[|p| + i] == e[i]
    {
    }
  }

  /** Appending to the stream keeps every field already written. */
  lemma {:induction false} IsAtExtended(s: Bits, pos: nat, e: Bits, t: Bits)
    requires IsAt(s, pos, e)
    ensures IsAt(s + t, pos, e)
  {
    forall i | 0 <= i < |e|
      ensures (s + t)[pos + i] == e[i]
    {
      assert (s + t)[pos + i] == s[pos + i];
    }
  }

  // ---------------------------------------------------------------------------
  // Shifts and powers of two

  /** `v >> n`. */
  function Shr(v: nat, n: nat): (r: nat)
    ensures r <= v
    ensures 1 <= n && 1 <= v ==> r < v
  {
    if n == 0 then v else Shr(v / 2, n - 1)
  }

  /** `v << n`. */
  function Shl(v: nat, n: nat): nat
  {
    if n == 0 then v else 2 * Shl(v, n - 1)
  }

  lemma {:induction false} ShlZero(n: nat)
    ensures Shl(0, n) == 0
  {
    if n > 0 {
      ShlZero(n - 1);
    }
  }

  lemma {:induction false} ShlIsMul(v: nat, n: nat)
    ensures Shl(v, n) == Pow2(n) * v
  {
    if n > 0 {
      ShlIsMul(v, n - 1);
      assert Pow2(n) * v == 2 * (Pow2(n - 1) * v);
    }
  }

  /** A value below `2^(n+m)` shifted right by `n` is below `2^m`. */
  lemma {:induction false} ShrBelow(v: nat, n: nat, m: nat)
    requires v < Pow2(n + m)
    ensures Shr(v, n) < Pow2(m)
    decreases n
  {
    if n > 0 {
      assert Pow2(n + m) == 2 * Pow2(n - 1 + m);
      ShrBelow(v / 2, n - 1, m);
    }
  }

  /** A value of at least `2^(n+m)` shifted right by `n` is at least `2^m`. */
  lemma {:induction false} ShrAtLeast(v: nat, n: nat, m: nat)
    requires Pow2(n + m) <= v
    ensures Pow2(m) <= Shr(v, n)
    decreases n
  {
    if n > 0 {
      assert Pow2(n + m) == 2 * Pow2(n - 1 + m);
      ShrAtLeast(v / 2, n - 1, m);
    }
  }

  lemma {:induction false} Pow2Mono(a: nat, b: nat)
    requires a <= b
    ensures Pow2(a) <= Pow2(b)
    decreases b
  {
    if a < b {
      Pow2Mono(a, b - 1);
    }
  }

  lemma {:induction false} Pow2Table()
    ensures Pow2(27) == 0x800_0000 && Pow2(30) == 0x4000_0000 && Pow2(33) == 0x2_0000_0000
  {
    assert Pow2(6) == 0x40;
    assert Pow2(9) == 0x200;
    assert Pow2(12) == 0x1000;
    assert Pow2(15) == 0x8000;
    assert Pow2(18) == 0x4_0000;
    assert Pow2(21) == 0x20_0000;
    assert Pow2(24) == 0x100_0000;
    assert Pow2(27) == 0x800_0000;
    assert Pow2(30) == 0x4000_0000;
  }

  lemma {:induction false} Pow2Word()
    ensures Pow2(32) == 0x1_0000_0000
  {
    Pow2Table();
  }

  lemma {:induction false} MulAtLeast(d: int, k: int)
    requires 0 < d && 1 <= k
    ensures d <= d * k
  {
    if k > 1 {
      MulAtLeast(d, k - 1);
      assert d * k == d * (k - 1) + d;
    }
  }

  lemma {:induction false} DivModUnique(a: int, d: int, q: int, r: int)
    requires 0 < d && 0 <= r < d && a == d * q + r
    ensures a / d == q && a % d == r
  {
    var q', r' := a / d, a % d;
    assert a == d * q' + r';
    if q' < q {
      MulAtLeast(d, q - q');
      assert false;
    } else if q < q' {
      MulAtLeast(d, q' - q);
      assert false;
    }
  }

  // ---------------------------------------------------------------------------
  // Fixed-width fields

  /** Unsigned value of the `w` bits of `s` at `pos`, least significant first. */
  function ValueAt(s: Bits, pos: nat, w: nat): (r: nat)
    requires pos + w <= |s|
    ensures r < Pow2(w)
    decreases w, pos
  {
    if w == 0 then 0 else (if s[pos] then 1 else 0) + 2 * ValueAt(s, pos + 1, w - 1)
  }

  /** The bits of `fixed(w, v)` hold the low `w` bits of `v`; `v >> w` is what they drop. */
  lemma {:induction false} FixedAt(s: Bits, pos: nat, w: nat, v: nat)
    requires IsAt(s, pos, FixedBits(w, v))
    ensures ValueAt(s, pos, w) + Shl(Shr(v, w), w) == v
    decreases w
  {
    if w > 0 {
      IsAtConcat(s, pos, [v % 2 == 1], FixedBits(w - 1, v / 2));
      assert s[pos + 0] == [v % 2 == 1][0];
      FixedAt(s, pos + 1, w - 1, v / 2);
    }
  }

  function ReadFixed(s: Bits, pos: nat, w: nat): Option<(nat, nat)>
  {
    if pos + w <= |s| then Some((ValueAt(s, pos, w), pos + w)) else None
  }

  /** A fixed-width field reads back as the written value masked to `w` bits. */
  lemma {:induction false} FixedRoundTrip(s: Bits, pos: nat, w: nat, v: nat)
    requires IsAt(s, pos, FixedBits(w, v))
    ensures ReadFixed(s, pos, w) == Some((v % Pow2(w), pos + w))
  {
    FixedAt(s, pos, w, v);
    ShlIsMul(Shr(v, w), w);
    DivModUnique(v, Pow2(w), Shr(v, w), ValueAt(s, pos, w));
  }

  /** A value that fits in `w` bits reads back unchanged. */
  lemma {:induction false} FixedRoundTripExact(s: Bits, pos: nat, w: nat, v: nat)
    requires v < Pow2(w) && IsAt(s, pos, FixedBits(w, v))
    ensures ReadFixed(s, pos, w) == Some((v, pos + w))
  {
    FixedAt(s, pos, w, v);
    ShrBelow(v, w, 0);
    ShlZero(w);
  }

  /** A fixed-width field at the head of a run of fields reads back; the rest follows it. */
  lemma {:induction false} FixedHeadAt(s: Bits, pos: nat, w: nat, v: nat, rest: Bits)
    requires v < Pow2(w) && IsAt(s, pos, FixedBits(w, v) + rest)
    ensures ReadFixed(s, pos, w) == Some((v, pos + w))
    ensures IsAt(s, pos + w, rest)
  {
    IsAtConcat(s, pos, FixedBits(w, v), rest);
    FixedRoundTripExact(s, pos, w, v);
  }

  // ---------------------------------------------------------------------------
  // Variable bit-rate integers

  /** One VBR chunk that is not the last: the low `w - 1` bits, then the continuation bit. */
  function VbrChunk(w: nat, v: nat): (r: Bits)
    requires 1 <= w
    ensures |r| == w
  {
    FixedBits(w - 1, v) + [true]
  }

  /**
   * `vbr(w, v)`: `v` in chunks of `w - 1` payload bits, least significant chunk
   * first; every chunk but the last has its top (continuation) bit set.
   */
  function VbrBits(w: nat, v: nat): (r: Bits)
    requires 2 <= w
    ensures w <= |r|
    decreases v
  {
    if v < Pow2(w - 1) then FixedBits(w, v)
    else VbrChunk(w, v) + VbrBits(w, Shr(v, w - 1))
  }

  function ReadVbr(s: Bits, pos: nat, w: nat): Option<(nat, nat)>
    requires 2 <= w
    decreases |s| - pos
  {
    if |s| < pos + w then None
    else
      var chunk, half := ValueAt(s, pos, w), Pow2(w - 1);
      if chunk < half then Some((chunk, pos + w))
      else match ReadVbr(s, pos + w, w)
        case None => None
        case Some((high, next)) => Some((chunk - half + Shl(high, w - 1), next))
  }

  /** A VBR field reads back as exactly the written value, whatever its size. */
  lemma {:induction false} VbrRoundTrip(s: Bits, pos: nat, w: nat, v: nat)
    requires 2 <= w && IsAt(s, pos, VbrBits(w, v))
    ensures ReadVbr(s, pos, w) == Some((v, pos + |VbrBits(w, v)|))
    decreases v
  {
    if v < Pow2(w - 1) {
      assert Pow2(w) == 2 * Pow2(w - 1);
      FixedRoundTripExact(s, pos, w, v);
    } else {
      VbrTailAt(s, pos, w, v);
      VbrRoundTrip(s, pos + w, w, Shr(v, w - 1));
      VbrStep(s, pos, w, v);
    }
  }

  lemma {:induction false} VbrTailAt(s: Bits, pos: nat, w: nat, v: nat)
    requires 2 <= w && Pow2(w - 1) <= v && IsAt(s, pos, VbrBits(w, v))
    ensures IsAt(s, pos, VbrChunk(w, v)) && IsAt(s, pos + w, VbrBits(w, Shr(v, w - 1)))
    ensures |VbrBits(w, v)| == w + |VbrBits(w, Shr(v, w - 1))|
  {
    var head, tail := VbrChunk(w, v), VbrBits(w, Shr(v, w - 1));
    assert VbrBits(w, v) == head + tail;
    IsAtConcat(s, pos, head, tail);
  }

  /** A chunk with its continuation bit set: payload plus `2^(w-1)`. */
  lemma {:induction false} ChunkValue(s: Bits, pos: nat, w: nat, v: nat)
    requires 2 <= w && IsAt(s, pos, VbrChunk(w, v))
    ensures ValueAt(s, pos, w) == ValueAt(s, pos, w - 1) + Pow2(w - 1)
    ensures ValueAt(s, pos, w - 1) + Shl(Shr(v, w - 1), w - 1) == v
  {
    IsAtConcat(s, pos, FixedBits(w - 1, v), [true]);
    FixedAt(s, pos, w - 1, v);
    assert s[pos + (w - 1) + 0] == [true][0];
    TopBit(s, pos, w - 1);
  }

  lemma {:induction false} TopBit(s: Bits, pos: nat, n: nat)
    requires pos + n < |s| && s[pos + n]
    ensures ValueAt(s, pos, n + 1) == ValueAt(s, pos, n) + Pow2(n)
    decreases n
  {
    if n > 0 {
      TopBit(s, pos + 1, n - 1);
    }
  }

  /** The first chunk of a multi-chunk VBR field, followed by the rest read back. */
  lemma {:induction false} VbrStep(s: Bits, pos: nat, w: nat, v: nat)
    requires 2 <= w && Pow2(w - 1) <= v && IsAt(s, pos, VbrChunk(w, v))
    requires |VbrBits(w, v)| == w + |VbrBits(w, Shr(v, w - 1))|
    requires ReadVbr(s, pos + w, w) == Some((Shr(v, w - 1), pos + |VbrBits(w, v)|))
    ensures ReadVbr(s, pos, w) == Some((v, pos + |VbrBits(w, v)|))
  {
    ChunkValue(s, pos, w, v);
  }

  /** A value below `2^(w-1)` takes one chunk, laid out exactly like `fixed(w, v)`. */
  lemma {:induction false} VbrSmallIsFixed(w: nat, v: nat)
    requires 2 <= w && v < Pow2(w - 1)
    ensures VbrBits(w, v) == FixedBits(w, v)
  {
  }

  /** Number of `w`-bit chunks `vbr(w, v)` occupies. */
  function VbrChunks(w: nat, v: nat): (r: nat)
    requires 2 <= w
    ensures 1 <= r && |VbrBits(w, v)| == w * r
    decreases v
  {
    if v < Pow2(w - 1) then 1
    else
      var rest := VbrChunks(w, Shr(v, w - 1));
      assert w * (1 + rest) == w + w * rest;
      1 + rest
  }

  /** Payload bits carried by `k` chunks of `vbr(w, _)`, that is `(w - 1) * k`. */
  function PayloadBits(w: nat, k: nat): nat
    requires 2 <= w
  {
    if k == 0 then 0 else (w - 1) + PayloadBits(w, k - 1)
  }

  /**
   * `vbr(w, v)` takes exactly `k` chunks when `v` needs more payload bits than
   * `k - 1` chunks carry and no more than `k` chunks carry.
   */
  lemma {:induction false} VbrChunksExact(w: nat, v: nat, k: nat)
    requires 2 <= w && 1 <= k
    requires v < Pow2(PayloadBits(w, k))
    requires k == 1 || Pow2(PayloadBits(w, k - 1)) <= v
    ensures VbrChunks(w, v) == k
    decreases k
  {
    if k > 1 {
      Pow2Mono(w - 1, PayloadBits(w, k - 1));
      ShrBelow(v, w - 1, PayloadBits(w, k - 1));
      if k > 2 {
        ShrAtLeast(v, w - 1, PayloadBits(w, k - 2));
      }
      VbrChunksExact(w, Shr(v, w - 1), k - 1);
    }
  }

  // ---------------------------------------------------------------------------
  // Signed VBR

  /** `svbr`: the magnitude shifted left by one with the sign in the lowest bit. */
  function SvbrEncode(x: int): (r: nat)
    ensures r / 2 == (if x < 0 then -x else x)
    ensures (r % 2 == 1) == (x < 0)
  {
    if x >= 0 then 2 * x else 2 * -x + 1
  }

  function SvbrDecode(u: nat): int
  {
    if u % 2 == 0 then u / 2 else -(u / 2)
  }

  lemma {:induction false} SvbrRoundTrip(x: int)
    ensures SvbrDecode(SvbrEncode(x)) == x
  {
  }

  /** A value whose magnitude is below 2^63 encodes into 64 bits. */
  lemma {:induction false} SvbrFits64(x: int)
    requires -0x8000_0000_0000_0000 < x < 0x8000_0000_0000_0000
    ensures SvbrEncode(x) < 0x1_0000_0000_0000_0000
  {
  }

  /** Signed values written one after another as `vbr(w, svbr(x))`. */
  function SvbrFieldsBits(w: nat, xs: seq<int>): (r: Bits)
    requires 2 <= w
  {
    if xs == [] then [] else VbrBits(w, SvbrEncode(xs[0])) + SvbrFieldsBits(w, xs[1..])
  }

  function ReadSvbrFields(s: Bits, pos: nat, w: nat, n: nat): Option<(seq<int>, nat)>
    requires 2 <= w
    decreases n
  {
    if n == 0 then Some(([], pos))
    else match ReadVbr(s, pos, w)
      case None => None
      case Some((u, next)) =>
        match ReadSvbrFields(s, next, w, n - 1)
        case None => None
        case Some((rest, end)) => Some(([SvbrDecode(u)] + rest, end))
  }

  lemma {:induction false} SvbrFieldsRoundTrip(s: Bits, pos: nat, w: nat, xs: seq<int>)
    requires 2 <= w && IsAt(s, pos, SvbrFieldsBits(w, xs))
    ensures ReadSvbrFields(s, pos, w, |xs|) == Some((xs, pos + |SvbrFieldsBits(w, xs)|))
    decreases xs
  {
    if xs != [] {
      var next := pos + |VbrBits(w, SvbrEncode(xs[0]))|;
      SvbrFieldsTailAt(s, pos, w, xs);
      VbrRoundTrip(s, pos, w, SvbrEncode(xs[0]));
      SvbrFieldsRoundTrip(s, next, w, xs[1..]);
      SvbrFieldsStep(s, pos, w, xs, next, next + |SvbrFieldsBits(w, xs[1..])|);
    }
  }

  /** A run of signed fields splits into its first field and the rest. */
  lemma {:induction false} SvbrFieldsTailAt(s: Bits, pos: nat, w: nat, xs: seq<int>)
    requires 2 <= w && xs != [] && IsAt(s, pos, SvbrFieldsBits(w, xs))
    ensures IsAt(s, pos, VbrBits(w, SvbrEncode(xs[0])))
    ensures IsAt(s, pos + |VbrBits(w, SvbrEncode(xs[0]))|, SvbrFieldsBits(w, xs[1..]))
    ensures |SvbrFieldsBits(w, xs)| == |VbrBits(w, SvbrEncode(xs[0]))| + |SvbrFieldsBits(w, xs[1..])|
  {
    var head, tail := VbrBits(w, SvbrEncode(xs[0])), SvbrFieldsBits(w, xs[1..]);
    assert SvbrFieldsBits(w, xs) == head + tail;
    IsAtConcat(s, pos, head, tail);
  }

  /** The first signed field reads back, so the run reads back if its tail does. */
  lemma {:induction false} SvbrFieldsStep(s: Bits, pos: nat, w: nat, xs: seq<int>, next: nat, end: nat)
    requires 2 <= w && xs != []
    requires ReadVbr(s, pos, w) == Some((SvbrEncode(xs[0]), next))
    requires ReadSvbrFields(s, next, w, |xs| - 1) == Some((xs[1..], end))
    ensures ReadSvbrFields(s, pos, w, |xs|) == Some((xs, end))
  {
    SvbrRoundTrip(xs[0]);
    assert [SvbrDecode(SvbrEncode(xs[0]))] + xs[1..] == xs;
  }

  lemma {:induction false} VbrSize(v: nat, k: nat)
    requires 1 <= k && v < Pow2(PayloadBits(4, k))
    requires k == 1 || Pow2(PayloadBits(4, k - 1)) <= v
    ensures |VbrBits(4, v)| == 4 * k
  {
    VbrChunksExact(4, v, k);
  }

  lemma {:induction false} SvbrFieldsAppend(w: nat, xs: seq<int>, ys: seq<int>)
    requires 2 <= w
    ensures SvbrFieldsBits(w, xs + ys) == SvbrFieldsBits(w, xs) + SvbrFieldsBits(w, ys)
    decreases xs
  {
    if xs == [] {
      assert xs + ys == ys;
    } else {
      assert (xs + ys)[1..] == xs[1..] + ys;
      SvbrFieldsAppend(w, xs[1..], ys);
    }
  }

  /** `x` and `-x` each take `k` VBR4 chunks once zig-zag encoded. */
  lemma {:induction false} SvbrPairSize(x: int, k: nat)
    requires 2 <= k && 0 <= x && Pow2(PayloadBits(4, k - 1)) <= 2 * x && 2 * x + 1 < Pow2(PayloadBits(4, k))
    ensures |SvbrFieldsBits(4, [x, -x])| == 8 * k
  {
    var u, v := SvbrEncode(x), SvbrEncode(-x);
    assert u == 2 * x && v == 2 * x + 1;
    VbrSize(u, k);
    VbrSize(v, k);
    assert SvbrFieldsBits(4, [-x]) == VbrBits(4, v) by {
      assert [-x][1..] == [];
    }
    assert SvbrFieldsBits(4, [x, -x]) == VbrBits(4, u) + SvbrFieldsBits(4, [-x]) by {
      assert [x, -x][1..] == [-x];
    }
  }

  lemma {:induction false} SvbrSmallPair(x: int)
    requires x == 0x12
    ensures |SvbrFieldsBits(4, [x, -x])| == 16
  {
    assert Pow2(PayloadBits(4, 1)) == 0x8 && Pow2(PayloadBits(4, 2)) == 0x40;
    SvbrPairSize(x, 2);
  }

  lemma {:induction false} SvbrShortPair(x: int)
    requires x == 0x1234
    ensures |SvbrFieldsBits(4, [x, -x])| == 40
  {
    assert Pow2(PayloadBits(4, 4)) == 0x1000 && Pow2(PayloadBits(4, 5)) == 0x8000;
    SvbrPairSize(x, 5);
  }

  lemma {:induction false} SvbrIntPair(x: int)
    requires x == 0x1234_5678
    ensures |SvbrFieldsBits(4, [x, -x])| == 80
  {
    assert PayloadBits(4, 9) == 27 && PayloadBits(4, 10) == 30;
    Pow2Table();
    SvbrPairSize(x, 10);
  }

  lemma {:induction false} SvbrIntMaxPair(x: int)
    requires x == 0x7fff_ffff
    ensures |SvbrFieldsBits(4, [x, -x])| == 88
  {
    assert PayloadBits(4, 10) == 30 && PayloadBits(4, 11) == 33;
    Pow2Table();
    SvbrPairSize(x, 11);
  }

  /**
   * The eight signed values +-0x12, +-0x1234, +-0x12345678 and +-(2^31 - 1),
   * each written as `vbr(4, svbr(x))`, fill exactly 28 bytes: 224 bits, which
   * is already 32-bit aligned.
   */
  lemma {:induction false} SvbrSampleSize(a: int, b: int, c: int, d: int)
    requires a == 0x12 && b == 0x1234 && c == 0x1234_5678 && d == 0x7fff_ffff
    ensures |SvbrFieldsBits(4, [a, -a, b, -b, c, -c, d, -d])| == 28 * 8
    ensures Pad32(|SvbrFieldsBits(4, [a, -a, b, -b, c, -c, d, -d])|) == 0
  {
    var p, q, r, t := [a, -a], [b, -b], [c, -c], [d, -d];
    assert [a, -a, b, -b, c, -c, d, -d] == p + (q + (r + t));
    SvbrFieldsAppend(4, r, t);
    SvbrFieldsAppend(4, q, r + t);
    SvbrFieldsAppend(4, p, q + (r + t));
    SvbrSmallPair(a);
    SvbrShortPair(b);
    SvbrIntPair(c);
    SvbrIntMaxPair(d);
  }

  // ---------------------------------------------------------------------------
  // Alignment

  /** Zero bits that `align32bits` adds at bit position `n`. */
  function Pad32(n: nat): (r: nat)
    ensures r < 32 && (n + r) % 32 == 0
    ensures n % 32 == 0 ==> r == 0
  {
    (32 - n % 32) % 32
  }

  function AlignUp32(pos: nat): (r: nat)
    ensures pos <= r < pos + 32 && r % 32 == 0
  {
    pos + Pad32(pos)
  }

  /** The buffer after `align32bits`. */
  function Align32Bits(s: Bits): (r: Bits)
    ensures |r| == AlignUp32(|s|)
    ensures |s| % 32 == 0 ==> r == s
  {
    s + Zeros(Pad32(|s|))
  }

  /** Padding to a 32-bit boundary keeps every field already written. */
  lemma {:induction false} IsAtAligned(s: Bits, pos: nat, e: Bits)
    requires IsAt(s, pos, e)
    ensures IsAt(Align32Bits(s), pos, e)
  {
    IsAtExtended(s, pos, e, Zeros(Pad32(|s|)));
  }

  // ---------------------------------------------------------------------------
  // Overwriting

  lemma {:induction false} AppendAssoc(x: Bits, y: Bits, z: Bits)
    ensures x + (y + z) == (x + y) + z
  {
  }

  /** `s` with the bits from `pos` on replaced by `e`. */
  function Patch(s: Bits, pos: nat, e: Bits): (r: Bits)
    requires pos + |e| <= |s|
    ensures |r| == |s|
  {
    s[..pos] + e + s[pos + |e|..]
  }

  /** A patch puts `e` at `pos` and leaves every other bit as it was. */
  lemma {:induction false} PatchAt(s: Bits, pos: nat, e: Bits)
    requires pos + |e| <= |s|
    ensures IsAt(Patch(s, pos, e), pos, e)
    ensures forall i | 0 <= i < |s| && !(pos <= i < pos + |e|) :: Patch(s, pos, e)[i] == s[i]
  {
    var r := Patch(s, pos, e);
    forall i | 0 <= i < |e|
      ensures r[pos + i] == e[i]
    {
      assert r == (s[..pos] + e) + s[pos + |e|..];
    }
  }

  /** A patch past the end of a prefix leaves the prefix in place. */
  lemma {:induction false} PatchKeepsPrefix(p: Bits, s: Bits, pos: nat, e: Bits)
    requires p <= s && |p| <= pos && pos + |e| <= |s|
    ensures p <= Patch(s, pos, e)
  {
    assert Patch(s, pos, e) == s[..pos] + (e + s[pos + |e|..]);
    assert s[..pos][..|p|] == p;
  }

  /** Writing more, or padding, keeps what was written a prefix. */
  lemma {:induction false} PrefixGrows(p: Bits, s: Bits, e: Bits)
    requires p <= s
    ensures p <= s + e && p <= Align32Bits(s + e)
  {
    assert (s + e)[..|p|] == p;
    assert Align32Bits(s + e)[..|p|] == p;
  }

  /** What lies inside a prefix lies in the whole stream. */
  lemma {:induction false} IsAtPrefix(p: Bits, s: Bits, pos: nat, e: Bits)
    requires p <= s && IsAt(p, pos, e)
    ensures IsAt(s, pos, e)
  {
    forall i | 0 <= i < |e|
      ensures s[pos + i] == e[i]
    {
      assert s[pos + i] == p[pos + i];
    }
  }

  /** A patch that does not overlap `e` leaves it in place. */
  lemma {:induction false} IsAtPatchedAway(s: Bits, pos: nat, e: Bits, at: nat, x: Bits)
    requires IsAt(s, pos, e) && at + |x| <= |s|
    requires pos + |e| <= at || at + |x| <= pos
    ensures IsAt(Patch(s, at, x), pos, e)
  {
    PatchAt(s, at, x);
    forall i | 0 <= i < |e|
      ensures Patch(s, at, x)[pos + i] == e[i]
    {
      assert s[pos + i] == e[i];
    }
  }

  // ---------------------------------------------------------------------------
  // 6-bit characters

  const Char6Lower: string := "abcdefghijklmnopqrstuvwxyz"
  const Char6Upper: string := "ABCDEFGHIJKLMNOPQRSTUVWXYZ"
  const Char6Digits: string := "0123456789"

  /** The char6 alphabet; a character's code is its position here. */
  const Char6Alphabet: string := Char6Lower + Char6Upper + Char6Digits + "._"

  predicate IsChar6(c: char)
  {
    'a' <= c <= 'z' || 'A' <= c <= 'Z' || '0' <= c <= '9' || c == '.' || c == '_'
  }

  /** The character with 6-bit code `k`. */
  function Char6Char(k: nat): (c: char)
    requires k < 64
    ensures IsChar6(c)
  {
    if k < 26 then ('a' as int + k) as char
    else if k < 52 then ('A' as int + (k - 26)) as char
    else if k < 62 then ('0' as int + (k - 52)) as char
    else if k == 62 then '.'
    else '_'
  }

  /** The alphabet lists the characters in code order. */
  lemma {:induction false} Char6AlphabetLayout()
    ensures |Char6Alphabet| == 64
    ensures forall k | 0 <= k < 64 :: Char6Alphabet[k] == Char6Char(k)
  {
    assert forall k | 0 <= k < 26 :: Char6Lower[k] as int == 'a' as int + k;
    assert forall k | 0 <= k < 26 :: Char6Upper[k] as int == 'A' as int + k;
    assert forall k | 0 <= k < 10 :: Char6Digits[k] as int == '0' as int + k;
    forall k | 0 <= k < 64
      ensures Char6Alphabet[k] == Char6Char(k)
    {
      if k < 26 {
        assert Char6Alphabet[k] == Char6Lower[k];
      } else if k < 52 {
        assert Char6Alphabet[k] == Char6Upper[k - 26];
      } else if k < 62 {
        assert Char6Alphabet[k] == Char6Digits[k - 52];
      }
    }
  }

  /** `c6(c)`: the 6-bit code of `c`, which is the position of `c` in the alphabet. */
  function Char6Code(c: char): (r: nat)
    requires IsChar6(c)
    ensures r < 64 && Char6Char(r) == c
  {
    if 'a' <= c <= 'z' then c as int - 'a' as int
    else if 'A' <= c <= 'Z' then c as int - 'A' as int + 26
    else if '0' <= c <= '9' then c as int - '0' as int + 52
    else if c == '.' then 62
    else 63
  }

  /** Every character of the alphabet is accepted by `c6`, and codes are positions. */
  lemma {:induction false} Char6AlphabetCodes()
    ensures |Char6Alphabet| == 64
    ensures forall k | 0 <= k < 64 :: IsChar6(Char6Alphabet[k]) && Char6Code(Char6Alphabet[k]) == k
  {
    Char6AlphabetLayout();
    forall k | 0 <= k < 64
      ensures Char6Code(Char6Char(k)) == k
    {
    }
  }

  function ReadChar6(s: Bits, pos: nat): Option<(char, nat)>
  {
    match ReadFixed(s, pos, 6)
    case None => None
    case Some((code, next)) =>
      assert Pow2(6) == 64;
      Some((Char6Char(code), next))
  }

  /** A string of alphabet characters written with `c6`, one after another. */
  function Char6StringBits(str: string): (r: Bits)
    requires forall i | 0 <= i < |str| :: IsChar6(str[i])
    ensures |r| == 6 * |str|
  {
    if str == [] then [] else FixedBits(6, Char6Code(str[0])) + Char6StringBits(str[1..])
  }

  function ReadChar6String(s: Bits, pos: nat, n: nat): Option<(string, nat)>
    decreases n
  {
    if n == 0 then Some(([], pos))
    else match ReadChar6(s, pos)
      case None => None
      case Some((c, next)) =>
        match ReadChar6String(s, next, n - 1)
        case None => None
        case Some((rest, end)) => Some(([c] + rest, end))
  }

  lemma {:induction false} Char6StringRoundTrip(s: Bits, pos: nat, str: string)
    requires forall i | 0 <= i < |str| :: IsChar6(str[i])
    requires IsAt(s, pos, Char6StringBits(str))
    ensures ReadChar6String(s, pos, |str|) == Some((str, pos + 6 * |str|))
    decreases str
  {
    if str != [] {
      var rest := str[1..];
      var next, end: nat := pos + 6, pos + 6 * |str|;
      Char6HeadAt(s, pos, str[0], Char6StringBits(rest));
      assert ReadChar6String(s, next, |rest|) == Some((rest, end)) by {
        Char6StringRoundTrip(s, next, rest);
      }
      assert [str[0]] + rest == str;
    }
  }

  /** A character written with `c6` reads back, and whatever follows it comes next. */
  lemma {:induction false} Char6HeadAt(s: Bits, pos: nat, c: char, rest: Bits)
    requires IsChar6(c) && IsAt(s, pos, FixedBits(6, Char6Code(c)) + rest)
    ensures ReadChar6(s, pos) == Some((c, (pos + 6) as nat))
    ensures IsAt(s, pos + 6, rest)
  {
    assert Pow2(6) == 64;
    FixedHeadAt(s, pos, 6, Char6Code(c), rest);
  }

  /** The whole alphabet, written with `c6` in order, reads back as itself. */
  lemma {:induction false} Char6AlphabetRoundTrip(s: Bits, pos: nat)
    requires IsAt(s, pos, Char6StringBits(Char6Alphabet))
    ensures ReadChar6String(s, pos, 64) == Some((Char6Alphabet, pos + 384))
  {
    Char6AlphabetCodes();
    Char6StringRoundTrip(s, pos, Char6Alphabet);
  }

  // ---------------------------------------------------------------------------
  // Bytes and blobs

  /** Whole bytes written one after another, each as `fixed(8, b)`. */
  function BytesBits(bytes: seq<byte>): (r: Bits)
    ensures |r| == 8 * |bytes|
  {
    if bytes == [] then [] else FixedBits(8, bytes[0]) + BytesBits(bytes[1..])
  }

  function ReadBytes(s: Bits, pos: nat, n: nat): Option<(seq<byte>, nat)>
    decreases n
  {
    if n == 0 then Some(([], pos))
    else match ReadFixed(s, pos, 8)
      case None => None
      case Some((b, next)) =>
        assert b < Pow2(8) == 256;
        match ReadBytes(s, next, n - 1)
        case None => None
        case Some((rest, end)) => Some(([b] + rest, end))
  }

  lemma {:induction false} BytesRoundTrip(s: Bits, pos: nat, bytes: seq<byte>)
    requires IsAt(s, pos, BytesBits(bytes))
    ensures ReadBytes(s, pos, |bytes|) == Some((bytes, pos + 8 * |bytes|))
    decreases bytes
  {
    if bytes != [] {
      assert Pow2(8) == 256;
      FixedHeadAt(s, pos, 8, bytes[0], BytesBits(bytes[1..]));
      BytesRoundTrip(s, pos + 8, bytes[1..]);
      assert [bytes[0]] + bytes[1..] == bytes;
    }
  }

  /**
   * The buffer after `WriteBlob(bytes)` on buffer `s`: the length as VBR with
   * `w`-bit chunks (the writer uses `w = 6`), zero padding to 32 bits, the raw
   * bytes, zero padding to 32 bits.
   */
  function BlobBits(s: Bits, w: nat, bytes: seq<byte>): Bits
    requires 2 <= w
  {
    Align32Bits(Align32Bits(s + VbrBits(w, |bytes|)) + BytesBits(bytes))
  }

  function ReadBlob(s: Bits, pos: nat, w: nat): Option<(seq<byte>, nat)>
    requires 2 <= w
  {
    match ReadVbr(s, pos, w)
    case None => None
    case Some((n, next)) =>
      match ReadBytes(s, AlignUp32(next), n)
      case None => None
      case Some((bytes, end)) =>
        if AlignUp32(end) <= |s| then Some((bytes, AlignUp32(end))) else None
  }

  /**
   * `out` holds a blob at `pos` that ends the stream: the length field at `pos`,
   * the data at the next 32-bit boundary, and the stream ends at the 32-bit
   * boundary after the data.
   */
  predicate IsBlob(out: Bits, pos: nat, w: nat, bytes: seq<byte>)
    requires 2 <= w
  {
    var data := AlignUp32(pos + |VbrBits(w, |bytes|)|);
    IsAt(out, pos, VbrBits(w, |bytes|)) && IsAt(out, data, BytesBits(bytes))
    && |out| == AlignUp32(data + 8 * |bytes|)
  }

  /** `WriteBlob` lays out a blob at the old end of the stream and leaves it 32-bit aligned. */
  lemma {:induction false} BlobBitsIsBlob(s: Bits, w: nat, bytes: seq<byte>)
    requires 2 <= w
    ensures IsBlob(BlobBits(s, w, bytes), |s|, w, bytes)
    ensures |BlobBits(s, w, bytes)| % 32 == 0
  {
    BlobLengthAt(s, w, bytes);
    BlobDataAt(s, w, bytes);
    BlobSize(s, w, bytes);
  }

  /** The length field of a blob sits where it was written. */
  lemma {:induction false} BlobLengthAt(s: Bits, w: nat, bytes: seq<byte>)
    requires 2 <= w
    ensures IsAt(BlobBits(s, w, bytes), |s|, VbrBits(w, |bytes|))
  {
    AlignedPairFirstAt(s, VbrBits(w, |bytes|), BytesBits(bytes));
  }

  /** The data of a blob sits at the first 32-bit boundary after the length field. */
  lemma {:induction false} BlobDataAt(s: Bits, w: nat, bytes: seq<byte>)
    requires 2 <= w
    ensures IsAt(BlobBits(s, w, bytes), AlignUp32(|s| + |VbrBits(w, |bytes|)|), BytesBits(bytes))
  {
    AlignedPairSecondAt(s, VbrBits(w, |bytes|), BytesBits(bytes));
  }

  lemma {:induction false} BlobSize(s: Bits, w: nat, bytes: seq<byte>)
    requires 2 <= w
    ensures |BlobBits(s, w, bytes)| == AlignUp32(AlignUp32(|s| + |VbrBits(w, |bytes|)|) + 8 * |bytes|)
  {
    var head := Align32Bits(s + VbrBits(w, |bytes|));
    assert |head| == AlignUp32(|s| + |VbrBits(w, |bytes|)|);
    assert |head + BytesBits(bytes)| == |head| + 8 * |bytes|;
  }

  /** A blob reads back as the same bytes, and the reader stops at the end of the stream. */
  lemma {:induction false} BlobRoundTrip(out: Bits, pos: nat, w: nat, bytes: seq<byte>)
    requires 2 <= w && IsBlob(out, pos, w, bytes)
    ensures ReadBlob(out, pos, w) == Some((bytes, |out|))
  {
    var n := |bytes|;
    var next := pos + |VbrBits(w, n)|;
    var data := AlignUp32(next);
    VbrRoundTrip(out, pos, w, n);
    assert ReadVbr(out, pos, w) == Some((n, next));
    BytesRoundTrip(out, data, bytes);
    assert ReadBytes(out, data, n) == Some((bytes, data + 8 * n));
    ReadBlobFrom(out, pos, w, n, next, bytes, data + 8 * n);
  }

  /** Of two fields each followed by padding to 32 bits, the first sits where it was written. */
  lemma {:induction false} AlignedPairFirstAt(s: Bits, len: Bits, data: Bits)
    ensures IsAt(Align32Bits(Align32Bits(s + len) + data), |s|, len)
  {
    var head := Align32Bits(s + len);
    IsAtSuffix(s, len);
    IsAtAligned(s + len, |s|, len);
    IsAtExtended(head, |s|, len, data);
    IsAtAligned(head + data, |s|, len);
  }

  /** Of two fields each followed by padding to 32 bits, the second starts on a 32-bit boundary. */
  lemma {:induction false} AlignedPairSecondAt(s: Bits, len: Bits, data: Bits)
    ensures IsAt(Align32Bits(Align32Bits(s + len) + data), AlignUp32(|s| + |len|), data)
  {
    var head := Align32Bits(s + len);
    IsAtSuffix(head, data);
    IsAtAligned(head + data, |head|, data);
  }

  lemma {:induction false} ReadBlobFrom(s: Bits, pos: nat, w: nat, n: nat, next: nat, bytes: seq<byte>, end: nat)
    requires 2 <= w
    requires ReadVbr(s, pos, w) == Some((n, next))
    requires ReadBytes(s, AlignUp32(next), n) == Some((bytes, end)) && AlignUp32(end) == |s|
    ensures ReadBlob(s, pos, w) == Some((bytes, |s|))
  {
  }
}
