/**
 * What the bitcode writer's operations do to its state, as functions: the bits
 * written, the abbreviation width in force, the innermost open block, and the
 * stack of open blocks, each with the byte offset of its length word.
 */
module Framer {
  import opened Bitstream
  import opened Blocks
  import opened Fields
  import opened Records

  /** An open block: its kind and the byte offset of its length word. */
  datatype Frame = Frame(block: KnownBlock, offs: nat)

  datatype WriterState = WriterState(bits: Bits, abbrevSize: nat, curBlock: KnownBlock, blockStack: seq<Frame>)

  /** The magic number at the start of the stream; declared in a header that is not part of this model. */
  const BitcodeMagic: u32

  /** The abbreviation width outside every block. */
  const TopLevelAbbrevSize: nat := 2

  /** The state the constructor leaves: the magic number written, no block open. */
  function InitialState(): WriterState
  {
    WriterState(FixedBits(32, BitcodeMagic), TopLevelAbbrevSize, Count, [])
  }

  function Top(stack: seq<Frame>): Frame
    requires stack != []
  {
    stack[|stack| - 1]
  }

  /** The block a state with open blocks `stack` is inside; `Count` at top level. */
  function InnerBlock(stack: seq<Frame>): KnownBlock
  {
    if stack == [] then Count else Top(stack).block
  }

  /** The abbreviation width inside the innermost of `stack`; 2 at top level. */
  function InnerWidth(stack: seq<Frame>): nat
  {
    if stack == [] then TopLevelAbbrevSize else GetBlockAbbrevSize(Top(stack).block)
  }

  /** An open block of a real kind whose length word is 32-bit aligned and already written. */
  predicate FrameValid(f: Frame, len: nat)
  {
    f.block != Count && f.offs % 4 == 0 && 8 * f.offs + 32 <= len
  }

  /**
   * The invariant of every state the writer reaches: `curBlock` and
   * `abbrevSize` describe the innermost open block (or the top level), each
   * open block has a length word inside the stream, and each block's length
   * word comes after its parent's.
   */
  predicate Valid(st: WriterState)
  {
    st.curBlock == InnerBlock(st.blockStack)
    && st.abbrevSize == InnerWidth(st.blockStack)
    && FramesValid(st.blockStack, |st.bits|)
    && Nested(st.blockStack)
  }

  predicate FramesValid(stack: seq<Frame>, len: nat)
  {
    forall i | 0 <= i < |stack| :: FrameValid(stack[i], len)
  }

  /** Each open block's length word comes after its parent's. */
  predicate Nested(stack: seq<Frame>)
  {
    forall i, j | 0 <= i < j < |stack| :: stack[i].offs + 4 <= stack[j].offs
  }

  /** The state after a run of fields is written, as every record does. */
  function AppendFields(st: WriterState, fs: seq<Field>): WriterState
  {
    st.(bits := st.bits + FieldsBits(fs))
  }

  /**
   * `BeginBlock(block)`. A block kind without a width (the sentinel) changes
   * nothing. Otherwise: ENTER_SUBBLOCK at the current width, padding to 32
   * bits, a zero placeholder for the length word, and the block becomes the
   * innermost open one.
   */
  function BeginBlockSpec(st: WriterState, block: KnownBlock): WriterState
  {
    var w := GetBlockAbbrevSize(block);
    if w == 0 then st
    else
      var header := Align32Bits(st.bits + FieldsBits(EnterSubblockFields(st.abbrevSize, block, w)));
      WriterState(header + FixedBits(32, 0), w, block, st.blockStack + [Frame(block, |header| / 8)])
  }

  /**
   * The length word: bytes after the length word up to `endByte`, in whole
   * 32-bit words, truncated to 32 bits by the `uint32_t` conversion.
   */
  function LengthWord(endByte: nat, offs: nat): u32
    requires offs + 4 <= endByte
  {
    ((endByte - offs - 4) / 4) % 0x1_0000_0000
  }

  /** The stream once END_BLOCK and the padding after it are written. */
  function ClosedBits(st: WriterState): Bits
    requires 2 <= st.abbrevSize
  {
    Align32Bits(st.bits + FieldBits(EndBlockField(st.abbrevSize)))
  }

  /**
   * `EndBlock()`: END_BLOCK at the current width, padding to 32 bits, the
   * innermost block's length word filled in, and its frame popped; the width
   * and block return to the parent's, or to the top level.
   */
  function EndBlockSpec(st: WriterState): WriterState
    requires Valid(st) && st.blockStack != []
  {
    assert FrameValid(Top(st.blockStack), |st.bits|);
    var closed := ClosedBits(st);
    var offs := Top(st.blockStack).offs;
    var stack := st.blockStack[..|st.blockStack| - 1];
    WriterState(Patch(closed, 8 * offs, FixedBits(32, LengthWord(|closed| / 8, offs))),
                InnerWidth(stack), InnerBlock(stack), stack)
  }

  /** `Unabbrev(record, vals)` (all four overloads): one UNABBREV_RECORD at the current width. */
  function UnabbrevSpec(st: WriterState, code: nat, vals: seq<nat>): WriterState
  {
    AppendFields(st, UnabbrevFields(st.abbrevSize, code, vals))
  }

  /** A whole block of a kind with a width: opened, `body` written, closed. */
  function BlockSpec(st: WriterState, block: KnownBlock, body: seq<Field>): WriterState
    requires Valid(st) && block != Count
  {
    var entered := BeginBlockSpec(st, block);
    BeginBlockValid(st, block);
    AppendValid(entered, body);
    EndBlockSpec(AppendFields(entered, body))
  }

  /** `ModuleBlockInfo(numTypes)`: one BLOCKINFO block holding the SETBID records and definitions. */
  function ModuleBlockInfoSpec(st: WriterState, numTypes: nat): WriterState
    requires Valid(st)
  {
    BlockSpec(st, BlockInfo, BlockInfoContents(numTypes))
  }

  // ---------------------------------------------------------------------------
  // Properties

  /** In a valid state the current width is between 2 and 4. */
  lemma {:induction false} ValidWidth(st: WriterState)
    requires Valid(st)
    ensures 2 <= st.abbrevSize <= 4
  {
    if st.blockStack != [] {
      assert FrameValid(Top(st.blockStack), |st.bits|);
    }
  }

  /** The constructor's state is valid, and the stream holds just the magic number. */
  lemma {:induction false} InitialValid()
    ensures Valid(InitialState())
    ensures ReadFixed(InitialState().bits, 0, 32) == Some((BitcodeMagic as nat, 32))
  {
    var s := InitialState().bits;
    assert IsAt(s, 0, FixedBits(32, BitcodeMagic));
    Pow2Table();
    FixedRoundTripExact(s, 0, 32, BitcodeMagic);
  }

  /** Writing records keeps a state valid. */
  lemma {:induction false} AppendValid(st: WriterState, fs: seq<Field>)
    requires Valid(st)
    ensures Valid(AppendFields(st, fs))
  {
    FramesGrow(st.blockStack, |st.bits|, |st.bits + FieldsBits(fs)|);
  }

  /** Frames that fit a stream still fit it once it grows. */
  lemma {:induction false} FramesGrow(stack: seq<Frame>, len: nat, newLen: nat)
    requires FramesValid(stack, len) && len <= newLen
    ensures FramesValid(stack, newLen)
  {
    forall i | 0 <= i < |stack|
      ensures FrameValid(stack[i], newLen)
    {
      assert FrameValid(stack[i], len);
    }
  }

  /**
   * A block kind without a width leaves the state as it was; any other block
   * kind keeps the state valid and opens exactly one frame on top of the old
   * ones, whose length word is a 32-bit aligned zero word ending the stream.
   */
  lemma {:induction false} BeginBlockValid(st: WriterState, block: KnownBlock)
    requires Valid(st)
    ensures GetBlockAbbrevSize(block) == 0 ==> BeginBlockSpec(st, block) == st
    ensures Valid(BeginBlockSpec(st, block))
    ensures block != Count ==> (
      var r := BeginBlockSpec(st, block);
      && |r.blockStack| == |st.blockStack| + 1
      && r.blockStack[..|st.blockStack|] == st.blockStack
      && Top(r.blockStack).block == block
      && r.curBlock == block && r.abbrevSize == GetBlockAbbrevSize(block)
      && |st.bits| < 8 * Top(r.blockStack).offs
      && 8 * Top(r.blockStack).offs + 32 == |r.bits|
      && IsAt(r.bits, 8 * Top(r.blockStack).offs, FixedBits(32, 0)))
  {
    if block != Count {
      BeginBlockOpens(st, block);
    }
  }

  lemma {:induction false} BeginBlockOpens(st: WriterState, block: KnownBlock)
    requires Valid(st) && block != Count
    ensures
      var r := BeginBlockSpec(st, block);
      && Valid(r)
      && |r.blockStack| == |st.blockStack| + 1
      && r.blockStack[..|st.blockStack|] == st.blockStack
      && Top(r.blockStack).block == block
      && |st.bits| < 8 * Top(r.blockStack).offs
      && 8 * Top(r.blockStack).offs + 32 == |r.bits|
      && IsAt(r.bits, 8 * Top(r.blockStack).offs, FixedBits(32, 0))
  {
    var w := GetBlockAbbrevSize(block);
    var enter := st.bits + FieldsBits(EnterSubblockFields(st.abbrevSize, block, w));
    EnterSubblockNonEmpty(st.abbrevSize, block, w);
    assert |st.bits| + 12 <= |enter|;
    var header := Align32Bits(enter);
    var stack := st.blockStack + [Frame(block, |header| / 8)];
    OpenFrame(st.blockStack, |st.bits|, block, header, FixedBits(32, 0));
    OpenFrameValid(stack, header + FixedBits(32, 0), block);
  }

  /**
   * Pushing a frame whose aligned length word ends the stream, past
   * everything before it, keeps the open blocks properly framed.
   */
  lemma {:induction false} OpenFrame(stack: seq<Frame>, len: nat, block: KnownBlock, header: Bits, word: Bits)
    requires FramesValid(stack, len) && Nested(stack) && block != Count
    requires len + 12 <= |header| && |header| % 32 == 0 && |word| == 32
    ensures var r := stack + [Frame(block, |header| / 8)];
      && FramesValid(r, |header + word|) && Nested(r) && r[..|stack|] == stack
      && 8 * (|header| / 8) == |header|
      && IsAt(header + word, |header|, word)
  {
    var f := Frame(block, |header| / 8);
    AlignedByteOffset(|header|);
    IsAtSuffix(header, word);
    PushFrames(stack, len, f, |header| + 32);
    assert (stack + [f])[..|stack|] == stack;
  }

  /** A 32-bit aligned bit position is a whole byte offset that is a multiple of 4. */
  lemma {:induction false} AlignedByteOffset(n: nat)
    requires n % 32 == 0
    ensures 8 * (n / 8) == n && (n / 8) % 4 == 0
  {
    var q := n / 32;
    assert n == 32 * q;
    assert n / 8 == 4 * q;
  }

  lemma {:induction false} OpenFrameValid(stack: seq<Frame>, bits: Bits, block: KnownBlock)
    requires stack != [] && Top(stack).block == block
    requires FramesValid(stack, |bits|) && Nested(stack)
    ensures Valid(WriterState(bits, GetBlockAbbrevSize(block), block, stack))
  {
  }

  lemma {:induction false} PushFrames(stack: seq<Frame>, len: nat, f: Frame, newLen: nat)
    requires FramesValid(stack, len) && Nested(stack)
    requires len <= 8 * f.offs && FrameValid(f, newLen) && len <= newLen
    ensures FramesValid(stack + [f], newLen) && Nested(stack + [f])
  {
    var r := stack + [f];
    forall i | 0 <= i < |r|
      ensures FrameValid(r[i], newLen)
    {
      if i < |stack| {
        assert FrameValid(stack[i], len);
      }
    }
    forall i, j | 0 <= i < j < |r|
      ensures r[i].offs + 4 <= r[j].offs
    {
      if j == |stack| {
        assert FrameValid(stack[i], len);
      }
    }
  }

  /** ENTER_SUBBLOCK writes at least one bit, so a new length word lies after everything before it. */
  lemma {:induction false} EnterSubblockNonEmpty(abbrevWidth: nat, block: KnownBlock, w: nat)
    ensures 8 + 4 <= |FieldsBits(EnterSubblockFields(abbrevWidth, block, w))|
  {
    var fs := EnterSubblockFields(abbrevWidth, block, w);
    FieldsLengthCons(fs);
    FieldsLengthCons(fs[1..]);
    assert fs[1..][0] == VbrField(BlockIdWidth, BlockId(block));
    assert fs[1..][1..][0] == VbrField(NewAbbrevWidth, w);
    FieldsLengthCons(fs[1..][1..]);
  }

  /** A prefix of the open blocks is still properly framed. */
  lemma {:induction false} FramesPrefix(stack: seq<Frame>, len: nat, k: nat)
    requires FramesValid(stack, len) && Nested(stack) && k <= |stack|
    ensures FramesValid(stack[..k], len) && Nested(stack[..k])
  {
    forall i | 0 <= i < k
      ensures FrameValid(stack[..k][i], len)
    {
      assert FrameValid(stack[i], len);
    }
    forall i, j | 0 <= i < j < k
      ensures stack[..k][i].offs + 4 <= stack[..k][j].offs
    {
      assert stack[i].offs + 4 <= stack[j].offs;
    }
  }

  /**
   * A block opened and closed around any run of records returns the writer
   * to the enclosing block's width, block and open blocks, and keeps
   * everything written before it in place.
   */
  lemma {:induction false} BlockRestoresState(st: WriterState, block: KnownBlock, body: seq<Field>)
    requires Valid(st) && block != Count
    ensures
      var r := BlockSpec(st, block, body);
      && Valid(r)
      && r.blockStack == st.blockStack && r.abbrevSize == st.abbrevSize && r.curBlock == st.curBlock
      && |st.bits| < |r.bits| && st.bits <= r.bits
  {
    var entered := BeginBlockSpec(st, block);
    BeginBlockValid(st, block);
    var inner := AppendFields(entered, body);
    AppendValid(entered, body);
    EndBlockValid(inner);
    BlockKeepsPrefix(st, block, body);
  }

  lemma {:induction false} BlockKeepsPrefix(st: WriterState, block: KnownBlock, body: seq<Field>)
    requires Valid(st) && block != Count
    requires Valid(AppendFields(BeginBlockSpec(st, block), body))
    requires AppendFields(BeginBlockSpec(st, block), body).blockStack != []
    requires |st.bits| < 8 * Top(BeginBlockSpec(st, block).blockStack).offs
    ensures st.bits <= EndBlockSpec(AppendFields(BeginBlockSpec(st, block), body)).bits
  {
    var w := GetBlockAbbrevSize(block);
    var enter := st.bits + FieldsBits(EnterSubblockFields(st.abbrevSize, block, w));
    PrefixGrows(st.bits, st.bits, FieldsBits(EnterSubblockFields(st.abbrevSize, block, w)));
    var header := Align32Bits(enter);
    PrefixGrows(st.bits, header, FixedBits(32, 0));
    var inner := AppendFields(BeginBlockSpec(st, block), body);
    PrefixGrows(st.bits, header + FixedBits(32, 0), FieldsBits(body));
    ValidWidth(inner);
    PrefixGrows(st.bits, inner.bits, FieldBits(EndBlockField(inner.abbrevSize)));
    var closed := ClosedBits(inner);
    var offs := Top(inner.blockStack).offs;
    assert FrameValid(Top(inner.blockStack), |inner.bits|);
    PatchKeepsPrefix(st.bits, closed, 8 * offs, FixedBits(32, LengthWord(|closed| / 8, offs)));
  }

  /** The state `BeginBlock` leaves for a block kind with a width, in terms of the values the method computes. */
  lemma {:induction false} BeginBlockIs(st: WriterState, block: KnownBlock, header: Bits, offs: nat)
    requires GetBlockAbbrevSize(block) != 0
    requires header == Align32Bits(st.bits + FieldsBits(EnterSubblockFields(st.abbrevSize, block, GetBlockAbbrevSize(block))))
    requires offs == |header| / 8
    ensures BeginBlockSpec(st, block)
         == WriterState(header + FixedBits(32, 0), GetBlockAbbrevSize(block), block, st.blockStack + [Frame(block, offs)])
  {
  }

  /** The state `EndBlock` leaves, in terms of the values the method computes. */
  lemma {:induction false} EndBlockIs(st: WriterState, closed: Bits, offs: nat, word: u32, stack: seq<Frame>)
    requires Valid(st) && st.blockStack != []
    requires closed == ClosedBits(st) && offs == Top(st.blockStack).offs
    requires offs + 4 <= |closed| / 8 && word == LengthWord(|closed| / 8, offs)
    requires stack == st.blockStack[..|st.blockStack| - 1]
    ensures EndBlockSpec(st) == WriterState(Patch(closed, 8 * offs, FixedBits(32, word)), InnerWidth(stack), InnerBlock(stack), stack)
  {
  }

  /**
   * `EndBlock` keeps the state valid, pops exactly the innermost frame, and
   * leaves the stream 32-bit aligned and no shorter than before.
   */
  lemma {:induction false} EndBlockValid(st: WriterState)
    requires Valid(st) && st.blockStack != []
    ensures
      var r := EndBlockSpec(st);
      && Valid(r)
      && r.blockStack == st.blockStack[..|st.blockStack| - 1]
      && r.abbrevSize == InnerWidth(r.blockStack) && r.curBlock == InnerBlock(r.blockStack)
      && |st.bits| < |r.bits| && |r.bits| % 32 == 0
  {
    ValidWidth(st);
    var r := EndBlockSpec(st);
    assert |r.bits| == |ClosedBits(st)|;
    FramesGrow(st.blockStack, |st.bits|, |r.bits|);
    FramesPrefix(st.blockStack, |r.bits|, |st.blockStack| - 1);
  }

  /**
   * The length word `EndBlock` writes counts the 32-bit words of the block
   * after the length word itself, up to and including END_BLOCK and its
   * padding: both ends are 32-bit aligned, so the count is exact.
   */
  lemma {:induction false} EndBlockLengthWord(st: WriterState)
    requires Valid(st) && st.blockStack != []
    ensures
      var r := EndBlockSpec(st);
      var start := 8 * Top(st.blockStack).offs + 32;
      && start <= |r.bits| && (|r.bits| - start) % 32 == 0
      && ReadFixed(r.bits, start - 32, 32) == Some((((|r.bits| - start) / 32) % 0x1_0000_0000, start))
  {
    ValidWidth(st);
    assert FrameValid(Top(st.blockStack), |st.bits|);
    PatchedLengthWord(ClosedBits(st), Top(st.blockStack).offs);
  }

  /** The length word patched into a 32-bit aligned stream reads back as the number of words after it. */
  lemma {:induction false} PatchedLengthWord(closed: Bits, offs: nat)
    requires |closed| % 32 == 0 && offs % 4 == 0 && 8 * offs + 32 <= |closed|
    ensures
      var r := Patch(closed, 8 * offs, FixedBits(32, LengthWord(|closed| / 8, offs)));
      && (|r| - (8 * offs + 32)) % 32 == 0
      && ReadFixed(r, 8 * offs, 32) == Some((((|r| - (8 * offs + 32)) / 32) % 0x1_0000_0000, 8 * offs + 32))
  {
    PatchedWordReads(closed, offs, LengthWord(|closed| / 8, offs));
    WordCount(|closed|, offs);
  }

  /** A word patched in at a byte offset reads back as itself. */
  lemma {:induction false} PatchedWordReads(s: Bits, offs: nat, word: u32)
    requires 8 * offs + 32 <= |s|
    ensures ReadFixed(Patch(s, 8 * offs, FixedBits(32, word)), 8 * offs, 32) == Some((word as nat, 8 * offs + 32))
  {
    PatchAt(s, 8 * offs, FixedBits(32, word));
    Pow2Word();
    FixedRoundTripExact(Patch(s, 8 * offs, FixedBits(32, word)), 8 * offs, 32, word);
  }

  /** Counting bytes in words and counting bits in words agree between 32-bit aligned ends. */
  lemma {:induction false} WordCount(len: nat, offs: nat)
    requires len % 32 == 0 && offs % 4 == 0 && 8 * offs + 32 <= len
    ensures (len - (8 * offs + 32)) % 32 == 0
    ensures LengthWord(len / 8, offs) == ((len - (8 * offs + 32)) / 32) % 0x1_0000_0000
  {
    var a, b := len / 32, offs / 4;
    assert len == 32 * a && offs == 4 * b;
    assert len / 8 == 4 * a;
    assert len - (8 * offs + 32) == 32 * (a - b - 1);
    assert len / 8 - offs - 4 == 4 * (a - b - 1);
  }

  /**
   * `EndBlock` overwrites nothing but the 32 bits of the length word: every
   * other bit is what END_BLOCK and its padding left, and END_BLOCK, written as
   * vbr of 0, is the same run of zero bits as a fixed field at the block's width.
   */
  lemma {:induction false} EndBlockPatchesOnlyLengthWord(st: WriterState)
    requires Valid(st) && st.blockStack != []
    ensures
      var r := EndBlockSpec(st);
      var o := 8 * Top(st.blockStack).offs;
      && |r.bits| == |ClosedBits(st)|
      && (forall i | 0 <= i < |r.bits| && !(o <= i < o + 32) :: r.bits[i] == ClosedBits(st)[i])
      && IsAt(r.bits, |st.bits|, FixedBits(st.abbrevSize, EndBlockId))
  {
    ValidWidth(st);
    assert FrameValid(Top(st.blockStack), |st.bits|);
    var closed := ClosedBits(st);
    var offs := Top(st.blockStack).offs;
    var word := LengthWord(|closed| / 8, offs);
    PatchAt(closed, 8 * offs, FixedBits(32, word));
    EndBlockAt(st);
  }

  lemma {:induction false} EndBlockAt(st: WriterState)
    requires 2 <= st.abbrevSize
    ensures IsAt(ClosedBits(st), |st.bits|, FixedBits(st.abbrevSize, EndBlockId))
  {
    EndBlockIsFixed(st.abbrevSize);
    IsAtSuffix(st.bits, FixedBits(st.abbrevSize, EndBlockId));
    IsAtAligned(st.bits + FixedBits(st.abbrevSize, EndBlockId), |st.bits|, FixedBits(st.abbrevSize, EndBlockId));
  }
}
