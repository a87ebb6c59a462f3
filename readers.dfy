/**
 * Readers for what the bitcode writer emits: an UNABBREV_RECORD, and a whole
 * block (ENTER_SUBBLOCK, the length word, the contents, END_BLOCK). Each is
 * proved to recover exactly what the writer's operations wrote, at the
 * position and abbreviation width the writer was at.
 */
module Readers {
  import opened Bitstream
  import opened Blocks
  import opened Fields
  import opened Records
  import opened Framer

  /** `n` fields of kind `k`. */
  function Repeat(k: FieldKind, n: nat): (r: seq<FieldKind>)
    ensures |r| == n
    ensures forall i | 0 <= i < n :: r[i] == k
  {
    if n == 0 then [] else [k] + Repeat(k, n - 1)
  }

  /** The kinds of the three fields every UNABBREV_RECORD starts with, at width `aw`. */
  function UnabbrevHeaderKinds(aw: nat): seq<FieldKind>
  {
    [FixedKind(aw), VbrKind(RecordWidth), VbrKind(RecordWidth)]
  }

  /**
   * Reads an UNABBREV_RECORD at `pos` at width `aw`: the abbreviation id must
   * be UNABBREV_RECORD; then the code, the count and that many operands, all
   * as vbr6.
   */
  function ReadUnabbrev(s: Bits, pos: nat, aw: nat): Option<(nat, seq<nat>, nat)>
  {
    match ReadFields(s, pos, UnabbrevHeaderKinds(aw))
    case None => None
    case Some((h, p)) =>
      if h[0] != UnabbrevRecordId then None
      else
        match ReadFields(s, p, Repeat(VbrKind(RecordWidth), h[2]))
        case None => None
        case Some((vals, end)) => Some((h[1], vals, end))
  }

  /** The kinds of the three fields of ENTER_SUBBLOCK, at width `aw`. */
  function EnterSubblockKinds(aw: nat): seq<FieldKind>
  {
    [FixedKind(aw), VbrKind(BlockIdWidth), VbrKind(NewAbbrevWidth)]
  }

  /**
   * Reads a block header at `pos` at width `aw`: ENTER_SUBBLOCK with the
   * block id and the new width, then, after padding to 32 bits, the length
   * word. Gives the id, the width, the length in words and where the
   * contents start.
   */
  function ReadBlockHeader(s: Bits, pos: nat, aw: nat): Option<(nat, nat, nat, nat)>
  {
    match ReadFields(s, pos, EnterSubblockKinds(aw))
    case None => None
    case Some((h, p)) =>
      if h[0] != EnterSubblockId then None
      else
        match ReadFixed(s, AlignUp32(p), 32)
        case None => None
        case Some((words, start)) => Some((h[1], h[2], words, start))
  }

  /**
   * Reads a whole block at `pos` at width `aw` whose contents have the kinds
   * `ks`: the header, then the rest of the block at the block's own width.
   * Gives the block id, the block's width, the values of the contents and
   * where the block ends.
   */
  function ReadBlock(s: Bits, pos: nat, aw: nat, ks: seq<FieldKind>): Option<(nat, nat, seq<nat>, nat)>
  {
    match ReadBlockHeader(s, pos, aw)
    case None => None
    case Some((id, w, words, start)) =>
      match ReadBlockBody(s, start, w, words, ks)
      case None => None
      case Some((vals, end)) => Some((id, w, vals, end))
  }

  /**
   * The rest of a block from `start`: the contents, END_BLOCK at width `w` and
   * the padding after it. The length word `words` must count the 32-bit words
   * from `start` to the end of the padding.
   */
  function ReadBlockBody(s: Bits, start: nat, w: nat, words: nat, ks: seq<FieldKind>): Option<(seq<nat>, nat)>
  {
    match ReadFields(s, start, ks)
    case None => None
    case Some((vals, p)) =>
      match ReadFixed(s, p, w)
      case None => None
      case Some((code, q)) =>
        var end := AlignUp32(q);
        if code != EndBlockId || |s| < end || end < start || ((end - start) / 32) % 0x1_0000_0000 != words then None
        else Some((vals, end))
  }

  // ---------------------------------------------------------------------------
  // Round trips

  /** Operands written as VBR fields are read by as many VBR reads and encode nothing else. */
  lemma {:induction false} VbrFieldsShape(w: VbrWidth, vals: seq<nat>)
    ensures Kinds(VbrFields(w, vals)) == Repeat(VbrKind(w), |vals|)
    ensures Values(VbrFields(w, vals)) == vals
    ensures AllEncodable(VbrFields(w, vals))
  {
    if vals != [] {
      var fs := VbrFields(w, vals);
      assert fs[0] == VbrField(w, vals[0]) && fs[1..] == VbrFields(w, vals[1..]);
      VbrFieldsShape(w, vals[1..]);
    }
  }

  /** The header of an UNABBREV_RECORD at a width of at least 2 bits. */
  lemma {:induction false} UnabbrevHeaderShape(aw: nat, code: nat, count: nat)
    requires 2 <= aw
    ensures Kinds(UnabbrevHeader(aw, code, count)) == UnabbrevHeaderKinds(aw)
    ensures Values(UnabbrevHeader(aw, code, count)) == [UnabbrevRecordId, code, count]
    ensures AllEncodable(UnabbrevHeader(aw, code, count))
  {
    var h := UnabbrevHeader(aw, code, count);
    Pow2Mono(2, aw);
    var t2 := [VbrField(RecordWidth, count)];
    var t1 := [VbrField(RecordWidth, code)] + t2;
    assert h[1..] == t1 && t1[1..] == t2 && t2[1..] == [];
    assert Kinds(t2) == [VbrKind(RecordWidth)] && Values(t2) == [count] && AllEncodable(t2);
    assert Kinds(t1) == [VbrKind(RecordWidth), VbrKind(RecordWidth)] && Values(t1) == [code, count];
  }

  /** An UNABBREV_RECORD is read by its header kinds and then one VBR read per operand. */
  lemma {:induction false} UnabbrevShape(aw: nat, code: nat, vals: seq<nat>)
    requires 2 <= aw
    ensures Kinds(UnabbrevFields(aw, code, vals)) == UnabbrevHeaderKinds(aw) + Repeat(VbrKind(RecordWidth), |vals|)
    ensures Values(UnabbrevFields(aw, code, vals)) == [UnabbrevRecordId, code, |vals|] + vals
    ensures AllEncodable(UnabbrevFields(aw, code, vals))
  {
    var h, o := UnabbrevHeader(aw, code, |vals|), VbrFields(RecordWidth, vals);
    UnabbrevHeaderShape(aw, code, |vals|);
    VbrFieldsShape(RecordWidth, vals);
    KindsAppend(h, o);
    ValuesAppend(h, o);
    AllEncodableAppend(h, o);
  }

  /**
   * An UNABBREV_RECORD written at width `aw` reads back as its code and
   * operands, ending where the record ends.
   */
  lemma {:induction false} UnabbrevRoundTrip(s: Bits, pos: nat, aw: nat, code: nat, vals: seq<nat>)
    requires 2 <= aw && IsAt(s, pos, FieldsBits(UnabbrevFields(aw, code, vals)))
    ensures ReadUnabbrev(s, pos, aw) == Some((code, vals, pos + |FieldsBits(UnabbrevFields(aw, code, vals))|))
  {
    UnabbrevFieldsRead(s, pos, aw, code, vals);
    ReadUnabbrevWhole(s, pos, aw, code, vals, pos + |FieldsBits(UnabbrevFields(aw, code, vals))|);
  }

  /** The record's fields, where they sit, read back as one run of the header kinds and the operand kinds. */
  lemma {:induction false} UnabbrevFieldsRead(s: Bits, pos: nat, aw: nat, code: nat, vals: seq<nat>)
    requires 2 <= aw && IsAt(s, pos, FieldsBits(UnabbrevFields(aw, code, vals)))
    ensures ReadFields(s, pos, UnabbrevHeaderKinds(aw) + Repeat(VbrKind(RecordWidth), |vals|))
         == Some(([UnabbrevRecordId, code, |vals|] + vals, pos + |FieldsBits(UnabbrevFields(aw, code, vals))|))
  {
    UnabbrevShape(aw, code, vals);
    FieldsRoundTrip(s, pos, UnabbrevFields(aw, code, vals));
  }

  /** `ReadUnabbrev` succeeds when the header kinds followed by the operand kinds read as one run. */
  lemma {:induction false} ReadUnabbrevWhole(s: Bits, pos: nat, aw: nat, code: nat, vals: seq<nat>, end: nat)
    requires ReadFields(s, pos, UnabbrevHeaderKinds(aw) + Repeat(VbrKind(RecordWidth), |vals|))
          == Some(([UnabbrevRecordId, code, |vals|] + vals, end))
    ensures ReadUnabbrev(s, pos, aw) == Some((code, vals, end))
  {
    var vs := [UnabbrevRecordId, code, |vals|] + vals;
    ReadFieldsSplit(s, pos, UnabbrevHeaderKinds(aw), Repeat(VbrKind(RecordWidth), |vals|), vs, end);
    assert vs[..3] == [UnabbrevRecordId, code, |vals|] && vs[3..] == vals;
  }

  /**
   * What `Unabbrev` writes in a valid state, read at the old end of the stream
   * at the current width, is the same record, and it ends the stream.
   */
  lemma {:induction false} UnabbrevReadsBack(st: WriterState, code: nat, vals: seq<nat>)
    requires Valid(st)
    ensures ReadUnabbrev(UnabbrevSpec(st, code, vals).bits, |st.bits|, st.abbrevSize)
         == Some((code, vals, |UnabbrevSpec(st, code, vals).bits|))
  {
    var e := FieldsBits(UnabbrevFields(st.abbrevSize, code, vals));
    assert UnabbrevSpec(st, code, vals).bits == st.bits + e;
    ValidWidth(st);
    IsAtSuffix(st.bits, e);
    UnabbrevRoundTrip(st.bits + e, |st.bits|, st.abbrevSize, code, vals);
  }

  // ---------------------------------------------------------------------------
  // Blocks

  /** The ENTER_SUBBLOCK fields at a width of at least 2 bits read back as the id, the block id and the new width. */
  lemma {:induction false} EnterSubblockShape(aw: nat, block: KnownBlock, w: nat)
    requires 2 <= aw
    ensures Kinds(EnterSubblockFields(aw, block, w)) == EnterSubblockKinds(aw)
    ensures Values(EnterSubblockFields(aw, block, w)) == [EnterSubblockId, BlockId(block) as nat, w]
    ensures AllEncodable(EnterSubblockFields(aw, block, w))
  {
    var h := EnterSubblockFields(aw, block, w);
    Pow2Mono(2, aw);
    var t2 := [VbrField(NewAbbrevWidth, w)];
    var t1 := [VbrField(BlockIdWidth, BlockId(block))] + t2;
    assert h[1..] == t1 && t1[1..] == t2 && t2[1..] == [];
    assert Kinds(t2) == [VbrKind(NewAbbrevWidth)] && Values(t2) == [w] && AllEncodable(t2);
    assert Kinds(t1) == [VbrKind(BlockIdWidth), VbrKind(NewAbbrevWidth)] && Values(t1) == [BlockId(block) as nat, w];
  }

  /**
   * The bits a whole block leaves, laid out: the stream before it, then
   * ENTER_SUBBLOCK padded to 32 bits (`header`), the length word, the body,
   * END_BLOCK as `w` zero bits padded to 32 bits (`closed`), with the length
   * word patched in at the end of `header`.
   */
  lemma {:induction false} BlockBitsAre(st: WriterState, block: KnownBlock, body: seq<Field>, header: Bits, inner: Bits, closed: Bits)
    requires Valid(st) && block != Count
    requires header == Align32Bits(st.bits + FieldsBits(EnterSubblockFields(st.abbrevSize, block, GetBlockAbbrevSize(block))))
    requires inner == header + FixedBits(32, 0) + FieldsBits(body)
    requires closed == Align32Bits(inner + FixedBits(GetBlockAbbrevSize(block), EndBlockId))
    ensures 8 * (|header| / 8) == |header| && (|header| / 8) + 4 <= |closed| / 8
    ensures |header| + 32 <= |closed| && BlockSpec(st, block, body).bits == Patched(header, closed)
  {
    var w := GetBlockAbbrevSize(block);
    var offs := |header| / 8;
    var full := AppendFields(BeginBlockSpec(st, block), body);
    EnteredIs(st, block, body, header, inner);
    EndBlockIsFixed(w);
    assert ClosedBits(full) == closed;
    AlignedByteOffset(|header|);
    EndBlockIs(full, closed, offs, LengthWord(|closed| / 8, offs), st.blockStack);
  }

  /** The state just before `EndBlock`: the block entered and its body written. */
  lemma {:induction false} EnteredIs(st: WriterState, block: KnownBlock, body: seq<Field>, header: Bits, inner: Bits)
    requires Valid(st) && block != Count
    requires header == Align32Bits(st.bits + FieldsBits(EnterSubblockFields(st.abbrevSize, block, GetBlockAbbrevSize(block))))
    requires inner == header + FixedBits(32, 0) + FieldsBits(body)
    ensures Valid(AppendFields(BeginBlockSpec(st, block), body))
    ensures AppendFields(BeginBlockSpec(st, block), body)
         == WriterState(inner, GetBlockAbbrevSize(block), block, st.blockStack + [Frame(block, |header| / 8)])
  {
    BeginBlockIs(st, block, header, |header| / 8);
    BeginBlockValid(st, block);
    AppendValid(BeginBlockSpec(st, block), body);
  }

  /** What lies in the stream before the length word, or after it, survives the length word's patch. */
  lemma {:induction false} Survives(inner: Bits, closed: Bits, at: nat, word: u32, pos: nat, e: Bits)
    requires inner <= closed && IsAt(inner, pos, e) && at + 32 <= |closed|
    requires pos + |e| <= at || at + 32 <= pos
    ensures IsAt(Patch(closed, at, FixedBits(32, word)), pos, e)
  {
    IsAtPrefix(inner, closed, pos, e);
    IsAtPatchedAway(closed, pos, e, at, FixedBits(32, word));
  }

  /** The block as laid out: the stream before it, ENTER_SUBBLOCK padded to `header`, the length word, the body, END_BLOCK padded to `closed`. */
  predicate Laid(pre: Bits, enter: Bits, header: Bits, b: Bits, w: nat, inner: Bits, closed: Bits)
  {
    && header == Align32Bits(pre + enter)
    && inner == header + FixedBits(32, 0) + b
    && closed == Align32Bits(inner + FixedBits(w, EndBlockId))
  }

  /** The sizes of the laid-out block, and each part a prefix of the next. */
  lemma {:induction false} LaidPrefixes(pre: Bits, enter: Bits, header: Bits, b: Bits, w: nat, inner: Bits, closed: Bits)
    requires Laid(pre, enter, header, b, w, inner, closed)
    ensures |header| == AlignUp32(|pre| + |enter|) && |inner| == |header| + 32 + |b| && |closed| == AlignUp32(|inner| + w)
    ensures pre + enter <= header && header <= inner && inner <= closed
  {
    PrefixGrows(inner, inner, FixedBits(w, EndBlockId));
    assert inner[..|header|] == header;
    assert header[..|pre + enter|] == pre + enter;
  }

  /** The block's length word as `EndBlock` patches it in. */
  function Patched(header: Bits, closed: Bits): Bits
    requires |header| + 32 <= |closed|
  {
    Patch(closed, |header|, FixedBits(32, LengthWord(|closed| / 8, |header| / 8)))
  }

  lemma {:induction false} EnterSurvives(pre: Bits, enter: Bits, header: Bits, b: Bits, w: nat, inner: Bits, closed: Bits)
    requires Laid(pre, enter, header, b, w, inner, closed)
    ensures |header| + 32 <= |closed| && IsAt(Patched(header, closed), |pre|, enter)
  {
    LaidPrefixes(pre, enter, header, b, w, inner, closed);
    IsAtSuffix(pre, enter);
    IsAtPrefix(pre + enter, header, |pre|, enter);
    IsAtPrefix(header, inner, |pre|, enter);
    Survives(inner, closed, |header|, LengthWord(|closed| / 8, |header| / 8), |pre|, enter);
  }

  lemma {:induction false} BodySurvives(pre: Bits, enter: Bits, header: Bits, b: Bits, w: nat, inner: Bits, closed: Bits)
    requires Laid(pre, enter, header, b, w, inner, closed)
    ensures |header| + 32 <= |closed| && IsAt(Patched(header, closed), |header| + 32, b)
  {
    LaidPrefixes(pre, enter, header, b, w, inner, closed);
    IsAtSuffix(header + FixedBits(32, 0), b);
    Survives(inner, closed, |header|, LengthWord(|closed| / 8, |header| / 8), |header| + 32, b);
  }

  lemma {:induction false} EndSurvives(pre: Bits, enter: Bits, header: Bits, b: Bits, w: nat, inner: Bits, closed: Bits)
    requires Laid(pre, enter, header, b, w, inner, closed)
    ensures |header| + 32 <= |closed| && IsAt(Patched(header, closed), |inner|, FixedBits(w, EndBlockId))
  {
    LaidPrefixes(pre, enter, header, b, w, inner, closed);
    IsAtSuffix(inner, FixedBits(w, EndBlockId));
    IsAtAligned(inner + FixedBits(w, EndBlockId), |inner|, FixedBits(w, EndBlockId));
    IsAtPatchedAway(closed, |inner|, FixedBits(w, EndBlockId), |header|, FixedBits(32, LengthWord(|closed| / 8, |header| / 8)));
  }

  /** The length word patched in at a 32-bit aligned `at` reads back as the words after it. */
  lemma {:induction false} WordSurvives(pre: Bits, enter: Bits, header: Bits, b: Bits, w: nat, inner: Bits, closed: Bits)
    requires Laid(pre, enter, header, b, w, inner, closed)
    ensures |header| + 32 <= |closed|
    ensures |Patched(header, closed)| == |closed| && (|closed| - (|header| + 32)) % 32 == 0
    ensures ReadFixed(Patched(header, closed), |header|, 32) == Some((((|closed| - (|header| + 32)) / 32) % 0x1_0000_0000, |header| + 32))
  {
    LaidPrefixes(pre, enter, header, b, w, inner, closed);
    AlignedByteOffset(|header|);
    PatchedLengthWord(closed, |header| / 8);
  }

  /** ENTER_SUBBLOCK, where it sits, reads back. */
  lemma {:induction false} EnterSubblockReads(s: Bits, pos: nat, aw: nat, block: KnownBlock, w: nat)
    requires 2 <= aw && IsAt(s, pos, FieldsBits(EnterSubblockFields(aw, block, w)))
    ensures ReadFields(s, pos, EnterSubblockKinds(aw))
         == Some(([EnterSubblockId, BlockId(block) as nat, w], pos + |FieldsBits(EnterSubblockFields(aw, block, w))|))
  {
    EnterSubblockShape(aw, block, w);
    FieldsRoundTrip(s, pos, EnterSubblockFields(aw, block, w));
  }

  /** END_BLOCK, where it sits, reads back as a fixed field at the block's width. */
  lemma {:induction false} EndBlockReads(s: Bits, pos: nat, w: nat)
    requires IsAt(s, pos, FixedBits(w, EndBlockId))
    ensures ReadFixed(s, pos, w) == Some((EndBlockId, pos + w))
  {
    Pow2Mono(0, w);
    FixedRoundTripExact(s, pos, w, EndBlockId);
  }

  /**
   * A whole block, opened at the end of a valid stream, written with any
   * encodable body and closed, reads back: its id, its width, its contents
   * and its end, with a length word that matches.
   */
  lemma {:induction false} BlockRoundTrip(st: WriterState, block: KnownBlock, body: seq<Field>)
    requires Valid(st) && block != Count && AllEncodable(body)
    ensures ReadBlock(BlockSpec(st, block, body).bits, |st.bits|, st.abbrevSize, Kinds(body))
         == Some((BlockId(block) as nat, GetBlockAbbrevSize(block), Values(body), |BlockSpec(st, block, body).bits|))
  {
    var header, inner, closed := BlockLaidOut(st, block, body);
    LaidIsBlockAt(st.bits, st.abbrevSize, block, body, header, inner, closed);
    BlockAtReads(Patched(header, closed), |st.bits|, st.abbrevSize, block, body, |header|, ((|closed| - (|header| + 32)) / 32) % 0x1_0000_0000);
  }

  /**
   * The BLOCKINFO block `ModuleBlockInfo` writes reads back: its id, width 2,
   * and the SETBID records and DEFINE_ABBREV definitions it holds.
   */
  lemma {:induction false} ModuleBlockInfoReadsBack(st: WriterState, numTypes: nat)
    requires Valid(st)
    ensures ReadBlock(ModuleBlockInfoSpec(st, numTypes).bits, |st.bits|, st.abbrevSize, Kinds(BlockInfoContents(numTypes)))
         == Some((BlockId(BlockInfo) as nat, GetBlockAbbrevSize(BlockInfo), Values(BlockInfoContents(numTypes)), |ModuleBlockInfoSpec(st, numTypes).bits|))
    ensures GetBlockAbbrevSize(BlockInfo) == 2
  {
    BlockInfoEncodable(numTypes);
    BlockRoundTrip(st, BlockInfo, BlockInfoContents(numTypes));
  }

  /** The bits a whole block leaves are the laid-out block with its length word patched in. */
  lemma {:induction false} BlockLaidOut(st: WriterState, block: KnownBlock, body: seq<Field>) returns (header: Bits, inner: Bits, closed: Bits)
    requires Valid(st) && block != Count
    ensures 2 <= st.abbrevSize
    ensures Laid(st.bits, FieldsBits(EnterSubblockFields(st.abbrevSize, block, GetBlockAbbrevSize(block))), header, FieldsBits(body),
                 GetBlockAbbrevSize(block), inner, closed)
    ensures |header| + 32 <= |closed| && BlockSpec(st, block, body).bits == Patched(header, closed)
  {
    ValidWidth(st);
    var w := GetBlockAbbrevSize(block);
    header := Align32Bits(st.bits + FieldsBits(EnterSubblockFields(st.abbrevSize, block, w)));
    inner := header + FixedBits(32, 0) + FieldsBits(body);
    closed := Align32Bits(inner + FixedBits(w, EndBlockId));
    BlockBitsAre(st, block, body, header, inner, closed);
  }

  /** A block header, where it sits in `r`: ENTER_SUBBLOCK at `pos`, then at the next 32-bit boundary `hl` a length word. */
  predicate HeaderAt(r: Bits, pos: nat, aw: nat, block: KnownBlock, w: nat, hl: nat, words: nat)
  {
    && IsAt(r, pos, FieldsBits(EnterSubblockFields(aw, block, w)))
    && hl == AlignUp32(pos + |FieldsBits(EnterSubblockFields(aw, block, w))|)
    && ReadFixed(r, hl, 32) == Some((words, hl + 32))
  }

  /** A block header read back piece by piece: ENTER_SUBBLOCK ending at `p`, the length word at the next 32-bit boundary `hl`. */
  predicate HeaderRead(r: Bits, pos: nat, aw: nat, id: nat, w: nat, p: nat, hl: nat, words: nat)
  {
    && ReadFields(r, pos, EnterSubblockKinds(aw)) == Some(([EnterSubblockId, id, w], p))
    && hl == AlignUp32(p)
    && ReadFixed(r, hl, 32) == Some((words, hl + 32))
  }

  /** A block header read back piece by piece is what `ReadBlockHeader` reads. */
  lemma {:induction false} HeaderReads(r: Bits, pos: nat, aw: nat, id: nat, w: nat, p: nat, hl: nat, words: nat)
    requires HeaderRead(r, pos, aw, id, w, p, hl, words)
    ensures ReadBlockHeader(r, pos, aw) == Some((id, w, words, hl + 32))
  {
  }

  /** The rest of a block, where it sits in `r`: the contents at `start`, then END_BLOCK padded to the end of `r`, which the length word counts. */
  predicate RestAt(r: Bits, start: nat, body: seq<Field>, w: nat, words: nat)
  {
    IsAt(r, start, FieldsBits(body)) && EndAt(r, start + |FieldsBits(body)|, start, w, words)
  }

  /** END_BLOCK at `q`, padded to the end of `r`, which the length word read before `start` counts. */
  predicate EndAt(r: Bits, q: nat, start: nat, w: nat, words: nat)
  {
    && IsAt(r, q, FixedBits(w, EndBlockId))
    && AlignUp32(q + w) == |r| && start <= |r|
    && ((|r| - start) / 32) % 0x1_0000_0000 == words
  }

  /** The rest of a block read back piece by piece: the contents from `start` to `q`, END_BLOCK, the padding the length word counts. */
  predicate RestRead(r: Bits, start: nat, ks: seq<FieldKind>, vals: seq<nat>, q: nat, w: nat, words: nat)
  {
    && ReadFields(r, start, ks) == Some((vals, q))
    && ReadFixed(r, q, w) == Some((EndBlockId, q + w))
    && start <= AlignUp32(q + w) == |r| && ((|r| - start) / 32) % 0x1_0000_0000 == words
  }

  /** The rest of a block, where it sits, reads back piece by piece. */
  lemma {:induction false} RestAtRead(r: Bits, start: nat, body: seq<Field>, w: nat, words: nat)
    requires AllEncodable(body) && RestAt(r, start, body, w, words)
    ensures RestRead(r, start, Kinds(body), Values(body), start + |FieldsBits(body)|, w, words)
  {
    FieldsRoundTrip(r, start, body);
    EndAtRead(r, start + |FieldsBits(body)|, start, w, words);
  }

  /** END_BLOCK where it sits, padded to the end of `r`, reads back. */
  lemma {:induction false} EndAtRead(r: Bits, q: nat, start: nat, w: nat, words: nat)
    requires EndAt(r, q, start, w, words)
    ensures ReadFixed(r, q, w) == Some((EndBlockId, q + w))
    ensures start <= AlignUp32(q + w) == |r| && ((|r| - start) / 32) % 0x1_0000_0000 == words
  {
    EndBlockReads(r, q, w);
  }

  /** The rest of a block read back piece by piece is what `ReadBlockBody` reads. */
  lemma {:induction false} RestReads(r: Bits, start: nat, ks: seq<FieldKind>, vals: seq<nat>, q: nat, w: nat, words: nat)
    requires RestRead(r, start, ks, vals, q, w, words)
    ensures ReadBlockBody(r, start, w, words, ks) == Some((vals, |r|))
  {
  }

  /** The contents where they sit, then END_BLOCK where it sits, are the rest of a block. */
  lemma {:induction false} RestAtOf(r: Bits, start: nat, body: seq<Field>, q: nat, w: nat, words: nat)
    requires IsAt(r, start, FieldsBits(body)) && q == start + |FieldsBits(body)| && EndAt(r, q, start, w, words)
    ensures RestAt(r, start, body, w, words)
  {
  }

  /** A block, where it sits in `r`: its header at `pos`, the rest after the length word at `hl`. */
  predicate BlockAt(r: Bits, pos: nat, aw: nat, block: KnownBlock, body: seq<Field>, hl: nat, words: nat)
  {
    HeaderAt(r, pos, aw, block, GetBlockAbbrevSize(block), hl, words) && RestAt(r, hl + 32, body, GetBlockAbbrevSize(block), words)
  }

  /** A block, where it sits, reads back. */
  lemma {:induction false} BlockAtReads(r: Bits, pos: nat, aw: nat, block: KnownBlock, body: seq<Field>, hl: nat, words: nat)
    requires 2 <= aw && AllEncodable(body) && BlockAt(r, pos, aw, block, body, hl, words)
    ensures ReadBlock(r, pos, aw, Kinds(body)) == Some((BlockId(block) as nat, GetBlockAbbrevSize(block), Values(body), |r|))
  {
    HeaderAtReads(r, pos, aw, block, GetBlockAbbrevSize(block), hl, words);
    RestAtReads(r, hl + 32, body, GetBlockAbbrevSize(block), words);
  }

  /** A block header, where it sits, is what `ReadBlockHeader` reads. */
  lemma {:induction false} HeaderAtReads(r: Bits, pos: nat, aw: nat, block: KnownBlock, w: nat, hl: nat, words: nat)
    requires 2 <= aw && HeaderAt(r, pos, aw, block, w, hl, words)
    ensures ReadBlockHeader(r, pos, aw) == Some((BlockId(block) as nat, w, words, hl + 32))
  {
    EnterSubblockReads(r, pos, aw, block, w);
    HeaderReads(r, pos, aw, BlockId(block) as nat, w, pos + |FieldsBits(EnterSubblockFields(aw, block, w))|, hl, words);
  }

  /** The rest of a block, where it sits, is what `ReadBlockBody` reads. */
  lemma {:induction false} RestAtReads(r: Bits, start: nat, body: seq<Field>, w: nat, words: nat)
    requires AllEncodable(body) && RestAt(r, start, body, w, words)
    ensures ReadBlockBody(r, start, w, words, Kinds(body)) == Some((Values(body), |r|))
  {
    RestAtRead(r, start, body, w, words);
    RestReads(r, start, Kinds(body), Values(body), start + |FieldsBits(body)|, w, words);
  }

  /** The laid-out block, with its length word patched in, is a block where it sits. */
  lemma {:induction false} LaidIsBlockAt(pre: Bits, aw: nat, block: KnownBlock, body: seq<Field>, header: Bits, inner: Bits, closed: Bits)
    requires Laid(pre, FieldsBits(EnterSubblockFields(aw, block, GetBlockAbbrevSize(block))), header, FieldsBits(body),
                  GetBlockAbbrevSize(block), inner, closed)
    ensures |header| + 32 <= |closed| && |Patched(header, closed)| == |closed|
    ensures BlockAt(Patched(header, closed), |pre|, aw, block, body, |header|, ((|closed| - (|header| + 32)) / 32) % 0x1_0000_0000)
  {
    LaidHeaderAt(pre, aw, block, FieldsBits(body), header, inner, closed);
    var enter := FieldsBits(EnterSubblockFields(aw, block, GetBlockAbbrevSize(block)));
    BodySurvives(pre, enter, header, FieldsBits(body), GetBlockAbbrevSize(block), inner, closed);
    LaidEndAt(pre, enter, FieldsBits(body), GetBlockAbbrevSize(block), header, inner, closed);
    RestAtOf(Patched(header, closed), |header| + 32, body, |inner|, GetBlockAbbrevSize(block), ((|closed| - (|header| + 32)) / 32) % 0x1_0000_0000);
  }

  lemma {:induction false} LaidHeaderAt(pre: Bits, aw: nat, block: KnownBlock, b: Bits, header: Bits, inner: Bits, closed: Bits)
    requires Laid(pre, FieldsBits(EnterSubblockFields(aw, block, GetBlockAbbrevSize(block))), header, b, GetBlockAbbrevSize(block), inner, closed)
    ensures |header| + 32 <= |closed| && |Patched(header, closed)| == |closed|
    ensures HeaderAt(Patched(header, closed), |pre|, aw, block, GetBlockAbbrevSize(block), |header|, ((|closed| - (|header| + 32)) / 32) % 0x1_0000_0000)
  {
    var w := GetBlockAbbrevSize(block);
    var enter := FieldsBits(EnterSubblockFields(aw, block, w));
    LaidPrefixes(pre, enter, header, b, w, inner, closed);
    EnterSurvives(pre, enter, header, b, w, inner, closed);
    WordSurvives(pre, enter, header, b, w, inner, closed);
  }

  lemma {:induction false} LaidEndAt(pre: Bits, enter: Bits, b: Bits, w: nat, header: Bits, inner: Bits, closed: Bits)
    requires Laid(pre, enter, header, b, w, inner, closed)
    ensures |header| + 32 <= |closed| && |inner| == |header| + 32 + |b|
    ensures EndAt(Patched(header, closed), |inner|, |header| + 32, w, ((|closed| - (|header| + 32)) / 32) % 0x1_0000_0000)
  {
    LaidPrefixes(pre, enter, header, b, w, inner, closed);
    EndSurvives(pre, enter, header, b, w, inner, closed);
  }
}
