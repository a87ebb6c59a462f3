/**
 * `BitcodeWriter`: writes the block structure and records of an LLVM bitcode
 * stream through a `BitWriter`. Each method is proved to take the writer from
 * a state to the state its specification function in `Framer` describes; the
 * properties of those functions are proved there.
 */
module Writer {
  import opened Bitstream
  import opened Blocks
  import opened Abbrevs
  import opened Fields
  import opened Records
  import opened Framer
  import opened BitWriters

  class BitcodeWriter {
    /** The bit writer the stream goes to. */
    const b: BitWriter
    /** The innermost open block, `Count` at top level. */
    var curBlock: KnownBlock
    /** The abbreviation width in force. */
    var abbrevSize: nat
    /** The open blocks, outermost first, each with the byte offset of its length word. */
    var blockStack: seq<Frame>

    /** The writer's state as a value. */
    function State(): WriterState
      reads this, b
    {
      WriterState(b.bits, abbrevSize, curBlock, blockStack)
    }

    /** The constructor: the magic number, at top level with width 2. */
    constructor()
      ensures fresh(b)
      ensures State() == InitialState()
      ensures Valid(State())
    {
      b := new BitWriter();
      curBlock := Count;
      abbrevSize := 2;
      blockStack := [];
      new;
      b.Write32(BitcodeMagic);
      InitialValid();
    }

    /**
     * `BeginBlock(block)`: for a block kind with a width, ENTER_SUBBLOCK, the
     * padding, a zero length word, and the block pushed; nothing for the
     * sentinel.
     */
    method BeginBlock(block: KnownBlock)
      modifies this, b
      ensures State() == BeginBlockSpec(old(State()), block)
      ensures Valid(old(State())) ==> Valid(State())
    {
      ghost var st := State();
      BeginKeepsValid(st, block);
      var newAbbrevSize := GetBlockAbbrevSize(block);
      if newAbbrevSize == 0 {
        return;
      }
      EnterSubblockBits(b.bits, abbrevSize, block, newAbbrevSize);
      b.Fixed(abbrevSize, EnterSubblockId);
      b.Vbr(8, BlockId(block));
      b.Vbr(4, newAbbrevSize);
      b.Align32();
      ghost var header := b.bits;
      var offs := b.GetByteOffset();
      b.Write32(0);
      curBlock := block;
      abbrevSize := newAbbrevSize;
      blockStack := blockStack + [Frame(block, offs)];
      BeginBlockIs(st, block, header, offs);
    }

    /**
     * `EndBlock()`: END_BLOCK, the padding, the innermost block's length word
     * filled in, and the block popped.
     */
    method EndBlock()
      requires Valid(State()) && blockStack != []
      modifies this, b
      ensures State() == EndBlockSpec(old(State()))
      ensures Valid(State())
    {
      ghost var st := State();
      ValidWidth(st);
      assert FrameValid(Top(blockStack), |b.bits|);
      b.Vbr(abbrevSize, EndBlockId);
      b.Align32();
      ghost var closed := b.bits;
      assert closed == ClosedBits(st);
      var offs := blockStack[|blockStack| - 1].offs;
      var lengthInBytes := b.GetByteOffset() - offs - 4;
      ghost var word := LengthWord(|closed| / 8, offs);
      assert (lengthInBytes / 4) % 0x1_0000_0000 == word;
      b.PatchLengthWord(offs, (lengthInBytes / 4) % 0x1_0000_0000);
      assert b.bits == Patch(closed, 8 * offs, FixedBits(32, word));
      blockStack := blockStack[..|blockStack| - 1];
      if blockStack == [] {
        curBlock := Count;
        abbrevSize := 2;
      } else {
        curBlock := blockStack[|blockStack| - 1].block;
        abbrevSize := GetBlockAbbrevSize(curBlock);
      }
      assert curBlock == InnerBlock(blockStack) && abbrevSize == InnerWidth(blockStack);
      EndBlockIs(st, closed, offs, word, blockStack);
      EndBlockValid(st);
    }

    /** `Unabbrev(record, val)` for a 32- or 64-bit operand: an UNABBREV_RECORD with one operand. */
    method Unabbrev(record: u32, val: u64)
      modifies b
      ensures State() == UnabbrevSpec(old(State()), record, [val])
      ensures Valid(old(State())) ==> Valid(State())
    {
      ghost var st := State();
      AppendKeepsValid(st, UnabbrevFields(abbrevSize, record, [val]));
      ghost var target := b.bits + FieldsBits(UnabbrevFields(abbrevSize, record, [val]));
      WriteUnabbrevHeader(record, 1, target, VbrFields(RecordWidth, [val]));
      ghost var rest := VbrFields(RecordWidth, [val]);
      ConsumeField(b.bits, rest);
      b.Vbr(6, val);
      assert rest[1..] == [];
    }

    /** `Unabbrev(record, vals)` for an array of 32- or 64-bit operands: an UNABBREV_RECORD with each operand. */
    method UnabbrevArray(record: u32, vals: seq<u64>)
      modifies b
      ensures State() == UnabbrevSpec(old(State()), record, vals)
      ensures Valid(old(State())) ==> Valid(State())
    {
      ghost var st := State();
      AppendKeepsValid(st, UnabbrevFields(abbrevSize, record, vals));
      ghost var target := b.bits + FieldsBits(UnabbrevFields(abbrevSize, record, vals));
      WriteUnabbrevHeader(record, |vals|, target, VbrFields(RecordWidth, vals));
      for i := 0 to |vals|
        invariant b.bits + FieldsBits(VbrFields(RecordWidth, vals[i..])) == target
      {
        VbrFieldsStep(vals, i);
        ConsumeField(b.bits, VbrFields(RecordWidth, vals[i..]));
        b.Vbr(6, vals[i]);
      }
      assert vals[|vals|..] == [];
    }

    /** The first three fields of an UNABBREV_RECORD: its id, the record code and the operand count. */
    method WriteUnabbrevHeader(record: nat, count: nat, ghost target: Bits, ghost operands: seq<Field>)
      requires target == b.bits + FieldsBits(UnabbrevHeader(abbrevSize, record, count) + operands)
      modifies b
      ensures b.bits + FieldsBits(operands) == target
      ensures b.bits == old(b.bits) + FieldsBits(UnabbrevHeader(abbrevSize, record, count))
    {
      ghost var rest := UnabbrevHeader(abbrevSize, record, count);
      ConsumeRun(b.bits, rest, operands);
      ghost var head := b.bits + FieldsBits(rest);
      ConsumeField(b.bits, rest);
      b.Fixed(abbrevSize, UnabbrevRecordId);
      rest := rest[1..];
      ConsumeField(b.bits, rest);
      b.Vbr(6, record);
      rest := rest[1..];
      ConsumeField(b.bits, rest);
      b.Vbr(6, count);
      rest := rest[1..];
      assert b.bits == head;
    }

    /**
     * `ModuleBlockInfo(numTypes)`: the BLOCKINFO block, holding for each of the
     * value symbol table, constants and function blocks a SETBID record and
     * the definitions of its table, with the type-width substitution.
     */
    method ModuleBlockInfo(numTypes: u32)
      requires Valid(State())
      modifies this, b
      ensures State() == ModuleBlockInfoSpec(old(State()), numTypes)
      ensures Valid(State())
    {
      ghost var st := State();
      BeginBlockValid(st, BlockInfo);
      AppendValid(BeginBlockSpec(st, BlockInfo), BlockInfoContents(numTypes));
      BeginBlock(BlockInfo);
      ghost var entered := State();
      WriteBlockInfoBody(numTypes);
      assert State() == AppendFields(entered, BlockInfoContents(numTypes));
      EndBlock();
    }

    /** The loop of `ModuleBlockInfo` over the three block kinds with abbreviations. */
    method WriteBlockInfoBody(numTypes: u32)
      modifies b
      ensures b.bits == old(b.bits) + FieldsBits(BlockInfoBodyFields(abbrevSize, AbbreviatedBlocks, numTypes))
    {
      ghost var target := b.bits + FieldsBits(BlockInfoBodyFields(abbrevSize, AbbreviatedBlocks, numTypes));
      var blocks := AbbreviatedBlocks;
      for k := 0 to |blocks|
        invariant b.bits + FieldsBits(BlockInfoBodyFields(abbrevSize, blocks[k..], numTypes)) == target
      {
        BodyStep(abbrevSize, blocks, k, numTypes);
        ConsumeRun(b.bits, BlockAbbrevFields(abbrevSize, blocks[k], numTypes),
                   BlockInfoBodyFields(abbrevSize, blocks[k + 1..], numTypes));
        WriteBlockAbbrevs(blocks[k], numTypes);
      }
      assert blocks[|blocks|..] == [];
    }

    /** One pass of `ModuleBlockInfo`'s loop: SETBID for `block`, then the definitions of its table. */
    method WriteBlockAbbrevs(block: KnownBlock, numTypes: u32)
      requires block in AbbreviatedBlocks
      modifies b
      ensures b.bits == old(b.bits) + FieldsBits(BlockAbbrevFields(abbrevSize, block, numTypes))
    {
      ConsumeRun(b.bits, UnabbrevFields(abbrevSize, SetBid, [BlockId(block)]), DefinesFields(abbrevSize, AbbrevTable(block), numTypes));
      Unabbrev(SetBid, BlockId(block));
      WriteDefines(block, numTypes);
    }

    /** The inner loop of `ModuleBlockInfo`: the first `GetNumAbbrevs(block)` definitions of the block's table, in order. */
    method WriteDefines(block: KnownBlock, numTypes: u32)
      requires block in AbbreviatedBlocks
      modifies b
      ensures b.bits == old(b.bits) + FieldsBits(DefinesFields(abbrevSize, AbbrevTable(block), numTypes))
    {
      ghost var table := AbbrevTable(block);
      ghost var target := b.bits + FieldsBits(DefinesFields(abbrevSize, table, numTypes));
      var abbrevs := GetAbbrevs(block);
      var numAbbrevs := GetNumAbbrevs(block);
      for i := 0 to numAbbrevs
        invariant b.bits + FieldsBits(DefinesFields(abbrevSize, table[i..], numTypes)) == target
      {
        TableEntry(block, i);
        DefinesStep(abbrevSize, table, i, numTypes);
        ConsumeRun(b.bits, DefineAbbrevFields(abbrevSize, table[i], numTypes), DefinesFields(abbrevSize, table[i + 1..], numTypes));
        WriteDefineAbbrev(abbrevs.value[i], numTypes);
      }
      assert table[numAbbrevs..] == [];
    }

    /**
     * One DEFINE_ABBREV: its id, the number of parameters found by scanning for
     * the terminating slot, and each parameter.
     */
    method WriteDefineAbbrev(abbrev: seq<AbbrevParam>, numTypes: u32)
      requires ParamCount(abbrev) < |abbrev|
      modifies b
      ensures b.bits == old(b.bits) + FieldsBits(DefineAbbrevFields(abbrevSize, abbrev, numTypes))
    {
      var ps := SubstituteAll(Params(abbrev), numTypes);
      ghost var target := b.bits + FieldsBits(DefineAbbrevFields(abbrevSize, abbrev, numTypes));
      ghost var rest := DefineAbbrevFields(abbrevSize, abbrev, numTypes);
      ConsumeField(b.bits, rest);
      b.Fixed(abbrevSize, DefineAbbrevId);
      rest := rest[1..];
      var numParams := 0;
      while abbrev[numParams].encoding != Unknown
        invariant numParams <= ParamCount(abbrev)
        decreases ParamCount(abbrev) - numParams
      {
        numParams := numParams + 1;
      }
      ConsumeField(b.bits, rest);
      b.Vbr(5, numParams);
      rest := rest[1..];
      assert rest == ParamsFields(ps);
      for p := 0 to numParams
        invariant b.bits + FieldsBits(ParamsFields(ps[p..])) == target
      {
        ParamsStep(ps, p);
        ConsumeRun(b.bits, ParamFields(ps[p]), ParamsFields(ps[p + 1..]));
        WriteAbbrevParam(abbrev[p], numTypes);
      }
      assert ps[numParams..] == [];
    }

    /**
     * One parameter of a DEFINE_ABBREV, after replacing the reserved width by
     * the bit length of `numTypes`: the literal flag, then the literal value
     * or the encoding with its width.
     */
    method WriteAbbrevParam(abbrevParam: AbbrevParam, numTypes: u32)
      modifies b
      ensures b.bits == old(b.bits) + FieldsBits(ParamFields(Substitute(abbrevParam, numTypes)))
    {
      var param := abbrevParam;
      if param.value == MagicFixedSizeNumTypes {
        param := param.(value := BitLength(numTypes));
      }
      assert param == Substitute(abbrevParam, numTypes);
      ghost var target := b.bits + FieldsBits(ParamFields(param));
      ghost var rest := ParamFields(param);
      var lit := param.encoding == Literal;
      ConsumeField(b.bits, rest);
      b.Fixed(1, if lit then 1 else 0);
      rest := rest[1..];
      if lit {
        ConsumeField(b.bits, rest);
        b.Vbr(8, param.value);
        rest := rest[1..];
      } else {
        ConsumeField(b.bits, rest);
        b.Fixed(3, EncodingCode(param.encoding));
        rest := rest[1..];
        if param.encoding == VBR || param.encoding == Fixed {
          ConsumeField(b.bits, rest);
          b.Vbr(5, param.value);
          rest := rest[1..];
        }
      }
      assert rest == [];
    }
  }

  /** ENTER_SUBBLOCK as the three writes `BeginBlock` makes. */
  lemma {:induction false} EnterSubblockBits(pre: Bits, aw: nat, block: KnownBlock, w: nat)
    ensures pre + FieldsBits(EnterSubblockFields(aw, block, w))
         == ((pre + FixedBits(aw, EnterSubblockId)) + VbrBits(BlockIdWidth, BlockId(block))) + VbrBits(NewAbbrevWidth, w)
  {
    var fs := EnterSubblockFields(aw, block, w);
    ConsumeField(pre, fs);
    ConsumeField(pre + FieldBits(fs[0]), fs[1..]);
    ConsumeField(pre + FieldBits(fs[0]) + FieldBits(fs[1..][0]), fs[1..][1..]);
    assert fs[1..][1..][1..] == [];
  }

  /** Writing records keeps a valid state valid, for a caller that may start from any state. */
  lemma {:induction false} AppendKeepsValid(st: WriterState, fs: seq<Field>)
    ensures Valid(st) ==> Valid(AppendFields(st, fs))
  {
    if Valid(st) {
      AppendValid(st, fs);
    }
  }

  /** Opening a block keeps a valid state valid, for a caller that may start from any state. */
  lemma {:induction false} BeginKeepsValid(st: WriterState, block: KnownBlock)
    ensures Valid(st) ==> Valid(BeginBlockSpec(st, block))
  {
    if Valid(st) {
      BeginBlockValid(st, block);
    }
  }

  /** Each definition `ModuleBlockInfo` reads has a terminating slot, and is the one the model writes. */
  lemma {:induction false} TableEntry(block: KnownBlock, i: nat)
    requires block in AbbreviatedBlocks && i < GetNumAbbrevs(block)
    ensures GetAbbrevs(block).Some? && i < |GetAbbrevs(block).value|
    ensures GetAbbrevs(block).value[i] == AbbrevTable(block)[i]
    ensures ParamCount(GetAbbrevs(block).value[i]) < |GetAbbrevs(block).value[i]|
  {
    AbbrevTablesWellFormed(block);
  }

  lemma {:induction false} VbrFieldsStep(vals: seq<nat>, i: nat)
    requires i < |vals|
    ensures VbrFields(RecordWidth, vals[i..]) != []
    ensures VbrFields(RecordWidth, vals[i..])[0] == VbrField(RecordWidth, vals[i])
    ensures VbrFields(RecordWidth, vals[i..])[1..] == VbrFields(RecordWidth, vals[i + 1..])
  {
    assert vals[i..][1..] == vals[i + 1..];
  }

  lemma {:induction false} ParamsStep(ps: seq<AbbrevParam>, p: nat)
    requires p < |ps|
    ensures ParamsFields(ps[p..]) == ParamFields(ps[p]) + ParamsFields(ps[p + 1..])
  {
    assert ps[p..][1..] == ps[p + 1..];
  }

  lemma {:induction false} DefinesStep(aw: nat, table: seq<seq<AbbrevParam>>, i: nat, numTypes: nat)
    requires i < |table|
    ensures DefinesFields(aw, table[i..], numTypes)
         == DefineAbbrevFields(aw, table[i], numTypes) + DefinesFields(aw, table[i + 1..], numTypes)
  {
    assert table[i..][1..] == table[i + 1..];
  }

  lemma {:induction false} BodyStep(aw: nat, blocks: seq<KnownBlock>, k: nat, numTypes: nat)
    requires k < |blocks|
    ensures BlockInfoBodyFields(aw, blocks[k..], numTypes)
         == BlockAbbrevFields(aw, blocks[k], numTypes) + BlockInfoBodyFields(aw, blocks[k + 1..], numTypes)
  {
    assert blocks[k..][1..] == blocks[k + 1..];
  }
}
