/**
 * The records the bitcode writer emits, each as the run of fields it writes:
 * ENTER_SUBBLOCK and END_BLOCK around every block, UNABBREV_RECORD for plain
 * records, and the SETBID records and DEFINE_ABBREV definitions that make up
 * the BLOCKINFO block.
 */
module Records {
  import opened Bitstream
  import opened Blocks
  import opened Abbrevs
  import opened Fields

  // The abbreviation ids every block reserves, from the "Abbreviation IDs"
  // section of the LLVM Bitcode File Format.
  const EndBlockId: nat := 0
  const EnterSubblockId: nat := 1
  const DefineAbbrevId: nat := 2
  const UnabbrevRecordId: nat := 3

  /** Record code of SETBID in the BLOCKINFO block; declared in a header that is not part of this model. */
  const SetBid: u32

  /** Widths of the fields inside the records, fixed by the bitcode format. */
  const BlockIdWidth: VbrWidth := 8
  const NewAbbrevWidth: VbrWidth := 4
  const RecordWidth: VbrWidth := 6
  const AbbrevCountWidth: VbrWidth := 5
  const LiteralWidth: VbrWidth := 8
  const EncodingWidth: nat := 3

  /**
   * ENTER_SUBBLOCK, written at the enclosing block's abbreviation width: the
   * block id as vbr8, then the new block's abbreviation width as vbr4.
   */
  function EnterSubblockFields(abbrevWidth: nat, block: KnownBlock, newWidth: nat): seq<Field>
  {
    [FixedField(abbrevWidth, EnterSubblockId), VbrField(BlockIdWidth, BlockId(block)), VbrField(NewAbbrevWidth, newWidth)]
  }

  /** END_BLOCK, written as a VBR field at the closing block's abbreviation width. */
  function EndBlockField(abbrevWidth: VbrWidth): Field
  {
    VbrField(abbrevWidth, EndBlockId)
  }

  /** END_BLOCK written as vbr of 0 is the same as END_BLOCK written as a fixed field: all zero bits. */
  lemma {:induction false} EndBlockIsFixed(abbrevWidth: VbrWidth)
    ensures FieldBits(EndBlockField(abbrevWidth)) == FixedBits(abbrevWidth, EndBlockId)
    ensures FixedBits(abbrevWidth, EndBlockId) == Zeros(abbrevWidth)
  {
    ZerosFixed(abbrevWidth);
  }

  lemma {:induction false} ZerosFixed(w: nat)
    ensures FixedBits(w, 0) == Zeros(w)
  {
    if w > 0 {
      ZerosFixed(w - 1);
    }
  }

  /** Values written one after another as VBR fields of `w`-bit chunks. */
  function VbrFields(w: VbrWidth, vals: seq<nat>): (r: seq<Field>)
    ensures |r| == |vals|
  {
    if vals == [] then [] else [VbrField(w, vals[0])] + VbrFields(w, vals[1..])
  }

  /** UNABBREV_RECORD: the record code, the operand count and each operand, all as vbr6. */
  function UnabbrevFields(abbrevWidth: nat, code: nat, vals: seq<nat>): seq<Field>
  {
    UnabbrevHeader(abbrevWidth, code, |vals|) + VbrFields(RecordWidth, vals)
  }

  function UnabbrevHeader(abbrevWidth: nat, code: nat, count: nat): seq<Field>
  {
    [FixedField(abbrevWidth, UnabbrevRecordId), VbrField(RecordWidth, code), VbrField(RecordWidth, count)]
  }

  /** Whether an operand encoding carries a width (written as vbr5 after its tag). */
  predicate HasWidth(e: AbbrevEncoding)
  {
    e == Fixed || e == VBR
  }

  /**
   * One operand of a DEFINE_ABBREV: a literal is a 1 bit and its value as
   * vbr8; any other encoding is a 0 bit, its 3-bit tag and, for Fixed and VBR
   * only, its width as vbr5.
   */
  function ParamFields(p: AbbrevParam): seq<Field>
  {
    if p.encoding == Literal then [FixedField(1, 1), VbrField(LiteralWidth, p.value)]
    else [FixedField(1, 0), FixedField(EncodingWidth, EncodingCode(p.encoding))]
         + (if HasWidth(p.encoding) then [VbrField(AbbrevCountWidth, p.value)] else [])
  }

  function ParamsFields(ps: seq<AbbrevParam>): seq<Field>
  {
    if ps == [] then [] else ParamFields(ps[0]) + ParamsFields(ps[1..])
  }

  /** The parameters of a definition after the type-width substitution. */
  function SubstituteAll(ps: seq<AbbrevParam>, numTypes: nat): (r: seq<AbbrevParam>)
    ensures |r| == |ps|
    ensures forall i | 0 <= i < |ps| :: r[i] == Substitute(ps[i], numTypes)
  {
    seq(|ps|, i requires 0 <= i < |ps| => Substitute(ps[i], numTypes))
  }

  /**
   * DEFINE_ABBREV for a table definition `d`: the number of parameters before
   * the terminating slot as vbr5, then each parameter with the type-width
   * substitution applied.
   */
  function DefineAbbrevFields(abbrevWidth: nat, d: seq<AbbrevParam>, numTypes: nat): seq<Field>
  {
    [FixedField(abbrevWidth, DefineAbbrevId), VbrField(AbbrevCountWidth, ParamCount(d))]
    + ParamsFields(SubstituteAll(Params(d), numTypes))
  }

  function DefinesFields(abbrevWidth: nat, defs: seq<seq<AbbrevParam>>, numTypes: nat): seq<Field>
  {
    if defs == [] then [] else DefineAbbrevFields(abbrevWidth, defs[0], numTypes) + DefinesFields(abbrevWidth, defs[1..], numTypes)
  }

  /** The definitions the writer emits for a block kind: the first `GetNumAbbrevs` of its table, none without one. */
  function AbbrevTable(block: KnownBlock): (r: seq<seq<AbbrevParam>>)
    ensures |r| == GetNumAbbrevs(block)
  {
    match GetAbbrevs(block)
    case None => []
    case Some(defs) => defs[..GetNumAbbrevs(block)]
  }

  /** The part of the BLOCKINFO block about one block kind: SETBID, then its definitions. */
  function BlockAbbrevFields(abbrevWidth: nat, block: KnownBlock, numTypes: nat): seq<Field>
  {
    UnabbrevFields(abbrevWidth, SetBid, [BlockId(block)]) + DefinesFields(abbrevWidth, AbbrevTable(block), numTypes)
  }

  function BlockInfoBodyFields(abbrevWidth: nat, blocks: seq<KnownBlock>, numTypes: nat): seq<Field>
  {
    if blocks == [] then []
    else BlockAbbrevFields(abbrevWidth, blocks[0], numTypes) + BlockInfoBodyFields(abbrevWidth, blocks[1..], numTypes)
  }

  /** Everything `ModuleBlockInfo` writes between the block's header and its END_BLOCK. */
  function BlockInfoContents(numTypes: nat): seq<Field>
  {
    BlockInfoBodyFields(GetBlockAbbrevSize(BlockInfo), AbbreviatedBlocks, numTypes)
  }

  // ---------------------------------------------------------------------------
  // Every fixed field of a definition holds its value within its width

  /** Every fixed field of the BLOCKINFO contents holds a value within its width. */
  lemma {:induction false} BlockInfoEncodable(numTypes: nat)
    ensures AllEncodable(BlockInfoContents(numTypes))
  {
    BlockInfoBodyEncodable(GetBlockAbbrevSize(BlockInfo), AbbreviatedBlocks, numTypes);
  }

  lemma {:induction false} BlockInfoBodyEncodable(aw: nat, blocks: seq<KnownBlock>, numTypes: nat)
    requires 2 <= aw
    ensures AllEncodable(BlockInfoBodyFields(aw, blocks, numTypes))
    decreases blocks
  {
    if blocks != [] {
      UnabbrevEncodable(aw, SetBid, [BlockId(blocks[0])]);
      DefinesEncodable(aw, AbbrevTable(blocks[0]), numTypes);
      AllEncodableAppend(UnabbrevFields(aw, SetBid, [BlockId(blocks[0])]), DefinesFields(aw, AbbrevTable(blocks[0]), numTypes));
      BlockInfoBodyEncodable(aw, blocks[1..], numTypes);
      AllEncodableAppend(BlockAbbrevFields(aw, blocks[0], numTypes), BlockInfoBodyFields(aw, blocks[1..], numTypes));
    }
  }

  /** UNABBREV_RECORD at a width of at least 2 bits: its id 3 fits, and every other field is VBR. */
  lemma {:induction false} UnabbrevEncodable(aw: nat, code: nat, vals: seq<nat>)
    requires 2 <= aw
    ensures AllEncodable(UnabbrevFields(aw, code, vals))
  {
    Pow2Mono(2, aw);
    assert Pow2(2) == 4;
    var h := UnabbrevHeader(aw, code, |vals|);
    assert h[1..][1..][1..] == [];
    assert AllEncodable(h[1..][1..]) && AllEncodable(h[1..]);
    VbrFieldsEncodable(vals);
    AllEncodableAppend(h, VbrFields(RecordWidth, vals));
  }

  lemma {:induction false} VbrFieldsEncodable(vals: seq<nat>)
    ensures AllEncodable(VbrFields(RecordWidth, vals))
    decreases vals
  {
    if vals != [] {
      VbrFieldsEncodable(vals[1..]);
      assert VbrFields(RecordWidth, vals)[1..] == VbrFields(RecordWidth, vals[1..]);
    }
  }

  lemma {:induction false} DefinesEncodable(aw: nat, defs: seq<seq<AbbrevParam>>, numTypes: nat)
    requires 2 <= aw
    ensures AllEncodable(DefinesFields(aw, defs, numTypes))
    decreases defs
  {
    if defs != [] {
      DefineAbbrevEncodable(aw, defs[0], numTypes);
      DefinesEncodable(aw, defs[1..], numTypes);
      AllEncodableAppend(DefineAbbrevFields(aw, defs[0], numTypes), DefinesFields(aw, defs[1..], numTypes));
    }
  }

  /** DEFINE_ABBREV at a width of at least 2 bits: its id 2 fits, and so does every 1-bit flag and 3-bit tag. */
  lemma {:induction false} DefineAbbrevEncodable(aw: nat, d: seq<AbbrevParam>, numTypes: nat)
    requires 2 <= aw
    ensures AllEncodable(DefineAbbrevFields(aw, d, numTypes))
  {
    Pow2Mono(2, aw);
    var h := [FixedField(aw, DefineAbbrevId), VbrField(AbbrevCountWidth, ParamCount(d))];
    assert h[1..][1..] == [];
    ParamsEncodable(SubstituteAll(Params(d), numTypes));
    AllEncodableAppend(h, ParamsFields(SubstituteAll(Params(d), numTypes)));
  }

  lemma {:induction false} ParamsEncodable(ps: seq<AbbrevParam>)
    ensures AllEncodable(ParamsFields(ps))
    decreases ps
  {
    if ps != [] {
      ParamEncodable(ps[0]);
      ParamsEncodable(ps[1..]);
      AllEncodableAppend(ParamFields(ps[0]), ParamsFields(ps[1..]));
    }
  }

  lemma {:induction false} ParamEncodable(p: AbbrevParam)
    ensures AllEncodable(ParamFields(p))
  {
    assert Pow2(1) == 2 && Pow2(3) == 8;
    var fs := ParamFields(p);
    if p.encoding == Literal {
      assert fs[1..][1..] == [];
    } else {
      var t: seq<Field> := if HasWidth(p.encoding) then [VbrField(AbbrevCountWidth, p.value)] else [];
      assert fs[1..] == [FixedField(EncodingWidth, EncodingCode(p.encoding))] + t;
      assert fs[1..][1..] == t;
      assert t != [] ==> t[1..] == [];
      assert AllEncodable(t);
      assert fs[1..][0].value < Pow2(EncodingWidth);
      assert AllEncodable(fs[1..]);
    }
  }
}
