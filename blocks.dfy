/**
 * The block kinds the bitcode writer knows, their numeric ids, and the width
 * of abbreviation ids inside each kind of block.
 */
module Blocks {
  import opened Bitstream

  datatype KnownBlock =
    | BlockInfo
    | ModuleBlock
    | ParamAttrBlock
    | ParamAttrGroupBlock
    | ConstantsBlock
    | FunctionBlock
    | ValueSymtabBlock
    | MetadataBlock
    | MetadataAttachment
    | TypeBlock
    | UselistBlock
    | Count  // sentinel: no block

  // The numeric ids of the block kinds are declared in a header that is not
  // part of this model, so they are left as unspecified 32-bit values.
  const BlockInfoId: u32
  const ModuleBlockId: u32
  const ParamAttrBlockId: u32
  const ParamAttrGroupBlockId: u32
  const ConstantsBlockId: u32
  const FunctionBlockId: u32
  const ValueSymtabBlockId: u32
  const MetadataBlockId: u32
  const MetadataAttachmentId: u32
  const TypeBlockId: u32
  const UselistBlockId: u32
  const CountId: u32

  /** The value of `(uint32_t)block`, which the writer emits as the block id. */
  function BlockId(b: KnownBlock): u32
  {
    match b
    case BlockInfo => BlockInfoId
    case ModuleBlock => ModuleBlockId
    case ParamAttrBlock => ParamAttrBlockId
    case ParamAttrGroupBlock => ParamAttrGroupBlockId
    case ConstantsBlock => ConstantsBlockId
    case FunctionBlock => FunctionBlockId
    case ValueSymtabBlock => ValueSymtabBlockId
    case MetadataBlock => MetadataBlockId
    case MetadataAttachment => MetadataAttachmentId
    case TypeBlock => TypeBlockId
    case UselistBlock => UselistBlockId
    case Count => CountId
  }

  /**
   * `GetBlockAbbrevSize`: the width of abbreviation ids inside a block of kind
   * `b`. Every real block kind has a width between 2 and 4; only the sentinel
   * has none (0). BLOCKINFO alone uses 2 bits; CONSTANTS, FUNCTION,
   * VALUE_SYMTAB and TYPE use 4; every other kind uses 3.
   */
  function GetBlockAbbrevSize(b: KnownBlock): (r: nat)
    ensures r == 0 <==> b == Count
    ensures b != Count ==> 2 <= r <= 4
    ensures r == 2 <==> b == BlockInfo
    ensures r == 4 <==> b in {ConstantsBlock, FunctionBlock, ValueSymtabBlock, TypeBlock}
  {
    match b
    case BlockInfo => 2
    case ModuleBlock => 3
    case ParamAttrBlock => 3
    case ParamAttrGroupBlock => 3
    case ConstantsBlock => 4
    case FunctionBlock => 4
    case ValueSymtabBlock => 4
    case MetadataBlock => 3
    case MetadataAttachment => 3
    case TypeBlock => 4
    case UselistBlock => 3
    case Count => 0
  }
}
