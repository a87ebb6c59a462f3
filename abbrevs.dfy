/**
 * The static abbreviation tables the writer publishes in the BLOCKINFO block,
 * their lookup by block kind, and the type-width substitution applied to them.
 *
 * A definition has eight parameter slots; the parameters come first and the
 * unused slots are zero-filled, which reads as encoding `Unknown`, so the
 * first `Unknown` slot ends the definition.
 */
module Abbrevs {
  import opened Bitstream
  import opened Blocks

  datatype AbbrevEncoding = Unknown | Fixed | VBR | Array | Char6 | Literal

  /** One operand of an abbreviation: its encoding and its width or literal value. */
  datatype AbbrevParam = AbbrevParam(encoding: AbbrevEncoding, value: nat)

  /**
   * The 3-bit tag a non-literal operand encoding is written as. The tags 1 to 4
   * are the values the LLVM Bitcode File Format gives Fixed, VBR, Array and
   * Char6; the enumeration they come from is declared in a header that is not
   * part of this model.
   */
  function EncodingCode(e: AbbrevEncoding): (r: nat)
    requires e != Literal
    ensures r < 8
    ensures r == 0 <==> e == Unknown
  {
    match e
    case Unknown => 0
    case Fixed => 1
    case VBR => 2
    case Array => 3
    case Char6 => 4
  }

  /** Distinct encodings get distinct tags, so the 3-bit tag decides the encoding. */
  lemma {:induction false} EncodingCodesDistinct(a: AbbrevEncoding, b: AbbrevEncoding)
    requires a != Literal && b != Literal
    ensures EncodingCode(a) == EncodingCode(b) <==> a == b
  {
  }

  /** The reserved width that stands for "as many bits as a type index needs". */
  const MagicFixedSizeNumTypes: nat := 99

  /** Number of parameter slots in every definition. */
  const DefinitionSlots: nat := 8

  // Record codes used as literal operands. Their numeric values are declared in
  // a header that is not part of this model, so they are left unspecified.
  const ValueSymtabEntry: nat
  const ValueSymtabBBEntry: nat
  const ConstantsSetType: nat
  const ConstantsInteger: nat
  const ConstantsEvalCast: nat
  const ConstantsNull: nat
  const FunctionInstLoad: nat
  const FunctionInstBinop: nat
  const FunctionInstCast: nat
  const FunctionInstRet: nat
  const FunctionInstUnreachable: nat
  const FunctionInstGep: nat

  function AbbFixed(n: nat): AbbrevParam { AbbrevParam(Fixed, n) }
  function AbbVBR(n: nat): AbbrevParam { AbbrevParam(VBR, n) }
  function AbbLiteral(lit: nat): AbbrevParam { AbbrevParam(Literal, lit) }
  const AbbArray: AbbrevParam := AbbrevParam(Array, 0)
  const AbbChar6: AbbrevParam := AbbrevParam(Char6, 0)
  const AbbFixedTypes: AbbrevParam := AbbFixed(MagicFixedSizeNumTypes)

  /** A zero-filled slot. */
  const NoParam: AbbrevParam := AbbrevParam(Unknown, 0)

  /** A definition listing `ps`, with the remaining slots zero-filled. */
  function Definition(ps: seq<AbbrevParam>): (d: seq<AbbrevParam>)
    requires |ps| <= DefinitionSlots
    ensures |d| == DefinitionSlots && d[..|ps|] == ps
    ensures forall i | |ps| <= i < DefinitionSlots :: d[i] == NoParam
  {
    ps + seq(DefinitionSlots - |ps|, _ => NoParam)
  }

  /** The definitions listing each of `lists`, in order, as the tables' aggregate initialisers produce. */
  function Definitions(lists: seq<seq<AbbrevParam>>): (defs: seq<seq<AbbrevParam>>)
    requires forall i | 0 <= i < |lists| :: |lists[i]| <= DefinitionSlots
    ensures |defs| == |lists|
    ensures forall i | 0 <= i < |lists| :: defs[i] == Definition(lists[i])
  {
    if lists == [] then [] else [Definition(lists[0])] + Definitions(lists[1..])
  }

  const ValueSymtabAbbrevParams: seq<seq<AbbrevParam>> := [
    [AbbFixed(3), AbbVBR(8), AbbArray, AbbFixed(8)],                      // Entry8
    [AbbLiteral(ValueSymtabEntry), AbbVBR(8), AbbArray, AbbFixed(7)],     // Entry7
    [AbbLiteral(ValueSymtabEntry), AbbVBR(8), AbbArray, AbbChar6],        // Entry6
    [AbbLiteral(ValueSymtabBBEntry), AbbVBR(8), AbbArray, AbbChar6]       // BBEntry6
  ]

  const ConstantsAbbrevParams: seq<seq<AbbrevParam>> := [
    [AbbLiteral(ConstantsSetType), AbbFixedTypes],                          // SetType
    [AbbLiteral(ConstantsInteger), AbbVBR(8)],                              // Integer
    [AbbLiteral(ConstantsEvalCast), AbbFixed(4), AbbFixedTypes, AbbVBR(8)], // EvalCast
    [AbbLiteral(ConstantsNull)]                                             // Null
  ]

  const FunctionAbbrevParams: seq<seq<AbbrevParam>> := [
    [AbbLiteral(FunctionInstLoad), AbbVBR(6), AbbFixedTypes, AbbVBR(4), AbbFixed(1)],   // Load
    [AbbLiteral(FunctionInstBinop), AbbVBR(6), AbbVBR(6), AbbFixed(4)],                 // BinOp
    [AbbLiteral(FunctionInstBinop), AbbVBR(6), AbbVBR(6), AbbFixed(4), AbbFixed(7)],    // BinOpFlags
    [AbbLiteral(FunctionInstCast), AbbVBR(6), AbbFixedTypes, AbbFixed(4)],              // Cast
    [AbbLiteral(FunctionInstRet)],                                                      // RetVoid
    [AbbLiteral(FunctionInstRet), AbbVBR(6)],                                           // RetValue
    [AbbLiteral(FunctionInstUnreachable)],                                              // Unreachable
    [AbbLiteral(FunctionInstGep), AbbFixed(1), AbbFixedTypes, AbbArray, AbbVBR(6)]      // GEP
  ]

  /** The parameter lists of a table: each has one to five parameters, none of them `Unknown`. */
  predicate ParamLists(lists: seq<seq<AbbrevParam>>)
  {
    forall i | 0 <= i < |lists| ::
      1 <= |lists[i]| <= 5 && forall j | 0 <= j < |lists[i]| :: lists[i][j].encoding != Unknown
  }

  lemma {:induction false} TableParamLists()
    ensures ParamLists(ValueSymtabAbbrevParams)
    ensures ParamLists(ConstantsAbbrevParams)
    ensures ParamLists(FunctionAbbrevParams)
  {
  }

  const ValueSymtabAbbrevDefs: seq<seq<AbbrevParam>> := Definitions(ValueSymtabAbbrevParams)
  const ConstantsAbbrevDefs: seq<seq<AbbrevParam>> := Definitions(ConstantsAbbrevParams)
  const FunctionAbbrevDefs: seq<seq<AbbrevParam>> := Definitions(FunctionAbbrevParams)

  /** The blocks whose abbreviations the BLOCKINFO block defines, in the order it defines them. */
  const AbbreviatedBlocks: seq<KnownBlock> := [ValueSymtabBlock, ConstantsBlock, FunctionBlock]

  /** `GetAbbrevs`: the table of a block kind, or none (a null table) for every other kind. */
  function GetAbbrevs(block: KnownBlock): (r: Option<seq<seq<AbbrevParam>>>)
    ensures r.Some? <==> block in AbbreviatedBlocks
  {
    match block
    case ValueSymtabBlock => Some(ValueSymtabAbbrevDefs)
    case ConstantsBlock => Some(ConstantsAbbrevDefs)
    case FunctionBlock => Some(FunctionAbbrevDefs)
    case _ => None
  }

  /**
   * `GetNumAbbrevs`: the number of definitions in a block kind's table, which is
   * the length of the table `GetAbbrevs` returns, and 0 where there is none.
   */
  function GetNumAbbrevs(block: KnownBlock): (r: nat)
    ensures GetAbbrevs(block).Some? ==> r == |GetAbbrevs(block).value|
    ensures GetAbbrevs(block).None? ==> r == 0
    ensures r == (if block == FunctionBlock then 8 else if block in AbbreviatedBlocks then 4 else 0)
  {
    match block
    case ValueSymtabBlock => |ValueSymtabAbbrevDefs|
    case ConstantsBlock => |ConstantsAbbrevDefs|
    case FunctionBlock => |FunctionAbbrevDefs|
    case _ => 0
  }

  /** The number of parameters of a definition: the slots before the first `Unknown`. */
  function ParamCount(d: seq<AbbrevParam>): (r: nat)
    ensures r <= |d|
    ensures forall i | 0 <= i < r :: d[i].encoding != Unknown
    ensures r < |d| ==> d[r].encoding == Unknown
  {
    if d == [] || d[0].encoding == Unknown then 0 else 1 + ParamCount(d[1..])
  }

  /** The parameters of a definition, without the terminating slots. */
  function Params(d: seq<AbbrevParam>): seq<AbbrevParam>
  {
    d[..ParamCount(d)]
  }

  /** `32 - clz(n)` for a 32-bit `n`: the number of bits in the binary form of `n`. */
  function BitLength(n: nat): (r: nat)
  {
    if n == 0 then 0 else 1 + BitLength(n / 2)
  }

  /**
   * The parameter as written for a module with `numTypes` types: a value equal
   * to the reserved width becomes the bit length of `numTypes`, whatever the
   * parameter's encoding; nothing else changes.
   */
  function Substitute(p: AbbrevParam, numTypes: nat): (r: AbbrevParam)
    ensures r.encoding == p.encoding
    ensures p.value == MagicFixedSizeNumTypes ==> r.value == BitLength(numTypes)
    ensures p.value != MagicFixedSizeNumTypes ==> r == p
  {
    if p.value == MagicFixedSizeNumTypes then AbbrevParam(p.encoding, BitLength(numTypes)) else p
  }

  /** `n` has exactly `BitLength(n)` significant bits. */
  lemma {:induction false} BitLengthBounds(n: nat)
    requires 1 <= n
    ensures 1 <= BitLength(n)
    ensures Pow2(BitLength(n) - 1) <= n < Pow2(BitLength(n))
  {
    if n > 1 {
      var k := BitLength(n / 2);
      BitLengthBounds(n / 2);
      assert BitLength(n) == k + 1;
      assert Pow2(k) == 2 * Pow2(k - 1);
      assert Pow2(k + 1) == 2 * Pow2(k);
      assert n == 2 * (n / 2) + n % 2;
    }
  }

  /** A 32-bit count has a bit length of at most 32. */
  lemma {:induction false} BitLengthAtMost(n: nat, k: nat)
    requires n < Pow2(k)
    ensures BitLength(n) <= k
  {
    if n > 0 {
      BitLengthAtMost(n / 2, k - 1);
    }
  }

  /**
   * With the substituted width, a fixed field holds every type index below
   * `numTypes`, and the substituted width is between 1 and 32.
   */
  lemma {:induction false} TypeIndexFits(numTypes: nat, index: nat)
    requires 1 <= numTypes < 0x1_0000_0000 && index < numTypes
    ensures index < Pow2(BitLength(numTypes))
    ensures 1 <= BitLength(numTypes) <= 32
  {
    BitLengthBounds(numTypes);
    Pow2Table();
    assert Pow2(32) == 0x1_0000_0000;
    BitLengthAtMost(numTypes, 32);
  }

  /**
   * The width is the bit length, not the ceiling of the base-2 logarithm: for a
   * power of two `2^k` types it is `k + 1`, one more than `ceil(log2(2^k)) = k`.
   */
  lemma {:induction false} BitLengthOfPowerOfTwo(k: nat)
    ensures BitLength(Pow2(k)) == k + 1
  {
    if k > 0 {
      assert Pow2(k) / 2 == Pow2(k - 1);
      BitLengthOfPowerOfTwo(k - 1);
    }
  }

  /**
   * The scan for the terminating `Unknown` slot recovers exactly the listed
   * parameters of a zero-filled definition.
   */
  lemma {:induction false} DefinitionParams(ps: seq<AbbrevParam>)
    requires |ps| < DefinitionSlots
    requires forall j | 0 <= j < |ps| :: ps[j].encoding != Unknown
    ensures ParamCount(Definition(ps)) == |ps|
    ensures Params(Definition(ps)) == ps
  {
    var d := Definition(ps);
    assert d[|ps|] == NoParam;
  }

  /**
   * Every definition of a table fills its eight slots, and the scan for the
   * terminating slot stops inside it after one to five parameters.
   */
  predicate WellFormedTable(defs: seq<seq<AbbrevParam>>)
  {
    forall i | 0 <= i < |defs| ::
      |defs[i]| == DefinitionSlots && 1 <= ParamCount(defs[i]) <= 5
      && defs[i] == Definition(Params(defs[i]))
  }

  lemma {:induction false} DefinitionsWellFormed(lists: seq<seq<AbbrevParam>>)
    requires ParamLists(lists)
    ensures WellFormedTable(Definitions(lists))
  {
    var defs := Definitions(lists);
    forall i | 0 <= i < |defs|
      ensures |defs[i]| == DefinitionSlots && 1 <= ParamCount(defs[i]) <= 5
      ensures defs[i] == Definition(Params(defs[i]))
    {
      DefinitionParams(lists[i]);
    }
  }

  /** The three tables are well formed, and hold 4, 4 and 8 definitions. */
  lemma {:induction false} AbbrevTablesWellFormed(block: KnownBlock)
    requires block in AbbreviatedBlocks
    ensures WellFormedTable(GetAbbrevs(block).value)
    ensures |GetAbbrevs(block).value| == GetNumAbbrevs(block)
  {
    TableParamLists();
    DefinitionsWellFormed(ValueSymtabAbbrevParams);
    DefinitionsWellFormed(ConstantsAbbrevParams);
    DefinitionsWellFormed(FunctionAbbrevParams);
  }
}
