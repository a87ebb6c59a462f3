/**
 * Records as runs of primitive fields. Every record the writer emits is a
 * sequence of `fixed(w, v)` and `vbr(w, v)` fields written back to back; this
 * module gives the bits of such a run and a reader that, told the kinds of the
 * fields, reads their values back.
 */
module Fields {
  import opened Bitstream

  /** A VBR chunk needs a payload bit besides its continuation bit. */
  type VbrWidth = w: nat | 2 <= w witness 2

  datatype FieldKind = FixedKind(width: nat) | VbrKind(chunk: VbrWidth)

  /** One field: how it is written, and the value written. */
  datatype Field = Field(kind: FieldKind, value: nat)

  function FixedField(w: nat, v: nat): Field { Field(FixedKind(w), v) }
  function VbrField(w: VbrWidth, v: nat): Field { Field(VbrKind(w), v) }

  /** A field that reads back as the value written: a fixed field's value must fit its width. */
  predicate Encodable(f: Field)
  {
    f.kind.FixedKind? ==> f.value < Pow2(f.kind.width)
  }

  predicate AllEncodable(fs: seq<Field>)
  {
    fs == [] || (Encodable(fs[0]) && AllEncodable(fs[1..]))
  }

  function FieldBits(f: Field): (r: Bits)
  {
    if f.kind.FixedKind? then FixedBits(f.kind.width, f.value) else VbrBits(f.kind.chunk, f.value)
  }

  /** The fields written one after another. */
  function FieldsBits(fs: seq<Field>): (r: Bits)
  {
    if fs == [] then [] else FieldBits(fs[0]) + FieldsBits(fs[1..])
  }

  /** The number of bits `vbr(w, v)` writes: one chunk of `w` bits per `w - 1` bits of payload. */
  function VbrLength(w: VbrWidth, v: nat): nat
    decreases v
  {
    if v < Pow2(w - 1) then w else w + VbrLength(w, Shr(v, w - 1))
  }

  function FieldSize(f: Field): nat
  {
    if f.kind.FixedKind? then f.kind.width else VbrLength(f.kind.chunk, f.value)
  }

  function FieldsSize(fs: seq<Field>): nat
  {
    if fs == [] then 0 else FieldSize(fs[0]) + FieldsSize(fs[1..])
  }

  function Kinds(fs: seq<Field>): (r: seq<FieldKind>)
    ensures |r| == |fs|
  {
    if fs == [] then [] else [fs[0].kind] + Kinds(fs[1..])
  }

  function Values(fs: seq<Field>): (r: seq<nat>)
    ensures |r| == |fs|
  {
    if fs == [] then [] else [fs[0].value] + Values(fs[1..])
  }

  function ReadField(s: Bits, pos: nat, k: FieldKind): Option<(nat, nat)>
  {
    match k
    case FixedKind(w) => ReadFixed(s, pos, w)
    case VbrKind(w) => ReadVbr(s, pos, w)
  }

  /** Reads one value for each kind in `ks`, in order; none if the stream ends first. */
  function ReadFields(s: Bits, pos: nat, ks: seq<FieldKind>): (r: Option<(seq<nat>, nat)>)
    ensures r.Some? ==> |r.value.0| == |ks|
    decreases ks
  {
    if ks == [] then Some(([], pos))
    else match ReadField(s, pos, ks[0])
      case None => None
      case Some((v, next)) =>
        match ReadFields(s, next, ks[1..])
        case None => None
        case Some((rest, end)) => Some(([v] + rest, end))
  }

  lemma {:induction false} VbrLengthIsLength(w: VbrWidth, v: nat)
    ensures |VbrBits(w, v)| == VbrLength(w, v)
    decreases v
  {
    if Pow2(w - 1) <= v {
      VbrLengthIsLength(w, Shr(v, w - 1));
    }
  }

  lemma {:induction false} FieldSizeIsLength(f: Field)
    ensures |FieldBits(f)| == FieldSize(f)
  {
    if f.kind.VbrKind? {
      VbrLengthIsLength(f.kind.chunk, f.value);
    }
  }

  lemma {:induction false} FieldsSizeIsLength(fs: seq<Field>)
    ensures |FieldsBits(fs)| == FieldsSize(fs)
    decreases fs
  {
    if fs != [] {
      FieldsLengthCons(fs);
      FieldSizeIsLength(fs[0]);
      FieldsSizeIsLength(fs[1..]);
    }
  }

  /** The field `f` reads back at `pos` as the value written, and the reader stops right after it. */
  predicate ReadsBack(s: Bits, pos: nat, f: Field)
  {
    ReadField(s, pos, f.kind) == Some((f.value, pos + FieldSize(f)))
  }

  lemma {:induction false} FieldRoundTrip(s: Bits, pos: nat, f: Field)
    requires Encodable(f) && IsAt(s, pos, FieldBits(f))
    ensures ReadsBack(s, pos, f)
  {
    FieldSizeIsLength(f);
    match f.kind
    case FixedKind(w) => FixedRoundTripExact(s, pos, w, f.value);
    case VbrKind(w) => VbrRoundTrip(s, pos, w, f.value);
  }

  /** A run of fields reads back as the values written, and the reader stops right after it. */
  lemma {:induction false} FieldsRoundTrip(s: Bits, pos: nat, fs: seq<Field>)
    requires AllEncodable(fs) && IsAt(s, pos, FieldsBits(fs))
    ensures ReadFields(s, pos, Kinds(fs)) == Some((Values(fs), pos + |FieldsBits(fs)|))
  {
    FieldsReadBack(s, pos, fs);
    FieldsReadAtRoundTrip(s, pos, fs);
    FieldsSizeIsLength(fs);
  }

  /** Each field of the run reads back where the one before it ends. */
  predicate FieldsReadAt(s: Bits, pos: nat, fs: seq<Field>)
    decreases fs
  {
    fs == [] || (ReadsBack(s, pos, fs[0]) && FieldsReadAt(s, pos + FieldSize(fs[0]), fs[1..]))
  }

  lemma {:induction false} FieldsReadBack(s: Bits, pos: nat, fs: seq<Field>)
    requires AllEncodable(fs) && IsAt(s, pos, FieldsBits(fs))
    ensures FieldsReadAt(s, pos, fs)
    decreases fs
  {
    if fs != [] {
      FieldsTailReadBack(s, pos, fs);
      FieldsReadBack(s, pos + FieldSize(fs[0]), fs[1..]);
    }
  }

  lemma {:induction false} FieldsReadAtRoundTrip(s: Bits, pos: nat, fs: seq<Field>)
    requires FieldsReadAt(s, pos, fs)
    ensures ReadFields(s, pos, Kinds(fs)) == Some((Values(fs), pos + FieldsSize(fs)))
    decreases fs
  {
    if fs != [] {
      FieldsReadAtCons(s, pos, fs);
      FieldsReadAtRoundTrip(s, pos + FieldSize(fs[0]), fs[1..]);
      FieldsReadAtStep(s, pos, fs);
    }
  }

  lemma {:induction false} FieldsReadAtStep(s: Bits, pos: nat, fs: seq<Field>)
    requires fs != [] && FieldsReadAt(s, pos, fs)
    requires ReadFields(s, pos + FieldSize(fs[0]), Kinds(fs[1..]))
             == Some((Values(fs[1..]), pos + FieldSize(fs[0]) + FieldsSize(fs[1..])))
    ensures ReadFields(s, pos, Kinds(fs)) == Some((Values(fs), pos + FieldsSize(fs)))
  {
    FieldsStep(s, pos, fs, pos + FieldSize(fs[0]), pos + FieldsSize(fs));
  }

  lemma {:induction false} FieldsTailReadBack(s: Bits, pos: nat, fs: seq<Field>)
    requires fs != [] && AllEncodable(fs) && IsAt(s, pos, FieldsBits(fs))
    ensures ReadsBack(s, pos, fs[0])
    ensures AllEncodable(fs[1..]) && IsAt(s, pos + FieldSize(fs[0]), FieldsBits(fs[1..]))
  {
    FieldsTailAt(s, pos, fs);
    FieldRoundTrip(s, pos, fs[0]);
    FieldSizeIsLength(fs[0]);
  }

  lemma {:induction false} FieldsTailAt(s: Bits, pos: nat, fs: seq<Field>)
    requires fs != [] && IsAt(s, pos, FieldsBits(fs))
    ensures IsAt(s, pos, FieldBits(fs[0]))
    ensures IsAt(s, pos + |FieldBits(fs[0])|, FieldsBits(fs[1..]))
    ensures |FieldsBits(fs)| == |FieldBits(fs[0])| + |FieldsBits(fs[1..])|
  {
    FieldsBitsCons(fs);
    IsAtConcat(s, pos, FieldBits(fs[0]), FieldsBits(fs[1..]));
  }

  lemma {:induction false} FieldsBitsCons(fs: seq<Field>)
    requires fs != []
    ensures FieldsBits(fs) == FieldBits(fs[0]) + FieldsBits(fs[1..])
  {
  }

  lemma {:induction false} FieldsLengthCons(fs: seq<Field>)
    requires fs != []
    ensures |FieldsBits(fs)| == |FieldBits(fs[0])| + |FieldsBits(fs[1..])|
  {
    FieldsBitsCons(fs);
  }

  lemma {:induction false} FieldsReadAtCons(s: Bits, pos: nat, fs: seq<Field>)
    requires fs != [] && FieldsReadAt(s, pos, fs)
    ensures FieldsReadAt(s, pos + FieldSize(fs[0]), fs[1..])
  {
  }

  /** The first field reads back, so the run reads back if its tail does. */
  lemma {:induction false} FieldsStep(s: Bits, pos: nat, fs: seq<Field>, next: nat, end: nat)
    requires fs != []
    requires ReadField(s, pos, fs[0].kind) == Some((fs[0].value, next))
    requires ReadFields(s, next, Kinds(fs[1..])) == Some((Values(fs[1..]), end))
    ensures ReadFields(s, pos, Kinds(fs)) == Some((Values(fs), end))
  {
    KindsValuesCons(fs);
    ReadFieldsCons(s, pos, fs[0].kind, Kinds(fs[1..]), fs[0].value, next, Values(fs[1..]), end);
  }

  lemma {:induction false} KindsValuesCons(fs: seq<Field>)
    requires fs != []
    ensures Kinds(fs) == [fs[0].kind] + Kinds(fs[1..])
    ensures Values(fs) == [fs[0].value] + Values(fs[1..])
  {
  }

  lemma {:induction false} ReadFieldsCons(s: Bits, pos: nat, k: FieldKind, ks: seq<FieldKind>, v: nat, next: nat, rest: seq<nat>, end: nat)
    requires ReadField(s, pos, k) == Some((v, next))
    requires ReadFields(s, next, ks) == Some((rest, end))
    ensures ReadFields(s, pos, [k] + ks) == Some(([v] + rest, end))
  {
    assert ([k] + ks)[0] == k && ([k] + ks)[1..] == ks;
  }

  /** Writing two runs one after the other writes their concatenation. */
  lemma {:induction false} FieldsAppend(a: seq<Field>, b: seq<Field>)
    ensures FieldsBits(a + b) == FieldsBits(a) + FieldsBits(b)
    decreases a
  {
    if a == [] {
      assert a + b == b;
    } else {
      assert (a + b)[0] == a[0] && (a + b)[1..] == a[1..] + b;
      FieldsBitsCons(a + b);
      FieldsBitsCons(a);
      FieldsAppend(a[1..], b);
      AppendAssoc(FieldBits(a[0]), FieldsBits(a[1..]), FieldsBits(b));
    }
  }

  lemma {:induction false} KindsAppend(a: seq<Field>, b: seq<Field>)
    ensures Kinds(a + b) == Kinds(a) + Kinds(b)
    decreases a
  {
    if a == [] {
      assert a + b == b;
    } else {
      assert (a + b)[0] == a[0] && (a + b)[1..] == a[1..] + b;
      KindsAppend(a[1..], b);
    }
  }

  lemma {:induction false} ValuesAppend(a: seq<Field>, b: seq<Field>)
    ensures Values(a + b) == Values(a) + Values(b)
    decreases a
  {
    if a == [] {
      assert a + b == b;
    } else {
      assert (a + b)[0] == a[0] && (a + b)[1..] == a[1..] + b;
      ValuesAppend(a[1..], b);
    }
  }

  lemma {:induction false} AllEncodableAppend(a: seq<Field>, b: seq<Field>)
    requires AllEncodable(a) && AllEncodable(b)
    ensures AllEncodable(a + b)
    decreases a
  {
    if a == [] {
      assert a + b == b;
    } else {
      assert (a + b)[0] == a[0] && (a + b)[1..] == a[1..] + b;
      AllEncodableAppend(a[1..], b);
    }
  }

  /**
   * Reading the kinds `ka + kb` is reading `ka` and then, where that stops,
   * reading `kb`.
   */
  lemma {:induction false} ReadFieldsSplit(s: Bits, pos: nat, ka: seq<FieldKind>, kb: seq<FieldKind>, vs: seq<nat>, end: nat)
    requires ReadFields(s, pos, ka + kb) == Some((vs, end))
    ensures ReadFields(s, pos, ka).Some? && ReadFields(s, pos, ka).value.0 == vs[..|ka|]
    ensures ReadFields(s, ReadFields(s, pos, ka).value.1, kb) == Some((vs[|ka|..], end))
    decreases ka
  {
    if ka == [] {
      assert ka + kb == kb;
    } else {
      var k := ka + kb;
      assert k[0] == ka[0] && k[1..] == ka[1..] + kb;
      var next := ReadField(s, pos, ka[0]).value.1;
      var rest := ReadFields(s, next, ka[1..] + kb).value.0;
      ReadFieldsSplit(s, next, ka[1..], kb, rest, end);
      assert vs == [vs[0]] + rest;
      assert rest[..|ka| - 1] == vs[1..|ka|] && rest[|ka| - 1..] == vs[|ka|..];
      assert vs[..|ka|] == [vs[0]] + vs[1..|ka|];
    }
  }

  /**
   * Writing run `a` and then run `r` after `pre` writes `pre` followed by
   * `a + r`: the step a writer takes when it emits the front of what is left.
   */
  lemma {:induction false} ConsumeRun(pre: Bits, a: seq<Field>, r: seq<Field>)
    ensures (pre + FieldsBits(a)) + FieldsBits(r) == pre + FieldsBits(a + r)
  {
    FieldsAppend(a, r);
    AppendAssoc(pre, FieldsBits(a), FieldsBits(r));
  }

  /** Writing the first field of `rest` after `pre` leaves the remainder of `rest` to write. */
  lemma {:induction false} ConsumeField(pre: Bits, rest: seq<Field>)
    requires rest != []
    ensures (pre + FieldBits(rest[0])) + FieldsBits(rest[1..]) == pre + FieldsBits(rest)
  {
    FieldsBitsCons(rest);
    AppendAssoc(pre, FieldBits(rest[0]), FieldsBits(rest[1..]));
  }
}
