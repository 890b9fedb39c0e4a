/**
 The decoder graph of `registry/factory.go`. Every node is a tree except for
 `RecursiveDecoder`, a mutable cell through which the graph becomes cyclic.

 A decoder may call itself without reading a byte, so running one has a depth bound: `fuel`
 is how deep the calls may nest, and `Exhausted` says that the bound was met.
 */
module Decoders {
  import opened Bytes
  import opened Options
  import opened Compact
  import opened BitVecs
  import Scale

  datatype BitOrder = Lsb0 | Msb0

  datatype FieldDecoder =
    | Noop
    | Value(ty: Scale.Ty)
    | Composite(fieldName: string, fields: seq<Field>)
    | Variant(byIndex: map<byte, FieldDecoder>)
    | ArrayOf(length: nat, item: FieldDecoder)
    | SliceOf(item: FieldDecoder)
    | BitSequence(fieldName: string, order: BitOrder)
    | Recursive(cell: RecursiveDecoder)

  datatype Field = Field(name: string, decoder: FieldDecoder, lookupIndex: int)

  /** A placeholder for a decoder that is still being built; nil until it is resolved. */
  class RecursiveDecoder {
    var fieldDecoder: Option<FieldDecoder>

    constructor ()
      ensures fieldDecoder == None
    {
      fieldDecoder := None;
    }
  }

  /** What a decoder returns: the `any` of the Go code. */
  datatype Decoded =
    | DNil
    | DByte(b: byte)
    | DValue(v: Scale.Val)
    | DList(items: seq<Decoded>)
    | DFields(fields: seq<DecodedField>)
    | DBits(name: string, bytes: seq<byte>)

  datatype DecodedField = DecodedField(name: string, value: Decoded, lookupIndex: int)

  /** The innermost error. */
  datatype Failure =
    | VariantByteDecoding
    | UnknownVariant(b: byte)
    | SliceLengthDecoding
    | ValueDecoding
    | BitVecDecoding
    | RecursiveDecoderNil
    | TypeMissing

  /** How a run ended. `rest` is what is left of the stream, also after an error. */
  datatype Run<+T> =
    | Exhausted
    | Done(value: T, rest: seq<byte>)
    | Failed(why: Failure, rest: seq<byte>)
    | Panicked

  // ------------------------------------------------------------------ leaves

  /** `ValueDecoder[T].Decode`. */
  function RunValue(ty: Scale.Ty, input: seq<byte>): Run<Decoded> {
    match Scale.Decode(ty, input)
    case Decoded(v, rest) => Done(DValue(v), rest)
    case Failed(rest) => Failed(ValueDecoding, rest)
    case Panicked => Panicked
  }

  function InOrder(order: BitOrder, bs: seq<byte>): seq<byte> {
    if order.Msb0? then bs else seq(|bs|, i requires 0 <= i < |bs| => ReverseBits(bs[i]))
  }

  /** `BitSequenceDecoder.Decode` with `BitVec.Decode`. */
  function RunBits(fieldName: string, order: BitOrder, input: seq<byte>): Run<Decoded> {
    match DecodeCompact(input)
    case Err(rest) => Failed(BitVecDecoding, rest)
    case Ok(n, rest) =>
      var bits := n % Scale.TWO_TO_64;
      if bits == 0 then Failed(BitVecDecoding, rest)
      else match ReadBytes(rest, ByteCount(bits))
        case Err(left) => Failed(BitVecDecoding, left)
        case Ok(bs, left) => Done(DBits(fieldName, InOrder(order, bs)), left)
  }

  /** The length of a vector: the low 64 bits of a compact integer. */
  function RunLength(input: seq<byte>): Run<nat> {
    match DecodeCompact(input)
    case Err(rest) => Failed(SliceLengthDecoding, rest)
    case Ok(n, rest) => Done(n % Scale.TWO_TO_64, rest)
  }

  /** The tag byte of a variant. */
  function RunTag(input: seq<byte>): Run<byte> {
    if input == [] then Failed(VariantByteDecoding, []) else Done(input[0], input[1..])
  }

  // ------------------------------------------------------------------ sequencing

  function Cons<T>(x: T, r: Run<seq<T>>): Run<seq<T>> {
    match r
    case Done(xs, rest) => Done([x] + xs, rest)
    case other => other
  }

  function AsFields(r: Run<seq<DecodedField>>): Run<Decoded> {
    match r
    case Exhausted => Exhausted
    case Done(fs, rest) => Done(DFields(fs), rest)
    case Failed(why, rest) => Failed(why, rest)
    case Panicked => Panicked
  }

  function AsItems(r: Run<seq<Decoded>>): Run<Decoded> {
    match r
    case Exhausted => Exhausted
    case Done(vs, rest) => Done(DList(vs), rest)
    case Failed(why, rest) => Failed(why, rest)
    case Panicked => Panicked
  }

  // ------------------------------------------------------------------ running the graph

  /** What the cells of a graph hold; a cell that is not in it is nil. */
  type Graph = map<RecursiveDecoder, FieldDecoder>

  /** The graph that a set of cells makes in the heap. */
  ghost function GraphOf(cells: set<RecursiveDecoder>): Graph
    reads cells
  {
    map c | c in cells && c.fieldDecoder.Some? :: c.fieldDecoder.value
  }

  /** `FieldDecoder.Decode` of every node. */
  ghost function RunDecoder(g: Graph, d: FieldDecoder, fuel: nat, input: seq<byte>): (r: Run<Decoded>)
    decreases fuel, if d.Recursive? then 3 else 2
  {
    match d
    case Noop => Done(DNil, input)
    case Value(ty) => RunValue(ty, input)
    case Composite(_, fields) => AsFields(RunFields(g, fields, fuel, input))
    case Variant(byIndex) =>
      (match RunTag(input)
       case Failed(why, rest) => Failed(why, rest)
       case Done(b, rest) =>
         if b !in byIndex then Failed(UnknownVariant(b), rest)
         else if byIndex[b].Noop? then Done(DByte(b), rest)
         else if fuel == 0 then Exhausted
         else RunDecoder(g, byIndex[b], fuel - 1, rest))
    case ArrayOf(n, item) => AsItems(RunItems(g, item, n, fuel, input))
    case SliceOf(item) =>
      (match RunLength(input)
       case Failed(why, rest) => Failed(why, rest)
       case Done(n, rest) => AsItems(RunItems(g, item, n, fuel, rest)))
    case BitSequence(name, order) => RunBits(name, order, input)
    case Recursive(cell) =>
      if cell !in g then Failed(RecursiveDecoderNil, input)
      else if !g[cell].Recursive? then RunDecoder(g, g[cell], fuel, input)
      else if fuel == 0 then Exhausted
      else RunDecoder(g, g[cell], fuel - 1, input)
  }

  ghost function RunFields(g: Graph, fields: seq<Field>, fuel: nat, input: seq<byte>): (r: Run<seq<DecodedField>>)
    decreases fuel, 1, |fields|
  {
    if fields == [] then Done([], input)
    else if fuel == 0 then Exhausted
    else
      var f := fields[0];
      match RunDecoder(g, f.decoder, fuel - 1, input)
      case Exhausted => Exhausted
      case Failed(why, rest) => Failed(why, rest)
      case Panicked => Panicked
      case Done(v, rest) =>
        Cons(DecodedField(f.name, v, f.lookupIndex), RunFields(g, fields[1..], fuel, rest))
  }

  ghost function RunItems(g: Graph, item: FieldDecoder, n: nat, fuel: nat, input: seq<byte>): (r: Run<seq<Decoded>>)
    decreases fuel, 1, n
  {
    if n == 0 then Done([], input)
    else if fuel == 0 then Exhausted
    else match RunDecoder(g, item, fuel - 1, input)
      case Exhausted => Exhausted
      case Failed(why, rest) => Failed(why, rest)
      case Panicked => Panicked
      case Done(v, rest) => Cons(v, RunItems(g, item, n - 1, fuel, rest))
  }

  // ------------------------------------------------------------------ erasing labels

  /** The same value without the labels of its bit sequences. */
  function Erase(v: Decoded): Decoded {
    match v
    case DList(items) => DList(EraseItems(items))
    case DFields(fields) => DFields(EraseFields(fields))
    case DBits(_, bs) => DBits("", bs)
    case other => other
  }

  function EraseItems(vs: seq<Decoded>): seq<Decoded> {
    if vs == [] then [] else [Erase(vs[0])] + EraseItems(vs[1..])
  }

  function EraseFields(fs: seq<DecodedField>): seq<DecodedField> {
    if fs == [] then []
    else [fs[0].(value := Erase(fs[0].value))] + EraseFields(fs[1..])
  }

  function EraseRun(r: Run<Decoded>): Run<Decoded> {
    if r.Done? then Done(Erase(r.value), r.rest) else r
  }

  function EraseFieldsRun(r: Run<seq<DecodedField>>): Run<seq<DecodedField>> {
    if r.Done? then Done(EraseFields(r.value), r.rest) else r
  }

  function EraseItemsRun(r: Run<seq<Decoded>>): Run<seq<Decoded>> {
    if r.Done? then Done(EraseItems(r.value), r.rest) else r
  }
}
