/**
 The `Decode` methods of the decoder nodes as they run: they consume a stream, follow cells
 through the heap and append to their results. Proved to compute `Decoders.RunDecoder` of
 the graph that the cells make.
 */
module DecoderStreams {
  import opened Bytes
  import opened Compact
  import Scale
  import ScaleStreams
  import opened BitVecs
  import opened Decoders

  /** Every cell in the tree of `d` is one of `cells`. */
  ghost predicate CellsIn(d: FieldDecoder, cells: set<RecursiveDecoder>)
    decreases d
  {
    match d
    case Composite(_, fields) => forall i :: 0 <= i < |fields| ==> CellsIn(fields[i].decoder, cells)
    case Variant(byIndex) => forall b :: b in byIndex ==> CellsIn(byIndex[b], cells)
    case ArrayOf(_, item) => CellsIn(item, cells)
    case SliceOf(item) => CellsIn(item, cells)
    case Recursive(cell) => cell in cells
    case _ => true
  }

  ghost predicate AllCellsIn(fields: seq<Field>, cells: set<RecursiveDecoder>) {
    forall i :: 0 <= i < |fields| ==> CellsIn(fields[i].decoder, cells)
  }

  /** Following the cells never leaves the set. */
  ghost predicate Closed(cells: set<RecursiveDecoder>)
    reads cells
  {
    forall c :: c in cells && c.fieldDecoder.Some? ==> CellsIn(c.fieldDecoder.value, cells)
  }

  /** The stream is where the run left it. */
  predicate LeftAt<T>(r: Run<T>, rest: seq<byte>) {
    r.Done? || r.Failed? ==> rest == r.rest
  }

  method Decode(d: FieldDecoder, dec: Decoder, fuel: nat, ghost cells: set<RecursiveDecoder>) returns (r: Run<Decoded>)
    requires Closed(cells) && CellsIn(d, cells)
    modifies dec
    ensures r == RunDecoder(GraphOf(cells), d, fuel, old(dec.input)) && LeftAt(r, dec.input)
    decreases fuel, if d.Recursive? then 3 else 2
  {
    match d
    case Noop =>
      r := Done(DNil, dec.input);
    case Value(ty) =>
      r := DecodeValue(ty, dec);
    case Composite(_, fields) =>
      var fs := DecodeFields(fields, dec, fuel, cells);
      r := AsFields(fs);
    case Variant(byIndex) =>
      var b, ok := dec.ReadOneByte();
      if !ok {
        return Failed(VariantByteDecoding, dec.input);
      }
      if b !in byIndex {
        return Failed(UnknownVariant(b), dec.input);
      }
      if byIndex[b].Noop? {
        return Done(DByte(b), dec.input);
      }
      if fuel == 0 {
        return Exhausted;
      }
      r := Decode(byIndex[b], dec, fuel - 1, cells);
    case ArrayOf(n, item) =>
      var items := DecodeItems(item, n, dec, fuel, cells);
      r := AsItems(items);
    case SliceOf(item) =>
      var n, ok := dec.DecodeUintCompact();
      if !ok {
        return Failed(SliceLengthDecoding, dec.input);
      }
      var items := DecodeItems(item, n % Scale.TWO_TO_64, dec, fuel, cells);
      r := AsItems(items);
    case BitSequence(name, order) =>
      r := DecodeBits(name, order, dec);
    case Recursive(cell) =>
      if cell.fieldDecoder.None? {
        return Failed(RecursiveDecoderNil, dec.input);
      }
      var target := cell.fieldDecoder.value;
      if !target.Recursive? {
        r := Decode(target, dec, fuel, cells);
      } else if fuel == 0 {
        r := Exhausted;
      } else {
        r := Decode(target, dec, fuel - 1, cells);
      }
  }

  /** `ValueDecoder[T].Decode`. */
  method DecodeValue(ty: Scale.Ty, dec: Decoder) returns (r: Run<Decoded>)
    modifies dec
    ensures r == RunValue(ty, old(dec.input)) && LeftAt(r, dec.input)
  {
    var v := ScaleStreams.DecodeValue(dec, ty);
    match v
    case Value(x) => r := Done(DValue(x), dec.input);
    case Failure => r := Failed(ValueDecoding, dec.input);
    case Crash => r := Panicked;
  }

  /** `BitSequenceDecoder.Decode`: the loop of `BitVec.Decode`, byte by byte. */
  method DecodeBits(name: string, order: BitOrder, dec: Decoder) returns (r: Run<Decoded>)
    modifies dec
    ensures r == RunBits(name, order, old(dec.input)) && LeftAt(r, dec.input)
  {
    var n, ok := dec.DecodeUintCompact();
    if !ok {
      return Failed(BitVecDecoding, dec.input);
    }
    var bits := n % Scale.TWO_TO_64;
    if bits == 0 {
      return Failed(BitVecDecoding, dec.input);
    }
    ghost var body := dec.input;
    var numBytes := ByteCount(bits);
    var bytes: seq<byte> := [];
    for i := 0 to numBytes
      invariant i <= |body| && dec.input == body[i..]
      invariant bytes == InOrder(order, body[..i])
    {
      var b, got := dec.ReadOneByte();
      if !got {
        return Failed(BitVecDecoding, dec.input);
      }
      bytes := bytes + [if order.Lsb0? then ReverseBits(b) else b];
      assert body[..i + 1] == body[..i] + [b];
    }
    r := Done(DBits(name, bytes), dec.input);
  }

  /** The loop of `CompositeDecoder.Decode` and `TypeDecoder.Decode`. */
  method DecodeFields(fields: seq<Field>, dec: Decoder, fuel: nat, ghost cells: set<RecursiveDecoder>)
    returns (r: Run<seq<DecodedField>>)
    requires Closed(cells) && AllCellsIn(fields, cells)
    modifies dec
    ensures r == RunFields(GraphOf(cells), fields, fuel, old(dec.input)) && LeftAt(r, dec.input)
    decreases fuel, 1
  {
    hide RunDecoder;
    ghost var g := GraphOf(cells);
    var done: seq<DecodedField> := [];
    AppendNothing(RunFields(g, fields, fuel, dec.input));
    assert fields[0..] == fields;
    for i := 0 to |fields|
      invariant g == GraphOf(cells) && Closed(cells)
      invariant RunFields(g, fields, fuel, old(dec.input)) == Append(done, RunFields(g, fields[i..], fuel, dec.input))
    {
      assert fields[i..][1..] == fields[i + 1..];
      if fuel == 0 {
        return Exhausted;
      }
      var value := Decode(fields[i].decoder, dec, fuel - 1, cells);
      if !value.Done? {
        return if value.Exhausted? then Exhausted
               else if value.Failed? then Failed(value.why, value.rest) else Panicked;
      }
      var field := DecodedField(fields[i].name, value.value, fields[i].lookupIndex);
      AppendCons(done, field, RunFields(g, fields[i + 1..], fuel, dec.input));
      done := done + [field];
    }
    assert done + [] == done;
    r := Done(done, dec.input);
  }

  /** The loop of `ArrayDecoder.Decode` and `SliceDecoder.Decode`. */
  method DecodeItems(item: FieldDecoder, n: nat, dec: Decoder, fuel: nat, ghost cells: set<RecursiveDecoder>)
    returns (r: Run<seq<Decoded>>)
    requires Closed(cells) && CellsIn(item, cells)
    modifies dec
    ensures r == RunItems(GraphOf(cells), item, n, fuel, old(dec.input)) && LeftAt(r, dec.input)
    decreases fuel, 1
  {
    hide RunDecoder;
    ghost var g := GraphOf(cells);
    var slice: seq<Decoded> := [];
    AppendNothing(RunItems(g, item, n, fuel, dec.input));
    for i := 0 to n
      invariant g == GraphOf(cells) && Closed(cells)
      invariant RunItems(g, item, n, fuel, old(dec.input)) == Append(slice, RunItems(g, item, n - i, fuel, dec.input))
    {
      if fuel == 0 {
        return Exhausted;
      }
      var value := Decode(item, dec, fuel - 1, cells);
      if !value.Done? {
        return if value.Exhausted? then Exhausted
               else if value.Failed? then Failed(value.why, value.rest) else Panicked;
      }
      AppendCons(slice, value.value, RunItems(g, item, n - i - 1, fuel, dec.input));
      slice := slice + [value.value];
    }
    assert slice + [] == slice;
    r := Done(slice, dec.input);
  }

  function Append<T>(xs: seq<T>, r: Run<seq<T>>): Run<seq<T>> {
    if r.Done? then Done(xs + r.value, r.rest) else r
  }

  lemma AppendNothing<T>(r: Run<seq<T>>)
    ensures Append([], r) == r
  {
    if r.Done? {
      assert [] + r.value == r.value;
    }
  }

  lemma AppendCons<T>(xs: seq<T>, x: T, r: Run<seq<T>>)
    ensures Append(xs, Cons(x, r)) == Append(xs + [x], r)
  {
    if r.Done? {
      assert xs + ([x] + r.value) == xs + [x] + r.value;
    }
  }
}
