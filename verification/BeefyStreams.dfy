/** Signed commitments on the stream: the loops of `types/beefy.go` and the codec put together. */
module BeefyStreams {
  import opened Bytes
  import opened Compact
  import opened Scale
  import opened ScaleStreams
  import opened Beefy

  /** What `SignedCommitment.Encode` writes. */
  function EncodeSigned(s: SignedCommitment): Written {
    Encode(ToVal(ToCompact(s)))
  }

  /** What `SignedCommitment.Decode` makes of a stream, with the spare capacity of its slice of bits. */
  function DecodeSigned(input: seq<byte>, spare: nat): Outcome<SignedCommitment> {
    match Decode(COMPACT_TY, input)
    case Failed(rest) => Failed(rest)
    case Panicked => Panicked
    case Decoded(v, rest) =>
      CompactTyIsSized();
      DecodedHasType(COMPACT_TY, input);
      TypedFromVal(v);
      match FromCompact(FromVal(v).value, spare)
      case None => Panicked
      case Some(s) => Decoded(s, rest)
  }

  lemma CompactTyIsSized()
    ensures Sized(COMPACT_TY)
  {
    assert Sized(PAYLOAD_TY);
    assert Sized(COMMITMENT_TY);
  }

  lemma TypedBytes(vs: seq<Val>)
    requires AllHaveType(vs, TUint(1))
    ensures ValBytes(vs).Some?
  {
    assert Pow256(1) == 256;
    forall i | 0 <= i < |vs|
      ensures vs[i].VUint? && vs[i].n < 256
    {
      assert HasType(vs[i], TUint(1));
    }
  }

  lemma {:induction false} TypedSigs(vs: seq<Val>)
    requires AllHaveType(vs, SIGNATURE_TY)
    ensures ValSigs(vs).Some?
  {
    hide ValBytes;
    if vs != [] {
      assert HasType(vs[0], SIGNATURE_TY);
      TypedBytes(vs[0].items);
      TypedSigs(vs[1..]);
    }
  }

  /** A value of the compact type is a compact signed commitment. */
  lemma TypedFromVal(v: Val)
    requires HasType(v, COMPACT_TY)
    ensures FromVal(v).Some?
  {
    var vs, tys := v.items, COMPACT_TY.fields;
    assert FieldsHaveTypes(vs[1..], tys[1..]);
    assert vs[1..][1..] == vs[2..] && tys[1..][1..] == tys[2..];
    assert FieldsHaveTypes(vs[2..], tys[2..]);
    assert vs[2..][1..] == vs[3..] && tys[2..][1..] == tys[3..];
    assert FieldsHaveTypes(vs[3..], tys[3..]);
    assert HasType(vs[1], tys[1]) && HasType(vs[2], tys[2]) && HasType(vs[3], tys[3]);
    TypedBytes(vs[1].items);
    TypedSigs(vs[3].items);
  }

  /** For every list shorter than 2^32 encoding succeeds, what was written comes back, and what
      followed it is left. */
  lemma SignedCommitmentRoundTrip(s: SignedCommitment, rest: seq<byte>, spare: nat)
    requires |s.signatures| < TWO_TO_32 && HasType(s.commitment, COMMITMENT_TY) && Encodable(s.commitment)
    ensures EncodeSigned(s).Bytes? && DecodeSigned(EncodeSigned(s).bytes + rest, spare) == Decoded(s, rest)
  {
    hide Encode, Decode, Encodable, HasType, ToVal, FromVal, FromCompact;
    var c := ToCompact(s);
    FewerPresent(s.signatures);
    ToValEncodes(c);
    ToValTyped(c);
    RoundTrip(ToVal(c), COMPACT_TY, rest);
    ToValBack(c);
    CompactionInverts(s, spare);
  }

  /** `SignedCommitment.Encode`. */
  method EncodeCommitment(enc: Encoder, s: SignedCommitment) returns (st: Status)
    modifies enc
    ensures st == StatusOf(EncodeSigned(s))
    ensures st.Success? ==> enc.out == old(enc.out) + EncodeSigned(s).bytes
  {
    hide Encode, ToVal, ToCompact;
    var c := Compacted(s);
    st := EncodeValue(enc, ToVal(c));
  }

  /** `SignedCommitment.Decode`. */
  method DecodeCommitment(dec: Decoder, spare: nat) returns (r: Result<SignedCommitment>)
    modifies dec
    ensures Agrees(r, dec.input, DecodeSigned(old(dec.input), spare))
  {
    hide Decode, FromVal, FromCompact, HasType;
    ghost var input := dec.input;
    var v := DecodeValue(dec, COMPACT_TY);
    match v {
      case Failure => return Failure;
      case Crash => return Crash;
      case Value(x) =>
        CompactTyIsSized();
        DecodedHasType(COMPACT_TY, input);
        TypedFromVal(x);
        var s := Expanded(FromVal(x).value, spare);
        return if s.Some? then Value(s.value) else Crash;
    }
  }

  /** What one side encodes the other side decodes, with anything written around it. */
  method SendAndReceive(enc: Encoder, s: SignedCommitment, rest: seq<byte>, spare: nat)
    returns (r: Result<SignedCommitment>, left: seq<byte>)
    requires |s.signatures| < TWO_TO_32 && HasType(s.commitment, COMMITMENT_TY) && Encodable(s.commitment)
    modifies enc
    ensures r == Value(s) && left == rest
  {
    SignedCommitmentRoundTrip(s, rest, spare);
    hide EncodeSigned, DecodeSigned, Encodable, HasType;
    var start := |enc.out|;
    var st := EncodeCommitment(enc, s);
    assert enc.out[start..] == EncodeSigned(s).bytes;
    var dec := new Decoder(enc.out[start..] + rest);
    r := DecodeCommitment(dec, spare);
    left := dec.input;
  }
}
