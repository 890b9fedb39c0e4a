/** Where everything is in the bytes of a signed commitment, stated byte by byte and bit by bit. */
module BeefyLayout {
  import opened Bytes
  import opened Options
  import opened Compact
  import opened BitVecs
  import opened Scale
  import opened Beefy
  import opened BeefyStreams
  import opened Wire

  // ------------------------------------------------------------------ the bit field

  /** Bit number `r` from the top. */
  function TopBit(b: byte, r: nat): nat
    requires r < 8
  {
    Bit(b, 7 - r)
  }

  lemma LowBitAt(b: byte, r: nat)
    requires r < 8
    ensures LowBits(b, 8)[r] == TopBit(b, r)
  {
    hide LowBits;
    ShiftAndMask(b, 8, r);
    SmallPowers();
    hide Pow2;
  }

  lemma {:induction false} UnpackAt(bs: seq<byte>, q: nat, r: nat)
    requires q < |bs| && r < 8
    ensures Unpack(bs)[8 * q + r] == TopBit(bs[q], r)
  {
    hide LowBits, TopBit;
    if q == 0 {
      LowBitAt(bs[0], r);
    } else {
      UnpackAt(bs[1..], q - 1, r);
      assert Unpack(bs)[8 * q + r] == Unpack(bs[1..])[8 * (q - 1) + r];
    }
  }

  lemma SmallPowers()
    ensures forall k :: 0 <= k < 8 ==> Pow2(k) == BIT[k]
  {
    assert Pow2(1) == 2 && Pow2(2) == 4 && Pow2(3) == 8 && Pow2(4) == 16;
    assert Pow2(5) == 32 && Pow2(6) == 64 && Pow2(7) == 128;
  }

  /** There is an i-th signature. */
  predicate There(sigs: seq<Option<Signature>>, i: nat) {
    i < |sigs| && sigs[i].Some?
  }

  /** The bit field of a list of signatures: one byte for every eight of them and one more; in the q-th, bit
      number r from the top is set if and only if there is a signature number 8 q + r. */
  predicate FieldOf(sigs: seq<Option<Signature>>, field: seq<byte>) {
    && |field| == |sigs| / 8 + 1
    && forall q, r :: 0 <= q < |field| && 0 <= r < 8 ==> TopBit(field[q], r) == if There(sigs, 8 * q + r) then 1 else 0
  }

  lemma PaddedIs(sigs: seq<Option<Signature>>)
    ensures |Padded(sigs)| == 8 * (|sigs| / 8 + 1)
    ensures forall i :: 0 <= i < |Padded(sigs)| ==> Padded(sigs)[i] == if There(sigs, i) then 1 else 0
  {
    assert |sigs| == 8 * (|sigs| / 8) + |sigs| % 8;
  }

  lemma FieldIs(s: SignedCommitment)
    ensures FieldOf(s.signatures, ToCompact(s).signaturesFrom)
  {
    var sigs, bits, field := s.signatures, Padded(s.signatures), Pack(Padded(s.signatures));
    PaddedIs(sigs);
    UnpackPack(bits);
    hide Unpack, Pack, TopBit, There, Padded;
    forall q, r | 0 <= q < |field| && 0 <= r < 8
      ensures TopBit(field[q], r) == if There(sigs, 8 * q + r) then 1 else 0
    {
      UnpackAt(field, q, r);
    }
  }

  // ------------------------------------------------------------------ the signatures

  /** How many of the first `i` signatures are there. */
  function Rank(sigs: seq<Option<Signature>>, i: nat): nat
    requires i <= |sigs|
  {
    if i == 0 then 0 else Rank(sigs, i - 1) + if sigs[i - 1].Some? then 1 else 0
  }

  /** The signatures that are there, in order and without gaps. */
  predicate ListOf(sigs: seq<Option<Signature>>, there: seq<Signature>) {
    && |there| == Rank(sigs, |sigs|)
    && forall i :: 0 <= i < |sigs| && sigs[i].Some? ==> Rank(sigs, i) < |there| && there[Rank(sigs, i)] == sigs[i].value
  }

  lemma {:induction false} RankOfPrefix(sigs: seq<Option<Signature>>, n: nat, i: nat)
    requires i <= n <= |sigs|
    ensures Rank(sigs[..n], i) == Rank(sigs, i)
    decreases i
  {
    if i > 0 {
      RankOfPrefix(sigs, n, i - 1);
    }
  }

  lemma {:induction false} PresentIs(sigs: seq<Option<Signature>>)
    ensures ListOf(sigs, Present(sigs))
  {
    if sigs != [] {
      var n := |sigs| - 1;
      PresentIs(sigs[..n]);
      forall i | 0 <= i <= n
        ensures Rank(sigs[..n], i) == Rank(sigs, i)
      {
        RankOfPrefix(sigs, n, i);
      }
      forall i | 0 <= i < n && sigs[i].Some?
        ensures Rank(sigs, i) < |Present(sigs)| && Present(sigs)[Rank(sigs, i)] == sigs[i].value
      {
        assert sigs[..n][i] == sigs[i];
      }
    }
  }

  function Flat(sigs: seq<Signature>): (r: seq<byte>)
    ensures |r| == 65 * |sigs|
  {
    if sigs == [] then [] else sigs[0] + Flat(sigs[1..])
  }

  // ------------------------------------------------------------------ the whole

  lemma {:induction false} BytesEncode(bs: seq<byte>)
    ensures EncodeItems(ByteVals(bs)) == Written.Bytes(bs)
  {
    if bs != [] {
      BytesEncode(bs[1..]);
      assert ByteVals(bs)[1..] == ByteVals(bs[1..]);
      assert LittleEndian(bs[0], 1) == [bs[0]];
      assert [bs[0]] + bs[1..] == bs;
    }
  }

  lemma {:induction false} SignaturesEncode(sigs: seq<Signature>)
    ensures EncodeItems(SigVals(sigs)) == Written.Bytes(Flat(sigs))
  {
    if sigs != [] {
      SignaturesEncode(sigs[1..]);
      BytesEncode(sigs[0]);
      assert SigVals(sigs)[1..] == SigVals(sigs[1..]);
    }
  }

  lemma EncodeCons(v: Val, vs: seq<Val>)
    ensures EncodeItems([v] + vs) == Then(Encode(v), EncodeItems(vs))
  {
    hide Encode;
    assert ([v] + vs)[1..] == vs;
  }

  lemma FourItems(a: Val, b: Val, c: Val, d: Val)
    requires Encode(a).Bytes? && Encode(b).Bytes? && Encode(c).Bytes? && Encode(d).Bytes?
    ensures EncodeItems([a, b, c, d]) ==
      Written.Bytes(Encode(a).bytes + (Encode(b).bytes + (Encode(c).bytes + Encode(d).bytes)))
  {
    EncodeCons(d, []);
    EncodeCons(c, [d]);
    EncodeCons(b, [c, d]);
    EncodeCons(a, [b, c, d]);
    assert EncodeItems([]) == Written.Bytes([]);
    hide Encode, EncodeItems;
    assert [d] + [] == [d] && [c] + [d] == [c, d] && [b] + [c, d] == [b, c, d] && [a] + [b, c, d] == [a, b, c, d];
    assert Encode(d).bytes + [] == Encode(d).bytes;
  }

  /** The four components of the compact form, one after the other. */
  lemma CompactLayout(c: CompactSignedCommitment)
    requires Encode(c.commitment).Bytes? && |c.signaturesFrom| < TWO_TO_32 && |c.signaturesCompact| < TWO_TO_32
    ensures var fieldLen, count := EncodeLength(|c.signaturesFrom|), EncodeLength(|c.signaturesCompact|);
      && fieldLen.Bytes? && count.Bytes?
      && Encode(ToVal(c)) == Written.Bytes(Encode(c.commitment).bytes +
           ((fieldLen.bytes + c.signaturesFrom) +
            (LittleEndian(c.validatorSetLen, 4) + (count.bytes + Flat(c.signaturesCompact)))))
  {
    BytesEncode(c.signaturesFrom);
    SignaturesEncode(c.signaturesCompact);
    var field, sigs := ByteVals(c.signaturesFrom), SigVals(c.signaturesCompact);
    assert Encode(VSlice(field)) == Then(EncodeLength(|field|), EncodeItems(field));
    assert Encode(VSlice(sigs)) == Then(EncodeLength(|sigs|), EncodeItems(sigs));
    assert Encode(VUint(4, c.validatorSetLen)) == Written.Bytes(LittleEndian(c.validatorSetLen, 4));
    var items := [c.commitment, VSlice(field), VUint(4, c.validatorSetLen), VSlice(sigs)];
    assert Encode(VStruct(items)) == EncodeItems(items);
    hide Encode, EncodeItems, EncodeLength, LittleEndian;
    FourItems(c.commitment, VSlice(field), VUint(4, c.validatorSetLen), VSlice(sigs));
  }

  /** The encoding of a signed commitment: the commitment; the length of the bit field and the bit field;
      the number of validators in four bytes; the number of signatures and the signatures. */
  lemma SignedLayout(s: SignedCommitment) returns (head: seq<byte>, fieldLen: seq<byte>, field: seq<byte>,
          validators: seq<byte>, count: seq<byte>, there: seq<Signature>)
    requires |s.signatures| < 0x1_0000_0000 && HasType(s.commitment, COMMITMENT_TY) && Encodable(s.commitment)
    ensures EncodeSigned(s) == Written.Bytes(head + ((fieldLen + field) + (validators + (count + Flat(there)))))
    ensures var payload := TSlice(TStruct([TArray(2, TUint(1)), TSlice(TUint(1))]));
      Form(TStruct([payload, TUint(4), TUint(8)]), s.commitment, head, AsWritten)
    ensures FieldOf(s.signatures, field) && CompactForm(fieldLen, |field|, AsWritten)
    ensures |validators| == 4 && Number(validators, |s.signatures|)
    ensures ListOf(s.signatures, there) && CompactForm(count, |there|, AsWritten)
  {
    var c, n := ToCompact(s), |s.signatures|;
    FieldIs(s);
    PresentIs(s.signatures);
    FewerPresent(s.signatures);
    EncodeSucceeds(s.commitment);
    field, there := c.signaturesFrom, c.signaturesCompact;
    hide Form, CompactForm, Number, Pack, Present, Rank, Encode, HasType, Encodable, FieldOf, ListOf, LittleEndian;
    head, validators := Encode(s.commitment).bytes, LittleEndian(n, 4);
    EncodeExactly(COMMITMENT_TY, s.commitment, head);
    CompactLayout(c);
    fieldLen, count := EncodeLength(|field|).bytes, EncodeLength(|there|).bytes;
    LengthWritten(|field|, fieldLen);
    LengthWritten(|there|, count);
    FourBytes(n);
  }

  lemma FourBytes(n: nat)
    requires n < 0x1_0000_0000
    ensures Number(LittleEndian(n, 4), n)
  {
    assert Pow256(4) == 0x1_0000_0000;
    hide LittleEndian;
    UnsignedWritten(n, 4, LittleEndian(n, 4));
  }
}
