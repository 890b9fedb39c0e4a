/**
 BEEFY signed commitments (`types/beefy.go`): a list of optional signatures is stored as a
 bit field, eight bits to a byte and padded, with the signatures that are there in a list of
 their own.
 */
module Beefy {
  import opened Bytes
  import opened Options
  import opened Scale

  const CONTAINER_BITS: nat := 8
  const TWO_TO_32: nat := 4294967296

  /** `BeefySignature`: 65 bytes. */
  type Signature = s: seq<byte> | |s| == 65 witness seq(65, _ => 0)

  type bit = b: int | 0 <= b <= 1

  /** The commitment itself is carried through unchanged, as a value of its SCALE type. */
  datatype SignedCommitment = SignedCommitment(commitment: Val, signatures: seq<Option<Signature>>)

  datatype CompactSignedCommitment = CompactSignedCommitment(
    commitment: Val, signaturesFrom: seq<byte>, validatorSetLen: nat, signaturesCompact: seq<Signature>)

  // ------------------------------------------------------------------ bits and bytes

  /** The number with these bits, the first one most significant. */
  function Acc(bits: seq<bit>): nat {
    if bits == [] then 0 else Acc(bits[..|bits| - 1]) * 2 + bits[|bits| - 1]
  }

  /** The `n` low bits of a number, the most significant first. */
  function LowBits(v: nat, n: nat): (r: seq<bit>)
    ensures |r| == n
    decreases n
  {
    if n == 0 then [] else LowBits(v / 2, n - 1) + [v % 2]
  }

  function Pow2(n: nat): (p: nat)
    ensures p > 0
  {
    if n == 0 then 1 else 2 * Pow2(n - 1)
  }

  lemma {:induction false} AccBound(bits: seq<bit>)
    ensures Acc(bits) < Pow2(|bits|)
  {
    if bits != [] {
      AccBound(bits[..|bits| - 1]);
    }
  }

  /** The bits of a packed byte are the bits that were packed. */
  lemma {:induction false} LowBitsOfAcc(bits: seq<bit>)
    ensures LowBits(Acc(bits), |bits|) == bits
  {
    if bits != [] {
      var n := |bits| - 1;
      LowBitsOfAcc(bits[..n]);
      assert Acc(bits) / 2 == Acc(bits[..n]) && Acc(bits) % 2 == bits[n];
      assert bits == bits[..n] + [bits[n]];
    }
  }

  /** Shifting right by `n - k - 1` and masking gives bit number `k`. */
  lemma {:induction false} ShiftAndMask(v: nat, n: nat, k: nat)
    requires k < n
    ensures LowBits(v, n)[k] == v / Pow2(n - k - 1) % 2
    decreases n
  {
    if k < n - 1 {
      ShiftAndMask(v / 2, n - 1, k);
      DivideTwice(v, 2, Pow2(n - k - 2));
    }
  }

  /** Eight bits to a byte. */
  function Pack(bits: seq<bit>): (r: seq<byte>)
    requires |bits| % 8 == 0
    ensures 8 * |r| == |bits|
  {
    if bits == [] then []
    else
      AccBound(bits[..8]);
      assert Pow2(8) == 256;
      [Acc(bits[..8])] + Pack(bits[8..])
  }

  function Unpack(bs: seq<byte>): (r: seq<bit>)
    ensures |r| == 8 * |bs|
  {
    if bs == [] then [] else LowBits(bs[0], 8) + Unpack(bs[1..])
  }

  lemma {:induction false} UnpackPack(bits: seq<bit>)
    requires |bits| % 8 == 0
    ensures Unpack(Pack(bits)) == bits
  {
    if bits != [] {
      UnpackPack(bits[8..]);
      LowBitsOfAcc(bits[..8]);
      assert Pack(bits)[1..] == Pack(bits[8..]);
      assert bits == bits[..8] + bits[8..];
    }
  }

  // ------------------------------------------------------------------ signatures

  /** One bit for each signature, set when it is there. */
  function Bits(sigs: seq<Option<Signature>>): (r: seq<bit>)
    ensures |r| == |sigs|
  {
    seq(|sigs|, i requires 0 <= i < |sigs| => if sigs[i].Some? then 1 else 0)
  }

  /** The signatures that are there, in order. */
  function Present(sigs: seq<Option<Signature>>): seq<Signature> {
    if sigs == [] then []
    else
      var before := Present(sigs[..|sigs| - 1]);
      match sigs[|sigs| - 1]
      case None => before
      case Some(s) => before + [s]
  }

  /** How many bits are set. */
  function Ones(bits: seq<bit>): nat {
    if bits == [] then 0 else Ones(bits[..|bits| - 1]) + bits[|bits| - 1]
  }

  /** The signatures that bits and a list of signatures stand for; nothing when the list is too
      short, where the code panics. */
  function Spread(bits: seq<bit>, sigs: seq<Signature>): Option<seq<Option<Signature>>> {
    if bits == [] then Some([])
    else
      var n := |bits| - 1;
      match Spread(bits[..n], sigs)
      case None => None
      case Some(before) =>
        if bits[n] == 0 then Some(before + [None])
        else if Ones(bits[..n]) < |sigs| then Some(before + [Some(sigs[Ones(bits[..n])])])
        else None
  }

  /** The bits that are set are as many as the signatures that are there. */
  lemma {:induction false} OnesIsPresent(sigs: seq<Option<Signature>>)
    ensures Ones(Bits(sigs)) == |Present(sigs)|
  {
    if sigs != [] {
      var n := |sigs| - 1;
      OnesIsPresent(sigs[..n]);
      assert Bits(sigs)[..n] == Bits(sigs[..n]);
    }
  }

  /** Spreading the signatures that are there over their bits gives the list back, also when
      more signatures follow. */
  lemma {:induction false} SpreadPresent(sigs: seq<Option<Signature>>, more: seq<Signature>)
    ensures Spread(Bits(sigs), Present(sigs) + more) == Some(sigs)
  {
    if sigs != [] {
      var n := |sigs| - 1;
      var last := if sigs[n].Some? then [sigs[n].value] else [];
      assert Bits(sigs)[..n] == Bits(sigs[..n]);
      assert Present(sigs) + more == Present(sigs[..n]) + (last + more);
      SpreadPresent(sigs[..n], last + more);
      OnesIsPresent(sigs[..n]);
      assert sigs == sigs[..n] + [sigs[n]];
    }
  }

  // ------------------------------------------------------------------ compaction

  /** The bits with their padding, which is a whole byte when nothing was missing. */
  function Padded(sigs: seq<Option<Signature>>): (r: seq<bit>)
    ensures |r| % 8 == 0 && |r| > |sigs|
  {
    Bits(sigs) + seq(CONTAINER_BITS - |sigs| % CONTAINER_BITS, _ => 0)
  }

  /** The compact form that `SignedCommitment.Encode` writes. */
  function ToCompact(s: SignedCommitment): CompactSignedCommitment {
    CompactSignedCommitment(s.commitment, Pack(Padded(s.signatures)), |s.signatures| % TWO_TO_32, Present(s.signatures))
  }

  /** The bits with the zeros behind them, as far as the capacity goes: a slice may be taken up to it. */
  function WithSpare(bits: seq<bit>, spare: nat): (r: seq<bit>)
    ensures |r| == |bits| + spare
  {
    bits + seq(spare, _ => 0)
  }

  /** What `SignedCommitment.Decode` makes of a compact form when the growth of the slice of bits has
      left some spare capacity; nothing where it panics. */
  function FromCompact(c: CompactSignedCommitment, spare: nat): Option<SignedCommitment> {
    var bits := WithSpare(Unpack(c.signaturesFrom), spare);
    if c.validatorSetLen > |bits| then None
    else match Spread(bits[..c.validatorSetLen], c.signaturesCompact)
      case None => None
      case Some(sigs) => Some(SignedCommitment(c.commitment, sigs))
  }

  /** Bits can be spread exactly when there is a signature for each one that is set. */
  lemma {:induction false} SpreadExactly(bits: seq<bit>, sigs: seq<Signature>)
    ensures Spread(bits, sigs).Some? <==> Ones(bits) <= |sigs|
  {
    if bits != [] {
      SpreadExactly(bits[..|bits| - 1], sigs);
    }
  }

  /** A compact form stands for a list exactly when there is room for a bit for each validator and a
      signature for each of these bits that is set; otherwise the slice or an index is out of range.
      The spare capacity decides only for lists with more validators than bits. */
  lemma ExpandsExactly(c: CompactSignedCommitment, spare: nat)
    ensures var bits := Unpack(c.signaturesFrom);
      && (c.validatorSetLen <= |bits| ==>
            && FromCompact(c, spare) == FromCompact(c, 0)
            && (FromCompact(c, spare).Some? <==> Ones(bits[..c.validatorSetLen]) <= |c.signaturesCompact|))
      && (c.validatorSetLen > |bits| ==>
            (FromCompact(c, spare).Some? <==>
             c.validatorSetLen <= |bits| + spare && Ones(bits) <= |c.signaturesCompact|))
  {
    var bits, n := Unpack(c.signaturesFrom), c.validatorSetLen;
    hide Unpack, Ones, Spread;
    if n <= |bits| {
      assert WithSpare(bits, spare)[..n] == bits[..n] == WithSpare(bits, 0)[..n];
      SpreadExactly(bits[..n], c.signaturesCompact);
    } else if n <= |bits| + spare {
      assert WithSpare(bits, spare)[..n] == WithSpare(bits, n - |bits|);
      OnesOfPadding(bits, n - |bits|);
      SpreadExactly(WithSpare(bits, n - |bits|), c.signaturesCompact);
    }
  }

  /** Compaction inverts exactly: for every list shorter than 2^32, none of the indices is out
      of range and the list comes back. */
  lemma CompactionInverts(s: SignedCommitment, spare: nat)
    requires |s.signatures| < TWO_TO_32
    ensures FromCompact(ToCompact(s), spare) == Some(s)
  {
    hide Unpack, Pack, Spread, Present, Bits, Ones;
    var bits := Padded(s.signatures);
    UnpackPack(bits);
    assert WithSpare(bits, spare)[..|s.signatures|] == Bits(s.signatures);
    SpreadPresent(s.signatures, []);
    assert Present(s.signatures) + [] == Present(s.signatures);
  }

  // ------------------------------------------------------------------ the loops

  /** Consecutive pieces of `size` elements, the last one possibly shorter. */
  function Chunks(s: seq<bit>, size: nat): seq<seq<bit>>
    requires size > 0
  {
    if s == [] then []
    else if |s| <= size then [s]
    else [s[..size]] + Chunks(s[size..], size)
  }

  predicate AllFull(chunks: seq<seq<bit>>) {
    forall i :: 0 <= i < |chunks| ==> |chunks[i]| == 8
  }

  /** One byte for each chunk. */
  function PackChunks(chunks: seq<seq<bit>>): seq<byte>
    requires AllFull(chunks)
  {
    if chunks == [] then []
    else AccBound(chunks[0]); assert Pow2(8) == 256; [Acc(chunks[0])] + PackChunks(chunks[1..])
  }

  /** When the length is divisible by 8 every chunk has 8 bits, and the chunks' bytes are the
      packed bits. */
  lemma {:induction false} ChunksPack(bits: seq<bit>)
    requires |bits| % 8 == 0
    ensures AllFull(Chunks(bits, 8)) && PackChunks(Chunks(bits, 8)) == Pack(bits)
  {
    if |bits| > 8 {
      ChunksPack(bits[8..]);
      assert Chunks(bits, 8)[1..] == Chunks(bits[8..], 8);
    } else if bits != [] {
      assert bits[..8] == bits && bits[8..] == [];
      assert Chunks(bits, 8)[1..] == [];
    }
  }

  lemma NextChunk(s: seq<bit>, size: nat, i: nat)
    requires size > 0 && i < |s|
    ensures i + size > |s| ==> Chunks(s[i..], size) == [s[i..|s|]]
    ensures i + size <= |s| ==> Chunks(s[i..], size) == [s[i..i + size]] + Chunks(s[i + size..], size)
  {
    var rest := s[i..];
    if |rest| <= size {
      assert s[i..|s|] == rest;
      assert |rest| == size ==> s[i + size..] == [];
    } else {
      assert rest[size..] == s[i + size..] && rest[..size] == s[i..i + size];
    }
  }

  /** `makeChunks`. */
  method MakeChunks(s: seq<bit>, chunkSize: nat) returns (chunks: seq<seq<bit>>)
    requires chunkSize > 0
    ensures chunks == Chunks(s, chunkSize)
  {
    chunks := [];
    var i := 0;
    while i < |s|
      invariant 0 <= i
      invariant i <= |s| ==> chunks + Chunks(s[i..], chunkSize) == Chunks(s, chunkSize)
      invariant i > |s| ==> chunks == Chunks(s, chunkSize)
    {
      var end := i + chunkSize;
      if end > |s| { end := |s|; }
      NextChunk(s, chunkSize, i);
      chunks := chunks + [s[i..end]];
      i := i + chunkSize;
    }
  }

  /** One byte: the first bit, then a shift and an or for each of the others. */
  method PackChunk(chunk: seq<bit>) returns (acc: byte)
    requires |chunk| == 8
    ensures acc == Acc(chunk)
  {
    acc := chunk[0];
    assert chunk[..1] == [chunk[0]];
    assert chunk[..1][..0] == [];
    var i := 1;
    while i < CONTAINER_BITS
      invariant 1 <= i <= 8 && acc == Acc(chunk[..i])
    {
      AccBound(chunk[..i]);
      assert Pow2(8) == 256;
      Pow2Grows(i, 7);
      assert chunk[..i + 1][..i] == chunk[..i];
      acc := acc * 2 % 256 + chunk[i];
      i := i + 1;
    }
    assert chunk[..8] == chunk;
  }

  lemma {:induction false} Pow2Grows(i: nat, j: nat)
    requires i <= j
    ensures Pow2(i) <= Pow2(j)
  {
    if i < j { Pow2Grows(i, j - 1); }
  }

  /** `SignedCommitment.Encode` up to the codec: the loops build exactly the compact form. */
  method Compacted(s: SignedCommitment) returns (c: CompactSignedCommitment)
    ensures c == ToCompact(s)
  {
    hide Pack, Acc;
    var bits: seq<bit> := [];
    var present: seq<Signature> := [];
    var i := 0;
    while i < |s.signatures|
      invariant 0 <= i <= |s.signatures|
      invariant bits == Bits(s.signatures[..i]) && present == Present(s.signatures[..i])
    {
      assert s.signatures[..i + 1][..i] == s.signatures[..i];
      if s.signatures[i].Some? {
        bits := bits + [1];
        present := present + [s.signatures[i].value];
      } else {
        bits := bits + [0];
      }
      i := i + 1;
    }
    assert s.signatures[..i] == s.signatures;
    var excess := CONTAINER_BITS - |s.signatures| % CONTAINER_BITS;
    bits := bits + seq(excess, _ => 0);
    assert bits == Padded(s.signatures);
    var chunks := MakeChunks(bits, CONTAINER_BITS);
    ChunksPack(bits);
    var from := [];
    var j := 0;
    while j < |chunks|
      invariant 0 <= j <= |chunks|
      invariant AllFull(chunks) && AllFull(chunks[j..])
      invariant from + PackChunks(chunks[j..]) == PackChunks(chunks)
    {
      var acc := PackChunk(chunks[j]);
      assert chunks[j..][1..] == chunks[j + 1..];
      from := from + [acc];
      j := j + 1;
    }
    c := CompactSignedCommitment(s.commitment, from, |s.signatures| % TWO_TO_32, present);
  }

  /** The bits of every block, by shifting and masking. */
  method UnpackBits(blocks: seq<byte>) returns (bits: seq<bit>)
    ensures bits == Unpack(blocks)
  {
    bits := [];
    var j := 0;
    while j < |blocks|
      invariant 0 <= j <= |blocks|
      invariant bits + Unpack(blocks[j..]) == Unpack(blocks)
    {
      var block := UnpackByte(blocks[j]);
      assert blocks[j..][1..] == blocks[j + 1..];
      bits := bits + block;
      j := j + 1;
    }
  }

  method UnpackByte(b: byte) returns (bits: seq<bit>)
    ensures bits == LowBits(b, 8)
  {
    bits := [];
    var k := 0;
    while k < CONTAINER_BITS
      invariant 0 <= k <= 8 && bits == LowBits(b, 8)[..k]
    {
      ShiftAndMask(b, 8, k);
      bits := bits + [b as nat / Pow2(CONTAINER_BITS - k - 1) % 2];
      k := k + 1;
    }
  }

  /** `SignedCommitment.Decode` after the codec: nothing exactly when a slice or an index is
      out of range, and otherwise what the compact form stands for. */
  method Expanded(c: CompactSignedCommitment, spare: nat) returns (r: Option<SignedCommitment>)
    ensures r == FromCompact(c, spare)
  {
    hide Unpack;
    var unpacked := UnpackBits(c.signaturesFrom);
    var all := WithSpare(unpacked, spare);
    if c.validatorSetLen > |all| { return None; }
    var bits := all[..c.validatorSetLen];
    var sigs: seq<Option<Signature>> := [];
    var sigIndex := 0;
    var i := 0;
    while i < |bits|
      invariant 0 <= i <= |bits|
      invariant sigIndex == Ones(bits[..i])
      invariant Spread(bits[..i], c.signaturesCompact) == Some(sigs)
    {
      assert bits[..i + 1][..i] == bits[..i];
      if bits[i] == 1 {
        if sigIndex >= |c.signaturesCompact| {
          SpreadFails(bits, c.signaturesCompact, i + 1);
          return None;
        }
        sigs := sigs + [Some(c.signaturesCompact[sigIndex])];
        sigIndex := sigIndex + 1;
      } else {
        sigs := sigs + [None];
      }
      i := i + 1;
    }
    assert bits[..i] == bits;
    r := Some(SignedCommitment(c.commitment, sigs));
  }

  /** A prefix that cannot be spread makes the whole fail. */
  lemma {:induction false} SpreadFails(bits: seq<bit>, sigs: seq<Signature>, i: nat)
    requires i <= |bits| && Spread(bits[..i], sigs) == None
    ensures Spread(bits, sigs) == None
    decreases |bits|
  {
    if i < |bits| {
      var n := |bits| - 1;
      assert bits[..n][..i] == bits[..i];
      SpreadFails(bits[..n], sigs, i);
    } else {
      assert bits[..i] == bits;
    }
  }

  /** The bit field agrees with the signatures, in number, for the padded bits too. */
  lemma OnesOfField(s: SignedCommitment)
    ensures Ones(Unpack(ToCompact(s).signaturesFrom)) == |ToCompact(s).signaturesCompact|
  {
    hide Unpack, Pack, Ones, Present, Bits;
    UnpackPack(Padded(s.signatures));
    OnesOfPadding(Bits(s.signatures), CONTAINER_BITS - |s.signatures| % CONTAINER_BITS);
    OnesIsPresent(s.signatures);
  }

  lemma {:induction false} OnesOfPadding(bits: seq<bit>, n: nat)
    ensures Ones(bits + seq(n, _ => 0)) == Ones(bits)
  {
    if n == 0 {
      assert bits + seq(0, _ => 0) == bits;
    } else {
      OnesOfPadding(bits, n - 1);
      var all: seq<bit> := bits + seq(n, _ => 0);
      assert all[..|all| - 1] == bits + seq(n - 1, _ => 0);
    }
  }

  // ------------------------------------------------------------------ on the stream

  function ByteVals(bs: seq<byte>): (r: seq<Val>)
    ensures |r| == |bs|
  {
    seq(|bs|, i requires 0 <= i < |bs| => VUint(1, bs[i]))
  }

  function ValBytes(vs: seq<Val>): (r: Option<seq<byte>>)
    ensures r.Some? ==> |r.value| == |vs|
  {
    if forall i :: 0 <= i < |vs| ==> vs[i].VUint? && vs[i].n < 256
    then Some(seq(|vs|, i requires 0 <= i < |vs| => if vs[i].VUint? && vs[i].n < 256 then vs[i].n else 0)) else None
  }

  function SigVals(sigs: seq<Signature>): (r: seq<Val>)
    ensures |r| == |sigs|
  {
    seq(|sigs|, i requires 0 <= i < |sigs| => VArray(ByteVals(sigs[i])))
  }

  function ValSigs(vs: seq<Val>): Option<seq<Signature>> {
    if vs == [] then Some([])
    else if !vs[0].VArray? || ValBytes(vs[0].items).None? || |vs[0].items| != 65 then None
    else match ValSigs(vs[1..])
      case None => None
      case Some(rest) => Some([ValBytes(vs[0].items).value] + rest)
  }

  /** A compact signed commitment as a struct of the codec. */
  function ToVal(c: CompactSignedCommitment): Val {
    VStruct([c.commitment, VSlice(ByteVals(c.signaturesFrom)), VUint(4, c.validatorSetLen),
             VSlice(SigVals(c.signaturesCompact))])
  }

  function FromVal(v: Val): Option<CompactSignedCommitment> {
    if v.VStruct? && |v.items| == 4 && v.items[1].VSlice? && v.items[2].VUint? && v.items[3].VSlice? then
      match (ValBytes(v.items[1].items), ValSigs(v.items[3].items))
      case (Some(from), Some(sigs)) => Some(CompactSignedCommitment(v.items[0], from, v.items[2].n, sigs))
      case _ => None
    else None
  }

  /** `PayloadItem` and `Commitment`. */
  const PAYLOAD_TY: Ty := TStruct([TArray(2, TUint(1)), TSlice(TUint(1))])
  const COMMITMENT_TY: Ty := TStruct([TSlice(PAYLOAD_TY), TUint(4), TUint(8)])
  const SIGNATURE_TY: Ty := TArray(65, TUint(1))
  const COMPACT_TY: Ty := TStruct([COMMITMENT_TY, TSlice(TUint(1)), TUint(4), TSlice(SIGNATURE_TY)])

  lemma ByteValsBack(bs: seq<byte>)
    ensures ValBytes(ByteVals(bs)) == Some(bs)
  {
    assert ValBytes(ByteVals(bs)).value == bs;
  }

  lemma {:induction false} SigValsBack(sigs: seq<Signature>)
    ensures ValSigs(SigVals(sigs)) == Some(sigs)
  {
    if sigs != [] {
      SigValsBack(sigs[1..]);
      assert SigVals(sigs)[1..] == SigVals(sigs[1..]);
      ByteValsBack(sigs[0]);
      assert sigs == [sigs[0]] + sigs[1..];
    }
  }

  lemma ToValBack(c: CompactSignedCommitment)
    ensures FromVal(ToVal(c)) == Some(c)
  {
    SigValsBack(c.signaturesCompact);
    ByteValsBack(c.signaturesFrom);
  }

  lemma ToValTyped(c: CompactSignedCommitment)
    requires HasType(c.commitment, COMMITMENT_TY) && c.validatorSetLen < TWO_TO_32
    ensures HasType(ToVal(c), COMPACT_TY)
  {
    var vs := ToVal(c).items;
    var tys := COMPACT_TY.fields;
    assert Pow256(1) == 256;
    assert Pow256(4) == TWO_TO_32;
    assert HasType(vs[1], tys[1]);
    assert HasType(vs[2], tys[2]);
    assert forall i :: 0 <= i < |c.signaturesCompact| ==> HasType(SigVals(c.signaturesCompact)[i], SIGNATURE_TY);
    assert HasType(vs[3], tys[3]);
    assert FieldsHaveTypes(vs[4..], tys[4..]);
    assert vs[3..][1..] == vs[4..] && tys[3..][1..] == tys[4..];
    assert FieldsHaveTypes(vs[3..], tys[3..]);
    assert vs[2..][1..] == vs[3..] && tys[2..][1..] == tys[3..];
    assert FieldsHaveTypes(vs[2..], tys[2..]);
    assert vs[1..][1..] == vs[2..] && tys[1..][1..] == tys[2..];
    assert FieldsHaveTypes(vs[1..], tys[1..]);
  }

  lemma {:induction false} FewerPresent(sigs: seq<Option<Signature>>)
    ensures |Present(sigs)| <= |sigs|
  {
    if sigs != [] { FewerPresent(sigs[..|sigs| - 1]); }
  }

  lemma ToValEncodes(c: CompactSignedCommitment)
    requires Encodable(c.commitment) && |c.signaturesFrom| < TWO_TO_32 && |c.signaturesCompact| < TWO_TO_32
    ensures Encode(ToVal(c)).Bytes?
  {
    var vs := ToVal(c).items;
    assert AllEncodable(ByteVals(c.signaturesFrom));
    assert forall i :: 0 <= i < |c.signaturesCompact| ==> AllEncodable(SigVals(c.signaturesCompact)[i].items);
    assert AllEncodable(SigVals(c.signaturesCompact));
    assert Encodable(vs[1]) && Encodable(vs[2]) && Encodable(vs[3]);
    EncodeSucceeds(ToVal(c));
  }
}
