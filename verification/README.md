# A model of the Go Substrate RPC client

The client talks to a Substrate node: it encodes and decodes values in SCALE, compiles the type
table of the node's metadata into decoders, and exchanges JSON-RPC messages over one connection that
several goroutines share. This project models the four parts where that is hard to get right, and
proves what each is for. `dafny verify dfyconfig.toml` checks everything.

**The codec** (`Bytes`, `Compact`, `BigInts`, `Scale`, `Wire`, `ScaleStreams`, `Truncation`,
`Panics`). SCALE Codec Format, appendix A.2.2 of the Polkadot Protocol Specification. Reflection is
replaced by a universe of types and values; `Encode` and `Decode` are functions, and the code's
encoder and decoder are methods on streams proved to compute them. Byte shifts and masks are written
as arithmetic. The format itself is stated a second time, on bytes and digits (`Wire`), and both are
proved to be exactly that.

**BEEFY compaction** (`Beefy`, `BeefyStreams`, `BeefyLayout`). Signature lists as a packed bit field
and an out-of-line list, from the bits up to the stream.

**The registry compiler** (`TypeTable`, `BitVecs`, `Decoders`, `DecoderStreams`, `Meaning`,
`MetadataV14`, `TypeForms`, `Acyclic`, `Support`, `Walks`, `WalkOutcomes`, `Tracks`, `Builds`,
`Flaws`, `Storages`, `Factories`, `Registries`, `RegistryStreams`). A cyclic type table is compiled
into a heap of decoders, memoised by lookup id, with placeholders planted on the first visit and
tied at the end. Its meaning is stated apart from it, by a decoder that looks every id up afresh,
and this one accepts exactly the bytes that are forms of a value at its type (`TypeForms`). Since a
type that contains itself may recurse without reading a byte, both are stated for every depth bound,
and a run that ends is shown to be the same under every larger one. Bit sequences keep the field
name of the first visit of their type as a label; that label is erased on both sides. When a build
ends and fails is stated by the walk over the types alone, with a bound on its depth (`Walks`),
which the factory's methods are proved to follow. Building ends wherever no cycle of sequence,
array, tuple or compact edges can be reached from the fields (`BuildEnds`), and where everything is
supported it ends nowhere else. A build that ends succeeds if and only if what it reaches is
supported and holds no override that is a nil recursive decoder.

**The request protocol** (`RpcProtocol`, `RpcGuarantees`, `RpcLives`, `RpcDispatch`, `BatchCall`,
`BatchAnswer`, `Subscription`, `SubscriptionRuns`). Senders, read loop and dispatch loop as a
transition system whose steps are the events of the code: taking an id, acceptance, the connection
check, reconnect, write done, its processing, read, read error, timeout, close. Guarantees are about
every state of every run in which the 32-bit id counter has not gone round, with a peer that answers
no id before it was written (a response to an id nobody waits for is allowed, and ignored). What
happens to each request is also told by the events alone (`RpcLives`), and so are the ends of a
subscription (`SubscriptionRuns`). `RpcDispatch` has the handler's loops and the cases of the
dispatch loop as methods on mutable state, proved to be the steps. `Subscription` does the same for
the forwarding loop and the two `sync.Once` bodies.

Where the code does not do what one would expect, the model follows the code:

- A waiter can be lost. `cancelAllRequests` drops the ids of the request in flight without closing
  its channel; if its write then succeeds nobody wakes the caller, not even `Close`, although the
  comment at gethrpc/client.go:294 says the channel will be closed. `LostExactly` says when, for all
  runs; `EveryCallCanBeLost` gives the run.
- `BigIntToUintBytes` panics at exactly 256^n: the bound (types/uint.go:244) lets that number
  through, and it has one byte more than the buffer.
- The compact decoder accepts longer forms than the encoder writes, for every number below 2^528
  (`LongerFormExactly`).
- Decoding an option or an `OptionBool` at the end of the stream sees byte 0 and no error, so an
  encoding that was cut short may be decoded; `CutIsDecodedExactly` says of which types. A truncated
  length panics; `PanicsExactly` says of which types decoding can.
- The number of bytes of a bit vector goes through a float64: above 2^53 bits it may be off
  (`ByteCountExactly`).
- `FindCallIndex` panics on a name without a dot whose module has calls; `FindError` ignores the
  last three error bytes and every pallet after the first with the index.
- `deliver` and `forward` both select on `quit`. Once it is closed neither select waits, and a
  hand-over on the unbuffered channel needs a side that waits; so with selects that work like that
  the consumer gets the first of all notifications, without a gap (`OpenRunsHaveNoGap`). The
  language itself only says that one of the communications that can proceed is chosen. A run that
  hands over later makes the consumer miss what was refused before (`LateAcceptLeavesGap`), and only
  such a run does (`NoGapExactly`).

## Model

| member | source | states |
|---|---|---|
| `Bytes.Reverse` | scale/codec.go:550-554 | the array afterwards is the reversal of what it was |
| `Bytes.LittleEndianRoundTrip` | scale/codec.go:101-119 | the value of the n little-endian bytes of v is v, for every v below 256^n |
| `Bytes.FromLittleEndianInjective` | scale/codec.go:530-543 | byte strings of one length with the same little-endian value are equal |
| `Bytes.NumBytesIsLeast` | scale/codec.go:101-119 | the number of bytes `big.Int.Bytes` gives is the least that holds the value |
| `Wire.LittleEndianDigits` | scale/codec.go:101-119 | byte number i is the i-th digit to the base 256 |
| `Wire.BigEndianDigits` | types/int.go:218-253 | the same from the other end for the bytes of big integers |
| `Compact.EncodeCompactSucceeds` | scale/codec.go:74-122 | compact encoding succeeds if and only if 0 <= v < 2^536 |
| `Compact.CompactRoundTrip` | scale/codec.go:74-122 | decoding the encoding of v followed by any rest gives v and exactly that rest |
| `Compact.CompactIsShortest` | scale/codec.go:494-547 | every byte string that decodes to v with nothing left is longer than the encoding of v, or is it |
| `Compact.LongerFormExactly` | scale/codec.go:494-547 | the decoder accepts another form of v than the encoder's if and only if v < 2^528 |
| `Compact.CanonicalExactly` | scale/codec.go:494-547 | of all byte strings that the decoder accepts, those that the encoder writes are exactly the ones that use no longer mode than needed and have no idle high bits, by a condition on the bytes |
| `Wire.CompactReadExactly` | scale/codec.go:494-547 | the decoder gives n and a rest if and only if the bytes before the rest are one of the four forms of n: 4n in one byte, 4n + 1 in two, 4n + 2 in four, or the number of bytes above four and the digits |
| `Wire.CompactWrittenExactly` | scale/codec.go:74-122 | the encoder writes exactly the one of these forms that has no idle high bits |
| `Compact.Encoder.Write` | scale/codec.go:49-58 | appends exactly the bytes to the stream |
| `Compact.Encoder.PushByte` | scale/codec.go:61-63 | appends exactly the byte to the stream |
| `Compact.Encoder.EncodeUintCompact` | scale/codec.go:74-122 | writes the specified encoding, and writes nothing when it refuses |
| `Compact.Encoder.EncodeBig` | scale/codec.go:100-121 | the last branch: refuses more than 67 bytes, and otherwise writes the length byte and the reversed bytes |
| `Compact.Decoder.Read` | scale/codec.go:293-303 | fills the buffer with the next bytes and advances by its length, or fails and drains the stream |
| `Compact.Decoder.ReadOneByte` | scale/codec.go:306-313 | the next byte, or an error with byte 0 at the end of the stream |
| `Compact.Decoder.DecodeUintCompact` | scale/codec.go:494-547 | value, error and stream position are those of the specified decoder, in all four modes |
| `BigInts.IntBytesRoundTrip` | types/int.go:218-280 | for every length n >= 1 encoding succeeds exactly on [-2^(8n-1), 2^(8n-1) - 1] and decoding gives the number back |
| `BigInts.FromIntBytesRoundTrip` | types/int.go:218-280 | every non-empty byte array decodes to a number whose encoding is that array: with the row above, a bijection |
| `BigInts.IntBytesAreResidue` | types/int.go:218-253 | the bytes are the big-endian residue of the number modulo 256^n, i.e. two's complement |
| `BigInts.SignBit` | types/int.go:256-280 | the top bit of the first byte tells whether the unsigned value is at least half the range |
| `BigInts.PadLeft` | types/int.go:229-232 | the copy into a zeroed array gives the n big-endian bytes |
| `BigInts.ComplementInPlace` | types/int.go:246-249 | every byte of the array is replaced by its complement |
| `BigInts.BigIntToIntBytes` | types/int.go:218-253 | the result of the loops is the specified encoding, or an error exactly out of range |
| `BigInts.SliceBound` | types/uint.go:251-252 | the start of the slice to copy to is not negative if and only if the number is below 256^n |
| `BigInts.BigIntToUintBytes` | types/uint.go:238-254 | the bounds check, the slice and the copy give the n bytes on [0, 256^n), an error below and above, and the slice panics at exactly 256^n, which the check lets through |
| `BigInts.IntBytesToBigInt` | types/int.go:256-280 | the result of the loops is the specified number; an empty slice is an error; the argument is left as it was |
| `Scale.RoundTrip` | scale/codec.go:125-281 | for every type and every value of it that encodes, decoding the encoding followed by any rest gives the value and exactly that rest |
| `Scale.ItemsRoundTrip` | scale/codec.go:187-215 | the same for the elements of an array or slice, one after the other |
| `Scale.FieldsRoundTrip` | scale/codec.go:225-238 | the same for the fields of a struct |
| `Scale.BigIntRoundTrip` | types/int.go:130-213 | the reversed little-endian streams of I128 and I256 round trip |
| `Scale.PrefixFree` | scale/codec.go:316-491 | no encoding is a proper prefix of another of the same type, and two values of a type never share one |
| `Scale.EncodeSucceeds` | scale/codec.go:125-281 | encoding succeeds if and only if every number in the value is in range and every string and slice is shorter than 2^32 |
| `Scale.DecodedHasType` | scale/codec.go:329-491 | whatever the bytes, a value that is decoded at a type has that type |
| `Wire.DecodeExactly` | scale/codec.go:316-491 | the decoder gives a value and a rest if and only if the bytes before the rest are a form of the value at the type, by a definition of the format on bytes and digits; for every type, input, value and rest, with the options that the end of the stream stands for |
| `Wire.EncodeExactly` | scale/codec.go:125-281 | the encoder writes exactly the written form of a value, with shortest lengths and 0 or 1 for a bool |
| `Truncation.DecodeExtends` | scale/codec.go:329-491 | a type without options reads no further than it must: bytes after what was decoded change neither the value nor where it ended |
| `Truncation.CutIsDecodedExactly` | scale/codec.go:329-491 | some encoding of a type, cut short, is decoded all the same if and only if the type has a place whose option can be cut off: an option or OptionBool, in an item of a non-empty array or slice, or in a field after which every field is decoded at the end of the stream; for every type |
| `Truncation.CutLeavesNothing` | scale/codec.go:329-491 | an encoding that was cut short and is decoded all the same leaves nothing in the stream, and its type is such a type |
| `Truncation.FromNothing` | scale/codec.go:329-491 | a type is decoded at the end of the stream if and only if it is an option, an OptionBool or of width zero, or an array or struct of such parts only |
| `Truncation.OrderMatters` | scale/codec.go:458-470 | a byte after an option makes every cut an error, a byte before it does not |
| `Truncation.TruncatedIsRejected` | scale/codec.go:329-491 | in particular no proper prefix of an encoding is decoded when the type holds no option and no OptionBool |
| `Truncation.TruncatedOptionIsNone` | scale/codec.go:557-572 | an option or OptionBool with a value, cut to nothing, is decoded as none and without error |
| `Truncation.TruncatedLengthPanics` | scale/codec.go:424-432 | every proper prefix of the encoding of a length makes reading the length panic |
| `Panics.PanicsExactly` | scale/codec.go:329-491 | decoding a type can panic if and only if the type reads the length of a string or slice, one that is not shut off by an empty array or a field before it that is never decoded; on every other type each input gives a value or an error |
| `Panics.PanicReadsLength` | scale/codec.go:424-432 | an input on which decoding panics shows that the type reads a length |
| `Panics.SomePanic` | scale/codec.go:424-432 | for every type that reads a length an input that makes it panic |
| `ScaleStreams.EncodeValue` | scale/codec.go:125-281 | the recursive encoder over the stream appends exactly the specified bytes, with the specified error; what was written before stays |
| `ScaleStreams.EncodeScalar` | scale/codec.go:128-174 | the kinds without components, including OptionBool and both kinds of big integers with their copy and in-place reversal |
| `ScaleStreams.WriteLength` | scale/codec.go:199-209 | the length prefix, refused above 2^32 - 1 |
| `ScaleStreams.EncodeElements` | scale/codec.go:187-238 | the loop over elements or fields concatenates their encodings and stops at the first error |
| `ScaleStreams.DecodeValue` | scale/codec.go:316-491 | value, error, panic and stream position are those of the specified decoder, on every input, truncated ones included |
| `ScaleStreams.ReadSigned` | types/int.go:130-152 | reads, reverses and converts: the number that the two's complement bytes stand for |
| `ScaleStreams.ReadUnsigned` | types/uint.go:130-152 | reads, reverses in place and converts an unsigned number |
| `ScaleStreams.DecodeCount` | scale/codec.go:424-432 | the length of a collection; its read error is ignored, so a truncated length panics on the nil number |
| `ScaleStreams.DecodeElements` | scale/codec.go:414-447 | the loop over the elements is the specified sequence of decodings |
| `ScaleStreams.DecodeStruct` | scale/codec.go:458-470 | the loop over the fields is the specified sequence of decodings |
| `Beefy.CompactionInverts` | types/beefy.go:103-174 | for every signature list shorter than 2^32, expanding the compact form gives the list back and no index is out of range, whatever capacity the slice of bits has |
| `Beefy.OnesOfField` | types/beefy.go:139-160 | the ones in the packed, padded bit field are as many as the compact signatures |
| `Beefy.SpreadPresent` | types/beefy.go:121-132 | spreading the signatures that are present over their bits gives back the list, in order |
| `Beefy.UnpackPack` | types/beefy.go:111-117 | unpacking a packed bit list gives the bits back |
| `Beefy.ShiftAndMask` | types/beefy.go:113-115 | shifting right by n - k - 1 and masking gives the k-th of the n low bits |
| `Beefy.ChunksPack` | types/beefy.go:160-167 | when the length is divisible by 8 every chunk has exactly 8 bits, and the chunks' bytes are the packed bits |
| `Beefy.MakeChunks` | types/beefy.go:177-192 | the loop cuts the slice into consecutive chunks, only the last possibly shorter |
| `Beefy.PackChunk` | types/beefy.go:161-165 | shift-and-or over the 8 bits gives their number, without overflow of the byte |
| `Beefy.Compacted` | types/beefy.go:139-174 | the loops of Encode build exactly the compact form |
| `Beefy.UnpackBits` | types/beefy.go:111-117 | the nested loops of Decode give exactly the bits of the bytes |
| `Beefy.Expanded` | types/beefy.go:119-136 | the loop of Decode gives what the compact form stands for, or the panic of a slice or an index, for every spare capacity that append may have left |
| `Beefy.ExpandsExactly` | types/beefy.go:119-132 | it does not panic if and only if the validators are not more than the bits with the spare capacity, and the bits set among them not more than the signatures; the capacity matters only for more validators than bits |
| `Beefy.SpreadExactly` | types/beefy.go:124-132 | the index into the signatures stays in range if and only if there are as many signatures as bits set |
| `BeefyStreams.SignedCommitmentRoundTrip` | types/beefy.go:103-174 | through the SCALE stream: for every list shorter than 2^32 encoding succeeds, and decoding with any rest gives the commitment and that rest |
| `BeefyStreams.EncodeCommitment` | types/beefy.go:139-174 | the loops and the codec's encoder together write exactly that encoding |
| `BeefyStreams.DecodeCommitment` | types/beefy.go:103-136 | the codec's decoder and the loops together give that decoding, with its errors, panics and stream position, on every stream and for every spare capacity of the slice of bits |
| `BeefyStreams.SendAndReceive` | types/beefy.go:103-174 | the two methods one after the other give the commitment back and leave what followed |
| `BeefyLayout.SignedLayout` | types/beefy.go:139-174 | where everything is in an encoding: the commitment, the length and the bytes of the bit field, the number of validators in four bytes, the number and the 65 bytes each of the signatures that are there, in order |
| `BeefyLayout.FieldIs` | types/beefy.go:139-167 | the bit field has one byte for every eight signatures and one more, and bit r from the top of byte q is set if and only if there is a signature 8q + r |
| `TypeTable.LastVariantIsLast` | registry/factory.go:356-381 | the variant that a tag byte selects is the last one with that index, and there is none exactly when no variant has it |
| `DecoderStreams.Decode` | registry/factory.go:673-833 | decoding over the stream and the heap of recursive decoders computes the run of the decoder graph, and leaves the stream where that run does |
| `DecoderStreams.DecodeFields` | registry/factory.go:765-786 | the loop over the fields, with the first error that occurs |
| `DecoderStreams.DecodeItems` | registry/factory.go:708-763 | the loop over the items of an array or slice |
| `DecoderStreams.DecodeBits` | types/bitvec.go:58-95 | the length, the number of bytes that the code computes from it through a float64, and the bytes in their bit order, which the row on `TypeForms.BitsExactly` gives bit by bit |
| `BitVecs.ByteCountExactly` | types/bitvec.go:81-95 | that number is the least that holds the bits if and only if the spacing of float64 numbers lets it, a condition on the number of bits: always up to 2^53, and it is one short for 2^53 + 1 |
| `BitVecs.ReverseBitsExactly` | types/bitvec.go:72-74 | bit k of a byte is bit 7 - k of the reversed one, and no other byte has these bits |
| `Meaning.MeaningPreserved` | registry/factory.go:287-525 | a decoder graph that stands for a type yields, on every input and at every depth bound, the value, error and remaining bytes of the decoder that looks each type id up afresh; what that one accepts is in the rows on `TypeForms` |
| `Meaning.FieldsPreserved` | registry/factory.go:244-283 | the same for a list of fields with their names and lookup ids |
| `Meaning.AtPreserved` | registry/factory.go:803-809 | the same for a field whose decoder may be a recursive one, through its cell, or an override |
| `Meaning.ItemsPreserved` | registry/factory.go:467-490 | the same for the items of arrays and sequences |
| `Meaning.TuplePreserved` | registry/factory.go:493-525 | the same for tuples |
| `Meaning.CompactPreserved` | registry/factory.go:392-463 | the same in compact mode, where every number is a compact integer |
| `TypeForms.DirectExactly` | registry/factory.go:673-833 | that decoder gives a value and a rest, under some bound, if and only if the bytes before the rest are a form of the value at the type, by a definition of the forms that names no decoder |
| `TypeForms.FieldsExactly` | registry/factory.go:835-882 | the same for the fields of a call, event or error |
| `TypeForms.PrimitiveExactly` | registry/factory.go:573-610 | each primitive code has its width, sign and kind: 1, 1, 2, 4, 8, 16 and 32 bytes unsigned and 1 to 32 signed, a bool byte, and a string with its length; the codes are supported exactly up to 14 |
| `TypeForms.BitsExactly` | registry/factory.go:527-570 | a bit sequence is decoded exactly from its length, as many bytes as that takes, and these bytes as they are for Msb0 and mirrored for Lsb0, the names at the end of the order type's path |
| `TypeForms.FailuresMean` | registry/factory.go:673-833 | what the innermost errors mean for the stream |
| `TypeTable.FullNameIs` | registry/factory.go:632-662 | a field is named by the path of its type with dots and its own name, its type name or its lookup index, in that order |
| `TypeTable.DecimalIs` | registry/factory.go:630-660 | indices in names are decimal numerals without leading zeros |
| `TypeTable.TupleNameIs` | registry/factory.go:386-388 | tuple items are named by their number |
| `MetadataV14.FindEventNamesForEventID` | types/metadataV14.go:106-127 | returns the names of an event with the id, and an error exactly when no pallet offers one |
| `MetadataV14.FindError` | types/metadataV14.go:147-176 | the first error with the index of the first pallet with the index, or none if that pallet has none: later pallets with the index and all but the first error byte are ignored |
| `MetadataV14.FindsErrorOffered` | types/metadataV14.go:147-176 | with distinct pallet indices that is: an offered error with the key, or none exactly when none is offered |
| `MetadataV14.FindVariant` | types/metadataV14.go:162-166 | the first variant with the index, or none when no variant has it |
| `MetadataV14.FindCallVariant` | types/metadataV14.go:94-100 | the first call with the name; reading the missing second part of a name panics exactly when there is a call to compare |
| `MetadataV14.FindCallIndex` | types/metadataV14.go:82-104 | the index of a call with the two parts of the name, not found only when none is offered, and a panic exactly for a dotless name of a module that has calls |
| `MetadataV14.SplitOneDot` | types/metadataV14.go:83-83 | a name with one dot splits into its two parts |
| `MetadataV14.DistinctIndices` | registry/factory.go:66-208 | distinct pallet indices and distinct variant indices make all registry keys distinct |
| `MetadataV14.UniqueOffer` | registry/factory.go:66-208 | with distinct keys no later item replaces one in the registry |
| `MetadataV14.LastOfferIsLast` | registry/factory.go:116-162 | what ends up under a key is the variant at the last place, by pallet and then by variant, that has the two indices; nothing does when there is no such place |
| `Acyclic.NoCycleHasRanks` | registry/factory.go:287-346 | the nodes of a finite graph without cycles can be ranked along its edges |
| `Acyclic.RankedHasNoCycle` | registry/factory.go:287-346 | and only of such a graph: a ranked graph has no cycle |
| `Acyclic.ReachIsLeast` | registry/factory.go:244-346 | what can be reached is the least set that holds the roots and is closed under the edges |
| `Support.RankingExists` | registry/factory.go:244-463 | where no cycle of item or compact edges can be reached from the fields, what can be reached has a ranking along those edges |
| `Support.RankedEnds` | registry/factory.go:244-463 | and conversely: what has a ranking reaches no such cycle |
| `Walks.MoreFuelDef` | registry/factory.go:287-350 | the course of a build that does not run into a bound on its depth is the same under every larger one |
| `WalkOutcomes.SupportedDef` | registry/factory.go:287-350 | on supported types no build fails |
| `WalkOutcomes.DefEnds` | registry/factory.go:287-350 | on ranked types every build stays below some depth, however cyclic the fields are: the measure is the pair of the types not stored yet and the rank |
| `Tracks.TrackDef` | registry/factory.go:287-525 | all that a build without error has visited is supported, refers only to what was visited, and was looked up within what can be reached |
| `Tracks.WalkedIsRanked` | registry/factory.go:287-525 | what such a build has visited is ranked by the least depth that it takes, so it holds no cycle |
| `Tracks.MetWasAsked` | registry/factory.go:247-263 | such a build has looked up every field type that can be reached |
| `Builds.EndsWithoutCycle` | registry/factory.go:66-208 | the build of a registry ends wherever no cycle of item or compact edges can be reached |
| `Builds.EndsExactly` | registry/factory.go:66-208 | where everything is supported it ends if and only if no such cycle can be reached |
| `Builds.SucceedsExactly` | registry/factory.go:66-208 | a build that ends meets no error of a type if and only if everything it reaches is supported |
| `Builds.FinishedBuild` | registry/factory.go:66-208 | a build without error shows that the registry is supported and that no cycle can be reached, and has looked up exactly what can be reached |
| `Builds.OrderDecides` | registry/factory.go:117-155 | where something is not supported, the order of the pallets can decide whether a build that can reach a cycle ends with an error or not at all |
| `Flaws.ErrorIsFlaw` | registry/factory.go:244-560 | every error of a build names a flaw that is there: of a pallet, or of a type that can be reached from the fields, stated on the table alone |
| `Factories.Factory.ResetStorages` | registry/factory.go:55-62 | the storages hold the overrides and nothing else, the last override of an id winning |
| `Factories.OverrideIsLast` | registry/factory.go:55-62 | the override that counts for an id is the last one of that id, and there is none exactly for the ids that no override has |
| `Factories.Factory.GetStoredFieldDecoder` | registry/factory.go:612-626 | an id visited before gives a decoder or placeholder that stands for its type, and a recursive one is a knot from then on; a first visit plants a new placeholder; nothing else changes |
| `Storages.ReuseKeeps` | registry/factory.go:613-619 | noting a knot keeps every entry standing for its type: the storages stay consistent |
| `Storages.PlantKeeps` | registry/factory.go:621-625 | so does planting a placeholder that no entry or override refers to |
| `Storages.StoreKeeps` | registry/factory.go:273-273 | and so does replacing the placeholder by a decoder that stands for the type |
| `Factories.Factory.Plant` | registry/factory.go:621-625 | the new placeholder is a new object, stored while its type is under construction |
| `Factories.Factory.GetTypeFields` | registry/factory.go:244-283 | goes exactly as the walk over the types goes, which has no decoders in it: same error, same types looked up and visited; what it builds stands for the fields |
| `Factories.Factory.GetTypeField` | registry/factory.go:248-279 | the same for one field: its decoder stands for its type with the memoised, possibly unfinished, parts |
| `Factories.Factory.Store` | registry/factory.go:273-273 | the finished decoder takes the place of the placeholder, and nothing else changes |
| `Factories.Factory.GetFieldDecoder` | registry/factory.go:287-350 | each kind of definition gives a decoder that stands for it, or the error that the walk says |
| `Factories.Factory.GetItemDecoder` | registry/factory.go:467-490 | an item of a sequence, array or tuple is built on the spot, one level deeper |
| `Factories.Factory.GetVariantFieldDecoder` | registry/factory.go:353-384 | the decoder for each tag stands for the last variant with that tag, and the fields of every variant, replaced or not, were built |
| `Factories.Factory.GetTupleFieldDecoder` | registry/factory.go:493-525 | the fields stand for the tuple's items with their names |
| `Factories.Factory.GetCompactFieldDecoder` | registry/factory.go:392-463 | compact mode: a decoder of compact integers with the structure of the type, or the error that the walk says |
| `Factories.Factory.GetBitSequenceDecoder` | registry/factory.go:527-560 | succeeds exactly when the store type is a byte and the order type names a bit order, and says which of them is wrong |
| `Factories.Factory.ResolveRecursiveDecoders` | registry/factory.go:212-241 | ties every knot to the stored decoder, and fails if and only if an override that is a nil recursive decoder was met |
| `Factories.Factory.NilOverridesAreMet` | registry/factory.go:212-241 | the nil overrides that a build has met are exactly those that can be reached from the fields of the metadata |
| `Factories.Factory.TieKnots` | registry/factory.go:203-207 | so tying fails if and only if one can be reached, and otherwise all knots are tied |
| `Factories.Factory.CreateRegistry` | registry/factory.go:66-208 | every build that ends: it succeeds if and only if what it reaches is supported and holds no nil override, both known before the call, and otherwise has the error that the walk says, which names a flaw of the metadata; the registry has an entry for exactly the offered keys, standing for the last offer of each, with all knots tied |
| `Factories.Factory.BuildEntries` | registry/factory.go:117-155 | the loop over the pallets: the registry stands for the offers so far, and no placeholder is left under construction |
| `Factories.Factory.AddPallet` | registry/factory.go:136-154 | the loop over a pallet's variants adds exactly its offers |
| `Registries.RegistryMeaning` | registry/factory.go:835-882 | every entry of a registry whose knots are tied decodes by its type: same value with bit-sequence labels erased, same error, same bytes left, for every input and bound, overrides included |
| `Registries.TiedInHeap` | registry/factory.go:212-241 | knots that the heap ties are tied in every graph that includes their cells |
| `Registries.CreatedDecodes` | registry/factory.go:66-208 | a created registry has all that this needs, as a value apart from the factory |
| `Registries.DirectIsAlone` | registry/factory.go:287-525 | without overrides the direct decoder depends on the table alone, so the meaning that is kept does not depend on the build |
| `Registries.MoreFuel` | registry/factory.go:673-833 | a run that ends is the same under every larger bound, so results do not depend on the bound |
| `Registries.ReachedIsTied` | registry/factory.go:803-809 | without overrides every recursive decoder reachable from a built one has a target, which is not itself recursive |
| `Registries.RegistryIsTied` | registry/factory.go:803-809 | the same from every entry of a registry |
| `RegistryStreams.RepDefCells` | registry/factory.go:287-525 | without overrides the only recursive decoders in a built decoder are knots |
| `RegistryStreams.KnotsAreClosed` | registry/factory.go:212-241 | following the tied knots never leaves them |
| `RegistryStreams.RegistryByTypes` | registry/factory.go:835-882 | without overrides an entry means what the types of the table alone say |
| `RegistryStreams.DecodeEntry` | registry/factory.go:835-882 | decoding on the stream with an entry of a created registry gives the value, error and stream position that the types of the table alone say, labels erased, and what it gives is read off the bytes it took |
| `RegistryStreams.EntryExactly` | registry/factory.go:66-208 | a created registry has an entry for exactly the keys of which some pallet has a variant; the last such variant gives its name; and the entry decodes a stream if and only if the bytes that it takes are a form of that variant's fields |
| `RegistryStreams.CreateBoth` | registry/factory.go:66-208 | a registry still decodes after the same factory has created another one, from the same or from other metadata |
| `Registries.EventRegistryAgrees` | registry/factory.go:165-208 | an event id is a key if and only if FindEventNamesForEventID succeeds on it, and with distinct keys under the same pallet.event name |
| `Registries.CallRegistryAgrees` | registry/factory.go:116-162 | what FindCallIndex finds for a one-dot name is a key registered under that name, and it misses no offered call |
| `Registries.ErrorRegistryAgrees` | registry/factory.go:66-112 | an error id is a key if and only if FindError finds it and its last three bytes are zero, with the same error name |
| `RpcProtocol.StepKeepsInv` | gethrpc/client.go:467-616 | every step of senders, read loop and dispatch keeps the invariant, while at most 2^32 ids were issued |
| `RpcProtocol.RunKeepsInv` | gethrpc/client.go:540-616 | so it holds in every state of every such run |
| `RpcProtocol.FreshId` | gethrpc/client.go:236-239 | the next id was not issued before, until the 32-bit counter has gone round |
| `RpcProtocol.ReconnectInv` | gethrpc/client.go:577-594 | re-registering the in-flight request on a new handler keeps the invariant |
| `RpcProtocol.ReadErrViews` | gethrpc/client.go:572-575 | a read error keeps it: waiting requests are closed, the one in flight loses its ids |
| `RpcProtocol.HandleAllInv` | gethrpc/handler.go:265-291 | handling a batch of responses keeps it, from a peer that answers only written ids |
| `RpcProtocol.CloseViews` | gethrpc/client.go:547-554 | closing the client keeps it: every waiting request, the one in flight too, is closed |
| `RpcProtocol.TimeoutViews` | gethrpc/client.go:135-149 | a timeout keeps it: the request no longer waits under any id |
| `RpcGuarantees.SendLock` | gethrpc/client.go:467-612 | the lock is held iff there is a last request; at most one sender is between acceptance and completion; reqSent never holds two values; no nil request is used |
| `RpcGuarantees.LockIsHeld` | gethrpc/client.go:512-535 | a reconnect arrives only from the lock holder, and a finished sender finds reqSent empty |
| `RpcGuarantees.ReadsAreCurrent` | gethrpc/client.go:620-643 | whatever dispatch reads comes from its current, open connection |
| `RpcGuarantees.ChannelsUsedOnce` | gethrpc/handler.go:174-189 | every response channel is closed at most once and never used after; what is sent are distinct ids of its request, none for a subscription |
| `RpcGuarantees.NeverBlocks` | gethrpc/client.go:128-133 | messages ever sent to a request plus ids under which it still waits never exceed the number of its ids, the channel's capacity |
| `RpcGuarantees.AnswersGoHome` | gethrpc/handler.go:265-276 | a response goes to the request to which its id was issued |
| `RpcGuarantees.ExactlyOneFate` | gethrpc/client.go:467-616 | every accepted request is exactly one of: in flight, withdrawn, fully answered, closed with an error, registered under every unanswered id, or lost |
| `RpcGuarantees.CutExactly` | gethrpc/handler.go:175-189 | a request is cut off if and only if some step of the run was a read error while it was in flight past the check, not failed, with an answer missing |
| `RpcGuarantees.LostExactly` | gethrpc/client.go:559-616 | a waiter is lost if and only if it was cut off so, its send succeeded and it has not given up; on all other runs no waiter is lost |
| `RpcGuarantees.CutForever` | gethrpc/handler.go:175-189 | a request that was cut off is never closed and never fully answered in any continuation, not even by Close |
| `RpcGuarantees.StopWakesAll` | gethrpc/client.go:547-554 | when dispatch has returned, nobody is left registered: who was not lost is answered or closed |
| `RpcGuarantees.EveryCallCanBeLost` | gethrpc/client.go:572-611 | from every reachable state in which a sender can get in, five steps lose its call |
| `RpcGuarantees.SomeCallIsLost` | gethrpc/client.go:572-611 | such a run exists from the start |
| `RpcLives.LivesAsTold` | gethrpc/client.go:467-616 | in every run each request lives the life that the events tell, in which there is no handler and no map: its ids, its sender, what it waits for, what it was answered and sent, and whether it was closed; and so does the connection |
| `RpcLives.LifeStepIs` | gethrpc/handler.go:160-189 | what each event does to each request, its own or another's |
| `RpcLives.ReadDelivers` | gethrpc/handler.go:265-291 | in every reachable state responses that are read reach the requests that wait for them, one answer for each id in order, close the channel of a subscription, and change nothing else |
| `RpcLives.RegisteredIsAnswered` | gethrpc/handler.go:265-276 | a registered request is fully answered by a batch of responses that has the ids it lacks |
| `RpcLives.EveryCallCanBeAnswered` | gethrpc/client.go:467-616 | from every reachable state in which a sender can get in, five enabled steps give its call exactly the answers to its ids, in order |
| `RpcDispatch.Client.AddRequestOp` | gethrpc/handler.go:160-164 | the loop registers the request under all its ids and changes nothing else |
| `RpcDispatch.Client.RemoveRequestOp` | gethrpc/handler.go:167-171 | the loop removes exactly the request's ids |
| `RpcDispatch.Client.CancelAllRequests` | gethrpc/handler.go:174-189 | in whatever order the map is walked, it ends empty and every waiting request but the one in flight is closed once |
| `RpcDispatch.Client.HandleReply` | gethrpc/handler.go:265-291 | an unsolicited id changes nothing; otherwise exactly that id stops waiting, and its request gets the message, or is closed if it is a subscription |
| `RpcDispatch.Client.OnReadOp` | gethrpc/client.go:564-570 | the case takes the shown state to the state after the protocol's read step |
| `RpcDispatch.Client.OnReadErr` | gethrpc/client.go:572-575 | likewise for a read error |
| `RpcDispatch.Client.DropConn` | gethrpc/client.go:580-588 | the old connection is closed and its read loop awaited exactly if it still runs |
| `RpcDispatch.Client.AttachConn` | gethrpc/client.go:589-594 | the new connection gets the request in flight and nothing else |
| `RpcDispatch.Client.OnReconnected` | gethrpc/client.go:577-594 | likewise for the dispatch half of a reconnect |
| `RpcDispatch.Client.OnReqInit` | gethrpc/client.go:597-601 | likewise for an accepted request |
| `RpcDispatch.Client.OnReqSent` | gethrpc/client.go:603-611 | likewise for the result of a send |
| `RpcDispatch.Client.OnReqTimeout` | gethrpc/client.go:613-614 | likewise for a timeout |
| `RpcDispatch.Client.OnClose` | gethrpc/client.go:547-562 | likewise for Close and the deferred function |
| `RpcDispatch.Client.NextID` | gethrpc/client.go:236-239 | the wrapping counter gives the protocol's next id |
| `RpcDispatch.Client.TakeID` | gethrpc/client.go:454-455 | the id is added to its request and to no other |
| `RpcDispatch.Client.StartWriting` | gethrpc/client.go:482-487 | the sender's step into Write |
| `RpcDispatch.Client.FinishWrite` | gethrpc/client.go:467-493 | the sender's last step: the result goes to reqSent, and a failed write gives the connection up |
| `RpcDispatch.Client.OnReconnect` | gethrpc/client.go:512-535 | both halves of a reconnect together are the protocol's step |
| `RpcDispatch.Client.Take` | gethrpc/client.go:540-616 | every event, of dispatch or of a sender, takes the shown state to the state after the step |
| `RpcDispatch.Execute` | gethrpc/client.go:540-616 | so running any run of the protocol event by event on the variables ends in the protocol's state, with no channel closed twice or misused |
| `RpcDispatch.InvReady` | gethrpc/client.go:540-616 | the invariant gives what the cases rely on, so none of them dereferences a nil request |
| `BatchCall.DispatchProvides` | gethrpc/client.go:328-341 | the responses that the protocol sends to a batch are distinct ids of the batch, whose own ids are distinct |
| `BatchCall.CollectResponses` | gethrpc/client.go:350-378 | every response matches an element; each element holds the server's error, no result, or the result of the response with its id, or is untouched; and a loop that ends without error has filled them all |
| `BatchCall.FindElement` | gethrpc/client.go:360-366 | finds the first element with the response's id |
| `BatchCall.AllFilled` | gethrpc/client.go:350-378 | as many distinct responses as elements leave no element without one |
| `BatchAnswer.HandleBatch` | gethrpc/handler.go:96-131 | one answer for each message that is neither notification nor response, in order, with its id or null; nothing written if there is none; an error for an empty batch |
| `BatchAnswer.HandleMsg` | gethrpc/handler.go:134-148 | the same for one message |
| `BatchAnswer.HandleImmediate` | gethrpc/handler.go:104-112 | splits the messages, in order, into those that ask and the others |
| `BatchAnswer.AnswerCalls` | gethrpc/handler.go:117-122 | one fitting answer for each kept message, in order |
| `BatchAnswer.AskedIsAnswered` | gethrpc/handler.go:294-336 | a message that asks gets a non-nil answer with its id (null if invalid) and the right error code or result |
| `BatchAnswer.AskingIs` | gethrpc/json.go:57-71 | the kept positions are exactly those of the asking messages, increasing |
| `BatchAnswer.ImmediateIs` | gethrpc/handler.go:232-249 | the others are kept apart in order, and together they are all messages |
| `Subscription.StreamIsFifo` | gethrpc/subscription.go:274-324 | in every state of every run: arrivals are what the consumer got followed by the buffer, at most 20000; later the consumer got a prefix of them; and while quit is open the arrivals are all that was offered |
| `Subscription.TakenArrived` | gethrpc/subscription.go:274-281 | what the loop received are the offered notifications at certain increasing positions, read off the run |
| `Subscription.SkippedExactly` | gethrpc/subscription.go:274-281 | the flag is exactly: some step hands a notification over after a step that refused one |
| `Subscription.SkippedIsGap` | gethrpc/subscription.go:274-324 | it is off if and only if those positions are 0, 1, 2 and so on: nothing was missed that a later one followed |
| `Subscription.NoGapExactly` | gethrpc/subscription.go:274-324 | the first n received are the first n offered if and only if none of them was handed over after a refusal |
| `Subscription.ConsumerSeesPrefix` | gethrpc/subscription.go:274-324 | the same for what the consumer got: its values are those of the offered notifications at these positions, without a gap exactly then |
| `Subscription.OpenRunsHaveNoGap` | gethrpc/subscription.go:274-324 | in every run in which nothing is handed over once quit is closed, the consumer got the first of all that was offered, whatever ended the subscription |
| `Subscription.EndsOnce` | gethrpc/subscription.go:251-285 | quit is closed at most once, err gets at most one value, that of the first to end the subscription, err is closed at most once, and nothing is sent after that |
| `SubscriptionRuns.EndsAsTold` | gethrpc/subscription.go:251-271 | in every run the first to come runs the body; quit was closed as often as the body did it; err has got what that one has to say: nothing for a consumer that ends it, nil for a client that quits, the error otherwise; and was closed once if an Unsubscribe came to that |
| `SubscriptionRuns.CallersAsTold` | gethrpc/subscription.go:251-285 | in every run each caller is where its own events and the order of arrival say |
| `Subscription.SignalHasRoom` | gethrpc/subscription.go:265-270 | sending on err finds it empty and open |
| `Subscription.UnsubscribeCloses` | gethrpc/subscription.go:251-254 | once Unsubscribe has returned both quit and err are closed |
| `Subscription.LateAcceptLeavesGap` | gethrpc/subscription.go:274-281 | if the two selects may hand over after quit is closed, which the language leaves open, a run in which the consumer misses a notification |
| `Subscription.StepKeepsInv` | gethrpc/subscription.go:251-285 | every step of every thread keeps the invariant of the two once-flags, the channels and the stream |
| `Subscription.Forward` | gethrpc/subscription.go:287-324 | the loop sends the first values that came in, one for each choice to send with something to send, counted on the choices alone, and returns for the reason they give, losing, doubling and reordering nothing |
| `Subscription.ValuesOfGood` | gethrpc/subscription.go:309-318 | the values of notifications that all unmarshal are theirs, one for one and in order |
| `Subscription.ChooseAllLossless` | gethrpc/subscription.go:287-324 | whatever the selects choose, the loop is lossless, and overflows only with a full buffer |
| `Subscription.ForwardsExactly` | gethrpc/subscription.go:287-324 | what was sent, what is buffered and why the loop has returned, by counting choices |
| `SubscriptionRuns.ConsumerGets` | gethrpc/subscription.go:274-324 | in every run the consumer has got the first values that the loop took in, one for each step that consumes, and the loop has returned for the reason its choices give |

## Left out

- HTTP, websocket, IPC and stdio transports, gzip, endpoints and configuration: input and output plumbing; the HTTP path bypasses dispatch.
- Liveness: that a step which is enabled is taken, in particular that `Unsubscribe` returns, since `requestUnsubscribe` needs dispatch.
- The server side of subscriptions: no notifier is ever created.
- `clientSubs`: which subscription a notification is delivered to; each subscription is modelled by itself.
- JSON: messages are abstract, ids are numbers on the client side, and a JSON null inside a batch, on which the handler dereferences nil, is not a message here.
- What a called service method does: its outcome is a parameter.
- Floats, Go `int` and `uint`, pointers and the `scale:"-"` tag in the codec: passed on to other code, or easy.
- Allocation: `make` with a huge length is not refused.
- Type definitions with several kind flags set, which the metadata decoder never produces; `toMap`, so the table is a map from the start.
- Error texts and wrappers: errors are told apart by kind.
- The three Create functions are one method with the kind as a parameter; they differ in the field they read and the key they build.
- How append grows a slice: the spare capacity, up to which Go lets a slice be taken, is a parameter, with zeros in it.
- A build that does not end: it recurses until the stack is exhausted, so `CreateRegistry` is about those that end.
- Metadata V4 to V13, per-type option wrappers, event structs, addresses, extrinsics, hashing, signing and key derivation: tag switches that add easy members, or foreign code.
- RpcProtocol.RunKeepsInv: says nothing once more than 2^32 ids were issued, when ids repeat.
- BatchCall.CollectResponses: unmarshalling a result into the caller's value is left abstract.
- Compact.Encoder.Write: the writer is in memory, so it neither fails nor writes short.
- Compact.Encoder.PushByte: likewise, the write behind it does not fail.
- RegistryStreams.DecodeEntry: is for registries made without overrides, since an override may be any decoder; with overrides `Registries.RegistryMeaning` gives the meaning, with theirs taken as they are.
