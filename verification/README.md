# Verified model of the tight transport and its companions

This project models, in Dafny, the parts of the repository whose correctness is hard to see, and proves what they are
for:

* **Erasure coding** (`Residues`, `Gf256`, `GfTables`, `GfMatrix`, `Elimination`, `ReedSolomon`, `Vandermonde`,
  `RowPairs`): the log/exp tables are the field of polynomials modulo 0x11D, parity encoding, in-place Gaussian
  elimination, and when recovery succeeds.
* **Fragments end to end** (`Fragments`, `Fragmenter`, `Reassembler`, `Delivery`, `PacketLimits`): a message is split,
  padded, given parity, and rebuilt from whatever arrives, in any order, repeated and interleaved.
* **Loss and acknowledgement** (`ReportCursor`, `ReportCodec`, `SendBuffer`, `LossProtocol`, `LossLimits`,
  `CursorStall`): the receiver's cursor and loss list, the sender's buffer, all runs of both over a channel that
  loses, repeats and reorders reports, and the exact condition under which such runs are safe.
* **Built-in cryptography** (`Field25519`, `FieldBytes`, `Rfc7748`, `X25519`; `Sha256`; `GhashField`, `Gcm`, `Aead`):
  limb arithmetic against the integers modulo 2^255 - 19, streaming against the padded message, byte loops against bit
  strings.
* **Datagrams** (`Crc32`, `PacketCodec`, `SealedPacket`): header, checksum, and sealing as seen by both ends.
* **Companions** (`Directory`, `StickyBalancer`, `NodeQueue`, `Timer`, `CommandChannel`): the replicated endpoint
  directory, the sticky balancer, the recycling queue, the deadline timer and the ordered command channel.

Classes keep the source's fields and methods; each method is proved against a specification function or relation, and
the lemmas speak about those over all inputs or all runs. Each section guarded by a lock is one step. Machine words are
bit-vectors, or bounded integer types whose bounds Dafny checks at every operation. `Options` and `Collections` hold
what several components share. `dafny verify dfyconfig.toml` checks everything.

Where the code and its comments disagree, the model follows the code, and says exactly when: square submatrices of the
coefficient matrix are not always invertible (`Vandermonde.TooManyFragments`, `RowPairs.PairRowsExact`); multiplication
by the ladder's scalar leaves limb 1 at 2^51 instead of below (`Field25519.FeMulScalar`, `Field25519.LimbOverflows`).

Some properties one might expect do not always hold; for each the exact condition is proved:

* a message arrives intact if and only if its fragments pass the receiver's limit, their number fits 16 bits and the data
  count leaves the flag bit clear (with one borderline case, `PacketLimits.GetsThrough`); otherwise it is ignored, or
  delivered cut short (`PacketLimits.ReceiveMessage`, `PacketLimits.TenMegabytes`), and
  `PacketLimits.ConfigurationExact` says for which configurations that cannot happen;
* reassembly looks only at fragments that exist if and only if no packet that opens an entry of two or more fragments
  announces more data fragments than fragments (`Delivery.InsideExactly`, `Delivery.FirstOverstates`);
* a datagram is built within its bounds if and only if the payload, with the tag when sealed, fits its 16-bit size field
  (`SealedPacket.BuildWirePacket`, `SealedPacket.RoomExactly`), which fails for transfer units of 64 kB;
* the cursor waits forever, whatever reports are built, if and only if the gap it waits at is off the loss list
  (`CursorStall.StallExactly`), which happens exactly if the gap was given up before it was passed, as long as the list
  does not overflow (`CursorStall.ReportMoves`);
* two successive reports never acknowledge what is still awaited if and only if the loss threshold rises by no more
  than the time between them, within the give-up time (`LossLimits.SteadyExact`; in round-trip times
  `LossLimits.RisingRttExact`, for instance not when the estimate rises from 20 to 400 milliseconds between reports
  one second apart), and every number of overdue gaps above 256 has a run in which one is lost from the list
  (`LossLimits.ManyGapsUnsafe`);
* an endpoint removed and added again survives if and only if its new version is above the tombstones others still have
  (`Directory.ReaddedSurvives`, `Directory.ReaddedExchange`);
* a task with a period stays in the timer if and only if it is not cancelled and no poll finds it due, skippable and
  later than the threshold (`Timer.PresentExactly`);
* two packets share a nonce exactly as `SealedPacket.NoncesCollide` says, for packets of every kind.

## Model

| member | source | states |
|---|---|---|
| `Gf256.MulIsRemainder` | tight/src/fec.cpp:33-37 | the field product is the remainder of the carry-less polynomial product modulo 0x11D, for all bytes |
| `Gf256.Order` | tight/src/fec.cpp:16-25 | the powers of 2 return to 1 after 255 doublings and not before |
| `Gf256.ExpInjective` | tight/src/fec.cpp:16-23 | the 255 table powers are pairwise different |
| `Gf256.LogExists` | tight/src/fec.cpp:16-23 | every nonzero byte is a power of 2, so the logarithm table has no holes |
| `Gf256.MulCommutes` | tight/src/fec.cpp:33-37 | multiplication commutes |
| `Gf256.MulAssociates` | tight/src/fec.cpp:33-37 | multiplication is associative |
| `Gf256.MulDistributes` | tight/src/fec.cpp:33-37 | multiplication distributes over XOR |
| `Gf256.NoZeroDivisors` | tight/src/fec.cpp:33-37 | a product is zero only if a factor is |
| `Gf256.PowExp` | tight/src/fec.cpp:40-44 | repeated multiplication of a table power multiplies its exponent |
| `GfTables.FillPowers` | tight/src/fec.cpp:16-23 | the doubling loop fills the first 255 powers and their logarithms |
| `GfTables.RepeatPowers` | tight/src/fec.cpp:24 | the upper half of the table continues the powers periodically |
| `GfTables.Tables.constructor` | tight/src/fec.cpp:12-26 | the built tables hold all powers and logarithms |
| `GfTables.Tables.GfMul` | tight/src/fec.cpp:33-37 | table multiplication is polynomial multiplication, zero included |
| `GfTables.Tables.GfPow` | tight/src/fec.cpp:40-44 | the table power is repeated multiplication |
| `GfTables.Tables.GfInv` | tight/src/fec.cpp:47-49 | a true inverse on both sides for every nonzero value |
| `ReedSolomon.GfMulAdd` | tight/src/fec.cpp:60-72 | adds c times the source, read as zero-padded, in the first width bytes and nothing else, on all three paths |
| `ReedSolomon.EncodeInto` | tight/src/fec.cpp:95-111 | every reused or grown buffer starts with the parity bytes of the zero-padded fragments |
| `ReedSolomon.ParitySplits` | tight/src/fec.cpp:126-129 | a parity is the sum of what the known and what the lost fragments contribute |
| `ReedSolomon.ComputeSyndrome` | tight/src/fec.cpp:132-140 | the syndrome is the parity less the contribution of the fragments at hand |
| `ReedSolomon.ReduceColumn` | tight/src/fec.cpp:151-166 | one pivot column: swap, normalise and clear leave the column reduced and the solutions the same |
| `ReedSolomon.Eliminate` | tight/src/fec.cpp:146-167 | elimination finds every pivot exactly if the matrix is nonsingular, and then leaves the identity with the same solutions |
| `Elimination.NoPivot` | tight/src/fec.cpp:148-150 | a column without pivot yields a nonzero kernel vector: giving up is right |
| `Elimination.SwapSystem` | tight/src/fec.cpp:151-154 | swapping rows keeps the solutions |
| `Elimination.ScaleSystem` | tight/src/fec.cpp:155-158 | normalising the pivot row keeps the solutions |
| `Elimination.AddSystem` | tight/src/fec.cpp:159-166 | clearing a row of the column keeps the solutions |
| `ReedSolomon.SolvedIsLost` | tight/src/fec.cpp:169-172 | the solved system is the lost fragments, padded to the width, for every message consistent with what arrived |
| `ReedSolomon.Decode` | tight/src/fec.cpp:113-174 | succeeds exactly if enough parities with independent coefficients are at hand; present fragments stay, lost ones become the originals; failure changes nothing |
| `Vandermonde.PowerSums` | tight/src/fec.cpp:146-150 | as many successive power sums as there are distinct bases vanish only for zero coefficients |
| `Vandermonde.SuccessiveExact` | tight/include/tight/fec.hpp:8-10 | for any number of successive rows the coefficient matrix is nonsingular if and only if the bases differ and, unless the rows start at 0, none is zero |
| `Vandermonde.SuccessiveRecovers` | tight/include/tight/fec.hpp:8-10 | up to 255 data fragments, any p parities of rows 0 to p - 1 recover any p losses |
| `Vandermonde.SenderRowsExact` | tight/src/fec.cpp:146-150 | for distinct rows out of 0, 1, 2, in whatever selection, the coefficient matrix is nonsingular if and only if the bases differ and, without the XOR row, none is zero |
| `Vandermonde.RecoveryAlwaysSucceeds` | tight/src/fec.cpp:113-174 | up to 255 data fragments and distinct rows out of 0, 1, 2: as many parities as losses always suffice |
| `Vandermonde.TooManyFragments` | tight/src/fec.cpp:53-56 | at 257 fragments two bases coincide and recovery of those two is impossible, against the comment at line 146 |
| `Vandermonde.CubeRowSingular` | tight/include/tight/fec.hpp:10 | rows 0 and 3 are singular for some pair of fragments, against the comment there |
| `RowPairs.PairExactly` | tight/src/fec.cpp:146-150 | two rows tell two lost fragments apart if and only if the determinant of their coefficients is nonzero |
| `RowPairs.PairRowsExact` | tight/include/tight/fec.hpp:8-10 | two rows p < q recover all pairs of losses out of up to 255 fragments if and only if q - p has no factor 3, 5 or 17 |
| `Fragments.Be32RoundTrip` | tight/src/fragmenter.cpp:47-51 | the length prefix reads back |
| `Fragments.DataCountBounds` | tight/src/fragmenter.cpp:52-54 | the fragment count is the exact ceiling |
| `Fragments.CountCheckPasses` | tight/src/reassembler.cpp:103-112 | slices of at least 64 bytes never trip the receiver's count check |
| `PacketLimits.IgnoredExactly` | tight/src/reassembler.cpp:95-112 | which fragments of a message of any size the count check rejects, wrapped counts included; without wrapping all of them or none |
| `PacketLimits.FlagBit` | tight/src/transport.cpp:1017-1021 | marking and clearing bit 15 takes the data count modulo 2^15 |
| `PacketLimits.ReceiveMessage` | tight/src/reassembler.cpp:95-193 | a new receiver fed with the fragments of any message in any order: delivered intact, once, as soon as all data are there if it gets through; if not, nothing intact comes out when the data arrive, and outside the borderline case nothing that is not shorter |
| `PacketLimits.ExpectsFewer` | tight/src/fragmenter.cpp:72-73 | wrapped or clipped counts announce fewer data fragments than there are |
| `PacketLimits.TooShort` | tight/src/reassembler.cpp:151-193 | what is assembled from too few fragments is shorter than the payload, whatever was recovered |
| `PacketLimits.CutShort` | tight/src/reassembler.cpp:193-205 | with as many fragments as are announced such a message is assembled as if it were complete |
| `PacketLimits.TenMegabytes` | tight/src/fragmenter.cpp:72-73 | an instance: 10485760 bytes at a transfer unit of 200 announce 3451 and 3450 and pass the count check |
| `PacketLimits.ConfigurationExact` | tight/src/fragmenter.cpp:32-33 | for a transfer unit and a size limit: all payloads up to the limit get through if and only if the longest does |
| `Fragmenter.SliceSize` | tight/src/fragmenter.cpp:32-33 | at least 5 bytes, and the transfer unit less the header once that leaves 64 |
| `Fragmenter.Sender.AssignId` | tight/src/fragmenter.cpp:38-41 | ids run through 1 to 2^31 - 1 cyclically, never 0, and the loop ends |
| `Fragmenter.Sender.FragmentAndSend` | tight/src/fragmenter.cpp:30-83 | emits exactly the data and parity packets of the message, in order, with the next id |
| `Fragmenter.Split` | tight/src/fragmenter.cpp:64-68 | the spans are the slices of the prefixed payload |
| `Fragmenter.Emit` | tight/src/fragmenter.cpp:72-82 | headers and padded payloads of all packets |
| `Reassembler.ReadPrefix` | tight/src/reassembler.cpp:157-165 | the first four bytes of the stream even if they straddle fragments |
| `Reassembler.CopyPast` | tight/src/reassembler.cpp:178-192 | the stream past the prefix, cut to the declared total |
| `Reassembler.BuildMessage` | tight/src/reassembler.cpp:151-193 | the declared message, or empty when truncated or over the limit |
| `Reassembler.AssembledIsPayload` | tight/src/reassembler.cpp:151-193 | from the fragments of a legal message, padded ones included, exactly the payload |
| `Reassembler.GenuineIsConsistent` | tight/src/reassembler.cpp:219-228 | what was collected of a message is consistent with its slices in the sense of the decoder |
| `Reassembler.TryRecover` | tight/src/reassembler.cpp:206-240 | recovers and assembles exactly if the entry is recoverable, and then yields the payload |
| `Reassembler.TryAssemble` | tight/src/reassembler.cpp:139-241 | delivers exactly if the entry is assemblable; a genuine entry yields its message's payload |
| `Delivery.Step` | tight/src/reassembler.cpp:95-137 | one packet keeps every entry well formed unless an index is outside |
| `Delivery.OutsideExactly` | tight/src/reassembler.cpp:143-148 | for every packet, an index is outside if and only if it opens an entry of two or more fragments and announces more data fragments than fragments |
| `Delivery.InsideExactly` | tight/src/reassembler.cpp:95-148 | over every run of arbitrary packets all indices stay inside if and only if no packet does so |
| `Delivery.FirstOverstates` | tight/src/reassembler.cpp:143-148 | any such packet that passes the count check is enough, and be it the first |
| `Delivery.Receiver.HandleData` | tight/src/reassembler.cpp:95-137 | for every packet the object does the specified step; it hands over the payload of any legal message whose genuine fragments it collected, and never more than the expected fragments hold |
| `Delivery.Receiver.HandleArrival` | tight/src/reassembler.cpp:95-137 | stays in step with the state told by the arrivals alone, and hands over the sent payload exactly on the completing arrival |
| `Delivery.ReceiveAll` | tight/src/reassembler.cpp:95-137 | a new receiver fed with a whole run hands over exactly the payloads sent of the messages that could be assembled, each once; up to 255 data fragments those of which enough fragments came |
| `Delivery.ExactlyOnce` | tight/src/reassembler.cpp:131-136 | the log of a run, which `Delivery.ReceiveAll` shows to be what the receiver hands over, has each message once if it could be assembled, else never |
| `Delivery.ReadyIffEnough` | tight/src/reassembler.cpp:206-230 | up to 255 data fragments: assemblable if and only if the distinct fragments number at least the data count |
| `Delivery.DeliveredIffEnough` | tight/src/reassembler.cpp:131-136 | over every run: assembled at some moment if and only if that many distinct fragments have arrived |
| `ReportCursor.Advance` | tight/src/reassembler.cpp:79-82 | consumes the run of buffered sequences at the cursor and leaves a gap there |
| `ReportCursor.Capped` | tight/src/report.cpp:69-72 | keeps at most 4096 listed gaps, unchanged |
| `ReportCursor.Cursor.HandleData` | tight/src/reassembler.cpp:62-92 | the object does the specified data step |
| `ReportCursor.Cursor.VisitGap` | tight/src/report.cpp:44-68 | the object treats one listed gap as specified in all four cases |
| `ReportCursor.Cursor.ScanMissing` | tight/src/report.cpp:44-68 | the loop visits listed gaps in ascending order although it changes the list and the cursor |
| `ReportCursor.Cursor.BuildReport` | tight/src/report.cpp:15-111 | acknowledgement and listed losses of the report, and the state after it |
| `SendBuffer.Buffer.Send` | tight/src/transport.cpp:1085-1104 | sequences count up and kept packets start without retries |
| `SendBuffer.Buffer.HandleReport` | tight/src/report.cpp:149-189 | prunes what is acknowledged and unlisted or out of retries, counts and resends what is listed, in ascending order |
| `SendBuffer.InOrderAscends` | tight/src/report.cpp:181-183 | every resent sequence once, ascending, with the buffered packet |
| `LossProtocol.ReportKeepsReported` | tight/src/report.cpp:27-68 | if it agrees with the report before it, a report lists or gives up on whatever the cursor has passed and still awaits |
| `LossProtocol.RunKeeps` | tight/src/report.cpp:15-189 | over every run with lost, repeated and reordered reports and changing thresholds the protocol invariant holds if successive reports agree |
| `LossProtocol.AckSafety` | tight/src/report.cpp:168-177 | over those runs, with room on every report, a pruned sequence was received, dropped by the receiver, or sent ten times more; nothing is resent more than ten times |
| `LossProtocol.NothingCut` | tight/src/report.cpp:93-94 | a report cuts no overdue gap off its list if and only if there are at most 256 |
| `LossProtocol.NeverCut` | tight/src/report.cpp:93-94 | reports that list at most 256 losses never cut one off |
| `LossProtocol.CursorRuns` | tight/src/reassembler.cpp:62-92 | over every run the cursor never goes back, everything below it was received or skipped while listed, and buffered sequences lie strictly above it |
| `LossProtocol.OffNeverStalls` | tight/src/report.cpp:46-52 | with retransmission off every report empties list and buffer and acknowledges exactly the highest sequence received |
| `CursorStall.ReportMoves` | tight/src/report.cpp:33-68 | a report moves a waiting cursor if and only if the gap there is listed, overdue and not given up, and loses track of it if and only if it gives it up |
| `CursorStall.StallExactly` | tight/src/report.cpp:44-68 | no reports and no packets below it ever move a waiting cursor if and only if the gap there is off the loss list |
| `CursorStall.ListedAgain` | tight/src/reassembler.cpp:72-78 | a packet above the cursor lists the gap again |
| `LossLimits.UnsteadyUnsafe` | tight/src/report.cpp:27-29 | any two successive reports that do not agree have a feasible run of sender and receiver in which a packet is pruned that never arrived, is awaited and was not resent |
| `LossLimits.SteadyExact` | tight/src/report.cpp:27-63 | two successive reports are safe in every run if and only if they agree: no gap the first lists can be too young for the second before it is given up |
| `LossLimits.RisingRttExact` | tight/src/report.cpp:27-31 | the same in terms of round-trip times and the report interval, for reports at least one interval apart |
| `LossLimits.CutOffUnsafe` | tight/src/report.cpp:93-94 | when a report finds more than 256 gaps, all of them overdue and up to the cursor's reach, it acknowledges the last one unlisted although it is still awaited |
| `LossLimits.ManyGapsUnsafe` | tight/src/report.cpp:93-94 | every number of overdue gaps above 256 has a feasible run with one report in which a packet is pruned that never arrived |
| `ReportCodec.Build` | tight/src/report.cpp:93-110 | the payload of acknowledgement, ratio, listed losses and bandwidth, at most 256 losses |
| `ReportCodec.Parse` | tight/src/report.cpp:113-154 | reads those fields, in both error cases too, and collects the losses as a set |
| `ReportCodec.TruncatedReport` | tight/src/report.cpp:113-137 | a report cut short is rejected, or only loses its bandwidth; otherwise it reads back exactly, whatever follows |
| `Field25519.FeAdd` | tight/src/crypto.cpp:249-251 | limb sums fit 64 bits and add the values |
| `Field25519.FeSub` | tight/src/crypto.cpp:253-262 | no limb underflows, and the value is the difference plus 2p |
| `Field25519.FoldedProduct` | tight/src/crypto.cpp:264-274 | the folded schoolbook columns are the product modulo p |
| `Field25519.FeMul` | tight/src/crypto.cpp:264-284 | no 128-bit overflow, tight limbs, the field product |
| `Field25519.FeMulScalar` | tight/src/crypto.cpp:288-306 | for every 64-bit scalar, cut to the word size where the code is: the product below 2^56; below 2^17 all limbs fit 51 bits but limb 1, which is 2^51 exactly if it is overfull |
| `Field25519.LimbOverflows` | tight/src/crypto.cpp:287-288 | an element for which the scalar in use does that, against the comment |
| `Field25519.Carry` | tight/src/crypto.cpp:275-284 | the carry chain keeps the field element and leaves tight limbs |
| `FieldBytes.DecodedValue` | tight/src/crypto.cpp:172-186 | decoding yields the little-endian integer modulo 2^255 |
| `FieldBytes.CarryFully` | tight/src/crypto.cpp:188-197 | the carry passes fit every limb into 51 bits; two of the three do already |
| `FieldBytes.Reduce` | tight/src/crypto.cpp:198-214 | the borrow chain selects the unique representative below p |
| `FieldBytes.PackedValue` | tight/src/crypto.cpp:215-247 | the 32 byte expressions are the little-endian encoding of the limbs |
| `FieldBytes.FeToBytes` | tight/src/crypto.cpp:188-247 | encoding writes the representative below p |
| `FieldBytes.ToLeFromLe` | tight/src/crypto.cpp:215-247 | the encoding reads back |
| `X25519.MaskedSwap` | tight/src/crypto.cpp:333-340 | the masked XOR swaps or keeps, for all words |
| `X25519.FeInv` | tight/src/crypto.cpp:316-331 | the addition chain is exponentiation by p - 2 |
| `X25519.Step` | tight/src/crypto.cpp:381-396 | one round of the ladder body in limbs is the ladder step of section 5 of RFC 7748, with no overflow anywhere |
| `X25519.Ladder` | tight/src/crypto.cpp:366-400 | the whole loop with delayed swaps computes the ladder of the RFC |
| `Rfc7748.SwapsCancel` | tight/src/crypto.cpp:374-379 | delaying and merging swaps gives the same ladder as choosing the point by each bit |
| `Rfc7748.BitOfByte` | tight/src/crypto.cpp:375 | bit t of the scalar is bit t mod 8 of byte t / 8 |
| `X25519.ClampBits` | tight/src/crypto.cpp:361-364 | the clamp masks, as arithmetic |
| `X25519.Run` | tight/src/crypto.cpp:357-408 | for every scalar and point the output is the RFC's function, and the return value tells whether it is nonzero |
| `Sha256.Context.CompressBuffer` | tight/src/crypto.cpp:42-69 | schedule and 64 rounds are the compression function of FIPS 180-4, section 6.2.2 |
| `Sha256.Context.Update` | tight/src/crypto.cpp:71-85 | appends to the absorbed message, however the data are cut |
| `Sha256.Context.Finish` | tight/src/crypto.cpp:87-103 | the digest of the message padded as in section 5.1.1; the padding loop ends |
| `Sha256.FoldSplit` | tight/src/crypto.cpp:71-85 | folding the compression function splits at block boundaries |
| `Sha256.HashChunks` | tight/src/crypto.cpp:135-141 | any sequence of pieces gives the digest of the whole |
| `Sha256.ComputeHmac` | tight/src/crypto.cpp:107-131 | the keyed hash of RFC 2104, long keys included |
| `Sha256.Hkdf` | tight/src/crypto.cpp:143-161 | extract and one block of expansion of RFC 5869 |
| `Sha256.ZeroSalts` | tight/src/crypto.cpp:146-150 | the default salt is as good as any all-zero salt up to a block |
| `Crc32.InitTable` | tight/src/crc32.cpp:13-21 | every table entry is eight division steps of its index |
| `Crc32.ByteStep` | tight/src/crc32.cpp:26-29 | a table look-up replaces eight division steps, for all words |
| `Crc32.Update` | tight/src/crc32.cpp:24-30 | the table-driven loop is bit-serial division by the reflected polynomial |
| `Crc32.Compute` | tight/src/crc32.cpp:33-35 | the complemented checksum |
| `Crc32.DivideConcat` | tight/src/crc32.cpp:24-30 | the checksum composes over concatenation, as the streaming callers use it |
| `Crc32.HalvesXor` | tight/src/crc32.cpp:16-18 | division is linear |
| `Crc32.DivideIsBits` | tight/src/crc32.cpp:24-30 | dividing byte by byte is dividing bit by bit, least significant bit first |
| `Crc32.BurstDetected` | tight/src/crc32.cpp:24-35 | any change confined to 32 consecutive bits, wherever they start, changes the checksum of a message of any length |
| `Crc32.FiveBytesUndetected` | tight/src/crc32.cpp:24-35 | 33 bits are too many: a fixed pattern of that length never does, in any message |
| `PacketCodec.EncodeHeaderTo` | tight/src/packet_codec.cpp:12-46 | all header fields at their offsets, checksum zeroed, nothing else written |
| `PacketCodec.ParseFront` | tight/src/packet_codec.cpp:78-115 | reading the header back gives every field |
| `PacketCodec.FrontParse` | tight/src/packet_codec.cpp:78-115 | writing a parsed header reproduces its bytes |
| `PacketCodec.FinalizeCrc` | tight/src/packet_codec.cpp:48-55 | fills in the checksum of the datagram with that field zeroed; short buffers stay |
| `PacketCodec.EncodeTo` | tight/src/packet_codec.cpp:57-66 | the datagram of header and payload in the caller's buffer, the rest untouched |
| `PacketCodec.DecodeFrom` | tight/src/packet_codec.cpp:74-127 | the three-part streaming check decides as the specification does, in every error case |
| `PacketCodec.RoundTrip` | tight/src/packet_codec.cpp:57-127 | an encoded datagram decodes if and only if magic and version are right, whatever follows it, and then gives header and payload back |
| `PacketCodec.OverlongRejected` | tight/src/packet_codec.cpp:116 | a size field beyond the datagram is rejected |
| `PacketCodec.OnlyEncodingsDecode` | tight/src/packet_codec.cpp:74-127 | whatever decodes is the encoding of what it decodes to, up to trailing bytes |
| `PacketCodec.AlterationRejected` | tight/src/packet_codec.cpp:118-123 | any alteration confined to 32 consecutive bits that leaves the size field, the checksum and what follows the payload alone is rejected |
| `GhashField.MulCommutes` | tight/src/crypto.cpp:537-553 | block multiplication commutes |
| `GhashField.MulAssociates` | tight/src/crypto.cpp:537-553 | block multiplication is associative |
| `GhashField.MulDistributes` | tight/src/crypto.cpp:537-553 | block multiplication distributes over XOR on both sides |
| `GhashField.TopReduces` | tight/src/crypto.cpp:546-550 | x^128 reduces to x^7 + x^2 + x + 1 |
| `Gcm.BitsTimesX` | tight/src/crypto.cpp:546-550 | the byte-wise shift with 0xE1 is multiplication by x on bit strings |
| `Gcm.GhashMul` | tight/src/crypto.cpp:537-553 | the byte loop is the field multiplication of section 6.3 of NIST SP 800-38D |
| `Gcm.GhashUpdate` | tight/src/crypto.cpp:555-567 | absorbs data block by block with zero padding |
| `Gcm.GhashSplit` | tight/src/crypto.cpp:577-580 | absorbing in whole-block parts is absorbing the concatenation |
| `Gcm.GhashPads` | tight/src/crypto.cpp:555-567 | a partial block counts as zero-padded |
| `Aead.Increment` | tight/src/crypto.cpp:600-603 | the byte-wise carry is the increment modulo 2^32 of section 6.2 |
| `Aead.Crypt` | tight/src/crypto.cpp:594-611 | counter mode of section 6.5 from the incremented first counter; only the output range changes |
| `Aead.GctrInverts` | tight/src/crypto.cpp:594-611 | counter mode is its own inverse |
| `Aead.GctrByte` | tight/src/crypto.cpp:604-606 | byte i is masked by block i / 16 of the keystream |
| `Aead.CountersDistinct` | tight/src/crypto.cpp:600-603 | within 2^32 blocks no counter repeats, the tag's included |
| `Aead.TagIsStandard` | tight/src/crypto.cpp:569-592 | the tag is that of section 7.1: one GHASH over both padded strings and the lengths, masked in counter mode |
| `Aead.ComputeTag` | tight/src/crypto.cpp:569-592 | the code computes that tag |
| `Aead.Encrypt` | tight/src/crypto.cpp:615-629 | ciphertext and tag side by side in the buffer, nothing else written |
| `Aead.Decrypt` | tight/src/crypto.cpp:631-649 | the accumulated difference accepts exactly the right tag, and then decrypts |
| `Aead.OpenIffSealed` | tight/src/crypto.cpp:615-649 | opening yields a plaintext if and only if sealing it yields that ciphertext and tag |
| `SealedPacket.BuildNonce` | tight/src/transport.cpp:993-1010 | the nonce layouts of commands and of fragments |
| `SealedPacket.NoncesCollide` | tight/src/transport.cpp:989-1010 | exactly when two packets of whatever kind share a nonce: same sender and kind, and same sequence for commands, else same message and fragment; or one crossing of a command with kind 0 |
| `SealedPacket.BuildWirePacket` | tight/src/transport.cpp:1012-1038 | the wire form in both modes, one buffer filled in place; it writes inside if and only if there is room |
| `SealedPacket.RoomExactly` | tight/src/transport.cpp:1017-1022 | there is room if and only if payload and tag fit 16 bits |
| `SealedPacket.DecryptPayload` | tight/src/transport.cpp:1040-1059 | size and flag restored on success; no key, a short payload or a wrong tag reject |
| `SealedPacket.HandleDatagram` | tight/src/transport.cpp:605-610 | decodes, then decrypts what is marked as sealed |
| `SealedPacket.ReceiveSealed` | tight/src/transport.cpp:1012-1059 | sealing side and opening side rebuild the same associated data and nonce |
| `SealedPacket.ReceiveUndoesSend` | tight/src/transport.cpp:1012-1059 | in both modes payload and every header field but the checksum come back if and only if the sender left the flag bit 15 clear |
| `SealedPacket.NoKeyNoPacket` | tight/src/transport.cpp:1042 | without the key every sealed packet is dropped |
| `Directory.EndpointDirectory.MergeEndpoint` | src/routing.cpp:17-43 | applies the announcement; reports and counts a change exactly if there is one |
| `Directory.EndpointDirectory.ApplyRemoval` | src/routing.cpp:91-108 | applies the removal; reports and counts a change exactly if an endpoint went |
| `Directory.EndpointDirectory.MergeSnapshot` | src/routing.cpp:45-57 | absorbs all endpoints, then all removals |
| `Directory.EndpointDirectory.TakeSnapshot` | src/routing.cpp:128-150 | lists exactly the state, without and after forgetting expired tombstones |
| `Directory.EndpointDirectory.UpsertLocal` | src/routing.cpp:59-78 | the local upsert with its version and time rules, counted as a change |
| `Directory.EndpointDirectory.RemoveOwn` | src/routing.cpp:80-89 | the local removal, counted as a change if there was something to remove |
| `Directory.AbsorbReflects` | src/routing.cpp:17-108 | after any updates each id has the newest endpoint strictly above its largest tombstone version |
| `Directory.ReplicasAgree` | src/routing.cpp:17-108 | replicas that absorbed the same updates, in any order and however often, are equal |
| `Directory.MergeReflects` | src/routing.cpp:45-57 | merging a snapshot is as good as absorbing everything its replica ever absorbed |
| `Directory.MergeCommutes` | src/routing.cpp:45-57 | two replicas that exchange snapshots become equal |
| `Directory.MergeAssociates` | src/routing.cpp:45-57 | merging snapshots is associative |
| `Directory.MergeIdempotent` | src/routing.cpp:45-57 | merging a snapshot again changes nothing |
| `Directory.RemoveLocalIsUpdate` | src/routing.cpp:80-89 | a local removal is the removal update of the current version |
| `Directory.UpsertIsUpdate` | src/routing.cpp:59-78 | a local upsert is an announcement if and only if it erased no tombstone |
| `Directory.NoResurrection` | src/routing.cpp:21-24 | no sequence of updates brings back a version at or below a tombstone |
| `Directory.ReaddedSurvives` | src/routing.cpp:59-78 | for every owner, replica and endpoint removed and added again: the replica accepts the announcement, and its removal spares the owner's endpoint, if and only if the version given is above the replica's tombstone |
| `Directory.ReaddedExchange` | src/routing.cpp:45-78 | the same for exchanged snapshots: the endpoint ends up at both replicas or at neither |
| `StickyBalancer.Balancer.Pick` | src/routing.cpp:221-302 | ageing, eviction and the choice among shard key, round robin and session |
| `StickyBalancer.Balancer.Evict` | src/routing.cpp:235-249 | the oldest recyclable entries go first, only as many as needed, everything else unchanged |
| `StickyBalancer.Balancer.Invalidate` | src/routing.cpp:304-314 | drops exactly the sessions of one endpoint |
| `StickyBalancer.RunBounded` | src/routing.cpp:235-249 | in every reachable state recyclable entries fit the capacity |
| `StickyBalancer.PickBinds` | src/routing.cpp:271-301 | a sticky pick binds its session to the endpoint it returns |
| `StickyBalancer.SessionSticks` | src/routing.cpp:221-302 | however other sessions interleave, all picks of an undisturbed session return the same endpoint |
| `StickyBalancer.PicksAgree` | src/routing.cpp:221-302 | from its first sticky pick on, an undisturbed session always gets the endpoint that pick returned |
| `StickyBalancer.SessionKeysDiffer` | src/routing.cpp:271-275 | without bars in service names session keys are unambiguous |
| `NodeQueue.Queue.TryPush` | tight/include/tight/blocking_queue.hpp:51-60 | refines the bounded FIFO while live and free chains stay acyclic and disjoint |
| `NodeQueue.Queue.Poll` | tight/include/tight/blocking_queue.hpp:79-83 | refines the FIFO's removal |
| `NodeQueue.Queue.ObtainNode` | tight/include/tight/blocking_queue.hpp:117-126 | the first free node, or a new one |
| `NodeQueue.Queue.LinkTail` | tight/include/tight/blocking_queue.hpp:141-149 | appends to the live chain |
| `NodeQueue.Queue.RecycleNode` | tight/include/tight/blocking_queue.hpp:129-138 | the free chain never exceeds 64 nodes |
| `NodeQueue.Queue.UnlinkHead` | tight/include/tight/blocking_queue.hpp:152-161 | takes the first item and recycles its node |
| `NodeQueue.Queue.Close` | tight/include/tight/blocking_queue.hpp:85-90 | refuses items from then on, keeps what is queued |
| `NodeQueue.RunIsFifo` | tight/include/tight/blocking_queue.hpp:35-90 | over every run the items accepted are those taken followed by those queued, and the bound holds |
| `Timer.PriorityTimer.GetExpiredTasks` | src/framework/timer.cpp:35-100 | terminates; takes exactly what is due in deadline order, re-arms periodic entries handed out, leaves future entries |
| `Timer.PriorityTimer.Cancel` | src/framework/timer.cpp:102-127 | removes the earliest entry whose task has the id if there is one, and nothing else |
| `Timer.PriorityTimer.CancelPeriodic` | src/framework/timer.cpp:129-154 | removes the earliest entry of the periodic id if there is one, and nothing else |
| `Timer.Partitioned` | src/framework/timer.cpp:55-68 | each due entry is handed out or skipped, and only late skippable ones are skipped |
| `Timer.TrackedAlone` | src/framework/timer.cpp:28-100 | over every run each periodic id has at most one entry, with the deadline it would have if it were alone in the timer: now plus period after each poll that hands it out |
| `Timer.PresentExactly` | src/framework/timer.cpp:28-154 | a periodic id is in the timer if and only if it was scheduled, never cancelled, and no poll found its entry due, skippable and later than the threshold (or due without a period) |
| `CommandChannel.Channel.Handle` | tight/src/command.cpp:11-37 | the object does the specified step and hands out the payloads |
| `CommandChannel.Channel.FlushExpired` | tight/src/command.cpp:39-45 | the same for a flush |
| `CommandChannel.Channel.DrainLocked` | tight/src/command.cpp:56-64 | delivers what is held without a gap |
| `CommandChannel.DrainedShape` | tight/src/command.cpp:56-64 | a drain delivers consecutive sequences with their held payloads and stops at a gap |
| `CommandChannel.RunKeeps` | tight/src/command.cpp:11-80 | over every run since the handshake deliveries strictly ascend and each accepted command is once either delivered or held above the expected sequence |
| `CommandChannel.AcceptedOnce` | tight/src/command.cpp:22-34 | an accepted sequence is never accepted again |
| `CommandChannel.FlushesEmpty` | tight/src/command.cpp:66-80 | as many expired flushes as commands are held empty the held set |

## Left out

- Delivery.Receiver.HandleData: says nothing about what happens after an index outside an entry; runs end there.
- Delivery.DeliveredIffEnough: is limited to 255 data fragments, because beyond that recovery can fail (`Vandermonde.TooManyFragments`); `Delivery.ExactlyOnce` has no such limit.
- Fragments.Legal: covers messages whose counts fit their header fields; `PacketLimits.ReceiveMessage` covers the others, one message at a time. Slices of 65536 bytes and more are left to `SealedPacket.RoomExactly`.
- LossProtocol.AckSafety: assumes that successive reports agree and have room for their overdue gaps; `LossLimits` shows both conditions exact or necessary.
- Fragmenter.Sender.FragmentAndSend: takes the parity count as any value from 1 to 3 instead of computing the floating-point entropy formula.
- Field25519.FeMulScalar: does not say what is left of the product for scalars of 2^56 and more, where carries are cut; the only one in use is 121665.
- FieldBytes.FeToBytes: joins bytes that straddle two limbs by addition instead of OR (the parts never overlap), and selects the reduced limbs by value; `FieldBytes.MaskedSelect` and `X25519.MaskedSwap` justify the masks.
- SealedPacket.BuildWirePacket: stops where the source would write past its buffer.
- Directory.ReplicasAgree: assumes that id, version and time stamp determine an endpoint and that no tombstone has expired in between; tombstone times other than versions are not compared.
- StickyBalancer.SessionSticks: excludes changing the time to live, which forgets all sessions.
- Timer.PriorityTimer.GetExpiredTasks: ties between equal deadlines may come in any order; task ids come from a counter of the timer.
- The packet type and acknowledgement policy of the data path (`send_data_packet`): fragments are told apart by index.
- AES-256 itself: the block cipher is any function on blocks; key schedule and S-box are not modelled.
- Diffie-Hellman agreement of two X25519 keys (the curve group law), randomness of keys, and session key derivation beyond HKDF.
- Wrap-around of 32-bit sequence numbers and reuse of message ids after 2^31 messages; counts and times are unbounded.
- Time-based forgetting of incomplete and completed messages, offline detection, late-packet statistics and bandwidth probes.
- Report payload bytes: runs of the protocol carry reports as values; `ReportCodec` treats their bytes separately.
- Blocking waits of the queue, sockets, threads, logging and buffer pools.
- Big-endian hosts: the byte swaps of the wire format assume a little-endian host.
- Handshake, heartbeat, peer state, circuit breaker, filter chain, metrics, gRPC proxy, Redis and HTTP adapters.
