# ESP-Miner verification model

A Dafny model of the parts of the ESP-Miner firmware where a small piece of code carries a large promise: text
codecs, binary parsers, persistent state, shared buffers, wire framing and error checks. Each module states what
the firmware relies on in terms of the data alone and proves that the code, modelled with its own loops and,
where it keeps state, its buffers and in-place updates, does it.

* `Base58`: the big-number conversion in both directions, on the digit buffer and the 32-bit words the code uses.
* `Polymod`, `SymbolField`, `Bech32`, `KnownStrings`, `SegwitAddr`: Bech32 and Bech32m (BIP-173, section "Bech32";
  BIP-350, section "Bech32m") and segwit addresses (BIP-173, section "Segwit address format"): checksum algebra over
  bits and over the field of 32 elements, printer, parser, two known strings, bit regrouping.
* `CoinbaseSuffix`, `CoinbaseLedger`, `CoinbaseDecoder`: the length-checked parser of a coinbase suffix, its grammar,
  and the bounded table that prefers the user's outputs and the largest ones.
* `NvsKeys`, `NvsModel`, `NvsConfig`: the write-behind settings cache as interleaved atomic sections of any number of
  setter threads and the persisting task, and a class whose methods take exactly those steps.
* `LogBuffer`: the ring, its line-oriented readers and its lossy flusher against the unbounded log.
* `VersionRolling`, `JobStore`, `JobSlots`, `MerkleRoot`: version rolling as counting, the recycling slot store, the
  encoder and decoder that must roll alike, and the Merkle root over the pool's branches.
* `Sv2Frames`, `Sv2Noise`: encrypted SV2 frames over a socket with arbitrary chunking, the cipher an ideal box; the
  counter follows section 5.1 of the Noise Protocol Framework.
* `StratumLines`, `StratumReceiver`: JSON-RPC lines out of a byte stream through a persistent, growing buffer.
* `JsonDiff`: the recursive JSON delta and what overlaying it gives.
* `Crc5`, `Crc`, `Crc16`: the frame checks, down to the bits.
* `Numerals`, `Bits`, `Wrappers`: positional numerals, bitwise operations on unsigned words, and an option type.

Words are naturals with their width written out where the code depends on it. `a | b` of disjoint shifted parts is
written as a sum, a shift as a product or quotient, a mask as a remainder. A C string is its characters up to the
terminator; buffers the code writes in place are arrays with the terminator in them.

Seven promises turned out to need a condition, stated as such, each with an input that shows it: `b58tobin` reports a
size its buffer does not have when leading `1`s and number need more bytes than there are; the Bech32 encoder accepts
an empty prefix that no decoder takes back; the segwit encoder accepts a negative version and writes another; the
coinbase table sends a paying user output to the bucket once zero-value outputs and user outputs fill it; an empty
string setting over a nonempty default is lost at a restart; a JSON delta cannot say that a member was removed; and
`crc5` does not see two flipped bits whose distance is a multiple of 31.

## Model

| member | source | states |
|---|---|---|
| Base58.B58Enc | components/stratum/base58.c:145-189 | for every byte string and room: the size reported is that of the text with its terminator, it succeeds exactly when there is room, and then the buffer holds one `1` per leading zero byte followed by the number in base 58, nothing else changed |
| Base58.BufferBound | components/stratum/base58.c:155-157 | `n*138/100+1` base-58 places hold every number of `n` bytes |
| Base58.AlphabetSorted | components/stratum/base58.c:143-143 | the digits ascend |
| Base58.AlphabetHolds | components/stratum/base58.c:143-143 | they are the alphanumeric characters without `0`, `O`, `I` and `l` |
| Base58.PushByte | components/stratum/base58.c:159-171 | the inner loop with its `high` skip turns the digits of `v` into those of `256*v + byte`; the places up to the one it stops at are zero unless that is the first: no carry is lost at index 0 and no nonzero digit is skipped |
| Base58.ToBase58 | components/stratum/base58.c:155-171 | after all bytes the base-58 buffer is worth exactly the base-256 number |
| Base58.B58ToBin | components/stratum/base58.c:39-113 | a text is accepted exactly when all its characters are base-58 digits and its number is below `256^binsz`; then the buffer is that number in big-endian bytes and the size is its own bytes plus one per leading `1`; a refused text leaves buffer and size alone |
| Base58.TooLarge | components/stratum/base58.c:79-84 | a prefix that is already too large makes the whole text too large, so the check after each digit decides like one check at the end |
| Base58.TopWord | components/stratum/base58.c:44-50 | the words stay within the mask of the partial top word exactly when their number is below `256^binsz` |
| Base58.EncodingReads | components/stratum/base58.c:145-189 | the text `b58enc` writes is base 58, writes the same number and keeps the count of leading zeros |
| Base58.RoundTrip | components/stratum/base58.c:39-189 | decoding the text of `bin` into a buffer of its length gives `bin` and nothing else, leading zero bytes included, and reports its full length; and the text is one the decoder accepts there |
| Base58.SizeFits | components/stratum/base58.c:102-110 | the reported size fits the buffer exactly when, after a byte for each leading `1`, the rest of the buffer still has room for the number |
| Base58.SizeOverruns | components/stratum/base58.c:102-110 | `11` is accepted into one byte and the size reported is 2 |
| Base58.DecodeEncode | components/stratum/base58.c:39-189 | a decoded text is the encoding of some last bytes of its buffer exactly when the buffer has that room, and then of those the reported size names |
| Polymod.PolymodLinear | components/stratum/segwit_addr.c:28-36 | the checksum step is linear over exclusive or |
| Polymod.PolymodInjective | components/stratum/segwit_addr.c:28-36 | the step is injective on 30-bit registers |
| Polymod.ChecksumUnique | components/stratum/segwit_addr.c:82-88 | for each register and encoding exactly one block of six symbols brings the register to the final constant, and it is the block the encoder appends |
| Polymod.BurstSeen | components/stratum/segwit_addr.c:28-36 | two symbol lists that differ inside one window of six symbols leave different registers |
| SymbolField.PolymodIsDivision | components/stratum/segwit_addr.c:28-36 | the step is one step of dividing by the generator polynomial {29}{22}{20}{21}{29}{18} of BIP-173, over the field of 32 elements modulo x^5+x^3+1, multiplication being that of the field |
| SymbolField.RunDoubled | components/stratum/segwit_addr.c:28-36 | multiplying every symbol and the register by x multiplies the outcome by x: the code is linear over the field, not only over bits |
| Bech32.Bech32Encode | components/stratum/segwit_addr.c:57-91 | succeeds exactly on printable prefixes without capitals, 5-bit data and at most 90 characters; the output is prefix, separator, data and checksum |
| Bech32.Bech32Decode | components/stratum/segwit_addr.c:93-154 | the scan over one text computes the decoding of the reference grammar: length, last separator, character ranges, one case only, checksum, which of the two encodings |
| Bech32.RegisterVerifies | components/stratum/segwit_addr.c:82-88 | data followed by six symbols passes verification exactly when those symbols are the checksum |
| Bech32.TextLayout | components/stratum/segwit_addr.c:57-91 | prefix, separator, data and checksum stand where they should, and the symbols of the text, expanded character by character in the order BIP-173 gives, lead the register to the final constant |
| KnownStrings.ShortestStrings | components/stratum/segwit_addr.c:57-154 | `A12UEL5L` of BIP-173 and `A1LQFN3A` of BIP-350 decode to the prefix `a` without data in the right encoding, and in lower case are what the encoder writes for it |
| Bech32.DecodeAccepts | components/stratum/segwit_addr.c:57-154 | the decoder accepts exactly the texts, in one case, that the encoder writes in lower case for a prefix that is not empty, and returns what was encoded |
| Bech32.EncodeDecode | components/stratum/segwit_addr.c:57-154 | what the encoder writes decodes to what was encoded, for every prefix it accepts, one containing `1` included; the empty prefix, which only the encoder lets through, is the one exception |
| Bech32.EmptyPrefixRefused | components/stratum/segwit_addr.c:57-154 | the encoder writes a text for the empty prefix, with either encoding, and the decoder refuses it |
| Bech32.DecodeEncode | components/stratum/segwit_addr.c:57-154 | a text that decodes is, lower-cased, the encoding of what it decodes to |
| Bech32.BurstRefused | components/stratum/segwit_addr.c:93-154 | two texts with the same prefix, length and encoding that differ only within six consecutive characters cannot both decode, unless they differ in case alone |
| SegwitAddr.ShiftMod | components/stratum/segwit_addr.c:157-165 | the low bits of the accumulator are unaffected by its wrapping at 32 bits |
| SegwitAddr.ConvertBits | components/stratum/segwit_addr.c:156-176 | regrouping with padding writes the bits followed by fewer than a group of zeros; without padding it succeeds exactly when the left-over bits are zero and fewer than one input group, and then writes the same bits |
| SegwitAddr.SymbolsRoundTrip | components/stratum/segwit_addr.c:156-176 | 8-to-5 with padding and then 5-to-8 without is the identity on every program |
| SegwitAddr.BytesRoundTrip | components/stratum/segwit_addr.c:156-176 | 5-to-8 without padding, where it succeeds, is undone by 8-to-5 with padding |
| SegwitAddr.SegwitAddrEncode | components/stratum/segwit_addr.c:178-190 | the method computes the reference encoding: version, lengths 2 to 40 (20 or 32 for version 0), encoding chosen by version |
| SegwitAddr.SegwitAddrDecode | components/stratum/segwit_addr.c:192-209 | the method computes the reference decoding with all of its refusals |
| SegwitAddr.RoundTrip | components/stratum/segwit_addr.c:178-209 | an address the encoder writes decodes to the same version and program exactly when the prefix is not empty and the version is not negative |
| SegwitAddr.NegativeVersion | components/stratum/segwit_addr.c:178-190 | version -256 is written as the address of version 0, and decodes as that |
| SegwitAddr.Canonical | components/stratum/segwit_addr.c:178-209 | an address that decodes is, lower-cased, the encoding of what it decodes to |
| SegwitAddr.DecodeAccepts | components/stratum/segwit_addr.c:178-209 | the decoder accepts exactly the addresses, in one case, of the programs of 2 to 40 bytes (20 or 32 for version 0) with versions 0 to 16 that the encoder writes in lower case under the same nonempty prefix, and returns that version and program |
| SegwitAddr.VersionsWritten | components/stratum/segwit_addr.c:178-190 | an address of version 0 carries the older checksum and one of a later version the newer one |
| CoinbaseSuffix.DecodeVarint | components/stratum/coinbase_decoder.c:25-63 | a whole varint gives its value and the offset behind it; a truncated one gives 0 and, except at the end of the data, the end as offset |
| CoinbaseSuffix.VarintIsOne | components/stratum/coinbase_decoder.c:25-63 | the shortest spelling of every 64-bit number, by its size and its bytes lowest first, is one the grammar reads as that number |
| CoinbaseSuffix.VarintShortest | components/stratum/coinbase_decoder.c:25-63 | no spelling the grammar reads as a number is shorter than that |
| CoinbaseSuffix.FiftyBitcoin | components/stratum/coinbase_decoder.c:457-543 | nineteen concrete bytes parse to one output of 5,000,000,000 satoshis with its script |
| CoinbaseSuffix.ParseIsGrammar | components/stratum/coinbase_decoder.c:457-543 | the parser reads a suffix from exactly those bytes that the grammar writes for it: sequence, count of at least one, outputs, lock time, nothing left over |
| CoinbaseDecoder.Notification.ParseSuffix | components/stratum/coinbase_decoder.c:444-563 | succeeds exactly when the bytes are a whole suffix and the total stays below 2^64; then table, total, user value and the BIP-54 flag are those of its outputs in order, the user value being the sum of the outputs that pay the user (`EventsShare`); a failed parse leaves height and flag alone, never lowers the total, and leaves table and user value as they were or as some outputs, stored in an emptied table, make them. The loop ends however large the count claims to be |
| CoinbaseDecoder.Notification.ReadOutputs | components/stratum/coinbase_decoder.c:474-531 | the whole loop: it goes through exactly when the outputs are there and the total stays below 2^64, and table, total and user value are then those of the outputs in order; a truncation it did not notice leaves it at the end of the data |
| CoinbaseDecoder.Notification.ReadOutput | components/stratum/coinbase_decoder.c:474-531 | one round of the loop, in which a truncated script length passes unnoticed but leaves nothing to read |
| CoinbaseDecoder.Notification.StoreDecoded | components/stratum/coinbase_decoder.c:503-528 | an output is the user's exactly when its value is positive and its script is one of the user's; only then the user value grows, by the output's value |
| CoinbaseDecoder.Notification.StoreOutput | components/stratum/coinbase_decoder.c:167-201 | the in-place table changes as the table function says, with the address cut to its field: appended, dropped, aggregated, or exchanged for the first smallest evictable output |
| CoinbaseDecoder.Notification.PartitionOutputs | components/stratum/coinbase_decoder.c:549-560 | the insertion loop puts the user's outputs first and keeps both groups in order |
| CoinbaseDecoder.SuffixAccounted | components/stratum/coinbase_decoder.c:444-563 | what a decoded suffix leaves in a fresh table accounts for the sum of its raw outputs; partitioning loses nothing; no aggregated output of others is larger than a shown positive output of others; no user output is aggregated exactly when the user's outputs fit; the user value is the sum of the outputs that pay the user's scripts, and equals the sum of the user outputs shown plus the user outputs aggregated, and of those shown alone when they fit |
| CoinbaseDecoder.EventsShare | components/stratum/coinbase_decoder.c:503-528 | what is counted for the user is the sum of the raw outputs whose script is one of the user's |
| CoinbaseDecoder.ShownAreDecoded | components/stratum/coinbase_decoder.c:167-201 | every output shown is one of the decoded outputs: its amount, its address as far as the field holds it, and marked the user's exactly when it is worth something and its script is the user's |
| CoinbaseLedger.Conservation | components/stratum/coinbase_decoder.c:167-201 | after any outputs summing below 2^64, stored values plus the bucket are their sum, and the bucket is the sum of what was aggregated |
| CoinbaseLedger.Tiling | components/stratum/coinbase_decoder.c:167-201 | stored, aggregated and dropped outputs together are exactly the outputs seen, with their multiplicities |
| CoinbaseLedger.LargestKept | components/stratum/coinbase_decoder.c:167-201 | every aggregated non-user value is at most every stored positive non-user value |
| CoinbaseLedger.FixedKept | components/stratum/coinbase_decoder.c:167-201 | a stored output that is the user's or worth nothing keeps its place whatever follows |
| CoinbaseLedger.UserRefused | components/stratum/coinbase_decoder.c:190-194 | a user output is aggregated only when nothing in the table can be evicted |
| CoinbaseLedger.TableChanges | components/stratum/coinbase_decoder.c:171-200 | a full table changes exactly when something in it can be evicted and the newcomer is the user's or worth more than it |
| CoinbaseLedger.UsersKept | components/stratum/coinbase_decoder.c:167-201 | no user output ends in the bucket exactly when each paying user output arrives while fewer outputs than the table holds have taken a place for good: zero-value ones among the first, paying user outputs, and values of 2^64-1 |
| CoinbaseLedger.PinsDecide | components/stratum/coinbase_decoder.c:167-201 | with values below 2^64-1 that is the case exactly when the zero-value outputs among the first six and the paying user outputs of the whole list are at most six |
| CoinbaseLedger.UsersShown | components/stratum/coinbase_decoder.c:167-201 | then every paying user output is in the table |
| CoinbaseLedger.ShareConserved | components/stratum/coinbase_decoder.c:167-201 | the value of the user's outputs seen is that of the user's outputs in the table plus that of those aggregated |
| CoinbaseLedger.ShareShown | components/stratum/coinbase_decoder.c:167-201 | when the user's outputs fit, those shown are worth all of it |
| CoinbaseLedger.UserLost | components/stratum/coinbase_decoder.c:171-194 | after six zero-value outputs a paying user output goes to the bucket |
| CoinbaseLedger.UsersFirstShape | components/stratum/coinbase_decoder.c:549-560 | the partition is a permutation with every user output before every other one |
| NvsKeys.KeysDistinct | main/nvs_config.c:155-164 | two slots of the settings table never share a flash key, padded indices included |
| NvsKeys.IndexedName | main/nvs_config.c:155-164 | an indexed key is the name, an underscore and the index counted from one in decimal, with as many digits as it needs and no fewer than the last index counted from zero has, up to five |
| NvsModel.RunInv | main/nvs_config.c:348-718 | every state any interleaving of setters and the persisting task reaches keeps the cache consistent with flash and the updates on their way |
| NvsModel.CacheAgreesWithFlash | main/nvs_config.c:348-718 | in every reachable state, replaying the updates on their way onto flash and running the load loop gives back cache and flags exactly when no setting hides an empty string |
| NvsModel.AlwaysAgrees | main/nvs_config.c:348-718 | in runs whose setters are given no empty string the agreement holds in every state, inside a setter's section too |
| NvsModel.FlashIsPrefix | main/nvs_config.c:348-401 | flash is at every moment the replay of a prefix of the updates stored so far, and the rest is on its way in order |
| NvsModel.PowerLoss | main/nvs_config.c:348-718 | losing power at any moment restores the settings some earlier moment had settled to |
| NvsModel.SetterStores | main/nvs_config.c:593-718 | in every run, when a setter called with good arguments gives the mutex back, the cache has the new value and the setting is marked as set |
| NvsModel.SetterRefuses | main/nvs_config.c:593-598 | a setter called with bad arguments changes nothing |
| NvsModel.SetterPersists | main/nvs_config.c:600-631 | whatever a setter stores in the cache is, by the same step, the last update on its way to flash |
| NvsModel.FoundMeans | main/nvs_config.c:437-521 | the load loop finds a value exactly when what would be written for it is there and it is not the empty string; any positive number is read as true |
| NvsModel.EmptyStringLost | main/nvs_config.c:442-460 | a run in which an empty string set over a nonempty default does not survive a restart |
| NvsConfig.Cache.constructor | main/nvs_config.c:428-527 | the load loop over settings and indices establishes the initial state of the model |
| NvsConfig.Cache.Agreement | main/nvs_config.c:348-718 | whatever sections have been taken in whatever order, replaying what is on its way and loading gives back this cache exactly when every setting is restorable |
| NvsConfig.Cache.AfterPowerLoss | main/nvs_config.c:348-718 | flash is at every moment what some earlier moment of this cache had settled to |
| NvsConfig.Cache.SetterDone | main/nvs_config.c:593-718 | once the mutex is free again after a setter with good arguments, this cache holds the value and the flag |
| NvsConfig.Cache.BeginUpdate | main/nvs_config.c:593-598 | checking the arguments and taking the update mutex is the model's first step, and extends the recorded run by it |
| NvsConfig.Cache.CompareValue | main/nvs_config.c:600-606 | the first section under the cache mutex is the model's compare step: numbers are stored, strings only compared, and what a completed setter has achieved is `SetterDone` |
| NvsConfig.Cache.ReplaceString | main/nvs_config.c:623-627 | the second section of the string setters is the model's replace step |
| NvsConfig.Cache.SendUpdate | main/nvs_config.c:630-631 | queueing is the model's send step and keeps within the queue |
| NvsConfig.Cache.ReceiveUpdate | main/nvs_config.c:348-352 | the persisting task takes the oldest update |
| NvsConfig.Cache.PersistUpdate | main/nvs_config.c:353-391 | it writes the update under its key and type, or ignores one whose type does not match |
| LogBuffer.WriteMirrors | main/log_buffer.c:49-71 | after a write of at most two turns every position of the last turn is in its place in the ring |
| LogBuffer.Ring.Write | main/log_buffer.c:49-71 | the two-part copy, for every write that stays inside the buffer, even one longer than a turn, appends to the unbounded log and the ring goes on mirroring its last turn |
| LogBuffer.Ring.ReadAbsolute | main/log_buffer.c:259-324 | a read returns the reference slice of the log, whose start and end `ReadIsLine` describes, and moves the cursor to its end |
| LogBuffer.ReadIsLine | main/log_buffer.c:259-324 | that slice starts where asked if still retained; an overrun reader starts behind the first newline among the oldest 4096 bytes, and at the oldest byte only when there is none among them; it contains a newline only as its last byte, and ends early only at the end of the log or at the caller's limit |
| LogBuffer.ReaderAccount | main/log_buffer.c:259-324 | for any reader of a growing log, overrun or not: its texts are slices of the log in order, none twice; the position reached is the start plus what was returned plus what was skipped; something is skipped exactly when a call is overrun |
| LogBuffer.ReaderLosesNothing | main/log_buffer.c:259-324 | what a reader was given is the log between its first and last position exactly when it was never overrun, however the log grows between calls |
| LogBuffer.Ring.FlushRound | main/log_buffer.c:82-106 | one locked round counts exactly the bytes overwritten before they were read, going on from the larger of the old position and the oldest byte, then takes at most 512 bytes of the log in order |
| LogBuffer.Ring.Restart | main/log_buffer.c:218-224 | after a soft reset the restart message is logged and the flusher starts at its end |
| LogBuffer.Ring.FlushAccount | main/log_buffer.c:82-104 | in every valid state flusher position = start + bytes emitted + dropped counter |
| LogBuffer.FlushConservation | main/log_buffer.c:82-104 | chunks and counted gaps that tile the log add up to the distance covered, and without gaps they are the log itself |
| VersionRolling.RollAdds | components/stratum/mining.c:70-74 | the expression keeps every unmasked bit and adds the carry to the number the masked bits spell, modulo two to the number of mask bits, for every word width and mask |
| VersionRolling.IncrementBitmask | components/stratum/mining.c:70-74 | on 32-bit words: unmasked bits kept, masked number plus one |
| VersionRolling.RollingReturns | components/stratum/mining.c:70-74 | iterating it 2^popcount times gives back the start |
| VersionRolling.RollingVisitsOnce | components/stratum/mining.c:70-74 | before that it meets exactly the words with the same unmasked bits, each once |
| MerkleRoot.CalculateMerkleRootHash | components/stratum/mining.c:51-61 | hashing in place over the branches gives the root of the tree with the coinbase exchanged, for every tree with those branches |
| MerkleRoot.ClimbIsRoot | components/stratum/mining.c:51-61 | climbing from a new first leaf over the old branches is the root of the changed tree |
| MerkleRoot.ClimbIsBlockRoot | components/stratum/mining.c:51-61 | for any number of transactions, climbing from a new coinbase over the branches of the block gives the root Bitcoin computes level by level, pairing an odd last node with itself |
| JobStore.Retained | components/asic/asic_job_slot.c:25-76 | after any claims and invalidations a slot answers exactly when some claim of it has seen fewer than capacity later claims and no invalidation, and then with that claim's job |
| JobSlots.Store.ClaimSlot | components/asic/asic_job_slot.c:25-43 | a claim takes the next slot in turn, and does nothing on a store without slots |
| JobSlots.Store.LookupJob | components/asic/asic_job_slot.c:45-64 | a lookup returns the job of the live claim of the slot, if there is one |
| JobSlots.Store.Invalidate | components/asic/asic_job_slot.c:66-76 | after it no slot answers |
| JobSlots.Packet.Encode | components/asic/bm_job_packet.c:27-53 | the packet carries 0, 1 or up to 4 midstates as mask and setting say; midstate `i` is the hash for the version rolled `i` times, the rest stay zero |
| JobSlots.HeaderLayout | components/mining_job/asic_job.c:5-15 | where the 80-byte header keeps each field; the 64 bytes hashed and what the packet carries are the whole header |
| JobSlots.MidstateServesNonces | components/asic/bm_job_packet.c:48-50 | the midstate sent is that of the header with any nonce |
| JobSlots.EmittedIsMost | components/asic/bm_job_packet.c:41-46 | as many midstates as asked for and at most four, but no second one under a zero mask |
| JobSlots.VersionsDiffer | components/asic/bm_job_packet.c:40-47 | the versions of a packet's midstates all differ exactly when two to the number of mask bits is at least their number |
| JobSlots.BuildPacket | components/asic/bm_job_packet.c:66-76 | the chip is told the slot just claimed, or slot 0 by a store without slots |
| JobSlots.DecodeJobResult | components/asic/asic_common.c:307-340 | a result is decoded to the job its slot still answers for and to that job's version rolled as often as the midstate index says; a store without slots gives no result |
| JobSlots.NtohlReverses | components/asic/asic_common.c:329-334 | the byte swap of the nonce reverses its four bytes |
| JobSlots.WireRoundTrip | components/asic/private_include/bm_job_packet.h:47-60 | slot and sub-id packed into one byte come apart again when the byte has room for the slot |
| JobSlots.WireSlotFits | components/asic/private_include/bm_job_packet.h:47-55 | the byte for a slot names that slot exactly when the shifted slot fits the byte |
| JobSlots.DecodedVersionWasHashed | components/asic/asic_common.c:317-327 | while fewer than capacity jobs follow and nothing is invalidated, the version decoded for midstate `i` of a packet is the version midstate `i` was hashed with, for every mask and every emitted `i` |
| Sv2Frames.HeaderRoundTrip | components/stratum_v2/sv2_protocol.c:68-85 | an encoded header parses back, the length modulo 2^24 |
| Sv2Frames.HeaderCanonical | components/stratum_v2/sv2_protocol.c:68-85 | every six bytes are the encoding of what they parse to |
| Sv2Frames.HeaderLayout | components/stratum_v2/sv2_protocol.c:68-85 | the extension type is the first two bytes, lowest first, then the message type, then the low 24 bits of the length, lowest first |
| Sv2Frames.NonceInjective | components/stratum_v2/sv2_noise.c:145-151 | different 64-bit counters give different nonces |
| Sv2Frames.NonceLayout | components/stratum_v2/sv2_noise.c:145-151 | four zero bytes, then a number that reads back as the counter |
| Sv2Frames.WireOpens | components/stratum_v2/sv2_noise.c:575-619 | the first 22 bytes on the wire open to the header under the counter, the others to the payload under the next counter |
| Sv2Frames.FramesDelivered | components/stratum_v2/sv2_noise.c:575-677 | any frames with matching length fields, sent in order, are received unchanged one by one, both counters standing at the same value after each |
| Sv2Frames.DeliveredIffDeliverable | components/stratum_v2/sv2_noise.c:621-677 | a frame on its own comes out unchanged exactly when its length field is its payload length and, unless that is zero, the receiver has room |
| Sv2Frames.ReceivedIsAuthentic | components/stratum_v2/sv2_noise.c:621-677 | a receive returns a frame exactly when its header opens under the counter, claims the length the payload has, and the payload fits and opens under the next counter; counter and stream then stand behind it |
| Sv2Frames.FailedReceive | components/stratum_v2/sv2_noise.c:621-677 | a failed receive has used the counter once for each sealed part it took whole |
| Sv2Noise.BuildNonce | components/stratum_v2/sv2_noise.c:145-151 | four zero bytes and the counter, lowest byte first |
| Sv2Noise.RecvExact | components/stratum_v2/sv2_noise.c:53-65 | gathers exactly the asked bytes over any chunking; with no failing read it fails only when the stream is too short |
| Sv2Noise.Session.Send | components/stratum_v2/sv2_noise.c:575-619 | a success puts exactly the sealed frame on the wire and advances the counter once per sealing; a failure leaves a prefix of it on the wire and never takes a nonce back |
| Sv2Noise.Session.Recv | components/stratum_v2/sv2_noise.c:621-677 | what a receive returns, how far the counter moves and what is left of the stream are functions of the stream, whatever the chunking |
| Sv2Noise.Session.NoNonceReused | components/stratum_v2/sv2_noise.c:575-619 | no nonce was ever passed to two encryptions, failed sends included, exactly as long as there were at most 2^64 of them |
| StratumReceiver.Receiver.ReceiveLine | components/stratum/stratum_api.c:124-207 | a returned line is the one the stream has next, however its bytes arrived; without failed reads and NUL bytes no line is returned only when the stream has none there, and the bytes given up are a function of the stream; even when reads fail, what is given up of a NUL-free stream holds no whole line |
| StratumReceiver.Receiver.ReceiveMore | components/stratum/stratum_api.c:136-192 | each read asks for at least one byte and the buffer never holds more than one byte over the line limit |
| StratumReceiver.Receiver.EnsureCapacity | components/stratum/stratum_api.c:98-122 | grows to what is needed up to the limit, keeping the contents |
| StratumReceiver.Receiver.Extract | components/stratum/stratum_api.c:195-206 | the line is copied out and the rest moves to the front |
| StratumLines.SplitReceived | components/stratum/stratum_api.c:124-207 | the outcomes of successive calls are the newline split of the stream, up to the first line over the limit or the end |
| StratumLines.SplitJoins | components/stratum/stratum_api.c:124-207 | every stream is its split lines, each with a newline, and a last piece without one |
| StratumLines.LinesReceived | components/stratum/stratum_api.c:124-207 | lines that fit come out one by one whatever follows them |
| StratumLines.LongLine | components/stratum/stratum_api.c:184-192 | a line over the limit costs exactly its first 16385 bytes |
| JsonDiff.DiffObjects | components/yyjson/yyjson_utils.c:51-77 | the loop over the members, in any order, builds the delta the recursive definition gives |
| JsonDiff.DiffReproduces | components/yyjson/yyjson_utils.c:51-77 | overlaying the delta equals overlaying the new value exactly when the new value is an object, missing or unchanged |
| JsonDiff.DiffEmpty | components/yyjson/yyjson_utils.c:51-77 | between two objects the delta is null exactly when overlaying the new one changes nothing |
| JsonDiff.DeltaKeys | components/yyjson/yyjson_utils.c:61-75 | a key is in the delta exactly when overlaying would change that member |
| JsonDiff.DeltaMinimal | components/yyjson/yyjson_utils.c:61-75 | at every depth, where an object of the delta is laid over an object, each member it has there changes something: nested objects are sent as deltas of their own |
| JsonDiff.DiffSettles | components/yyjson/yyjson_utils.c:51-77 | once a delta has been applied the next one is null |
| JsonDiff.RemovalLost | components/yyjson/yyjson_utils.c:51-77 | a removed member leaves a null delta and the old value stands |
| JsonDiff.DiffTransmits | components/yyjson/yyjson_utils.c:51-77 | the overlaid result is the new value exactly when no object lost a member |
| Crc.Crc5 | components/asic/crc.c:6-24 | the byte and bit loops compute the 5-bit shift register over the bits, highest first |
| Crc.StepNumber | components/asic/crc.c:17-19 | the masked shift-and-xor expression is one step of that register |
| Crc.OneCheckValue | components/asic/crc.c:6-24 | whatever bytes and flag bits precede it, exactly one check value leaves a zero residue |
| Crc5.FeedLinear | components/asic/crc.c:6-24 | two runs of the register differ by the run of their difference |
| Crc.ReceiveWork | components/asic/asic_common.c:160-200 | accepted exactly when the length is right, the preamble matches and the residue is zero |
| Crc.CheckedPart | components/asic/asic_common.c:184-197 | everything behind the preamble is checked exactly when the frame has at most 257 bytes |
| Crc.BurstRejected | components/asic/asic_common.c:184-197 | an accepted frame of any length is refused after any error burst within five bits of its checked bytes |
| Crc.TwoFlipsPass | components/asic/crc.c:6-24 | two flipped bits pass exactly when a multiple of 31 places lies between them |
| Crc.TwoFlipsUnseen | components/asic/crc.c:6-24 | two four-byte frames that differ in their first and last bit, both with residue zero |
| Crc16.Crc16 | components/asic/crc.c:27-44 | the loop unrolled by four computes the plain byte-by-byte fold, for any table |
| Crc16.FoldConcat | components/asic/crc.c:27-55 | checking data in pieces, each from the value of the one before, gives the check value of the whole |
| Crc16.StepIsShifts | components/asic/crc.c:27-55 | with a table of eight bit shifts by the polynomial x^16+x^12+x^5+1, a byte step is eight steps of the bit-by-bit register |
| Crc16.Crc16False | components/asic/crc.c:46-55 | the same fold from 0xFFFF |

## Left out

- Hardware drivers, displays, power, networking set-up, HTTP, websockets, OTA and the web interface.
- Cryptographic primitives and the Noise handshake: hashes and the cipher are function parameters with the laws used.
- Base58.BufferSize: is unbounded, while `(binsz - zcount) * 138` wraps in a `size_t`, from about 31 million bytes on a 32-bit target.
- Bech32.Bech32Encode: builds its output as a sequence, as do the other methods of Bech32 and SegwitAddr; writing through pointers, and overlap of input and output buffers, are not modelled.
- `b58check` and `b58check_enc`: the checksum is a hash comparison around the codec that is modelled.
- Address decoding inside the coinbase decoder: the address of a script is an uninterpreted function of it.
- The coinbase prefix (height, script signature, extranonces), network detection and the payout status.
- CoinbaseDecoder.Notification.ParseSuffix: does not say which outputs a failed parse had stored; the offset is a natural number, so a negative `int` offset is not modelled.
- Legacy settings migration, the fallback copies of two keys, and float settings, whose text form rounds.
- NvsModel.RunInv: assumes that flash writes, commits and allocations succeed and that flash holds one entry per key.
- NvsKeys.KeysDistinct: the settings table is any table whose keys fit and whose names do not clash; the firmware's own entries are not listed.
- Cache synchronisation, the header checksum and the log before the mutex exists; mutexes are atomic sections and never time out. Log positions do not wrap at 2^64.
- LogBuffer.Ring.Write: takes every write whose two copies stay inside the buffer, whatever its length; the code formats and writes any length, and a longer one would run past the buffer.
- Null pointers handed to the job store, the packet builders and the decoders; a store whose entries are missing is a store of capacity 0.
- JobSlots.DecodedVersionWasHashed: for slots below 64, all that a byte can name next to two midstate bits; JobSlots.WireSlotFits says that no other slot can be named. The firmware has 32.
- The BM13xx packet and result decoder, whose chips roll the version themselves.
- Sv2Noise.Session.Send: allocation failure before any sealing is not modelled; the other failures are parameters.
- SV2 message builders and parsers, channel matching and the `STR0_255` helpers.
- StratumReceiver.Receiver.ReceiveLine: when a read fails or a NUL byte arrives the number of bytes given up is not stated, because it depends on the chunking; a failing allocation is not modelled.
- JSON text: values are trees with unique keys, the order of members is not represented, and numbers are compared as they are written.
- Crc.ReceiveWork: the bytes the UART delivered are a parameter; the frame has at least its two preamble bytes.
- Crc16.StepIsShifts: takes any table that has the property; that the 256 constants of the firmware's table have it is not proved.
- Merkle hashing failures, which the modelled function ignores.
- Frequency search, ramps, timeouts, difficulty control and statistics, where floating point decides.
