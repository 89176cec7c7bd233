# RumBoot library cores: model and proofs

This project models the algorithmic and protocol code of the RumBoot boot ROM library and proves what that code is for.
It is written in Dafny; `dafny verify dfyconfig.toml` checks all of it. Code that works in place is modelled in place:
arrays with offsets for the cipher state and the buffers, a class for each record whose fields the library updates, loops
where the library has loops. Each such method is proved equal to a specification, and the laws are proved about the
specification for all inputs.

| modules | source | subject |
|---|---|---|
| `Gf256`, `SBox`, `AesSpec`, `AesKeys`, `AesVectors`, `Counter`, `AesModes`, `Aes`, `AesContext` | src/lib/algo/aes.c | AES-128 with CBC and CTR (FIPS 197; SP 800-38A) |
| `Crc16` | src/lib/xmodem.c | the bitwise CRC-16 as a polynomial division, and what it detects |
| `XmodemPort`, `XmodemReceiver`, `XmodemReception`, `XmodemAcceptance` | src/lib/xmodem.c | the receiver on every input, and what it takes and refuses |
| `XmodemSender`, `XmodemPadding`, `XmodemReplies`, `XmodemLink`, `XmodemOutcome`, `XmodemLiveness` | src/lib/xmodem.c | the sender, both ends over a line that loses and damages, and how much of that a transfer survives |
| `ListHead` | include/algo/list.h | the intrusive ring |
| `BootAttempt`, `BootOrder`, `BootSource` | src/lib/bootsource.c | the boot-source chain: alignment, every way an attempt may go, order of the hooks, where it goes on |
| `BootImage` | src/lib/bootimage.c | moving an uncompressed image before it is started |
| `IniText`, `IniParser`, `IniPrint`, `IniReprint` | src/lib/ini.c | the INI parser, its line buffer, and round trips with a printer |
| `Gcda` | src/lib/gcov-gcc-4.7.c | profile data files and a reader for them |
| `Heap` | src/lib/malloc.c | the bump allocator over several heaps |
| `PrintfNumber` | src/lib/printf.c | the integer formatter and what it prints |

`Arithmetic`, `Sequences` and `Wrappers` hold what several of them share.

## How to read the models

**AES.** States are 16-byte blocks stored column by column at an offset of a byte array. `AesSpec` holds the transforms
of FIPS 197 on blocks, with products in GF(2^8) defined as remainders modulo 0x11b; the methods of `Aes` are the C
functions on the array and are proved equal to them. The C code's shortcuts (`xtime`, the Tmp/Tm form, the `Multiply`
macro, which is right only for factors below 0x20) are proved to be these products. The laws of a cipher do not tell
AES from another cipher; that each round key is added in its round is `AddedToZero` and `EveryRoundKeyCounts`, and
`AppendixB` follows the example of FIPS 197 from the key to the ciphertext.

**XMODEM.** Input is a sequence of events, each a byte or a timeout; an exhausted input is silence. `RxStep`/`RxRun`
and `TxReact`/`TxRun` are the two programs as functions of their input; the methods with loops and buffers are proved
equal to them. `XmodemAcceptance` and `XmodemReplies` state what the two do on the events alone, with the numbers of the
protocol written out. `char retry` holds 128, so `char` is taken as unsigned, as on the ARM and PowerPC targets. The link
joins both programs round by round: a pending reply may be lost or damaged before the sender reads it, and what the
sender puts out may be lost or arrive damaged in a way the receiver rejects; it is never delayed into a later round. A
reply of several bytes (only the three CANs of a receiver that gives up) is read whole, lost, or damaged at its first
byte. A sender that awaits the answer to its EOT reads one byte for each try, so no round has it read the CANs one by one;
a CAN would be to it what a lost or damaged answer is, one more try.

The sender's CRC line computes `xmodem_chksum(0, ...)` (src/lib/xmodem.c:255), which is a comparison result of the 8-bit
sum and not the CRC that the receiver checks and that the protocol asks for. The sender is therefore modelled twice:
`AsCoded` does what the line does, `Intended` sends the CRC. Every safety theorem holds for both; `SucceedsIffAllRight`
says exactly when a transfer can succeed, `IntendedSucceeds` that the intended sender always can, `AsCodedSucceedsIff` for
which sources the line's values happen to be right, and `AsCodedFails` gives a file the sender as coded can never deliver.
The byte of the packet buffer that is uninitialised when the first packet is built is the parameter `stack`.

`XmodemLiveness` asks how much a transfer survives. A line spares a transfer with limit n if it fails the exchange of no
block, the packet and its answer, more than n times, lets the first request and the EOT through within the tries the code
has for them, loses no answer to the EOT, and makes no noise before the first packet. With n up to 64 a transfer over such
a line has ended after a bounded number of rounds, and well exactly when all check fields are right; with right fields
there is a next round after each. For sources of more than one block 64 is exact: although the sender tries each block 128
times, 65 failures of one block and 64 of the next use up the 128 tries of the receiver, which counts those after the one
block was taken and those before the next together.

**Lists.** A ring is a sequence of distinct nodes that `next` leads round one way and `prev` the other. Every operation is
proved to perform the matching edit of the sequence and, by its `modifies` clause, to touch no other node. `list_move` and
`list_move_tail` have two contracts, for an entry of the same list and for one of another list.

**Boot sources.** Hooks, image checks and executed images answer arbitrarily. The trace records every call that leaves the
code with its answer. `BootAttempt` lists the ways an attempt may go, with their calls, result and offset; the methods of
`BootRom` are proved to make exactly such attempts, and `BootOrder` states the meant order of the calls independently and
proves that every attempt keeps it. A run is followed until control stays in an image, or until images have sent it to
another device as often as the observer follows. `ChainEnds` bounds a chain once no image asks for a device, and `Loops`
shows that an image that asks for its own device makes chains of every length. The order of the visits and where it ends are stated of
the visits' results alone (`ChainGoesAsAsked`, `ChainOver`). `find_source_by_id` looks behind the first
entry without looking whether that one has a name, so an empty table is asked for number 0 only. The memory behind `hdr`
is taken to hold what the reads may fill, no more; `StaysInsideIff` says when that is within `maxsize`.

**Moving images.** Memory is one array of bytes, addresses have 32 bits, header fields have the low byte first.
`BootimageExecute` states refusals, places and start from the bytes of the header at their offsets.
`EveryPayloadArrivesIff` gives the exact condition: relocation without decapsulation into the loaded image itself (its
own load address included) moves the header over data that has not been moved yet, or leaves the data location on the header.

**INI.** Settings as configured in include/algo/ini.h: lines of at most 199 characters, inline comments with `;` after
white space, no continuation lines, no byte-order mark, parsing goes on after errors. The handler may decide by
everything it was told so far.

**Profiles.** Counter values are taken as their 64 bits. The size is assumed to fit the 32-bit `size_t`.

**Heap.** Addresses wrap at 2^32. A call can move the position backwards (negative `misalign`) or past the end of the
address space without a panic; `BlockIsNewIff` gives the exact condition under which the block is new, and histories are
those of calls that meet it. `BlockIsAligned` gives the exact condition under which a block starts `misalign` behind a
multiple of the alignment, for all calls. A save overwrites the one before, so a restore goes back to the last save;
`OuterRestoreIff` says when that is also where the outer save was. A heap registered at address 0 leaves its slot looking
free, which `MallocRegisterHeap` states.

**Formatter.** `long` has 32 or 64 bits; the least number negates to itself, as two's complement does.

## Model

| member | source | states |
|---|---|---|
| Gf256.ProductIff | src/lib/algo/aes.c:294-334 | a byte is the product in GF(2^8) exactly when it leaves a multiple of 0x11b to the carry-less product |
| Gf256.XtimeIsTimesTwo | src/lib/algo/aes.c:294-297 | xtime is multiplication by x in the field (FIPS 197 section 4.2.1) |
| Gf256.XtimeLinear | src/lib/algo/aes.c:294-297 | xtime is additive |
| Gf256.MultiplyIsProductIff | src/lib/algo/aes.c:320-334 | the Multiply macro computes the product for every byte exactly for factors below 0x20 |
| SBox.InvSubUndoesSub | src/lib/algo/aes.c:79-115 | the inverse table undoes the forward table on all bytes |
| SBox.SubUndoesInvSub | src/lib/algo/aes.c:79-115 | and the other way round |
| SBox.SBoxIsAffineInverse | src/lib/algo/aes.c:79-97 | every entry of the table is the affine map of a field inverse (FIPS 197 section 5.1.1) |
| AesSpec.SubBytesInverse | src/lib/algo/aes.c:251-262 | SubBytes and InvSubBytes are mutually inverse on all states |
| AesSpec.ShiftRowsInverse | src/lib/algo/aes.c:266-292 | ShiftRows and InvShiftRows are mutually inverse on all states |
| AesSpec.MixColumnsInverse | src/lib/algo/aes.c:300-366 | MixColumns and InvMixColumns are mutually inverse on all states |
| AesSpec.AddRoundKeyInverse | src/lib/algo/aes.c:237-247 | adding a round key twice changes nothing |
| AesSpec.DecryptMeetsEncrypt | src/lib/algo/aes.c:413-461 | after n inverse rounds the state is that of the forward rounds less n, for every schedule |
| AesSpec.InvCipherUndoesCipher | src/lib/algo/aes.c:413-461 | for every state and every schedule InvCipher undoes Cipher (FIPS 197 section 5.3) |
| AesSpec.CipherUndoesInvCipher | src/lib/algo/aes.c:413-461 | for every state and every schedule Cipher undoes InvCipher |
| AesSpec.CipherInjective | src/lib/algo/aes.c:413-435 | two states encrypt alike exactly when they are the same |
| AesSpec.AddedToZero | src/lib/algo/aes.c:237-247 | in round r the zero block becomes bytes 16r to 16r + 15 of the schedule, for every schedule and round |
| AesSpec.EveryRoundKeyCounts | src/lib/algo/aes.c:413-435 | two schedules that differ in at most one round key encrypt a block alike exactly when that round key is the same too, for every block and round |
| AesVectors.AppendixB | src/lib/algo/aes.c:146-435 | the key of FIPS 197 appendix A.1 expands to the last round key given there and encrypts the block of appendix B to the ciphertext given there |
| AesKeys.RconIsPowerOfX | src/lib/algo/aes.c:120-121 | the round constants are the powers of x |
| AesKeys.AgreementSpreads | src/lib/algo/aes.c:146-217 | two schedules that meet the recurrence and agree on four consecutive words are the same |
| AesKeys.RoundKeyDeterminesSchedule | src/lib/algo/aes.c:146-217 | any one of the eleven round keys determines key and schedule |
| AesKeys.RecurrenceExtends | src/lib/algo/aes.c:160-216 | a word that is the word four back plus the transformed previous word keeps the recurrence of FIPS 197 section 5.2 |
| Counter.IncValue | src/lib/algo/aes.c:549-560 | the carry loop adds one to the big-endian number, all ones wrapping to zero |
| Counter.IncIsNext | src/lib/algo/aes.c:549-560 | and so gives the next counter block |
| Counter.CounterBlockAdds | src/lib/algo/aes.c:538-569 | m steps and then n steps are m + n steps modulo 2^128 |
| Counter.CounterBlocksDiffer | src/lib/algo/aes.c:538-569 | two counter blocks are the same exactly when their distance is a multiple of 2^128 |
| AesModes.CbcRoundTrip | src/lib/algo/aes.c:501-529 | decrypting what was encrypted from the same IV restores the buffer, for every number of blocks |
| AesModes.CbcSplit | src/lib/algo/aes.c:501-514 | encrypting a concatenation is encrypting its parts, the second from the last block of the first |
| AesModes.CbcUnique | src/lib/algo/aes.c:501-514 | from one IV two texts encrypt alike exactly when they are the same |
| AesModes.XorLaws | src/lib/algo/aes.c:492-499 | the sum of two blocks is commutative and associative, zero changes nothing, and different summands give different sums |
| AesModes.CbcChain | src/lib/algo/aes.c:501-514 | a ciphertext is that of the buffer exactly when each block is the cipher of the text block plus the IV or the ciphertext block before |
| AesModes.VectorCounts | src/lib/algo/aes.c:501-514 | a text that is not empty encrypts alike from two IVs exactly when they are the same |
| AesModes.VectorAgainstText | src/lib/algo/aes.c:501-514 | a block added to both the IV and the first text block leaves the ciphertext as it was |
| AesModes.CtrRoundTrip | src/lib/algo/aes.c:538-569 | running again from the same IV restores the buffer |
| AesModes.CtrSplit | src/lib/algo/aes.c:538-569 | two calls split at a block boundary give the bytes and the final IV of one |
| AesModes.CtrBlocksDistinct | src/lib/algo/aes.c:538-569 | no key block comes twice within 2^128 blocks |
| AesModes.KeyStream | src/lib/algo/aes.c:538-569 | a buffer of zeros becomes the ciphers of the successive counter blocks, cut at its length |
| AesModes.SameKeyStream | src/lib/algo/aes.c:538-569 | two buffers run from one IV differ where and as they did before |
| Aes.AddRoundKey | src/lib/algo/aes.c:237-247 | in place, byte i is added byte 16 * round + i of the schedule, and nothing but the block changes |
| Aes.SubBytes | src/lib/algo/aes.c:251-261 | in place, the specified substitution |
| Aes.ShiftRows | src/lib/algo/aes.c:266-292 | the three rotations with a temporary are the specified permutation |
| Aes.MixedByte | src/lib/algo/aes.c:300-313 | the Tmp/Tm form computes 2a + 3b + c + d over GF(2^8) |
| Aes.MixColumns | src/lib/algo/aes.c:300-313 | in place, the product of FIPS 197 section 5.1.3 for every column |
| Aes.InvSubBytes | src/lib/algo/aes.c:371-381 | in place, the inverse substitution |
| Aes.InvShiftRows | src/lib/algo/aes.c:383-408 | the inverse rotations are the inverse permutation |
| Aes.InvMixColumns | src/lib/algo/aes.c:350-366 | the Multiply form is the inverse product for every column |
| Aes.Cipher | src/lib/algo/aes.c:413-435 | the ten rounds in place are the specified cipher |
| Aes.InvCipher | src/lib/algo/aes.c:439-461 | the ten inverse rounds in place are the specified inverse |
| Aes.ExpandWord | src/lib/algo/aes.c:160-216 | one turn of the loop extends the recurrence by a word |
| Aes.KeyExpansion | src/lib/algo/aes.c:146-217 | the result starts with the key and meets the recurrence at every index |
| AesContext.AesCtx.InitCtx | src/lib/algo/aes.c:219-222 | the context holds the expansion of the key |
| AesContext.AesCtx.InitCtxIv | src/lib/algo/aes.c:224-228 | and the IV |
| AesContext.AesCtx.SetIv | src/lib/algo/aes.c:229-232 | the IV is replaced and nothing else |
| AesContext.AesCtx.EcbEncrypt | src/lib/algo/aes.c:470-474 | one block is encrypted in place |
| AesContext.AesCtx.EcbDecrypt | src/lib/algo/aes.c:476-480 | one block is decrypted in place |
| AesContext.AesCtx.XorWithIv | src/lib/algo/aes.c:492-499 | each byte of the other block is added in place, and nothing around the block changes |
| AesContext.AesCtx.CbcEncryptBuffer | src/lib/algo/aes.c:501-514 | the buffer becomes the CBC encryption, the stored IV its last block, and nothing around the buffer changes |
| AesContext.AesCtx.CbcDecryptBuffer | src/lib/algo/aes.c:516-529 | the buffer becomes the CBC decryption, the stored IV the last ciphertext block |
| AesContext.AesCtx.IncrementIv | src/lib/algo/aes.c:549-560 | the stored IV becomes the next counter block |
| AesContext.AesCtx.CtrXcryptBuffer | src/lib/algo/aes.c:538-569 | the buffer is added to the key stream of SP 800-38A section 6.5, and the IV advances by the length over 16, rounded up |
| Crc16.CrcXmodemUpdate | src/lib/xmodem.c:16-30 | the loop is eight register steps on the data in the high byte |
| Crc16.ShiftIsShiftRegister | src/lib/xmodem.c:23-26 | a step is that of the shift register with the taps of x^16 + x^12 + x^5 + 1 |
| Crc16.CrcIsRemainder | src/lib/xmodem.c:16-30 | a value is the CRC exactly when it is the remainder of the message times x^16 by that polynomial, for messages of every length |
| Crc16.BurstDetected | src/lib/xmodem.c:16-30 | messages that differ only within sixteen bits, anywhere in a message of any length, have the same register exactly when they are the same |
| Crc16.AdjacentBytesDetected | src/lib/xmodem.c:16-30 | the same for two adjacent bytes |
| Crc16.ResidueIsZero | src/lib/xmodem.c:16-43 | a message followed by two check bytes leaves zero exactly when they are its CRC |
| Crc16.XmodemChksum | src/lib/xmodem.c:32-56 | 1 exactly when the check bytes match, in either mode |
| Crc16.SumIsModulo | src/lib/xmodem.c:45-53 | the sum in checksum mode is that of the bytes modulo 256 |
| XmodemPort.Port.FlushInput | src/lib/xmodem.c:58-61 | input is dropped up to and including the next timeout |
| XmodemReceiver.Fill | src/lib/xmodem.c:123-138 | the packet bytes in order, or a gap with the input flushed |
| XmodemReceiver.ReadTurn | src/lib/xmodem.c:86-138 | what a turn reads, by the kinds of header bytes |
| XmodemReceiver.JudgeTurn | src/lib/xmodem.c:140-174 | what becomes of a whole packet: delivered, acknowledged again, out of step, or asked for again |
| XmodemReceiver.Turn | src/lib/xmodem.c:82-174 | a turn of the loop is the specified step |
| XmodemReceiver.RxStep | src/lib/xmodem.c:82-174 | a turn that goes on consumed input or a retry, so the pair of both decreases |
| XmodemReceiver.RxRun | src/lib/xmodem.c:70-182 | on every finite input the receiver ends |
| XmodemReceiver.XmodemGetAsync | src/lib/xmodem.c:70-182 | the loop with its buffer gives the result, calls, output and remaining input of that run |
| XmodemReception.SeqOfIsModulo | src/lib/xmodem.c:73-149 | the number expected for block k is k + 1 modulo 256 |
| XmodemReception.Reception | src/lib/xmodem.c:82-181 | for every input: calls are contiguous from 0, block k has its number, complement and 16-bit CRC, comes from its own stretch of the input, and EOT returns the total |
| XmodemReception.MemcpyCb | src/lib/xmodem.c:63-67 | a call copies its data to its place |
| XmodemReception.CopyCalls | src/lib/xmodem.c:63-67 | contiguous calls fill the destination with what was delivered and leave the rest |
| XmodemReception.XmodemGet | src/lib/xmodem.c:184-187 | for every input whose blocks fit, memory becomes what the run delivered followed by the old bytes, and the value at EOT is the length of what was delivered |
| XmodemAcceptance.PacketTaken | src/lib/xmodem.c:82-153 | in every waiting state a packet headed SOH with 128 bytes or STX with 1024, with the number that is due, its complement and the CRC of its data, is delivered as it is and answered with ACK |
| XmodemAcceptance.PacketRepeated | src/lib/xmodem.c:154-158 | the packet before is acknowledged and not delivered, at no cost |
| XmodemAcceptance.PacketOutOfStep | src/lib/xmodem.c:159-166 | any other sound packet ends the reception with three CANs |
| XmodemAcceptance.PacketRefused | src/lib/xmodem.c:140-174 | a packet whose complement or CRC is wrong costs a retry, flushes the input and is answered with NAK |
| XmodemAcceptance.PacketCut | src/lib/xmodem.c:123-138 | so does a packet with a gap |
| XmodemAcceptance.FlushedIs | src/lib/xmodem.c:58-61 | flushing drops what comes up to the first silence |
| XmodemAcceptance.EndTaken | src/lib/xmodem.c:98-101 | EOT is acknowledged and ends with the number of bytes delivered |
| XmodemAcceptance.CancelTaken | src/lib/xmodem.c:102-108 | two CANs are acknowledged and end it |
| XmodemAcceptance.SilenceCosts | src/lib/xmodem.c:113-119 | a silence costs a retry, and only the first request is repeated in it |
| XmodemAcceptance.NobodyThere | src/lib/xmodem.c:70-182 | with no sender C is sent 128 times, then three CANs |
| XmodemAcceptance.StreamReceived | src/lib/xmodem.c:70-182 | a stream of any number of sound packets of either size, numbered from 1 modulo 256, and EOT is delivered in full, each packet answered with one ACK |
| XmodemSender.BuildPacket | src/lib/xmodem.c:239-265 | the packet buffer holds header, block and the check field as coded |
| XmodemSender.FillBlock | src/lib/xmodem.c:242-253 | the block is the data from the position, closed by 0x1A and filled with zeros |
| XmodemSender.TransmitCb | src/lib/xmodem.c:189-193 | the callback copies the stretch asked for |
| XmodemSender.Synchronise | src/lib/xmodem.c:210-235 | waiting for the receiver's first request, sixteen times |
| XmodemSender.OfferPacket | src/lib/xmodem.c:266-293 | a packet is repeated until it is acknowledged, cancelled or given up |
| XmodemSender.EndTransfer | src/lib/xmodem.c:296-301 | EOT up to ten times, and the length only if it was acknowledged |
| XmodemSender.Progresses | src/lib/xmodem.c:209-304 | every reaction moves the sender on in a well-founded order |
| XmodemSender.XmodemTxAsync | src/lib/xmodem.c:200-305 | the nested loops give the result, output and remaining input of the specified run |
| XmodemPadding.BlockOfPadded | src/lib/xmodem.c:242-253 | block j is the j-th 128 bytes of source, 0x1A and zeros |
| XmodemPadding.PaddedInjective | src/lib/xmodem.c:242-253 | the padded file determines the source |
| XmodemReplies.NoRequest | src/lib/xmodem.c:210-235 | sixteen replies none of which is C, NAK or CAN: three CANs and -2 |
| XmodemReplies.NoAcknowledgement | src/lib/xmodem.c:266-293 | 128 replies to a packet none of which is ACK or CAN: the packet 128 times, three CANs and -4 |
| XmodemReplies.NoEndAcknowledged | src/lib/xmodem.c:296-301 | ten replies to EOT none of which is ACK: EOT ten times and -5 |
| XmodemReplies.Cancelled | src/lib/xmodem.c:219-224 | two CANs within the tries end the transfer with ACK and -1 |
| XmodemReplies.SingleCan | src/lib/xmodem.c:219-225 | one CAN costs a try together with the reply behind it |
| XmodemReplies.PlainTransfer | src/lib/xmodem.c:200-305 | with every reply right, exactly the numbered packets of the padded source with their check fields and EOT are sent, and the code is their length |
| XmodemLink.FrameIntact | src/lib/xmodem.c:140-141 | the receiver finds a packet intact exactly when its check field is right |
| XmodemLink.RoundInv | src/lib/xmodem.c:70-305 | every round of loss, damage or delivery in either direction keeps the invariant of the link |
| XmodemLink.DeliveryIsPrefix | src/lib/xmodem.c:70-305 | over every run: never out of step, what was delivered is a prefix of the padded source, and all of it at EOT |
| XmodemLink.SuccessMeansDelivered | src/lib/xmodem.c:200-305 | a sender that reports success reports 128 (n / 128 + 1) and the receiver has the padded source, from which the source follows uniquely |
| XmodemOutcome.SenderRuns | src/lib/xmodem.c:200-305 | the sender's part of a run of the link is the run of its program on the replies it read |
| XmodemOutcome.ReceiverRuns | src/lib/xmodem.c:70-182 | the receiver's part is the run of its program on what arrived |
| XmodemOutcome.ProgramsAgree | src/lib/xmodem.c:70-305 | when the link ends in success, the two programs run on their own inputs return the same total |
| XmodemOutcome.SucceedsIffAllRight | src/lib/xmodem.c:200-305 | some run succeeds exactly when the check field of every block is right |
| XmodemOutcome.IntendedSucceeds | src/lib/xmodem.c:200-305 | with the CRC in the field every source can be sent |
| XmodemOutcome.AsCodedRightIff | src/lib/xmodem.c:254-258 | what the code puts in the field is right exactly when the CRC is 1 and the sum equals the byte behind the block, or the CRC is 0 and it does not |
| XmodemOutcome.AsCodedSucceedsIff | src/lib/xmodem.c:200-305 | the sender as coded can send a source exactly when each of its padded blocks has the CRC 1 and the sum that the buffer held behind it, or the CRC 0 and another sum |
| XmodemOutcome.AsCodedFails | src/lib/xmodem.c:254-258 | a source of 128 bytes that the sender as coded can never deliver |
| XmodemLiveness.RunsEnd | src/lib/xmodem.c:200-305 | whatever the line does, the sender has ended after 26 + 128 (n / 128 + 1) rounds |
| XmodemLiveness.SparedSucceedsIff | src/lib/xmodem.c:70-305 | over a line that fails no block more than 64 times every transfer ends well exactly when all check fields are right, with the padded source delivered |
| XmodemLiveness.GoesOn | src/lib/xmodem.c:70-305 | with right check fields there is a next round after every run over such a line |
| XmodemLiveness.OneMoreIsTooMany | src/lib/xmodem.c:82-181 | a run with 65 failures of the first block in which the receiver gives up and the sender returns -1, for every source of more than one block |
| XmodemLiveness.SixtyFourIsExact | src/lib/xmodem.c:70-305 | for sources of more than one block with right check fields, no transfer over a sparing line fails exactly when its limit is at most 64 |
| ListHead.RingUnique | include/algo/list.h:38-52 | the links determine the sequence |
| ListHead.InitListHead | include/algo/list.h:47-51 | an empty list |
| ListHead.ListAddBetween | include/algo/list.h:59-67 | the node is inserted at its place, the ring stays well formed, and only the three nodes change |
| ListHead.ListAdd | include/algo/list.h:77-80 | the node becomes the first element |
| ListHead.ListAddTail | include/algo/list.h:90-93 | the node becomes the last element |
| ListHead.ListDelBetween | include/algo/list.h:102-106 | the element between two neighbours is taken out |
| ListHead.ListDel | include/algo/list.h:114-119 | and gets null links |
| ListHead.ListDelInit | include/algo/list.h:148-152 | and becomes an empty list |
| ListHead.ListReplace | include/algo/list.h:128-135 | the new node stands in the place of the old one |
| ListHead.ListReplaceInit | include/algo/list.h:137-142 | and the old one becomes an empty list |
| ListHead.ListMoveWithin | include/algo/list.h:159-163 | an element of the list becomes its first |
| ListHead.ListMoveAcross | include/algo/list.h:159-163 | an element of another ring becomes the first, and that ring loses it |
| ListHead.ListMoveTailWithin | include/algo/list.h:170-175 | an element of the list becomes its last |
| ListHead.ListMoveTailAcross | include/algo/list.h:170-175 | an element of another ring becomes the last |
| ListHead.ListTests | include/algo/list.h:182-223 | list_is_last, list_empty and list_is_singular say just that |
| ListHead.CutBetween | include/algo/list.h:225-234 | the elements up to the entry become the new list, the others stay |
| ListHead.ListCutPosition | include/algo/list.h:251-263 | the same with its cases for an empty list and for the head |
| ListHead.SpliceBetween | include/algo/list.h:265-277 | the elements of a list are inserted between two neighbours in their order |
| ListHead.ListSplice | include/algo/list.h:284-289 | at the front |
| ListHead.ListSpliceTail | include/algo/list.h:296-301 | at the end |
| ListHead.ListSpliceInit | include/algo/list.h:310-318 | at the front, leaving an empty list |
| ListHead.ListSpliceTailInit | include/algo/list.h:327-335 | at the end, leaving an empty list |
| ListHead.CutAndSpliceBack | include/algo/list.h:225-318 | cutting at an entry and splicing back restores the list |
| BootAttempt.RoundUpIsLeast | src/lib/bootsource.c:10-20 | the least aligned number that is not below the value, for every alignment |
| BootAttempt.HeaderReadIsLeast | src/lib/bootsource.c:100-109 | the first read is the least aligned length that holds a header |
| BootAttempt.ZeroAdvances | src/lib/bootsource.c:137-170 | an attempt with result 0 moved the offset on over bytes that the media has |
| BootAttempt.StaysInsideIff | src/lib/bootsource.c:96-135 | everything the code may load from a source stays within maxsize exactly when the memory it may need is at most maxsize |
| BootAttempt.WholeUnitsSuffice | src/lib/bootsource.c:96-135 | so it does when maxsize is a whole number of units that hold a header |
| BootAttempt.NotAlwaysInside | src/lib/bootsource.c:126-132 | with an alignment of 512 and room for 600 bytes an image of 512 bytes is accepted and its reads end at 1024 |
| BootAttempt.TakenIff | src/lib/bootsource.c:118-135 | an image with a sound header is too big exactly when every whole number of units that holds its data is, with 64 more, above maxsize |
| BootAttempt.NextImageBehind | src/lib/bootsource.c:96-170 | the next header is read behind the data of an image that ran or was bad, behind a header that was refused, and again at a header that could not be read |
| BootAttempt.ResultIs | src/lib/bootsource.c:96-160 | the numbers -9, -10, -8 and -7, each exactly for its cause, and otherwise the code of the header or of the image |
| BootOrder.NothingElseWhileOn | src/lib/bootsource.c:32-67 | in every trace in order, no image runs and no source is enabled while one is enabled |
| BootOrder.ExecutedWasLoaded | src/lib/bootsource.c:96-160 | what is executed was enabled, initialised, read for a header and for the adjoining data it announced, found good, and released, by the eight calls before |
| BootOrder.ReadsAreAligned | src/lib/bootsource.c:70-84 | every read is aligned in offset and length, so nothing is refused or reduced |
| BootOrder.Balanced | src/lib/bootsource.c:32-94 | each source is disabled as often as enabled and deinitialised as often as initialised, but for the attempt under way |
| BootOrder.LoadInOrder | src/lib/bootsource.c:96-135 | every way of loading makes its calls in order and ends ready to run exactly when the data was good |
| BootOrder.AttemptInOrder | src/lib/bootsource.c:137-160 | every possible attempt at a source keeps the order and leaves every source off |
| BootSource.SingleInOrder | src/lib/bootsource.c:162-170 | so does every series of attempts at one source |
| BootSource.ChainInOrder | src/lib/bootsource.c:189-207 | and every run of the whole chain |
| BootSource.PlainChain | src/lib/bootsource.c:189-207 | while images ask for no device the chain is the table in order and stops early only for host mode |
| BootSource.ChainEnds | src/lib/bootsource.c:189-207 | once no visit ends with a positive result, at most the length of the table is still visited |
| BootSource.ChainGoesAsAsked | src/lib/bootsource.c:189-207 | the first source comes first, every other visit as the result before it asks, in every chain |
| BootSource.ChainOver | src/lib/bootsource.c:189-207 | a chain that is over ended at a missing device, at the host or behind the last source, and without positive results it was the table in order |
| BootSource.StoredIs | src/lib/bootsource.c:152 | the four bytes of the magic are those of the 32-bit error number, low byte first |
| BootSource.Loops | src/lib/bootsource.c:189-207 | an image that asks for its own device makes a chain of every length |
| BootSource.BootRom.BootsourceInit | src/lib/bootsource.c:32-67 | the three sequences of hooks, and which of them leaves the source ready |
| BootSource.BootRom.BootsourceRead | src/lib/bootsource.c:70-84 | refused when misaligned, otherwise the largest whole number of units is read, and what is counted is copied |
| BootSource.BootRom.BootsourceDeinit | src/lib/bootsource.c:86-94 | deinitialised, then disabled |
| BootSource.BootRom.BootsourceLoadImg | src/lib/bootsource.c:96-135 | calls, result and offset of a way to load and, when the reads are full, memory from hdr on as one copy of the media over header and data |
| BootSource.BootRom.LoadData | src/lib/bootsource.c:118-134 | behind a sound header: too big or read behind the header, with calls, result, offset and the bytes in memory |
| BootSource.BootRom.BootsourceTrySourceOnce | src/lib/bootsource.c:137-160 | calls, result and offset of an attempt, execution exactly after good data and release, and the error number in the magic |
| BootSource.BootRom.BootsourceTrySingle | src/lib/bootsource.c:162-170 | attempts one behind the other, ending on finite media with a result other than 0 |
| BootSource.BootRom.FindSourceById | src/lib/bootsource.c:172-187 | the source with that number exactly if there are so many |
| BootSource.BootRom.BootsourceTryChain | src/lib/bootsource.c:189-207 | the trace is that of visits from the first source on: after a positive result r comes number r - 1, after an error other than -11 the next source; it ends only at a number the table does not have, at -11, or behind the last source; without positive results it is sources 0 to n - 1, n being the length of the table unless the last result is -11 |
| BootSource.BootRom.BootsourceTryById | src/lib/bootsource.c:209-218 | one attempt at that source, or the error with no hook called |
| BootImage.MemMove | src/lib/bootimage.c:301-343 | a block copied as if through a temporary, for any overlap |
| BootImage.ArrivesUnlessOntoItself | src/lib/bootimage.c:265-346 | the payload is at the final location with decapsulation for any overlap, and with relocation alone unless it goes into the loaded image |
| BootImage.OntoItselfLoses | src/lib/bootimage.c:299-310 | otherwise there is a payload that does not arrive |
| BootImage.EveryPayloadArrivesIff | src/lib/bootimage.c:265-346 | every payload arrives exactly under that condition (or when it is empty) |
| BootImage.OnlyTheTargetChanges | src/lib/bootimage.c:265-346 | nothing outside the target is written |
| BootImage.MarkedKeeps | src/lib/bootimage.c:234-235 | wiping the magic and storing the source leaves all fields that steer the move, and the payload |
| BootImage.TakeTo | src/lib/bootimage.c:283-343 | the moves by decapsulation and destination, and the saved header |
| BootImage.Settle | src/lib/bootimage.c:264-346 | the flags and the relocation field lead to these moves |
| BootImage.BootimageExecute | src/lib/bootimage.c:225-400 | from the bytes of the header: refusals and the memory they leave; with 0x20 in byte 5 the payload lies at bytes 24 to 27 (64 further on without 0x10, unless that is the load address), otherwise 64 behind the load address or, with 0x10, there; header passed to start (the saved one after decapsulation), and synchronous start |
| IniText.FindIff | src/lib/ini.c:53-68 | the place is the first stop: one of the characters, or a semicolon after white space |
| IniText.RStripIs | src/lib/ini.c:34-40 | what is left when trailing white space is gone |
| IniText.LSkipIs | src/lib/ini.c:43-48 | what is left when leading white space is skipped |
| IniText.LinesAreTheText | src/lib/ini.c:236-259 | for any text the lines read join to the whole text, each ending with its newline or at the end of the buffer |
| IniText.ErrorIsFirstFailure | src/lib/ini.c:118-211 | for any text and handler the result is 0 or the smallest failing line number |
| IniText.LineIsWrongIff | src/lib/ini.c:149-199 | a line is wrong exactly when it is no comment and has, before any remark, no closing bracket if it is a heading and neither = nor : if it is not |
| IniText.BlankSaysNothing | src/lib/ini.c:149-154 | a line of white space says nothing |
| IniText.WrongLineShows | src/lib/ini.c:149-211 | with a wrong line k in the text the result is positive and at most k, whatever the handler does |
| IniText.LongLineIsCut | src/lib/ini.c:236-259 | 199 characters without a newline are a line |
| IniText.LongSectionIsCut | src/lib/ini.c:71-76 | of a longer heading the first 49 characters are the section |
| IniParser.RStripAt | src/lib/ini.c:34-40 | in place, nothing else in the buffer changes |
| IniParser.LSkipAt | src/lib/ini.c:43-48 | the place of the stripped string |
| IniParser.FindAt | src/lib/ini.c:53-68 | the place found |
| IniParser.StrNCpy0 | src/lib/ini.c:71-76 | at most 49 characters and always a NUL |
| IniParser.StringReader.Read | src/lib/ini.c:236-259 | one line, or as much of it as fits, and the rest is left |
| IniParser.ParseLine | src/lib/ini.c:149-199 | cutting the buffer at NULs leaves the strings that the line says |
| IniParser.HandleLine | src/lib/ini.c:139-199 | section buffer, calls, line number and error after a line |
| IniParser.IniParseStream | src/lib/ini.c:79-212 | the loop on its buffers gives error and calls of the specified run on the text |
| IniParser.IniParseString | src/lib/ini.c:262-269 | the same for a whole string |
| IniPrint.BodyRead | src/lib/ini.c:149-199 | a printed line says what was printed, for any spaces, either separator, and a remark behind it |
| IniPrint.DocumentRead | src/lib/ini.c:79-269 | for every printed document the handler is called with exactly its settings in order, and the result is 0 exactly when it accepts them all |
| IniReprint.TokensAreClean | src/lib/ini.c:149-199 | for any text, whatever reaches the handler is trimmed, without separators or remarks, and fits its line |
| IniReprint.ReadPrintRead | src/lib/ini.c:79-269 | for any text, printing what the handler was told and reading that again tells it the same |
| Gcda.StoreGcovUint32 | src/lib/gcov-gcc-4.7.c:377-387 | four bytes stored behind what is there, none for a null buffer, and nothing else changes |
| Gcda.StoreGcovUint64 | src/lib/gcov-gcc-4.7.c:401-413 | eight bytes, the low word first |
| Gcda.StoreCounters | src/lib/gcov-gcc-4.7.c:452-460 | a counter record |
| Gcda.StoreAllCounters | src/lib/gcov-gcc-4.7.c:446-463 | the records of the active kinds in order |
| Gcda.StoreFunction | src/lib/gcov-gcc-4.7.c:437-463 | a function's records |
| Gcda.GcovConvertToGcda | src/lib/gcov-gcc-4.7.c:422-467 | the dry run gives the size that the real run writes; the bytes are the file, once and contiguously, and the rest of the buffer is untouched |
| Gcda.GcovIterator.constructor | src/lib/gcov-gcc-4.7.c:475-497 | the buffer is exactly filled by the file |
| Gcda.ReadBack | src/lib/gcov-gcc-4.7.c:422-467 | a reader of the tag and length format recovers version, stamp, every function record and every active counter value |
| Gcda.FileDetermines | src/lib/gcov-gcc-4.7.c:422-467 | profiles of the same active kinds that make the same file are the same |
| Gcda.FirstBytes | src/lib/gcov-gcc-4.7.c:431-444 | the magic, version and stamp, and for the first function tag, length, identifier and both checksums, at their byte offsets |
| Gcda.CounterBytes | src/lib/gcov-gcc-4.7.c:446-460 | behind them tag and length of the first active kind, whichever it is, and all its values, at their byte offsets |
| Heap.BlockIsNewIff | src/lib/malloc.c:9-33 | without a panic, the block lies between old and new position exactly when the way asked for stays in the address space |
| Heap.BlockIsAligned | src/lib/malloc.c:15-23 | for every position, request and alignment other than 0 (taken as unsigned), the address less misalign is a multiple of the alignment exactly when 2^32 times the number of times the call goes around the address space is one; so always when it does not go around, and for alignments that divide 2^32 |
| Heap.NotAlwaysAligned | src/lib/malloc.c:15-23 | a call without a panic whose block is not aligned, and one pulled back by a negative misalign whose block is |
| Heap.BlockIsAlignedModulo | src/lib/malloc.c:15-23 | for alignments that divide the address space the difference in 32 bits is a multiple, for every call |
| Heap.NotAlwaysNew | src/lib/malloc.c:21-30 | two calls without a panic that hand out bytes below the position, by a negative misalign and by a length that wraps |
| Heap.HistoryKeeps | src/lib/malloc.c:9-145 | over every history of new allocations, saves and restores, live blocks lie in their heap, in order, below the position |
| Heap.BlocksAreDisjoint | src/lib/malloc.c:9-33 | live blocks are pairwise disjoint |
| Heap.OwnerOfBlock | src/lib/malloc.c:36-47 | the heap found for any byte of a block is the one it came from |
| Heap.RestoreUndoes | src/lib/malloc.c:130-145 | after a save and any allocations and restores without a panic, a restore brings back positions and blocks of the save |
| Heap.RestoreIsLastSave | src/lib/malloc.c:130-145 | after any history without a panic a restore brings back heaps and blocks of the last save |
| Heap.OuterRestoreIff | src/lib/malloc.c:130-145 | after any history between a save and a restore, with or without saves of its own, a heap is back where it was at the outer save exactly when it was there at the last inner one |
| Heap.SavesDoNotNest | src/lib/malloc.c:130-145 | four bytes taken and saved in between: the outer restore leaves the position four bytes on, without the four bytes it goes back |
| Heap.Runtime.MallocFromHeapMisaligned | src/lib/malloc.c:9-33 | the new position, the address, and when it panics |
| Heap.Runtime.MallocHeapByAddr | src/lib/malloc.c:36-47 | the first heap that holds the address, or -1 when none does |
| Heap.Runtime.MallocRegisterHeap | src/lib/malloc.c:96-128 | the first free slot, when it panics, and that the slots stay packed exactly when the start is not 0 |
| Heap.Runtime.MallocUpdateHeaps | src/lib/malloc.c:130-145 | every registered heap is saved or restored, and no other slot changes |
| PrintfNumber.DigitsValue | src/lib/printf.c:102-111 | the digits evaluate back to the number, in every base |
| PrintfNumber.NoLeadingZero | src/lib/printf.c:102-111 | and there is no leading zero |
| PrintfNumber.NumberLength | src/lib/printf.c:69-132 | exactly the larger of the width and sign, prefix and the larger of digits and precision |
| PrintfNumber.NumberReadsBack | src/lib/printf.c:69-132 | for every long, base, width, precision and flags the output reads back as the signed number, or the unsigned one |
| PrintfNumber.LaidOut | src/lib/printf.c:69-132 | sign, prefix, zeros to the precision and digits in order, then spaces to the width with left; without it the digits come last, behind spaces in front or zeros between prefix and digits |
| PrintfNumber.Convert | src/lib/printf.c:102-111 | the digits in reverse, within 64 places of the buffer |
| PrintfNumber.Emit | src/lib/printf.c:115-130 | the order of fill, sign, prefix, zeros and digits by the flags |
| PrintfNumber.RumbootNumber | src/lib/printf.c:69-132 | the loops print the specified string, and nothing for an unknown base |
| PrintfNumber.RumbootSkipAtoi | src/lib/printf.c:61-67 | the value of the run of decimal digits and the place behind it |
| PrintfNumber.DecimalReadsBack | src/lib/printf.c:61-67 | it reads back a printed nonnegative number |

## Left out

- Device drivers, register maps, linker scripts, exception dumps, and the console: hardware access.
- AES-192 and AES-256, which are compile-time variants, and any claim about cryptographic strength.
- XMODEM: `maxszs` is not used by the receiver, so nothing is bounded by it; delays and durations of timeouts; sources longer than `int` can count, where the sender's `len` overflows.
- XMODEM link: a reply or packet that arrives in a later round than it was sent in, and damage that keeps the CRC.
- List: iteration macros, `list_empty_careful`, and the hlist family.
- BootSource: what happens when memory behind `hdr` is smaller than the reads may fill, and `find_source_by_id` for a number other than 0 on an empty table, where it reads behind the table's end.
- BootSource: `size_t` wrap-around of offsets on the device, and what the plugin writes to memory that it does not count.
- BootImage: compressed images and heatshrink, byte-swapped headers, `kill`, `start` and `poll` of a cluster, and what decryption and signature checks compute (their results are parameters).
- IniParser: `prev_name`, which nothing reads with continuation lines off; reading from files.
- Gcda: `gcov_info_add`, `gcov_info_reset`, `gcov_info_dup` and `gcov_info_free`, which are element-wise; the list of profiles; stepping through the file by pages; running out of memory.
- Heap: heap names, `rumboot_memdup`, and the wrappers with fixed alignment.
- PrintfNumber: the format-string loop, strings, and the floating-point, MAC and IP branches; wrap-around of `int` in widths, precisions and `rumboot_skip_atoi`.
- src/lib/bitswapper.c, utils, tests and scripts.
