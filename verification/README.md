# Verified model of the gateway's codecs, ciphers and queues

This Dafny project models five parts of the LoRaWAN gateway software and proves what they promise.

* **Cryptography** (`fwd/src/aes.c`, `fwd/src/cmac.c`, `fwd/src/loramac-crypto.c`). `GaloisField`, `SubstitutionBox`
  and `Fips197` are FIPS 197 on values; `Aes` and `AesCbc` are the C code on arrays, with its fused table rounds and
  its key schedule; `Cmac` is the streaming MAC of RFC 4493, with its lazily held last block; `LoraMac` is LoRaWAN
  payload encryption and MIC over reused static state. `AesNumbers` is AES on blocks written as numbers, with which
  `AesVectors` and `CmacVectors` evaluate known answers of the standards.
* **MQTT 3.1.1** (`libmqtt`). `MqttStrings` and `MqttPacket` are strings, headers and remaining lengths;
  `MqttConnect`, `MqttPublish` and `MqttSubscribe` are the serializers and deserializers; `MqttReader` and
  `MqttBlockingReader` are the two packet readers, `MqttStream` is about whole streams of packets through the first
  one, and `MqttEndToEnd` about serialized PUBLISH packets through it and the deserializer; `TopicMatch` is the topic
  matcher and the dispatch to the message handlers.
* **The reply queue** (`libmqtt/MQTTLinux.c`). `ReplyQueue` runs any number of threads through `Enqueue` and
  `Dequeue`, one critical section or semaphore operation at a time; `ReplyCalls` accounts for every call.
* **The payload CRC** (`tools/payload_crc.c`). `PayloadCrc` relates the unrolled network to the division of
  polynomials; `CrcPeriod` finds the period of x modulo the generator and with it the errors of two bits.
* **Lists and Base64** (`fwd/inc/linkedlists.h`, `fwd/src/base64.c`). `LinkedLists` and `Base64`.

An octet is a bit vector where the code works on bits (`Bytes`, wrapped in a datatype; `bv8` in `PayloadCrc`) and a number
below 256 where it counts (`octet` in the MQTT modules). A buffer is an array; a method states its whole new content.
`Buffers.Splice` is "these values with those written over them". `hide` keeps a definition out of a proof.

Where the code and its documentation disagree, the model follows the code: the comment in `fwd/inc/aes.h` (lines 79-82) lists
128 and 192 as valid key lengths, but `aes_set_key` accepts 16, 24 and 32 only; the comments of the two list
deserializers promise a length and 1 is returned.

Some promises do not hold of the code for every input. For each there is a lemma with such an input and one with the
exact condition.

| promise | an input that breaks it | when it holds |
|---|---|---|
| a payload that was encrypted can be decrypted | `LoraMac.LongPayloadIsLost` | `LoraMac.RestoredIff` |
| the topic matcher follows section 4.7.1 of MQTT 3.1.1 | `TopicMatch.ParentIsRefused`, `TopicMatch.EmptyLevelIsRefused` | `TopicMatch.IsTopicMatched`: exactly if no wildcard meets an empty level or nothing |
| a CONNECT that was serialized is read back | `MqttConnect.EmptyUsernameRefused`, `MqttConnect.LongIdentifierIsCut` | `MqttConnect.ConnectRoundTripIff`: exactly if the login is one that is accepted (`LoginAccepted`), every string sent is shorter than 65536 (`SentShort`), and so is the keep-alive time |
| a PUBLISH, SUBSCRIBE or UNSUBSCRIBE that was serialized is read back | `MqttPublish.LongTopicIsCut`, `MqttSubscribe.LongFilterIsCut` | `MqttPublish.PublishRoundTripIff`, `MqttSubscribe.ListRoundTripIff`: exactly if every field fits the bits or bytes that carry it |
| a wrong protocol name is refused | `MqttConnect.EmptyProtocolAccepted` | `MqttConnect.VersionAcceptedIff` |
| what passes the size check stays inside the buffer | `MqttConnect.VersionFiveOverflows`, `MqttPublish.TwoFormsOverflow`, `MqttSubscribe.TwoFormsOverflow` | the three lemmas `StaysInsideIff` |
| 1 means that the whole packet was there | `MqttPublish.TruncatedIsAccepted`, `MqttPublish.CutPayloadIsAccepted`, `MqttPublish.CutIdentifierIsAccepted`, `MqttSubscribe.TruncatedIsAccepted`, `MqttSubscribe.ForeignBytesAreRead` | `MqttPublish.PublishAcceptedIff`, `MqttSubscribe.ListAcceptedIff`: when 1 is returned, for data of any length; `MqttPublish.PublishAcceptedIff` also when the payload lies inside the data |
| reading stays inside the `buflen` bytes of the data | `MqttSubscribe.ForeignBytesAreRead`, `MqttPublish.CutIdentifierIsAccepted` | `MqttPublish.ReadsInsideIff`, `MqttSubscribe.ReadsInsideIff` |
| the resumable reader delivers what was sent | `MqttStream.FourStallsLoseThePacket`, `MqttStream.PingIsNeverDelivered` | `MqttStream.DeliveredIff`: exactly if every packet has a body, fits the buffer, and has at most four stalls and bytes in its length field |
| the other reader reports only packets | `MqttBlockingReader.EndlessFieldIsReported` | `MqttBlockingReader.ReportedIsFramedIff` |
| the queue delivers every item | `ReplyQueue.TimedOutDequeueLosesItem` | `ReplyQueue.DeliveredInOrderIff` |
| no item in the queue is overwritten | `ReplyQueue.TwoProducersOverwrite` | `ReplyQueue.OverwriteIff` |
| the queue delivers nothing twice | `ReplyQueue.TwoConsumersShare` | `ReplyQueue.DuplicateIff` |
| what the padded decoder accepts is the encoding of its result | `Base64.MisplacedPaddingIsDecoded` | `Base64.PaddedReencodeIff` |

## Model

| member | source | states |
|---|---|---|
| GaloisField.MacrosMultiply | fwd/src/aes.c:79-90 | the macros f2 to fe, on 8 bits, are the multiplications by 2, 3, 4, 8, 9, 0xb, 0xd and 0xe in GF(2^8) as FIPS 197 section 4.2 defines multiplication |
| GaloisField.TimesAdds | fwd/src/aes.c:79-90 | that multiplication distributes over the sum of the field |
| GaloisField.InvMixRowOfMixRow | fwd/src/aes.c:446-493 | the row with 0xe, 0xb, 0xd, 9 on the four results of the row with 2, 3, 1, 1 gives back the first byte of the column |
| GaloisField.MixRowOfInvMixRow | fwd/src/aes.c:446-493 | and the other way round |
| SubstitutionBox.SBoxInverts | fwd/src/aes.c:94-197 | the two 256-byte tables are inverse permutations of the octets |
| SubstitutionBox.SBoxIsStandard | fwd/src/aes.c:94-127 | every entry of the first table is the affine transformation of the inverse of its index in GF(2^8), as FIPS 197 section 5.1.1 defines it |
| Fips197.ShiftRowsMovesRows | fwd/src/aes.c:406-420 | in the 4 by 4 view of the state, ShiftRows rotates row r left by r columns |
| Fips197.MixColumnsInvert | fwd/src/aes.c:446-493 | InvMixColumns and MixColumns undo each other on whole states |
| Fips197.InvCipherOfCipher | fwd/src/aes.c:555-632 | for every block, schedule and number of rounds, InvCipher undoes Cipher (FIPS 197 sections 5.1 and 5.3) |
| Fips197.CipherOfInvCipher | fwd/src/aes.c:555-632 | and Cipher undoes InvCipher |
| Fips197.CipherUsesPrefix | fwd/src/aes.c:555-632 | both ciphers depend only on the 16 * (rounds + 1) bytes of the schedule |
| Aes.ShiftSubRows | fwd/src/aes.c:406-420 | the in-place byte moves are SubBytes followed by ShiftRows |
| Aes.InvShiftSubRows | fwd/src/aes.c:422-436 | the in-place byte moves are InvShiftRows followed by InvSubBytes |
| Aes.MixSubColumns | fwd/src/aes.c:439-465 | the fused table step is SubBytes, ShiftRows and MixColumns |
| Aes.InvMixSubColumns | fwd/src/aes.c:468-494 | the fused table step is InvMixColumns, InvShiftRows and InvSubBytes |
| Aes.NextKeyWord | fwd/src/aes.c:520-544 | one turn of the schedule loop computes the next word of FIPS 197 section 5.2 |
| Aes.FillSchedule | fwd/src/aes.c:517-545 | the loop with its 8-bit counter fills the schedule up to 4 * (keylen + 28) bytes and writes nothing after them |
| Aes.AesSetKey | fwd/src/aes.c:500-547 | for 16, 24 and 32 bytes the schedule is the key expansion of the standard and the rounds are 10, 12, 14; any other length fails and sets the rounds to 0 |
| Aes.AesEncrypt | fwd/src/aes.c:555-580 | the output is Cipher of the input, in place too; without a key it fails and writes nothing |
| Aes.AesDecrypt | fwd/src/aes.c:607-632 | the output is InvCipher of the input, in place too; without a key it fails and writes nothing |
| AesVectors.Expanded128 | fwd/src/aes.c:500-547 | the expanded words of the 16-byte key of FIPS 197 appendix A.1, all 44, as numbers |
| AesVectors.Expanded192 | fwd/src/aes.c:500-547 | the expanded words of the 24-byte key of appendix A.2, all 52 |
| AesVectors.Expanded256 | fwd/src/aes.c:500-547 | the expanded words of the 32-byte key of appendix A.3, all 60, with the additional SubWord |
| AesNumbers.RowExpands | fwd/src/aes.c:500-547 | four such words in a row are the round key with that number |
| AesVectors.Block128 | fwd/src/aes.c:555-580 | the block of FIPS 197 appendix B is encrypted to 3925841d 02dc09fb dc118597 196a0b32 |
| AesVectors.Block192 | fwd/src/aes.c:555-580 | a block under the key of A.2, as in NIST SP 800-38A section F.1.3 |
| AesVectors.Block256 | fwd/src/aes.c:555-580 | a block under the key of A.3, as in NIST SP 800-38A section F.1.5 |
| AesCbc.CbcBlocks | fwd/src/aes.c:584-599 | the equations of NIST SP 800-38A section 6.2: ciphertext block j is the encryption of plaintext block j plus ciphertext block j - 1, or the IV |
| AesCbc.CbcBlocksBack | fwd/src/aes.c:636-653 | plaintext block j is the decryption of ciphertext block j plus ciphertext block j - 1, or the IV |
| AesCbc.CbcRoundTrip | fwd/src/aes.c:584-653 | for any cipher and its inverse, CBC decryption undoes CBC encryption of any number of blocks from the same IV |
| AesCbc.CbcRoundTripBack | fwd/src/aes.c:584-653 | and CBC encryption undoes CBC decryption |
| AesCbc.AesInverts | fwd/src/aes.c:555-632 | the AES ciphers under one schedule are inverse functions on blocks |
| AesCbc.AesCbcRoundTrip | fwd/src/aes.c:584-653 | so AES in CBC mode decrypts what it encrypted |
| AesCbc.BytesRoundTrip | fwd/src/aes.c:584-653 | on the bytes in the arrays: what aes_cbc_decrypt makes of what aes_cbc_encrypt wrote, under the same key and IV, is the plaintext, and both leave the same chaining value |
| AesCbc.AesCbcEncrypt | fwd/src/aes.c:584-599 | output and final IV are CBC encryption of the input blocks, in place too; all cases without a key |
| AesCbc.AesCbcDecrypt | fwd/src/aes.c:636-653 | output and final IV are CBC decryption of the input blocks, in place too; all cases without a key |
| Cmac.ShiftLeftMovesBits | fwd/src/cmac.c:7-12 | the byte loop of LSHIFT moves every bit of the 128-bit string up by one and brings in a zero |
| Cmac.StreamsGivesMac | fwd/src/cmac.c:88-114 | the streaming invariant determines the one-shot MAC of RFC 4493 section 2.4 |
| Cmac.CmacContext.Init | fwd/src/cmac.c:23-28 | chain and held block are empty and the schedule is cleared |
| Cmac.CmacContext.SetKey | fwd/src/cmac.c:30-34 | the context encrypts under AES with the key; right after Init it streams the empty message |
| Cmac.CmacContext.Update | fwd/src/cmac.c:36-68 | the message grows by the data and the invariant holds: X is the chain of all blocks before the held one, which is empty only for the empty message |
| Cmac.CmacContext.DoubleInPlace | fwd/src/cmac.c:81-98 | the in-place shift and conditional addition are the doubling of RFC 4493 section 2.3 |
| Cmac.CmacContext.Final | fwd/src/cmac.c:70-117 | the digest is the one-shot MAC of the whole message |
| Cmac.CmacContext.MacOfPieces | fwd/src/cmac.c:23-117 | for every message and every way of cutting it, empty pieces included, Init, SetKey, the Updates and Final give the one-shot MAC |
| CmacVectors.DoubledBlock | fwd/src/cmac.c:7-12 | the doubling on numbers: a shift by one bit, and 0x87 is added if the top bit was set |
| CmacVectors.MacOfMessage | fwd/src/cmac.c:70-117 | a message of any length, with the subkeys of RFC 4493 section 4 as numbers: a full last block is masked with the first one, a last block padded with a one bit and zeros, and that of the empty message, with the second one, and the result is chained to the blocks before it |
| CmacVectors.MacOfNothing | fwd/src/cmac.c:23-117 | example 1 of RFC 4493 under AES: bb1d6929 e9593728 7fa37d12 9b756746 |
| CmacVectors.MacOfOneBlock | fwd/src/cmac.c:23-117 | example 2 of RFC 4493 under AES: 070a16b4 6b4d4144 f79bdd9d d04a287c |
| LoraMac.EncryptedTwice | fwd/src/loramac-crypto.c:162-165 | encrypting twice with the same frame and key restores the payload |
| LoraMac.CounterBlocksDiffer | fwd/src/loramac-crypto.c:131-147 | the counter blocks of one payload are pairwise different |
| LoraMac.FramesDiffer | fwd/src/loramac-crypto.c:105-147 | counter blocks of different direction, address or frame counter are different |
| LoraMac.FrameBlockIff | fwd/src/loramac-crypto.c:67-147 | the blocks A and B0 byte by byte: tag, zeros, direction, address and frame counter as numbers with the lowest byte first, zero, last byte; no other block has these bytes |
| LoraMac.CounterBlockOfFrame | fwd/src/loramac-crypto.c:67-147 | the sixteen bytes of A and of B0 for one frame |
| LoraMac.StreamByteIs | fwd/src/loramac-crypto.c:123-147 | byte k of the key stream is byte k mod 16 of the encrypted block whose last byte is k / 16 + 1, which wraps at 256 |
| LoraMac.CryptoState.PayloadEncrypt | fwd/src/loramac-crypto.c:96-160 | from any contents of the static buffers, up to 256 bytes are encrypted as LoRaWAN 1.0.2 section 4.3.3 says; of more, the index of 8 bits wraps, and the exact keys that end up on the first 256 bytes are given, in place and not; nothing after them is written |
| LoraMac.CryptoState.PayloadDecrypt | fwd/src/loramac-crypto.c:162-165 | up to 256 bytes, the payload that was encrypted comes back; of more, the same exact keys |
| LoraMac.RestoredIff | fwd/src/loramac-crypto.c:96-165 | a payload of any length that is encrypted and decrypted in the same way, in place or not, comes back if and only if it is kept in place, has at most 256 bytes, or its other bytes already stood in the target |
| LoraMac.LongPayloadIsLost | fwd/src/loramac-crypto.c:96-165 | 257 zeros do not come back in a buffer that ends with another byte |
| LoraMac.CryptoState.ComputeMic | fwd/src/loramac-crypto.c:67-94 | from any contents of the static state, the MIC is the number whose bytes, the lowest first, are the first four of the CMAC of B0 and the first size modulo 256 bytes |
| PayloadCrc.NextCrcIsEightSteps | tools/payload_crc.c:77-96 | one call of the unrolled network is eight steps of bit-serial division by x^16 + x^12 + x^5 + 1 |
| PayloadCrc.CrcIsRemainder | tools/payload_crc.c:100-110 | the CRC is the remainder register after all bits of the payload |
| PayloadCrc.ComputeCrc | tools/payload_crc.c:100-110 | the byte loop returns that remainder |
| PayloadCrc.NoRemainderIffDivisible | tools/payload_crc.c:77-96 | the register ends at zero exactly if the generator divides the polynomial |
| PayloadCrc.RemainderOfDivision | tools/payload_crc.c:77-96 | a polynomial of degree below 16 holds the final register exactly if the generator divides the difference to the message |
| PayloadCrc.ShortRemaindersDiffer | tools/payload_crc.c:77-96 | that polynomial is unique |
| PayloadCrc.RemainderLinear | tools/payload_crc.c:77-110 | the remainder of a sum is the sum of the remainders |
| PayloadCrc.ZeroStepsInjective | tools/payload_crc.c:77-96 | trailing zeros never turn a remainder other than zero into zero |
| PayloadCrc.BurstDetected | tools/payload_crc.c:100-110 | payloads that differ only inside any 16 neighbouring bits have equal CRCs only if they are equal |
| PayloadCrc.NeighbouringBytesDetected | tools/payload_crc.c:100-110 | in particular those that differ only in two neighbouring bytes |
| PayloadCrc.OddErrorsDetected | tools/payload_crc.c:100-110 | payloads that differ in an odd number of bits have different CRCs |
| PayloadCrc.AppendedCrc | tools/payload_crc.c:100-110 | exactly one pair of appended bytes makes the CRC zero: the CRC of the message and two zero bytes |
| PayloadCrc.CheckValue | tools/payload_crc.c:77-110 | the CRC of "123456789" and two zero bytes is 0x31c3 |
| CrcPeriod.PeriodOfX | tools/payload_crc.c:77-96 | the register 1 comes back after n zero bits exactly if n is a multiple of 32767 |
| CrcPeriod.TwoErrorsIff | tools/payload_crc.c:100-110 | payloads of any length that differ in exactly two bits have equal CRCs if and only if these are a multiple of 32767 bits apart |
| CrcPeriod.TwoErrorsDetected | tools/payload_crc.c:100-110 | so any two wrong bits change the CRC of a payload of at most 4095 bytes, and the size has eight bits |
| ReplyQueue.RefinesBuffer | libmqtt/MQTTLinux.c:256-291 | in every interleaving of one producer and one consumer the calls behave as calls of an atomic one-place buffer, each taking effect between entry and return |
| ReplyQueue.NothingIsOverwritten | libmqtt/MQTTLinux.c:259-269 | with one producer and any number of consumers the producer that is about to write finds the slot empty, although check and write are separate sections |
| ReplyQueue.Conservation | libmqtt/MQTTLinux.c:256-291 | the items written are, in order, those that left the slot and then the one still in it |
| ReplyQueue.DeliveredAtMostOnce | libmqtt/MQTTLinux.c:274-291 | every item that left was returned by exactly one Dequeue or discarded by one whose wait failed, at most one by each |
| ReplyQueue.DeliveredInOrderIff | libmqtt/MQTTLinux.c:256-291 | with one producer and one consumer, the items written are those delivered, in order, and then the one in the slot, if and only if no failed wait has discarded an item |
| ReplyQueue.TimedOutDequeueLosesItem | libmqtt/MQTTLinux.c:274-291 | a schedule on which a Dequeue whose wait failed clears the slot after an item was written to it: the item is delivered to nobody |
| ReplyQueue.ResultHasItemIffZero | libmqtt/MQTTLinux.c:274-291 | a Dequeue returns an item exactly if it returns 0 |
| ReplyQueue.TwoProducersOverwrite | libmqtt/MQTTLinux.c:256-272 | with two or more producers there is a schedule that destroys an item nobody took |
| ReplyQueue.OverwriteIff | libmqtt/MQTTLinux.c:256-272 | for every number of producers and consumers: an item can be overwritten if and only if there are two producers or more |
| ReplyQueue.TwoConsumersShare | libmqtt/MQTTLinux.c:274-291 | with a producer and two or more consumers there is a schedule that delivers an item twice |
| ReplyQueue.NothingIsDuplicated | libmqtt/MQTTLinux.c:274-291 | with one consumer and any number of producers the items delivered are, in order, some of the items written, each at most once |
| ReplyQueue.DuplicateIff | libmqtt/MQTTLinux.c:256-291 | for every number of producers and consumers: an item can be delivered more often than it was written if and only if there are a producer and two consumers or more |
| ReplyCalls.EnteredInOrder | libmqtt/MQTTLinux.c:256-272 | one producer and any number of consumers: the items with which Enqueue was entered are, in order, those written and then the one still held; and those of the completed calls and then the one of the call still going on |
| ReplyCalls.EnteredIsCompleted | libmqtt/MQTTLinux.c:256-272 | any number of threads: each producer has completed the calls that it has entered, in order, except the one it is inside |
| ReplyCalls.EveryItemIsAccountedFor | libmqtt/MQTTLinux.c:256-272 | any number of threads: the items with which Enqueue was entered are, counted, those written and those still held; and those of the completed calls and of the calls still going on |
| ReplyCalls.AskedIsReturned | libmqtt/MQTTLinux.c:274-291 | any number of threads: each consumer has returned from every Dequeue that it has entered, except the one it is inside |
| ReplyCalls.EveryDequeueHasAResult | libmqtt/MQTTLinux.c:274-291 | any number of threads: as many Dequeue calls were entered as there are results and calls still going on |
| TopicMatch.IsTopicMatched | libmqtt/MQTTClient.c:154-180 | for a well-formed filter and any name: true exactly if the level rules of section 4.7.1 match and no wildcard stands at an empty level of the name or `#` at its end |
| TopicMatch.LevelsIff | libmqtt/MQTTClient.c:154-180 | the levels of a string are the only ones without a `/` that, put together with `/`, make it up |
| TopicMatch.MatchesIff | libmqtt/MQTTClient.c:154-180 | the rule without recursion: level by level `+` or equal, and as many levels as the name, or at least as many before a final `#` |
| TopicMatch.ScanIsMatch | libmqtt/MQTTClient.c:154-180 | the same for the character-by-character decision of the loop |
| TopicMatch.ScanOnFullNames | libmqtt/MQTTClient.c:154-180 | for names without empty levels the only difference to the rules is that a filter ending in `/#` does not match its parent |
| TopicMatch.ParentIsRefused | libmqtt/MQTTClient.c:154-180 | the filter `a/#` matches `a` by section 4.7.1.2 and is refused |
| TopicMatch.EmptyLevelIsRefused | libmqtt/MQTTClient.c:154-180 | the filter `+/b` matches `/b` by section 4.7.1.3 and is refused |
| TopicMatch.EqualityIsRedundant | libmqtt/MQTTClient.c:189-190 | for well-formed filters the equality test adds nothing to the matcher |
| TopicMatch.Client.Register | libmqtt/MQTTClient.c:533-544 | a subscription takes the first free slot, and without one changes nothing |
| TopicMatch.Client.DeliverMessage | libmqtt/MQTTClient.c:181-216 | exactly the registered non-null handlers whose filter equals or matches the name run, in order; the default handler only if there are none; the result says whether any ran |
| TopicMatch.CalledIffSelected | libmqtt/MQTTClient.c:187-202 | a handler call is made if and only if a registration with that function and argument accepts the name |
| TopicMatch.CallsInOrder | libmqtt/MQTTClient.c:187-202 | call k is made for the k-th selected registration of the table, and there are no other calls |
| TopicMatch.NumberOfCalls | libmqtt/MQTTClient.c:187-202 | as many calls as selected registrations |
| TopicMatch.SelectedIff | libmqtt/MQTTClient.c:187-202 | a registration with a well-formed filter is selected exactly if it has a handler and its filter equals a topic given as C string or matches the counted one by the level rules without a wildcard on nothing |
| MqttStrings.LengthsAgree | libmqtt/MQTTPacket.c:194-251 | the length function and the write function agree exactly unless both forms are set, the counted one is not empty and their lengths differ |
| MqttPacket.WriteMqttString | libmqtt/MQTTPacket.c:164-206 | writes the two-byte length and the characters of the form that is preferred, and nothing else |
| MqttPacket.ReadMqttLenString | libmqtt/MQTTPacket.c:215-234 | gives the span of the string at the position if length and characters lie before the end, reading the length only; a failing call stores the length if its two bytes were there |
| MqttPacket.StringFoundIff | libmqtt/MQTTPacket.c:215-234 | a string is found exactly if some text stands there, its length in two bytes before it, and ends before the end of the data |
| MqttPacket.StringRoundTripIff | libmqtt/MQTTPacket.c:164-234 | a written string is read back whole exactly if it is shorter than 65536; a longer one is cut to its length modulo 65536 |
| MqttPacket.HeaderRoundTrip | libmqtt/MQTTPacket.h:43-62 | the bit-fields of the header byte give back what they can hold of what was stored |
| MqttPacket.Encode | libmqtt/MQTTPacket.c:29-46 | writes the base-128 digits of the length and returns their number |
| MqttPacket.DecodeBuf | libmqtt/MQTTPacket.c:54-117 | for a field whose digits can be read, up to its end or to the fourth: their value and number, 5 if the fourth digit does not end the field |
| MqttPacket.LengthRoundTrip | libmqtt/MQTTPacket.c:29-80 | for 0 to 268435455 decoding undoes encoding and consumes exactly the encoded bytes |
| MqttPacket.LengthFieldsOfTheStandard | libmqtt/MQTTPacket.c:29-46 | the eight length fields of Table 2.4 of MQTT 3.1.1 |
| MqttPacket.ShortestForm | libmqtt/MQTTPacket.c:29-80 | writing a decoded length back never takes more bytes, and gives the same bytes exactly if the field did not end in a superfluous zero digit |
| MqttPacket.PacketLengthIsEnough | libmqtt/MQTTPacket.c:84-98 | the predicted size is large enough exactly up to 268435455 and then one too large exactly for 127, 16383, 2097150 and 2097151 |
| MqttPacket.ContainedIff | libmqtt/MQTTPacket.c:84-98 | the size check keeps a packet inside every buffer exactly if its body is at most as long as predicted, one byte longer at those four lengths, and shorter by the uncounted length bytes beyond the limit |
| MqttConnect.PredictedLength | libmqtt/MQTTConnectClient.c:27-49 | the predicted length of a CONNECT differs from the length written by twelve for versions other than 3 and 4, and by what the strings sent are written longer than counted |
| MqttConnect.StaysInsideIff | libmqtt/MQTTConnectClient.c:27-121 | the check keeps every write inside every buffer exactly under the stated bound on that difference |
| MqttConnect.VersionFiveOverflows | libmqtt/MQTTConnectClient.c:27-121 | a CONNECT of version 5 passes the check for 4 bytes and has 16 |
| MqttConnect.SerializeConnect | libmqtt/MQTTConnectClient.c:58-121 | for every version and every string: writes exactly the fields of section 3.1 after the predicted length and returns their size, or writes nothing |
| MqttConnect.FlagBytes | libmqtt/MQTTConnectClient.c:79-105 | which bit of the connect flags each field sets |
| MqttConnect.PacketBytes | libmqtt/MQTTConnectClient.c:58-121 | a CONNECT with all fields, at level 4 and at level 3, byte by byte |
| MqttConnect.VersionAcceptedIff | libmqtt/MQTTConnectServer.c:30-41 | the protocol names accepted are the right one, every beginning of it, and every name that begins with it |
| MqttConnect.EmptyProtocolAccepted | libmqtt/MQTTConnectServer.c:30-108 | a packet without a protocol name is accepted |
| MqttConnect.DeserializeConnect | libmqtt/MQTTConnectServer.c:51-108 | returns 1 or 0 and stores the fields, those before a failure included, as the sections of the packet say |
| MqttConnect.ConnectRoundTrip | libmqtt/MQTTConnectServer.c:51-108 | deserializing a serialized CONNECT of any version, with strings and a keep-alive time that fit two bytes, succeeds exactly if a password comes with a username and is not empty, and a username without password is not empty; then every field that was sent is stored and no other |
| MqttConnect.ConnectRoundTripIff | libmqtt/MQTTConnectServer.c:51-108 | a serialized CONNECT of any version and any strings is read back with all its fields if and only if the login is one of those and every string sent and the keep-alive time fit two bytes |
| MqttConnect.LongIdentifierIsCut | libmqtt/MQTTConnectClient.c:58-121 | a CONNECT with a client identifier of 65536 bytes can be sent and is not read back |
| MqttConnect.EmptyUsernameRefused | libmqtt/MQTTConnectServer.c:83-105 | a CONNECT with an empty username and no password can be sent and is refused |
| MqttPublish.PredictedLength | libmqtt/MQTTSerializePublish.c:31-39 | the predicted length is wrong by as much as the topic is written longer than counted |
| MqttPublish.StaysInsideIff | libmqtt/MQTTSerializePublish.c:31-91 | the check keeps every write inside every buffer exactly under the stated bound on that difference |
| MqttPublish.TwoFormsOverflow | libmqtt/MQTTSerializePublish.c:31-91 | with a topic whose two forms differ a packet passes the check for 4 bytes and has 5 |
| MqttPublish.SerializePublish | libmqtt/MQTTSerializePublish.c:55-91 | for every topic and length: writes exactly the fields of section 3.3 after the predicted length and returns their size, or writes nothing |
| MqttPublish.PacketBytes | libmqtt/MQTTSerializePublish.c:55-91 | two PUBLISH packets byte by byte, a duplicate at QoS 2 with a packet identifier and a retained one at QoS 0 |
| MqttPublish.DeserializePublish | libmqtt/MQTTDeserializePublish.c:36-68 | stores flags, topic span, packet identifier and payload span as far as the packet has them; asks only for the bytes that are read |
| MqttPublish.PublishRoundTrip | libmqtt/MQTTDeserializePublish.c:36-68 | deserializing a serialized PUBLISH whose fields can be carried gives back every field, the identifier only above QoS 0, and spans of the topic and of the payload up to the end |
| MqttPublish.PublishRoundTripIff | libmqtt/MQTTDeserializePublish.c:36-68 | it does so if and only if the QoS and the two flags fit their bits, the topic is shorter than 65536, and so is the identifier above QoS 0 |
| MqttPublish.LongTopicIsCut | libmqtt/MQTTSerializePublish.c:55-91 | a PUBLISH with a topic of 65536 bytes can be sent and is not read back |
| MqttPublish.PublishAcceptedIff | libmqtt/MQTTDeserializePublish.c:45-66 | for data of any length, whatever the packet announces: 1 is returned exactly if some topic stands in the memory before the announced end or the length field has one byte; the payload that is handed over lies inside the data exactly if the announced packet does and the identifier is not cut |
| MqttPublish.ReadsInsideIff | libmqtt/MQTTDeserializePublish.c:45-66 | after the length field only the topic's length and the identifier are read; when they lie inside the first bytes of the data, and that they do if the announced packet lies there and the identifier is not cut |
| MqttPublish.CutPayloadIsAccepted | libmqtt/MQTTDeserializePublish.c:45-66 | a PUBLISH that announces 100 bytes is reported as read from five, with a payload of 97 bytes behind them |
| MqttPublish.CutIdentifierIsAccepted | libmqtt/MQTTDeserializePublish.c:45-66 | a PUBLISH of QoS 1 that ends with its topic is reported as read, with an identifier from the bytes behind it and a payload of -2 bytes |
| MqttPublish.TruncatedIsAccepted | libmqtt/MQTTDeserializePublish.c:45-66 | a PUBLISH that announces no body is reported as read |
| MqttSubscribe.ListLength | libmqtt/MQTTSubscribeClient.c:28-37 | the loop adds up the entries |
| MqttSubscribe.PredictedLength | libmqtt/MQTTSubscribeClient.c:28-37 | the sum over the entries is wrong by what the filters are written longer than counted |
| MqttSubscribe.StaysInsideIff | libmqtt/MQTTSubscribeClient.c:28-86 | the check keeps every write inside every buffer exactly under the stated bound on that difference |
| MqttSubscribe.TwoFormsOverflow | libmqtt/MQTTSubscribeClient.c:28-86 | with a filter whose two forms differ a SUBSCRIBE passes the check for 7 bytes and has 8 |
| MqttSubscribe.SerializeList | libmqtt/MQTTSubscribeClient.c:50-86 | for every list: writes exactly the fields of the SUBSCRIBE or UNSUBSCRIBE packet after the predicted length and returns their size, or writes nothing |
| MqttSubscribe.PacketBytes | libmqtt/MQTTSubscribeClient.c:50-86 | a SUBSCRIBE and an UNSUBSCRIBE packet of two entries byte by byte, with QoS 1 in the header |
| MqttSubscribe.CompleteIff | libmqtt/MQTTSubscribeServer.c:53-63 | the loop reads to the end exactly if the bytes are the concatenation of encoded entries, and then the entries read are those |
| MqttSubscribe.DeserializeList | libmqtt/MQTTSubscribeServer.c:35-70 | stores the identifier, and in the slots of the two arrays the entries read so far and the one that broke off; returns 1, -1, 0 or the number of length bytes; asks only for the bytes that are read, and for arrays with room for what the packet holds, whatever maxcount says |
| MqttSubscribe.ListRoundTrip | libmqtt/MQTTUnsubscribeServer.c:34-66 | deserializing a serialized list gives 1, the identifier, the number of entries and all entries, the filters as spans |
| MqttSubscribe.ListRoundTripIff | libmqtt/MQTTUnsubscribeServer.c:34-66 | the entries of a serialized list come back if and only if every filter is shorter than 65536 |
| MqttSubscribe.LongFilterIsCut | libmqtt/MQTTSubscribeClient.c:50-86 | a SUBSCRIBE with a filter of 65536 bytes can be sent and its entry is not read back |
| MqttSubscribe.ExpectedItems | libmqtt/MQTTSubscribeServer.c:53-63 | the entries have the filters that were sent, in order, and every QoS that fits a byte |
| MqttSubscribe.ListAcceptedIff | libmqtt/MQTTSubscribeServer.c:48-68 | for data of any length, whatever the packet announces: 1 is returned exactly if what stands in the memory between the identifier and the announced end is a concatenation of encoded entries, or nothing stands there, or the length field has one byte; the entries read are those |
| MqttSubscribe.ReadsInsideIff | libmqtt/MQTTSubscribeServer.c:48-63 | reading stays inside the first bytes of the data if the announced packet does, and for a complete SUBSCRIBE only then; a complete UNSUBSCRIBE is read up to the length of its last filter |
| MqttSubscribe.ForeignBytesAreRead | libmqtt/MQTTSubscribeServer.c:48-68 | of a SUBSCRIBE of eight bytes of which four are there, the entry is read from the bytes behind them and 1 is returned |
| MqttSubscribe.TruncatedIsAccepted | libmqtt/MQTTSubscribeServer.c:48-68 | a SUBSCRIBE whose only filter is cut off is reported as read |
| MqttReader.Source.Get | libmqtt/MQTTPacket.h:107-108 | the contract of getfn: -1, 0, or at most as many bytes as asked for, taken in order from the stream |
| MqttReader.Transport.DecodeNb | libmqtt/MQTTPacket.c:324-350 | the resumable loop: value and end of the length field, or what it has so far, or the fifth attempt |
| MqttReader.Transport.ReadNb | libmqtt/MQTTPacket.c:361-409 | a call goes on to the first event that ends a call; no byte is lost; a finished packet is in the buffer as header, shortest length and body, and its type is returned |
| MqttReader.NothingIsLost | libmqtt/MQTTPacket.c:361-409 | over every history of calls the bytes read are those of the packets and failures, in order, and of the packet being read |
| MqttReader.OnlyFramedPackets | libmqtt/MQTTPacket.c:361-409 | every packet reported has a complete length field, a body of that length, and fits |
| MqttStream.FreshRun | libmqtt/MQTTPacket.c:361-409 | after the end of a packet or a failure the reader goes on like a new one |
| MqttStream.PacketsInOrder | libmqtt/MQTTPacket.c:361-409 | from a stream of packets with bodies, under every schedule of short reads and stalls without an error, the packets whose bytes have come are reported in order as long as each has at most four stalls and bytes in its length field |
| MqttStream.FirstFailure | libmqtt/MQTTPacket.c:324-409 | the first packet of the stream that has more is the first failure, right after the packets before it |
| MqttStream.FramedDeliveredIff | libmqtt/MQTTPacket.c:324-409 | a whole stream of packets that have bodies and fit is delivered, and nothing else, if and only if every packet has at most four stalls and bytes in its length field; otherwise the first one that has more is the first failure |
| MqttStream.DeliveredIff | libmqtt/MQTTPacket.c:324-409 | every whole stream of packets that can be sent is delivered, and nothing else, if and only if every packet has a body, fits the buffer, and has at most four stalls and bytes in its length field |
| MqttStream.FourStallsLoseThePacket | libmqtt/MQTTPacket.c:324-350 | four stalls before a length field of one byte lose the packet, and its other bytes are taken for a new one |
| MqttStream.EmptyBodyNeverEnds | libmqtt/MQTTPacket.c:385-395 | a packet with an empty body is never reported |
| MqttStream.PingIsNeverDelivered | libmqtt/MQTTPacket.c:361-409 | after the two bytes of a PINGRESP nothing is reported, whatever comes without an error |
| MqttReader.SentField | libmqtt/MQTTPacket.c:29-46 | the length fields that the serializers write are fields for the reader, with the same value |
| MqttReader.DecodersAgree | libmqtt/MQTTPacket.c:54-117 | the decoder of the deserializers finds a length field at the start of the data exactly where the readers do, with the same digits and value |
| MqttEndToEnd.PublishesArriveIff | libmqtt/MQTTPacket.c:361-409 | a stream of serialized PUBLISH packets comes out of the resumable reader, in order and nothing else, if and only if each fits the buffer and has at most four stalls and bytes in its length field |
| MqttEndToEnd.ReportedIsDeserialized | libmqtt/MQTTDeserializePublish.c:36-68 | after the call that reports a PUBLISH, its type has been returned and deserializing the buffer gives the packet that was serialized: flags, identifier, topic and payload |
| MqttBlockingReader.Decode | libmqtt/MQTTPacket.c:54-81 | takes the digits up to the end of the field, to the first read that fails or to the fourth; their value, their number, and whether the field has ended |
| MqttBlockingReader.WholeIff | libmqtt/MQTTPacket.c:54-81 | a whole field is taken exactly if the source delivers one digit by digit, and then it is that one |
| MqttBlockingReader.Read | libmqtt/MQTTPacket.c:290-315 | a type is returned only with header, shortest length and body in the buffer and exactly those bytes taken; says whether the length field had ended |
| MqttBlockingReader.SentIsRead | libmqtt/MQTTPacket.c:290-315 | a packet that the source delivers and that fits, with or without a body, is read |
| MqttBlockingReader.ReportedIsFramedIff | libmqtt/MQTTPacket.c:290-315 | what is reported has the body that its digits announce and fits; its length field is a whole one exactly if the source delivers one after the header |
| MqttBlockingReader.EndlessFieldIsReported | libmqtt/MQTTPacket.c:290-315 | a header and four digits without an end are reported as a packet without a body |
| LinkedLists.List.InsertHead | fwd/inc/linkedlists.h:536-542 | the entry comes first; links, ends and size follow |
| LinkedLists.List.InsertTail | fwd/inc/linkedlists.h:545-565 | the entry comes last, also after one whose link was not null; links, ends and size follow; its own link is kept, and only if that is null the list ends with it |
| LinkedLists.List.InsertAfter | fwd/inc/linkedlists.h:520-526 | the entry comes after the given one; links, ends and size follow |
| LinkedLists.List.Remove | fwd/inc/linkedlists.h:412-441 | the entry is taken out and its link cleared; null, and nothing changed, if it is absent or null |
| LinkedLists.List.RemoveHead | fwd/inc/linkedlists.h:391-400 | the first entry is taken out; size stays as it was |
| LinkedLists.List.RemoveCurrent | fwd/inc/linkedlists.h:351-362 | the current entry of a traversal is taken out; size stays as it was |
| LinkedLists.List.RemoveWhere | fwd/inc/linkedlists.h:325-362 | removing during a safe traversal visits every entry once and leaves exactly the others, in order, with correct links and ends |
| LinkedLists.List.MoveWhere | fwd/inc/linkedlists.h:325-379 | moving during a safe traversal appends the selected entries in order to the other list and leaves the others |
| LinkedLists.FilterInOrder | fwd/inc/linkedlists.h:325-379 | what stays, or moves, entry by entry: the k-th entry is the k-th one that is not selected, or is |
| LinkedLists.List.Run | fwd/inc/linkedlists.h:412-565 | every run of insertions and removals, of entries with stale links too, leaves the list of the same operations on a sequence: no cycle, null at the end, correct first, last and size; only the insertion at the tail asks for an entry without a link |
| Base64.CodesHaveChars | fwd/src/base64.c:60-95 | exactly the codes below 64 have characters, and every character gives back its code |
| Base64.CharsHaveCodes | fwd/src/base64.c:60-95 | every character with a code is the character of that code; the padding character has none |
| Base64.AlphabetIs | fwd/src/base64.c:60-95 | the 64 characters, as Table 1 of RFC 4648 lists them |
| Base64.Examples | fwd/src/base64.c:250-286 | the encodings of "f", "fo", "foo" and "foobar" of RFC 4648 section 10 |
| Base64.EncodedLength | fwd/src/base64.c:114-133 | four characters for three bytes, and 0, 2 or 3 for a last part of 0, 1 or 2 |
| Base64.EncodingRegroupsBits | fwd/src/base64.c:140-166 | the characters are the bits of the input, filled up with zeros, six at a time (RFC 4648 section 4) |
| Base64.RoundTrip | fwd/src/base64.c:97-248 | every unpadded encoding can be decoded and gives the input back |
| Base64.ReencodeIff | fwd/src/base64.c:97-248 | a decodable string encodes to itself exactly if the unused bits of its last character are zero |
| Base64.PaddedRoundTrip | fwd/src/base64.c:250-304 | the padded decoder gives back the input of both encoders |
| Base64.PaddedReencodeIff | fwd/src/base64.c:250-304 | a string that the padded decoder accepts encodes to itself, padding included, exactly if its unused bits are zero and its tail is the right padding |
| Base64.MisplacedPaddingIsDecoded | fwd/src/base64.c:288-304 | `AA=B` is decoded, which no byte string encodes to |
| Base64.BinToB64NoPad | fwd/src/base64.c:97-169 | the buffer holds the encoding and a null character, or nothing was written and -1 returned; every error case |
| Base64.B64ToBinNoPad | fwd/src/base64.c:171-248 | the buffer holds the decoded bytes, or -1, or the program ends, exactly for which inputs |
| Base64.BinToB64 | fwd/src/base64.c:250-286 | the padded string and a null character, or -1 exactly if there is no room; then the buffer holds the unpadded string if that had room, and is unchanged otherwise |
| Base64.B64ToBin | fwd/src/base64.c:288-304 | the unpadded decoder on what is left without the padding |

## Left out

- MqttConnect.SerializeConnect: asks that the memory behind the buffer holds what is written; so do the other serializers, which may write past the size that they are given.
- MqttPublish.DeserializePublish: asks that the bytes the code reads without looking at the end of the data exist, and no others; so do the other deserializers.
- MqttSubscribe.DeserializeList: asks for arrays with room for all entries of the packet, because the code never reads maxcount.
- Signs: `char` is taken as unsigned and `size` of the Base64 functions as not negative.
- Word-wise variants of block copy and exclusive or in `fwd/src/aes.c`; both are modelled byte by byte.
- The disabled AES variants (on-the-fly keys, computed S-box).
- Join requests: `LoRaMacJoinComputeMic`, `LoRaMacJoinDecrypt`, `LoRaMacJoinComputeSKeys`; they are single calls of functions modelled here.
- Overlapping input and output at different offsets, in AES-CBC, CMAC and Base64.
- Liveness of the reply queue: both sides share one semaphore, and a wait may return at any time in the model.
- CONNACK, SUBACK, UNSUBACK and acknowledgements, and the client's own `readPacket`.
- The remark of section 4.7.2 of MQTT 3.1.1 on names that begin with `$`.
- LGW_LIST_DELETE_ELM, LGW_LIST_HEAD_SET and LGW_LIST_INSERT_BEFORE_CURRENT.
- Sockets, threads, timers, logging, JSON and protobuf files, and the JiT scheduler.
