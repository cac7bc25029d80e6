# Verified model of the TrustZone demo firmware's data paths

This project models, in Dafny, the parts of the firmware in which octets are rewritten in
place, cached, buffered, framed or handed between threads, and proves what they promise.

- **ECDSA signatures** (`Bytes`, `Der`, `DerWriter`, `EcdsaPsa`, `EcdsaPkcs11`). The PSA transport
  turns a raw signature into DER inside the buffer that holds it, building backwards from the
  end. The result is exactly the one DER value of the two numbers, the status is a function of
  the numbers and the space, and 72 octets is exactly the space P-256 needs. The PKCS#11
  transport's own encoder agrees with it except where a component starts with a redundant zero.
- **Public keys** (`Spki`). The SubjectPublicKeyInfo builder with its separate length counters,
  which P-256 keys pass in any buffer of at least 91 octets. Curves whose identifier has 5, 7 or
  9 octets never pass: a positive length is mistaken for an error code. Key generation
  leaves the private key and exactly its point behind.
- **Key/value store** (`KvSpec`, `KvRecord`, `KvStore`, `KvApi`). The cache with its union of inline
  octets and heap pointers, the records in trusted storage, and the typed interface. It is proved
  to be a pair of maps, volatile and durable, and the durable one to hold what was last persisted,
  over every run of sets, partly failing commits and reboots, from any stored values.
- **UART receive ring** (`UartRing`). Every interleaving of driver, callback and reader is a FIFO
  as long as no octet arrives while 2048 lie unfetched; the octet that does is what the reader
  hands over for the oldest of them. Even then no wake-up is lost, and each call returns one octet.
- **PEM** (`Base64`, `Rfc4648`, `Strnstr`, `Console`, `Pem`, `PemTheorems`). The printer, the line editor and
  the reader: base 64 is the standard's, bit by bit, and the line editor is settled key by key;
  what is printed reads back, with the exact limits; what is accepted is exactly a
  header line, data lines and a footer line; and the length assertion in the reader can
  fire, on a line already refused.
- **Secure calls** (`NsDispatch`). Any number of threads in connect, call and close through the one
  mutex: exclusion, ownership of connections, each caller its own call's result, no deadlock.
- **Command lines** (`CliCommands`). The list of commands, the word count and the in-place tokenizer.

Sizes are those of the 32-bit target: `size_t`, `long` and pointers have four octets. Where code and
documentation differ the code is modelled: the help text asks for two blank lines at the end of a PEM
text (`app/AWS/provision/cli/cli_pki.c:106-112`), but the reader stops at the footer and the line
editor passes over empty lines. A commit leaves the pending flags as they are
(`app/AWS/provision/kvstore/kvstore_cache.c:288-305`), so the next one writes the same values again.

## Model

| member | source | states |
|---|---|---|
| EcdsaPsa.MoveAndStrip | app/AWS/provision/crypto/psa_util.c:622-644 | the overlapping move and the zero-stripping loop leave the shortest spelling of the number just before the write position, and touch nothing outside |
| EcdsaPsa.PadSign | app/AWS/provision/crypto/psa_util.c:646-657 | a zero octet goes in front exactly when the top bit is set, and is refused exactly when there is no room |
| EcdsaPsa.WriteMpiBuf | app/AWS/provision/crypto/psa_util.c:615-664 | for every outcome which one it is; on success the DER INTEGER of the raw number ends at the old position; octets below `start` (the component still to be converted) and above are never touched |
| EcdsaPsa.WriteBoth | app/AWS/provision/crypto/psa_util.c:681-685 | both INTEGERs side by side, computed from the buffer as it was on entry although the first write happens before the second read |
| EcdsaPsa.WriteSig | app/AWS/provision/crypto/psa_util.c:684-689 | the whole SEQUENCE at the end of the buffer, or the error code that the numbers and the space determine |
| EcdsaPsa.SigAsn1FromPsa | app/AWS/provision/crypto/psa_util.c:675-695 | the buffer starts with exactly the DER of the two numbers, whatever zero padding they had; the signature length changes on success only; octets past the usable size are untouched |
| EcdsaPsa.Outcome | app/AWS/provision/crypto/psa_util.c:622-695 | success exactly when r and s are non-zero, half the length plus the INTEGER s fits, and the whole SEQUENCE fits |
| EcdsaPsa.OutcomeCodes | app/AWS/provision/crypto/psa_util.c:622-664 | which failure is -0x60 and that every other is -0x6C |
| EcdsaPsa.ConversionReadsBack | app/AWS/provision/crypto/psa_util.c:666-695 | the written octets are the only ones that a strict parser, defined apart from the encoder, reads as these two numbers |
| EcdsaPsa.P256SpaceIsExact | app/AWS/provision/crypto/psa_util.c:671-695 | with 32-octet components every non-zero signature converts if and only if the buffer has at least 72 octets |
| Der.EcdsaSigIsCanonical | app/AWS/provision/crypto/psa_util.c:606-613 | the DER of a signature reads back and nothing else reads as it (section 2.2.3 of RFC 3279; sections 8.3 and 10.1 of ITU-T X.690) |
| Der.EcdsaSigOctets | app/AWS/provision/crypto/psa_util.c:659-689 | a signature with less than 128 octets of content, octet by octet |
| Der.EcdsaSigTags | app/AWS/provision/crypto/psa_util.c:659-689 | every signature starts with octet 0x30, and octet 0x02 stands where each INTEGER begins |
| Der.IntegerOctets | app/AWS/provision/crypto/psa_util.c:636-657 | the content of an INTEGER is the number, not negative, and no shorter spelling exists |
| Der.LengthOctets | app/AWS/provision/crypto/psa_util.c:659-659 | length octets of one to five octets, spelled out |
| DerWriter.MemMove | app/AWS/provision/crypto/psa_util.c:629-691 | an overlapping move within one buffer delivers the source as it was before |
| DerWriter.WriteHeader | app/AWS/provision/crypto/psa_util.c:659-661 | length and tag in front of content make a complete value exactly when both fit, and are otherwise refused without touching the content |
| EcdsaPkcs11.WritePadded | app/AWS/provision/crypto/mbedtls_pk_pkcs11.c:1191-1203 | the component, and a zero octet before it where its first octet asks for one, as one block before the position |
| EcdsaPkcs11.WriteBigIntFromOctetStr | app/AWS/provision/crypto/mbedtls_pk_pkcs11.c:1173-1220 | the component with its leading zeros kept, as a value that ends at the position, exactly when it fits |
| EcdsaPkcs11.WriteComponents | app/AWS/provision/crypto/mbedtls_pk_pkcs11.c:1242-1252 | both components side by side exactly when they fit the scratch buffer |
| EcdsaPkcs11.SigToAsn1InPlace | app/AWS/provision/crypto/mbedtls_pk_pkcs11.c:1227-1284 | success exactly when the value fits the scratch buffer and the caller's; a failure leaves signature and length as they were |
| EcdsaPkcs11.RawSigReadsBack | app/AWS/provision/crypto/mbedtls_pk_pkcs11.c:1222-1284 | a lenient reader always gets r and s back; a strict one exactly when neither component starts with a redundant zero |
| EcdsaPkcs11.ConversionsAgree | app/AWS/provision/crypto/mbedtls_pk_pkcs11.c:1173-1284 | both encoders mean the same (r, s), and write the same octets if and only if neither component starts with a zero followed by an octet below 0x80 |
| Spki.AlgorithmCanonical | app/AWS/provision/crypto/PkiObjectPsa.c:209-216 | the two object identifiers read back as the curve, and only they do |
| Spki.SpkiIsCanonical | app/AWS/provision/crypto/PkiObjectPsa.c:119-126 | a SubjectPublicKeyInfo reads back as its curve and point, and no other octet string does |
| Spki.WriteOid | app/AWS/provision/crypto/PkiObjectPsa.c:252-259 | an object identifier as a value that ends at the position, exactly when it fits |
| Spki.WriteAlgorithmIdentifier | app/AWS/provision/crypto/PkiObjectPsa.c:294-303 | the identifier in front of parameters already written closes to the AlgorithmIdentifier, and the count returned includes the parameters |
| Spki.PutPoint | app/AWS/provision/crypto/PkiObjectPsa.c:144-171 | the exported point ends up at the buffer's end with a zero octet before it, although it was exported to the front and the two places may overlap |
| Spki.WriteSubjectPublicKey | app/AWS/provision/crypto/PkiObjectPsa.c:144-207 | the exported point, moved to the buffer's end, becomes a BIT STRING of a zero octet and the point, exactly when it fits |
| Spki.WriteAlgorithm | app/AWS/provision/crypto/PkiObjectPsa.c:218-307 | in which order missing curve, missing space and misread lengths end the attempt, and otherwise the AlgorithmIdentifier and its length |
| Spki.BuildOutcome | app/AWS/provision/crypto/PkiObjectPsa.c:128-336 | success exactly when the curve is known, the whole value fits and neither of two positive lengths reads as an error |
| Spki.BuildStatuses | app/AWS/provision/crypto/PkiObjectPsa.c:128-336 | the builder's status by number for no curve and for curve identifiers of up to ten octets |
| Spki.ReadPublicKey | app/AWS/provision/crypto/PkiObjectPsa.c:128-353 | on success the byte count is the length of the value at the front of the buffer, and that value is the SubjectPublicKeyInfo of the curve and point |
| Spki.P256Converts | app/AWS/provision/crypto/PkiObjectPsa.c:128-353 | a P-256 key takes 91 octets and converts exactly in buffers of at least that |
| Spki.P256Octets | app/AWS/provision/crypto/PkiObjectPsa.c:119-336 | the 91 octets of a P-256 key: 26 fixed ones, given by value, and the point |
| Spki.WhichCurvesConvert | app/AWS/provision/crypto/psa_util.c:333-343 | for identifiers of up to ten octets, exactly those of 5, 7 or 9 octets can never convert, because a length is taken modulo 128 for an error code |
| Spki.MisreadLengths | app/AWS/provision/crypto/psa_util.c:333-558 | exactly which positive lengths below 128 are taken for error codes, and the statuses of those that occur |
| Spki.LowCodes | app/AWS/provision/crypto/psa_util.c:338-558 | which of the lengths that occur are taken for error codes |
| Spki.P384NeverConverts | app/AWS/provision/crypto/psa_util.c:545-546 | a P-384 key ends in a corruption error however large the buffer |
| Spki.PointIsTail | app/AWS/provision/crypto/PkiObjectPsa.c:776-777 | the tail slice of the value is the point |
| Spki.KeyStore.Destroy | app/AWS/provision/crypto/PkiObjectPsa.c:725-742 | one key goes or the reason why not is reported |
| Spki.KeyStore.Create | app/AWS/provision/crypto/PkiObjectPsa.c:764-784 | a key appears under an unused identifier, or nothing changes |
| Spki.KeyStore.GenerateKeyPairEC | app/AWS/provision/crypto/PkiObjectPsa.c:702-799 | success exactly for distinct non-zero identifiers, enough space and no refusal; then the pair is under one, exactly its point under the other, and the DER returned reads as that point; a failure carries the status of the first step that failed and leaves the keys as the steps before it left them; other keys are never touched |
| KvRecord.RecordRoundTrip | app/AWS/provision/kvstore/kvstore_nv_psa_its.c:36-40 | header and value read back as the value, and only the value's own record does |
| KvRecord.RecordLayout | app/AWS/provision/kvstore/kvstore_nv_psa_its.c:36-40 | each octet of a record: the type's code, the length lowest octet first, the value |
| KvStore.Store.AllocateDataBuffer | app/AWS/provision/kvstore/kvstore_cache.c:88-101 | room for the new length in a fresh block or in the zeroed entry; other entries and their blocks are kept |
| KvStore.Store.ClearDataBuffer | app/AWS/provision/kvstore/kvstore_cache.c:103-117 | only a block the entry owns and that is live is freed |
| KvStore.Store.ReallocDataBuffer | app/AWS/provision/kvstore/kvstore_cache.c:119-132 | growing frees the block there was and takes another, shrinking keeps it and only sets the length, in either direction across the pointer's size |
| KvStore.Store.WriteData | app/AWS/provision/kvstore/kvstore_cache.c:233-241 | after the copy the entry reads as the value and the representation invariant holds again: long values own a live unshared block of at least their length, short ones lie in the entry |
| KvStore.Store.PrepareEntry | app/AWS/provision/kvstore/kvstore_cache.c:201-231 | a change becomes pending exactly when type or octets differ from what is cached |
| KvStore.Store.WriteCacheEntry | app/AWS/provision/kvstore/kvstore_cache.c:191-244 | exactly one key of the volatile map changes, to the given value; cache and storage stay coherent: a key with no change pending is the same in both |
| KvStore.Store.GetValueLengthFromImpl | app/AWS/provision/kvstore/kvstore_nv_psa_its.c:57-68 | the length of the stored value, 0 if there is none |
| KvStore.Store.ReadValueFromImpl | app/AWS/provision/kvstore/kvstore_nv_psa_its.c:79-149 | type and value as stored, or the exact prefix that the buffer takes; nothing written otherwise |
| KvStore.Store.WriteValueToImpl | app/AWS/provision/kvstore/kvstore_nv_psa_its.c:159-214 | one record replaced whole or nothing changed |
| KvStore.DurSet | app/AWS/provision/kvstore/kvstore_nv_psa_its.c:42-45 | storing a record changes what its key durably reads as, and no other key |
| KvStore.StoredAs | app/AWS/provision/kvstore/kvstore_nv_psa_its.c:36-45 | each key's value lies in storage as its record, under 0x1234 plus the key |
| KvStore.WriteEffect | app/AWS/provision/kvstore/kvstore_cache.c:191-244 | a write that keeps the other entries and blocks is a one-key update of the map |
| KvStore.WriteCoherent | app/AWS/provision/kvstore/kvstore_cache.c:201-241 | such a write keeps coherence if it is marked pending or changed nothing |
| KvStore.CommitEffect | app/AWS/provision/kvstore/kvstore_cache.c:293-302 | skipping entries with no change pending loses nothing: the commit stores everything volatile but the failed keys |
| KvStore.Store.CommitChanges | app/AWS/provision/kvstore/kvstore_cache.c:288-305 | true exactly when no pending key failed, and then both maps are equal, so a reboot shows no getter a difference and earlier failures are repaired; storage outside the keys is untouched |
| KvStore.Store.LoadKey | app/AWS/provision/kvstore/kvstore_cache.c:141-157 | one key of the zeroed cache comes to hold what storage holds |
| KvStore.Store.CacheInit | app/AWS/provision/kvstore/kvstore_cache.c:137-159 | so does every key |
| KvStore.Store.PowerCycle | app/AWS/provision/kvstore/kvstore.c:87-105 | after a restart the volatile map is the durable one |
| KvStore.Store.constructor | app/AWS/provision/kvstore/kvstore.c:87-105 | a first start on given storage |
| KvStore.Store.CopyValueFromCache | app/AWS/provision/kvstore/kvstore_cache.c:247-286 | the prefix that fits goes to the buffer, the whole length is reported |
| KvStore.Store.ReadEntryOrDefault | app/AWS/provision/kvstore/kvstore.c:46-81 | the cached value, or the default row's octets, and nothing of the buffer beyond |
| KvSpec.RunMeans | app/AWS/provision/kvstore/kvstore_cache.c:137-305 | over every run of sets, commits with any failures and reboots, from any stored values, a key is durably its last persisted set, or what was stored at the start if none persisted, and reads as the set made since the last reboot or else as that |
| KvSpec.AfterReboot | app/AWS/provision/kvstore/kvstore_cache.c:137-159 | after a reboot each key reads as its last persisted set, or as what was stored at the start if none persisted |
| KvApi.Perform | app/AWS/provision/kvstore/kvstore_cache.c:137-305 | the real store, started on any stored records and driven through any such run, ends in the state of the two maps |
| KvApi.ReadAfterReboot | app/AWS/provision/kvstore/kvstore.c:46-81 | after any run and a reboot a getter is given the last persisted set of its key, or what it would have been given at the start |
| KvApi.SetBlob | app/AWS/provision/kvstore/kvstore.c:107-120 | a non-empty blob is set exactly if the key's row is a blob; otherwise nothing changes |
| KvApi.SetString | app/AWS/provision/kvstore/kvstore.c:122-135 | likewise, the NUL stored too |
| KvApi.SetUInt32 | app/AWS/provision/kvstore/kvstore.c:137-148 | likewise, in memory order |
| KvApi.SetInt32 | app/AWS/provision/kvstore/kvstore.c:150-161 | likewise, in two's complement |
| KvApi.SetBase | app/AWS/provision/kvstore/kvstore.c:177-188 | likewise |
| KvApi.GetUInt32 | app/AWS/provision/kvstore/kvstore.c:339-363 | the number read and whether four octets were there |
| KvApi.GetInt32 | app/AWS/provision/kvstore/kvstore.c:365-387 | likewise, signed |
| KvApi.GetBase | app/AWS/provision/kvstore/kvstore.c:389-411 | likewise |
| KvApi.GetUBase | app/AWS/provision/kvstore/kvstore.c:413-435 | asks for the signed type, so a key of the unsigned type never reads |
| KvApi.GetBlob | app/AWS/provision/kvstore/kvstore.c:214-230 | the prefix that fits and the whole length |
| KvApi.GetString | app/AWS/provision/kvstore/kvstore.c:277-304 | the same with a NUL forced at the buffer's end, the length without the stored NUL |
| KvApi.GetSize | app/AWS/provision/kvstore/kvstore.c:190-212 | the length any read of the key would report |
| KvApi.ScalarReadsBack | app/AWS/provision/kvstore/kvstore.c:137-188 | a number set is what the matching getter returns; getters of other keys see no change |
| KvApi.ScalarSucceedsExactly | app/AWS/provision/kvstore/kvstore.c:339-411 | a scalar getter reports success exactly if the row has its type and four octets are there, and what it reads when they are not |
| KvApi.StoredInTwosComplement | app/AWS/provision/kvstore/kvstore.c:150-188 | a signed number is stored as its 32-bit two's complement, lowest octet first |
| KvApi.StringReadsBack | app/AWS/provision/kvstore/kvstore.c:277-304 | a string comes back whole or as the NUL-terminated prefix that fits, its full length reported in both cases |
| KvApi.UnsetStringReads | app/AWS/provision/kvstore/kvstore.c:277-304 | a string never set, its default empty, has length 0, but the buffer keeps what it held: it is the empty string exactly if it began with a NUL or has one octet |
| KvApi.UnsetLength | app/AWS/provision/kvstore/kvstore.c:57-78 | the length reported for a key never set is its default's for every size of buffer: four for numbers |
| KvApi.BlobReadsBack | app/AWS/provision/kvstore/kvstore.c:214-230 | a blob comes back as the prefix that fits, under its full length |
| KvApi.DefaultReadsRight | app/AWS/provision/kvstore/kvstore.c:57-78 | a default behind a pointer reads as itself for every pointer exactly when none or more than four octets are taken; with one to four the pointer's own octets are read |
| KvApi.ShortBlobDefault | app/AWS/provision/kvstore/kvstore.c:57-78 | a three-octet blob default that reads as its address |
| KvApi.ConfiguredRowsReadRight | app/AWS/provision/config/kvstore_config.h:55-83 | no configured row is read wrongly: unset strings have length 0 and unset numbers are their defaults |
| UartRing.ReceiveKeepsInv | app/AWS/Board/B-U585I-IOT02A/retarget_stdio.c:56-56 | an octet stored in the armed region lands in the slot of its number and overwrites nothing unfetched |
| UartRing.CallbackKeepsInv | app/AWS/Board/B-U585I-IOT02A/retarget_stdio.c:49-59 | each access of the callback keeps the invariant, across the wrap of the index and of the buffer |
| UartRing.CallbackRearms | app/AWS/Board/B-U585I-IOT02A/retarget_stdio.c:49-59 | from every state the callback alone gets within four steps to a region in which any octet can be received |
| UartRing.GetcharKeepsInv | app/AWS/Board/B-U585I-IOT02A/retarget_stdio.c:119-129 | so does each access of the reader |
| UartRing.WrappedDifference | app/AWS/Board/B-U585I-IOT02A/retarget_stdio.c:120-120 | the 32-bit difference of the wrapped indices is the true count, for any count below 2^32 |
| UartRing.EachCallReturnsOne | app/AWS/Board/B-U585I-IOT02A/retarget_stdio.c:110-132 | over every run each call that has ended has returned exactly one octet, and at most one has not ended |
| UartRing.WaitsExactlyWhenEmpty | app/AWS/Board/B-U585I-IOT02A/retarget_stdio.c:119-129 | a check leads to the wait exactly when everything announced has been handed over |
| UartRing.OnlyTheFlagBlocks | app/AWS/Board/B-U585I-IOT02A/retarget_stdio.c:119-129 | the reader is held up only by a clear event flag |
| UartRing.EachWakeIsSignalled | app/AWS/Board/B-U585I-IOT02A/retarget_stdio.c:53-129 | the reader does not spin: it is woken at most as often as the callback signals |
| UartRing.EveryRunIsFifo | app/AWS/Board/B-U585I-IOT02A/retarget_stdio.c:49-132 | in every state of every interleaving in which no octet arrives while 2048 lie unfetched, the characters returned are, in order and once each, the first of those that arrived |
| UartRing.EveryRunWakes | app/AWS/Board/B-U585I-IOT02A/retarget_stdio.c:49-132 | in every state of every interleaving, the sender outrunning the ring or not, no reception crosses the buffer's end and no wake-up is lost, while fewer than 2^32 octets lie unfetched |
| UartRing.ReaderDeliversNext | app/AWS/Board/B-U585I-IOT02A/retarget_stdio.c:110-132 | with something unread and the callback at rest, the reader returns exactly the next octet within four accesses |
| UartRing.ReaderDrains | app/AWS/Board/B-U585I-IOT02A/retarget_stdio.c:110-132 | left alone, the reader goes on to return everything announced |
| UartRing.LapSpoils | app/AWS/Board/B-U585I-IOT02A/retarget_stdio.c:28-41 | an octet one lap after the oldest unfetched one makes the ring disagree with what arrived exactly when the two differ |
| UartRing.OverrunSpoils | app/AWS/Board/B-U585I-IOT02A/retarget_stdio.c:49-132 | from every stage of callback and reader: an octet that arrives while 2048 lie unfetched is what the reader hands over for the oldest of them, whatever follows within a lap, so the characters returned are those that arrived exactly when the two are equal |
| UartRing.OverrunIsRead | app/AWS/Board/B-U585I-IOT02A/retarget_stdio.c:110-132 | and from every such stage the reader gets to hand it over with nothing more arriving |
| Base64.DecodeOfEncode | app/AWS/provision/cli/cli_pki.c:147-153 | decoding undoes encoding for every octet string (section 4 of RFC 4648) |
| Base64.EncodeAlphabet | app/AWS/provision/cli/cli_pki.c:147-153 | an encoding consists of digits and padding and starts with a digit |
| Rfc4648.EncodeSpells | app/AWS/provision/cli/cli_pki.c:147-153 | character i of an encoding is the table's character for the i-th six bits, or "=" past the last bit (section 4 of RFC 4648) |
| Rfc4648.DecodeReads | app/AWS/provision/cli/cli_pki.c:666-684 | a text decodes exactly if it is groups of four of the table's characters with up to two "=" at the end, and then to the octets whose bits the characters spell |
| Strnstr.Search | app/AWS/provision/libc/strnstr.c:40-59 | the first position where the whole needle lies within the first slen characters and before any NUL, none exactly when there is none; both loops end |
| Strnstr.OccursInPrefix | app/AWS/provision/libc/strnstr.c:36-39 | what lies beyond the first slen characters does not matter |
| Console.Terminal.ReadLine | app/AWS/provision/cli/cli_io_drv.c:64-117 | the edited line, NUL-terminated in the buffer, with exactly the consumed characters gone from the input |
| Console.EditPlain | app/AWS/provision/cli/cli_io_drv.c:73-110 | printable text up to a carriage return arrives as one line, cut at 127 characters |
| Console.EraseUndoes | app/AWS/provision/cli/cli_io_drv.c:81-110 | a character typed and erased, by either key, leaves no trace |
| Console.EraseOne | app/AWS/provision/cli/cli_io_drv.c:81-93 | backspace and delete take the last character away, and nothing from an empty line |
| Console.CancelIsIgnored | app/AWS/provision/cli/cli_io_drv.c:78-80 | control-C leaves the line as it is |
| Console.EitherEndEnds | app/AWS/provision/cli/cli_io_drv.c:94-102 | carriage return and line feed alike end a line that is not empty and are ignored on an empty one |
| Console.FullLineLeavesRest | app/AWS/provision/cli/cli_io_drv.c:103-110 | the 127th character ends the line, and what follows is left for the next one |
| Pem.PrintLine | app/AWS/provision/cli/cli_pki.c:137-160 | 48 octets print as one line, and the 67-octet line buffer is never overrun nor its error branch taken |
| Pem.PrintDer | app/AWS/provision/cli/cli_pki.c:124-172 | header, all data lines in order, footer |
| PemTheorems.PemFrame | app/AWS/provision/cli/cli_pki.c:124-172 | the printed text around them, character by character (section 2 of RFC 7468) |
| PemTheorems.BodyWrapsEncoding | app/AWS/provision/cli/cli_pki.c:135-165 | the data lines are the base 64 encoding of the whole value, broken by CR LF after every 64 characters and at its end |
| Pem.FindMark | app/AWS/provision/cli/cli_pki.c:619-648 | the header and footer checks on the line buffer are checks on the line |
| Pem.StepLine | app/AWS/provision/cli/cli_pki.c:599-698 | one line leaves the reader with fewer than 2048 octets |
| Pem.ReadPemFromCli | app/AWS/provision/cli/cli_pki.c:570-712 | the loop over buffer and flags comes to what the line-by-line reader of the specification comes to |
| PemTheorems.ReadFooter | app/AWS/provision/cli/cli_pki.c:642-659 | a printed footer ends the text exactly when it is short enough and still has room as text |
| PemTheorems.StepData | app/AWS/provision/cli/cli_pki.c:666-684 | a printed data line adds its octets, is refused for lack of room, or hits the assertion |
| PemTheorems.ReadBody | app/AWS/provision/cli/cli_pki.c:593-698 | so the data lines and footer of any value read back, are refused or hit the assertion, by its length alone |
| PemTheorems.PrintedPemReadsBack | app/AWS/provision/cli/cli_pki.c:124-172 | for every label of plain characters and every DER: typing back the printed text gives the identical DER exactly when the header fits 64 characters and DER plus footer stays below 2047; at exactly 2048 octets of DER the assertion fires, otherwise the text is refused |
| PemTheorems.PrintAndTypeBack | app/AWS/provision/cli/cli_pki.c:570-712 | the printer's own output fed to the reader comes back as the identical DER under exactly that condition, and the reader never waits for more |
| PemTheorems.RoundTripUpTo1984 | app/AWS/provision/cli/cli_pki.c:570-712 | hence every DER of at most 1984 octets survives |
| PemTheorems.AcceptsExactlyPem | app/AWS/provision/cli/cli_pki.c:593-711 | a text is accepted if and only if its lines are a header line, data lines of at most 64 characters that a strict decoder takes, and a footer line, each with room left |
| PemTheorems.AcceptedIsConcatenation | app/AWS/provision/cli/cli_pki.c:666-684 | the result is the lines' decodings end to end and shorter than 2048 octets |
| PemTheorems.AssertionFiresExactly | app/AWS/provision/cli/cli_pki.c:603-684 | the length assertion fires exactly on a line after the header that decodes to all the octets left, and such a line has always been refused before |
| NsDispatch.PackIsExact | tfm/interface/src/tfm_psa_ns_api.c:35-54 | psa_call's guard admits exactly the arguments that survive packing, and where in the word each goes |
| NsDispatch.QuietStep | tfm/interface/src/tfm_ns_interface.c:30-44 | acquiring, releasing and going on keep the invariant |
| NsDispatch.ExecuteStep | tfm/interface/src/tfm_ns_interface.c:39-39 | so does executing a call, which acts on its own thread's connection |
| NsDispatch.EveryRunIsSerialised | tfm/interface/src/tfm_firmware_update_ipc_api.c:13-181 | under every interleaving at most one thread is in the secure world, open connections are those some thread has connected and not closed, each call and close names its own thread's; a finished update call has executed exactly a connect to its service, a call with its own packed arguments on the handle that returned, and the close of it, and reports that call's result, or else the reason why it got less far; when all threads are out nothing is open |
| NsDispatch.EachCallIsItsOwn | tfm/interface/src/tfm_firmware_update_ipc_api.c:13-181 | the executed call an update call reports on is the only one of its thread between its start and its return, and it reports on none exactly if there is none; its status is that call's result, 3 becoming -135; no two update calls share an executed call, and each executed call belongs to one |
| NsDispatch.CallAlone | tfm/interface/src/tfm_firmware_update_ipc_api.c:13-44 | an undisturbed call, in full: the three log entries it makes, the status it returns, and everything as before |
| NsDispatch.OwnIsAll | tfm/interface/src/tfm_ns_interface.c:30-44 | what a thread executed since a point is all of its entries in the log from there, in their order |
| NsDispatch.SomeThreadCanGoOn | tfm/interface/src/tfm_ns_interface.c:36-41 | no deadlock while any thread is inside a call |
| NsDispatch.SecureSideIsFree | tfm/interface/src/tfm_ns_interface.c:39-39 | the model lets the secure side answer anything, a new handle only excepted if it is open |
| NsDispatch.WithoutMutexNotExclusive | tfm/interface/src/tfm_ns_interface.c:16-37 | if the mutex was not created, two threads can be in the secure world at once |
| CliCommands.Registry.RegisterCommand | app/AWS/provision/cli/cli_main.c:85-123 | the list gains the command at its end |
| CliCommands.Registry.FindMatchingCommand | app/AWS/provision/cli/cli_main.c:127-149 | the earliest registered command that the line names, or none when there is none |
| CliCommands.MatchInBuffer | app/AWS/provision/cli/cli_main.c:136-138 | the comparison in the buffer is a comparison with the line, also for names longer than it |
| CliCommands.MatchedLines | app/AWS/provision/cli/cli_main.c:136-138 | a name matches itself and every line that starts with it and a space |
| CliCommands.WordsAreTheRuns | app/AWS/provision/cli/cli_main.c:315-327 | the words are the maximal runs of characters other than spaces, all of them, from left to right |
| CliCommands.EndsAreWords | app/AWS/provision/cli/cli_main.c:318-327 | counting ends of words counts words |
| CliCommands.GetNumberOfArgs | app/AWS/provision/cli/cli_main.c:309-333 | the count is the number of words |
| CliCommands.NextToken | app/AWS/provision/cli/cli_main.c:172-177 | the next word is cut out in place, by one NUL, and the rest of the line is still there |
| CliCommands.Tokenize | app/AWS/provision/cli/cli_main.c:164-182 | as many tokens as were counted, so neither assertion fails; each argv entry points at its word, NUL-terminated |
| CliCommands.GetParameter | app/AWS/provision/cli/cli_main.c:196-255 | parameter n is word n where the line starts with a word, word n - 1 where it starts with a space, and none past the last |
| CliCommands.NameIsFirstWord | app/AWS/provision/cli/cli_main.c:136-255 | a one-word name is the first word of every line it matches, so parameter n is word n of the line and there is none past the last word |
| CliCommands.MatchedByFirstWord | app/AWS/provision/cli/cli_main.c:136-141 | a one-word name matches exactly the lines of which it is the first word |
| CliCommands.SafeNames | app/AWS/provision/cli/cli_main.c:164-172 | exactly the names with a character other than a space leave argv[0] a place on every line they match |
| CliCommands.ProcessCommand | app/AWS/provision/cli/cli_main.c:154-192 | the earliest match, argc of at least one, argv the words, argv[0] the command's name, and argv[n] where parameter n starts when the name is one word |

## Left out

- mbedTLS, PKCS#11, CMSIS-RTOS, the HAL and the secure side are not part of this model beyond the contracts written here: bounded backward writes, whole-record storage, a mutex, an event flag that a wait clears.
- Spki.ReadPublicKey: the point's export succeeds and the key is an elliptic curve key; a failed export writes in front of the buffer in the source, and RSA keys take other branches.
- Spki.ToPsaError: the codes of mbedTLS's low-level modules are told apart, those of its high-level modules are not, except one; which statuses they map to does not matter to the builder.
- Spki.KeyStore.GenerateKeyPairEC: the status is the PSA one; its translation to an mbedTLS code is a table.
- KvStore.Store.WriteCacheEntry: a value without type is excluded; the source's assertion would let one pass, no setter passes one.
- KvStore.Store.Malloc: allocation always succeeds, and blocks abandoned when a value shrinks below a pointer's size are never reclaimed, as in the source; safe ownership is proved, freedom from leaks is not.
- KvStore.Store.ReadValueFromImpl: trusted storage holds only whole records written by this module, and reading it does not fail by itself; the caller's heap block is modelled as a buffer whose octets are then stored.
- KvApi.SetTyped: setters and getters run one at a time; in the source setters do not take the store's mutex.
- KvApi.GetString: the buffer has at least one octet, since the source writes its last one unconditionally; default strings that are not empty come back one character short, all configured ones are empty.
- The unsigned base setter is left out: no getter can read what it writes (KvApi.GetUBase).
- UartRing: modelled on values, as a state machine over the accesses to shared variables, since callback and reader interleave; octets that arrive while no reception is armed are not modelled.
- Base64.Decode: strict padding, whole groups of four digits and no spaces; mbedTLS's decoder also skips line ends and spaces at the end of a line, and drops an unfinished last group.
- PemTheorems.AcceptsExactlyPem: exact for that strict decoder; data lines with spaces at their end or an unfinished last group, which mbedTLS takes, are refused in the model.
- Console.Terminal.ReadLine: the echo on the terminal is not modelled.
- NsDispatch: modelled on values, as a state machine over the steps of any number of threads; the secure side answers a call with any status.
- CliCommands.ProcessCommand: the interpreter's call itself, help texts and the message for unknown commands.
- Sockets, Wi-Fi, Ethernet, provisioning scripts, logging and configuration tables are input, output or finite tables.
