# VeraCrypt common core: a verified model

This project models the parts of VeraCrypt's common code that are algorithms and
protocols in their own right, and proves what they promise. Each module follows one
routine family of one source file; the code that changes buffers, arrays and fields
in place is modelled by methods and classes that do the same, and each of them is
proved against a specification function or predicate about which the properties are
then proved as lemmas. All source files named below are in `VeraCrypt/src/Common`.

| module | what it models |
|---|---|
| `CipherTable`, `CipherCascade` | Encryption algorithm rows, key schedule layout, and the four buffer routines that walk a cascade forward or backward (`Crypto.c`). One XTS pass is an arbitrary length-keeping function with an inverse on whole blocks (sections 5.3 and 5.4 of IEEE 1619-2007). |
| `BlockBatches` | Batched against single-block enciphering (`Crypto.c`). |
| `MemoryProtection` | In-memory protection with one keystream per ID (`Crypto.c`). |
| `PasswordCache` | The driver's four-slot password ring (`Cache.c`). |
| `Crc32` | The table-driven and the bit-by-bit checksum (`Crc.c`, `Crc.h`). |
| `CommandApdu` | Smart card command encoding and decoding (`CommandAPDU.cpp`). |
| `AlignedFile` | File access on devices that transfer only multiples of 4096 bytes (`BootEncryption.cpp`). |
| `HeaderRewrite` | The multi-pass header rewrite of a password change (`BootEncryption.cpp`). |
| `LoadOption`, `BootOrder` | The firmware boot entry and boot order (`BootEncryption.cpp`). |
| `MultiString` | Double-zero-terminated string lists (`BootEncryption.cpp`). |
| `NamedMutex` | The mutual exclusion protocol between program instances (`Dlgcode.c`). |
| `VolumeIdCache` | The lookup of devices by volume ID (`Dlgcode.c`). |
| `BenchmarkSort` | The in-place bubble sort of benchmark results (`Dlgcode.c`). |
| `MountRetry` | The retry loop of a mount (`Dlgcode.c`). |
| `StringPool` | The dictionary's string pool and its maps (`Dictionary.c`). |
| `Base` | Integer types and `Option`. |

## How the outside appears

Ciphers, key expansion, keystreams, header formats, driver and user answers, device
lists and what opening a device yields are parameters: functions that a lemma
quantifies over, restricted only by what it requires of them (`Lawful`, `Fills`).
System calls of `AlignedFile` draw on a script of outcomes, those of `HeaderRewrite`
on a fault function, and those of `NamedMutex` are the steps of the state machine,
split at each call and interleaved in every way. A C++ exception or an error return
is a result value.

## Where the code and its descriptions differ

- `CommandAPDU.cpp:112-116`: the label for success falls through into `clear()`, so a
  parsed object keeps only its success and extended flags. `Parse` has it so;
  `Classify` is what the routine computes before the label.
- `BootEncryption.cpp:995-1010`: after a write protection error `File::Write` returns
  normally although the end of the data was dropped, or the last block went to the
  start of the range, for the sizes that `ExactForSafeSizes` and `OldOrNewExactly`
  single out. Both are about a write right after a seek, which is how the callers in
  this file write to devices; `ExactUnsoughtOnlyNothing` says what is left without one.
- `BootEncryption.cpp:991-998`: the last error is looked at even when no call failed, as after
  a short write at the end of the medium, so that an old write protection error counts
  as a new one (`UndisturbedWriteReturns`).
- `BootEncryption.cpp:5346-5371`: -1 stands for a backup header that was not found, and so
  a partition whose backup header would be at -1 counts as none (`GoesAhead`).
- `BootEncryption.cpp:2841-2888`: a boot order longer than the buffer reads as empty;
  setting the entry then replaces it. An order that fills the buffer is written behind
  when an entry is inserted (`FullOrderOverruns`). `OthersSurviveExactly` says exactly
  when neither happens.
- `Dlgcode.c:13201-13220`: the cache of volume IDs does not see a device go away during
  a call that is answered from the mounted volumes, and can answer wrongly afterwards
  (`UnseenAbsence`); `FreshExactly` and `LookupAgreesExactly` say when it does not.
- `BootEncryption.cpp:4620`: appending behind an empty string inside the buffer stores
  a string no walk will reach (`AppendExactly`).
- `BootEncryption.cpp:2744-2822`: strings with a zero character and path lists beyond
  16 bits are written but not read back (`ReadBackExactly`).
- `Dlgcode.c:3388-3395`: that nobody has the mutex does not make acquiring succeed
  (`RefusedThoughNobodyHolds`); `AcquiresExactlyWhenFree` says what does.

## Model

| member | source | states |
|---|---|---|
| `CipherTable.CipherGet` | VeraCrypt/src/Common/Crypto.c:374-382 | The table row found for a cipher id is the first with that id; an unknown id yields none (sizes 0). |
| `CipherTable.FoundIsFirst` | VeraCrypt/src/Common/Crypto.c:374-382 | By position: the record at the first place with the id is found, and nothing behind the table's end. |
| `CipherTable.Cascade` | VeraCrypt/src/Common/Crypto.c:79-123 | The cipher ids of a row are what stands before its first zero. |
| `CipherTable.EAGetFirstCipher` | VeraCrypt/src/Common/Crypto.c:662-665 | The forward walk starts at the first cipher of the cascade, 0 for an empty row. |
| `CipherTable.EAGetLastCipher` | VeraCrypt/src/Common/Crypto.c:668-674 | The backward walk starts at the last cipher of the cascade. |
| `CipherTable.EAGetNextCipher` | VeraCrypt/src/Common/Crypto.c:677-687 | What stands right behind a cipher in the cascade; 0 behind the last one and for an id that is not in the row. |
| `CipherTable.EAGetPreviousCipher` | VeraCrypt/src/Common/Crypto.c:690-704 | What stands right in front of a cipher; 0 in front of the first one, for an id that is not in the row, and for an all-zero row. With `EAGetNextCipher` this makes the backward walk the exact reverse of the forward one. |
| `CipherTable.CipherGetKeyScheduleSize` | VeraCrypt/src/Common/Crypto.c:408-416 | The schedule size stored for the id, 0 for an unknown id. |
| `CipherTable.EAGetKeyScheduleSize` | VeraCrypt/src/Common/Crypto.c:636-647 | The loop adds up to the end offset of the last cipher's schedule, where the decryption cursor starts; 0 for an all-zero row. |
| `CipherTable.SlicesDisjoint` | VeraCrypt/src/Common/Crypto.c:467-490 | The schedules of two positions of a cascade never overlap: the earlier one ends at or before the start of the later one. |
| `CipherTable.EveryRowFits` | VeraCrypt/src/Common/Crypto.h:172-178 | For all schedule sizes every row of the algorithm table is well formed and its schedules together fit `MAX_EXPANDED_KEY`. |
| `CipherTable.SomeRowFills` | VeraCrypt/src/Common/Crypto.h:172-178 | For all schedule sizes some row needs all of `MAX_EXPANDED_KEY`, so that it is the least size that fits every row. |
| `CipherTable.SizesOfTable` | VeraCrypt/src/Common/Crypto.c:55-75 | Each cipher id is given its own schedule size by the lookup, whatever the sizes are, with blocks of 16 and keys of 32 bytes. |
| `CipherCascade.CipherGetKeySize` | VeraCrypt/src/Common/Crypto.c:398-406 | The key size stored for the id, 0 for an unknown id. |
| `CipherCascade.CipherInit` | VeraCrypt/src/Common/Crypto.c:474-488 | The k-th cipher is initialised from the k-th part of the concatenated keys; `EachFromItsOwnKey` says which part that is. |
| `CipherCascade.EAInit` | VeraCrypt/src/Common/Crypto.c:467-490 | Fails exactly for row 0 or when some cipher's own key expansion fails, reports a weak key exactly when some cipher does; otherwise every cipher's schedule stands at its own offset, and bytes behind the layout are untouched. |
| `CipherCascade.EachFromItsOwnKey` | VeraCrypt/src/Common/Crypto.c:467-490 | For keys given one for each cipher and laid end to end: initialisation fails or reports a weak key exactly when that of some cipher with its own key does, and otherwise the k-th slice of the schedule buffer is what the k-th cipher makes of the k-th key. |
| `CipherCascade.OwnKey` | VeraCrypt/src/Common/Crypto.c:486-487 | The part of the concatenated keys that is handed to the k-th cipher is the k-th key. |
| `CipherCascade.LaidOutStep` | VeraCrypt/src/Common/Crypto.c:474-488 | Storing the k-th schedule at its cursor keeps all earlier ones intact and stays inside the layout. |
| `CipherCascade.KeysInside` | VeraCrypt/src/Common/Crypto.c:486-487 | The parts of the concatenated keys handed to two ciphers do not overlap. |
| `CipherCascade.CursorStep` | VeraCrypt/src/Common/Crypto.c:932-933 | What the cursor spans between the offsets of the k-th and the next cipher is the k-th schedule slice; the same one moving up or down. |
| `CipherCascade.EncryptBufferXTS` | VeraCrypt/src/Common/Crypto.c:930 | One pass changes exactly the first len bytes, to what the pass makes of them. |
| `CipherCascade.DecryptBufferXTS` | VeraCrypt/src/Common/Crypto.c:1015 | The same for the inverse pass. |
| `CipherCascade.EncryptBuffer` | VeraCrypt/src/Common/Crypto.c:909-942 | For the XTS mode the buffer is the whole cascade applied in order with each cipher's own slices, data units counted from 0; bytes beyond len are untouched; any other mode changes nothing and raises. |
| `CipherCascade.EncryptDataUnitsCurrentThread` | VeraCrypt/src/Common/Crypto.c:954-984 | The same with data units counted from the given one and a length of whole units. |
| `CipherCascade.EncipheredInStages` | VeraCrypt/src/Common/Crypto.c:909-942 | Pass by pass: the k-th stage of the data is one pass of cipher k, with its slices of both schedule buffers, over the stage before it. |
| `CipherCascade.DecryptBuffer` | VeraCrypt/src/Common/Crypto.c:991-1024 | The backward walk with falling cursors undoes the ciphers last one first, each with the slices encryption gave it, and the cursors end at 0. |
| `CipherCascade.DecryptDataUnitsCurrentThread` | VeraCrypt/src/Common/Crypto.c:1035-1069 | The same with data units counted from the given one. |
| `CipherCascade.DecipherUndoesEncipher` | VeraCrypt/src/Common/Crypto.c:909-1069 | For every cascade, buffer of whole blocks, start unit and schedule contents, undoing all ciphers gives back the data. |
| `CipherCascade.EncipherUndoesDecipher` | VeraCrypt/src/Common/Crypto.c:909-1069 | And enciphering what was deciphered gives back the data. |
| `CipherCascade.DecryptedEncrypted` | VeraCrypt/src/Common/Crypto.c:909-1069 | The results of the four buffer routines under one crypto information record are inverse to each other in both orders. |
| `CipherCascade.SameKeysSameCascade` | VeraCrypt/src/Common/Crypto.c:467-490 | The cascade depends on the schedule buffers only through the slices of its own ciphers: two buffers that agree there encrypt and decrypt alike, whatever else they hold. |
| `CipherCascade.SameKeysDecrypt` | VeraCrypt/src/Common/Crypto.c:467-490 | What was encrypted under one record is decrypted under any other one initialised by `EAInit` from the same keys, whatever else their schedule buffers hold. |
| `CipherCascade.LengthKept` | VeraCrypt/src/Common/Crypto.c:909-1069 | No number of passes changes the length of the data. |
| `BlockBatches.TransformRun` | VeraCrypt/src/Common/Crypto.c:221-275 | A batch routine handed n blocks changes exactly those, block by block. |
| `BlockBatches.TransformBlocks` | VeraCrypt/src/Common/Crypto.c:221-275 | Whatever processor features there are and whatever branch they select, every one of the blockCount blocks is transformed exactly once and nothing behind them changes. |
| `BlockBatches.EncipherBlocks` | VeraCrypt/src/Common/Crypto.c:221-275 | The enciphering direction: same bytes from the batched and the one-block path. |
| `BlockBatches.DecipherBlocks` | VeraCrypt/src/Common/Crypto.c:313-367 | The deciphering direction: same bytes from the batched and the one-block path. |
| `BlockBatches.EachBlockSplit` | VeraCrypt/src/Common/Crypto.c:230-236 | Transforming two runs of blocks one after the other is transforming the joined run. |
| `BlockBatches.EachBlockAt` | VeraCrypt/src/Common/Crypto.c:221-275 | Block k of a transformed run is the block function of block k of the run, and of nothing else. |
| `BlockBatches.RunsUndoEachOther` | VeraCrypt/src/Common/Crypto.c:221-367 | A run enciphered by any path is deciphered by any path, in both orders. |
| `MemoryProtection.VcProtectMemory` | VeraCrypt/src/Common/Crypto.c:1404-1449 | The four buffers end to end are combined with one keystream running across them; nothing happens without the key derivation area. |
| `MemoryProtection.MaskedAcrossFour` | VeraCrypt/src/Common/Crypto.c:1436-1440 | Four encryptions in a row under one context are one encryption of the concatenation. |
| `MemoryProtection.ProtectTwice` | VeraCrypt/src/Common/Crypto.c:1404-1449 | Protecting twice under one ID restores all four buffers, for all lengths. |
| `MemoryProtection.MaskedTwice` | VeraCrypt/src/Common/Crypto.c:1436-1440 | A keystream applied twice from the same position cancels. |
| `MemoryProtection.MaskedAt` | VeraCrypt/src/Common/Crypto.c:1404-1449 | Byte by byte: what is combined with byte i is the keystream byte at its position, and nothing without the key derivation area. |
| `PasswordCache.UnprotectAfterProtect` | VeraCrypt/src/Common/Cache.c:27-40 | A password record protected and unprotected under its ID is the record again. |
| `PasswordCache.ProtectedBytes` | VeraCrypt/src/Common/Cache.c:27-40 | One keystream runs through the text and goes on in the length field; the padding is left alone. |
| `PasswordCache.WidenedExactly` | VeraCrypt/src/Common/Cache.c:173-182 | Two legacy records become equal full records exactly when length and text agree; bytes behind the text have no say, since zeros take their place. |
| `PasswordCache.Cache.constructor` | VeraCrypt/src/Common/Cache.c:22-25 | A new cache is a wiped one. |
| `PasswordCache.Cache.FindPassword` | VeraCrypt/src/Common/Cache.c:56-67 | The first slot that, with in-memory encryption taken off, holds exactly the given record; 4 when none does. |
| `PasswordCache.Cache.AddPasswordToCache` | VeraCrypt/src/Common/Cache.c:132-171 | With or without RAM encryption the decrypted cache changes as specified: a new record goes to the ring position with its PIM, a hit only refreshes the PIM and only when PIMs are cached. |
| `PasswordCache.Cache.AddLegacyPasswordToCache` | VeraCrypt/src/Common/Cache.c:173-182 | A legacy record is cached as its zero-padded full record, with its PIM. |
| `PasswordCache.Cache.ReadVolumeHeaderWCache` | VeraCrypt/src/Common/Cache.c:42-129 | A typed password decides the result alone and is cached exactly after success or a weak key when caching was asked for; without one, the non-empty cache is tried and left as it was. |
| `PasswordCache.Cache.WipeCache` | VeraCrypt/src/Common/Cache.c:184-190 | All slots, PIMs, the ring position and the empty flag are as at the start. |
| `PasswordCache.FirstAnswerWins` | VeraCrypt/src/Common/Cache.c:96-128 | A cached mount returns the answer of the first eligible slot, in slot order, that is not a wrong password, and a wrong password exactly when there is none. |
| `PasswordCache.AddedPasswordMounts` | VeraCrypt/src/Common/Cache.c:42-171 | A volume that takes just the added password is then mounted from the cache with the PIM cached for it, or 0, or with the one typed; a password of length 0, or of more than 128 bytes (64 at boot), never opens it. |
| `PasswordCache.AddedElsewhere` | VeraCrypt/src/Common/Cache.c:132-171 | An addition leaves every other slot and PIM alone, and a hit the ring position too. |
| `PasswordCache.WipedOpensNothing` | VeraCrypt/src/Common/Cache.c:96-128 | Without RAM encryption a wiped cache answers every cached mount with a wrong password. |
| `PasswordCache.MountAdds` | VeraCrypt/src/Common/Cache.c:49-94 | A mount with a typed password changes the cache exactly as adding it does when asked to cache and the answer is 0 or 18, and not at all otherwise. |
| `PasswordCache.EveryRunHolds` | VeraCrypt/src/Common/Cache.c:42-190 | After every run of additions, mounts and wipes the slots hold exactly the last four insertions since the last wipe, each at its insertion number modulo 4, pairwise distinct, with the PIM last stored; PIMs are never negative and the ring position is below 4. |
| `PasswordCache.MissKeeps` | VeraCrypt/src/Common/Cache.c:150-163 | An insertion keeps that invariant: it overwrites the oldest entry and no other, and creates no duplicate. |
| `PasswordCache.HitKeeps` | VeraCrypt/src/Common/Cache.c:164-167 | A hit keeps it and reorders nothing. |
| `PasswordCache.HitIsRecent` | VeraCrypt/src/Common/Cache.c:136-148 | The slot found belongs to a recent insertion exactly when that insertion's password is the one looked for. |
| `PasswordCache.FullCacheDetermined` | VeraCrypt/src/Common/Cache.c:42-190 | Once four passwords have been inserted, the visible state is a function of the insertion history alone, whatever the slots held before. |
| `PasswordCache.SameSlot` | VeraCrypt/src/Common/Cache.c:56-67 | On written slots the encrypted and the unencrypted cache find a password in the same slot. |
| `PasswordCache.SameCachedResult` | VeraCrypt/src/Common/Cache.c:96-128 | Two caches with the same history answer a cached mount alike, provided no never-written slot opens the header. |
| `PasswordCache.SameLogs` | VeraCrypt/src/Common/Cache.c:42-190 | Two caches with different blank contents, such as zeros and keystream, go through the same insertion history for every run whose passwords do not coincide with a never-written slot. |
| `Crc32.EntryIsShift8` | VeraCrypt/src/Common/Crc.c:21-55 | Each of the 256 literal table entries is what eight conditional shifts make of its index. |
| `Crc32.ShiftLinear` | VeraCrypt/src/Common/Crc.c:112-118 | A conditional shift is linear over exclusive or. |
| `Crc32.ShiftsLinear` | VeraCrypt/src/Common/Crc.c:112-118 | So are any number of them. |
| `Crc32.ShiftInjective` | VeraCrypt/src/Common/Crc.c:114-117 | A conditional shift loses nothing. |
| `Crc32.ByteStep` | VeraCrypt/src/Common/Crc.c:104-122 | Eight conditional shifts of r equal r shifted down by a byte, combined with those of its low byte alone. |
| `Crc32.UpdateIsShift8` | VeraCrypt/src/Common/Crc.h:24-25 | The update macro is one byte of the bit-by-bit loop, for every register and every byte. |
| `Crc32.GetCrc32` | VeraCrypt/src/Common/Crc.c:57-67 | The table loop computes the bit-by-bit definition on every byte sequence. |
| `Crc32.GetCrc32BitByBit` | VeraCrypt/src/Common/Crc.c:104-122 | So does the compact build's double loop. |
| `Crc32.Crc32Int` | VeraCrypt/src/Common/Crc.c:69-78 | The unrolled four-byte version agrees with both. |
| `Crc32.ByUpdates` | VeraCrypt/src/Common/Crc.c:86-99 | Feeding bytes through the update macro agrees with both. |
| `Crc32.OwnChecksumBehind` | VeraCrypt/src/Common/Crc.c:57-67 | Every message followed by its own checksum, lowest byte first, has the checksum 0x2144DF1C. |
| `Crc32.FirstValues` | VeraCrypt/src/Common/Crc.c:57-67 | The checksums of no byte and of one zero byte: 0 and 0xD202EF8D. |
| `Crc32.FedSplit` | VeraCrypt/src/Common/Crc.c:61-64 | Feeding two parts in turn is feeding their concatenation. |
| `Crc32.FedInjective` | VeraCrypt/src/Common/Crc.c:57-67 | Different registers stay different whatever is fed to both. |
| `Crc32.FedIsWord` | VeraCrypt/src/Common/Crc.c:57-67 | Feeding up to four bytes is shifting the register combined with their word. |
| `Crc32.WordTellsBytes` | VeraCrypt/src/Common/Crc.c:57-67 | Up to four bytes can be told from their word. |
| `Crc32.ClearBitsDropped` | VeraCrypt/src/Common/Crc.c:112-118 | Low bits that are clear are all that a word loses in as many conditional shifts. |
| `Crc32.NoSuchWord` | VeraCrypt/src/Common/Crc.c:112-118 | No non-zero word that begins with s clear bits is taken by 32 conditional shifts to a word of s bits, for s below 8. |
| `Crc32.BurstDetected` | VeraCrypt/src/Common/Crc.c:57-67 | Messages that differ only within four adjacent bytes never have the same checksum (section 8 of RFC 1952 uses it as an error check). |
| `Crc32.StraddlingBurstDetected` | VeraCrypt/src/Common/Crc.c:57-67 | Messages that differ only within 32 bits in a row, beginning and ending anywhere inside bytes and so spread over five of them, never have the same checksum. |
| `CommandApdu.LengthBytes` | VeraCrypt/src/Common/CommandAPDU.cpp:34-110 | What the length bytes of each of the seven shapes hold and how long it is. |
| `CommandApdu.ByteLayout` | VeraCrypt/src/Common/CommandAPDU.cpp:34-110 | The seven shapes byte by byte: header, big-endian lengths, data at 5 or 7, and the expected length, 0 for the largest. |
| `CommandApdu.ReadingDenotes` | VeraCrypt/src/Common/CommandAPDU.cpp:13-117 | Every accepted byte string is one of the seven shapes of section 5.1 of ISO/IEC 7816-4 carrying the command read from it. |
| `CommandApdu.DenotedIsRead` | VeraCrypt/src/Common/CommandAPDU.cpp:13-117 | Every byte string of a shape is accepted as that shape and command; with `ReadingDenotes`, acceptance is exactly having a shape. |
| `CommandApdu.ShapesExclusive` | VeraCrypt/src/Common/CommandAPDU.cpp:13-117 | No byte string has two of the seven shapes, or one shape with two meanings. |
| `CommandApdu.ChosenIsShortest` | VeraCrypt/src/Common/CommandAPDU.cpp:144-246 | No shape that can carry the command is shorter than the one built, and none other is as short. |
| `CommandApdu.EncodableExactly` | VeraCrypt/src/Common/CommandAPDU.cpp:119-143 | Some shape can carry a command exactly when it has a header of four bytes, at most 65535 bytes of data and expects at most 65536. |
| `CommandApdu.BuiltIsRead` | VeraCrypt/src/Common/CommandAPDU.cpp:119-249 | For every header, data of at most 65535 bytes and ne of at most 65536, classifying what was built gives back shape and command. |
| `CommandApdu.ReadThenBuilt` | VeraCrypt/src/Common/CommandAPDU.cpp:13-249 | Rebuilding an accepted command gives the same bytes exactly when it came in its shortest shape. |
| `CommandApdu.CommandAPDU.FromParts` | VeraCrypt/src/Common/CommandAPDU.cpp:267-270 | Success exactly within the limits, then the bytes and all fields describe the command in its shortest shape; otherwise everything is cleared. |
| `CommandApdu.CommandAPDU.Init` | VeraCrypt/src/Common/CommandAPDU.cpp:119-249 | The same, for the routine behind the constructors. |
| `CommandApdu.CommandAPDU.FillWithoutData` | VeraCrypt/src/Common/CommandAPDU.cpp:144-186 | The branch without data: case 1, 2S or 2E. |
| `CommandApdu.CommandAPDU.FillWithData` | VeraCrypt/src/Common/CommandAPDU.cpp:189-213 | The branch with data and no expected length: case 3S or 3E. |
| `CommandApdu.CommandAPDU.FillWithDataAndLength` | VeraCrypt/src/Common/CommandAPDU.cpp:214-245 | The branch with both: case 4S or 4E. |
| `CommandApdu.CommandAPDU.SetHeader` | VeraCrypt/src/Common/CommandAPDU.cpp:251-257 | Writes the four header bytes and nothing else. |
| `CommandApdu.CommandAPDU.Clear` | VeraCrypt/src/Common/CommandAPDU.cpp:259-265 | Empties the bytes and zeroes the three numbers; the extended flag and the success flag stay. |
| `CommandApdu.CommandAPDU.GetData` | VeraCrypt/src/Common/CommandAPDU.cpp:328-339 | The data field, for every object that describes its bytes. |
| `CommandApdu.CommandAPDU.Classify` | VeraCrypt/src/Common/CommandAPDU.cpp:13-110 | Up to the final label: accepts exactly the seven shapes and sets nc, ne, data offset and the extended flag to describe the command. |
| `CommandApdu.CommandAPDU.Parse` | VeraCrypt/src/Common/CommandAPDU.cpp:13-117 | The whole routine as written, falling through into clear(): success and extended flag tell exactly whether the bytes had a (an extended) shape, everything else is lost. |
| `CommandApdu.CommandAPDU.FromBytes` | VeraCrypt/src/Common/CommandAPDU.cpp:297-301 | The same for the constructor from bytes. |
| `AlignedFile.ReadIsIdeal` | VeraCrypt/src/Common/BootEncryption.cpp:807-866 | A read that returns has delivered what an ideal byte-addressed device would and left the pointer right behind it, whatever calls failed on the way. |
| `AlignedFile.UndisturbedReadReturns` | VeraCrypt/src/Common/BootEncryption.cpp:807-866 | A read that no call disturbs returns exactly when the file takes transfers of any size, when its size is a multiple of 4096, or on a device, for every size and position; with `ReadIsIdeal` it then has the ideal bytes. |
| `AlignedFile.OtherFailureEndsRead` | VeraCrypt/src/Common/BootEncryption.cpp:826-862 | A first call that fails other than with an invalid parameter ends the read with its error, and nothing has moved. |
| `AlignedFile.WriteStaysInRange` | VeraCrypt/src/Common/BootEncryption.cpp:914-1011 | Right after a seek every write, even one that throws, leaves each byte outside its range alone, for every size, device and failure. |
| `AlignedFile.OldOrNewExactly` | VeraCrypt/src/Common/BootEncryption.cpp:914-1011 | On a writable device right after a seek each byte is the old one or the one to be written there, for all devices and failures, exactly when the size is below 4096 or leaves less than one 512-byte sector behind its last multiple of 4096. |
| `AlignedFile.SmallWriteOldOrNew` | VeraCrypt/src/Common/BootEncryption.cpp:914-1011 | The positive half, for all handles and any flags. |
| `AlignedFile.UnprotectedWriteExact` | VeraCrypt/src/Common/BootEncryption.cpp:914-993 | Right after a seek and without a write protection error, a write that returns has changed exactly its range to exactly its data, through the aligned part and the read-modify-write of the last block. |
| `AlignedFile.UndisturbedWriteReturns` | VeraCrypt/src/Common/BootEncryption.cpp:914-1011 | A write right after a seek that no call disturbs returns exactly when its size is taken and its range fits; or, on a writable device that does not take the size, when the blocks it touches fit; or when an old write protection error is mistaken for a new one and the whole sectors fit. |
| `AlignedFile.OtherFailureEndsWrite` | VeraCrypt/src/Common/BootEncryption.cpp:936-990 | A first call that fails other than with an invalid parameter or write protection ends the write with its error and nothing written. |
| `AlignedFile.ProtectionGoesToSectors` | VeraCrypt/src/Common/BootEncryption.cpp:995-1010 | On a device, write protection met at once leaves everything to the sector loop: it returns exactly when the whole sectors fit, having written exactly those at the remembered position; on a file nothing is written. |
| `AlignedFile.ExactForSafeSizes` | VeraCrypt/src/Common/BootEncryption.cpp:995-1010 | On a writable device right after a seek, returning means having written the data, for all devices and failures, exactly when the size is a multiple of 4096, or a multiple of 512 below 4096. |
| `AlignedFile.SafeSizeWriteExact` | VeraCrypt/src/Common/BootEncryption.cpp:995-1010 | The positive half, for all handles and any flags, right after a seek. |
| `AlignedFile.TailDropped` | VeraCrypt/src/Common/BootEncryption.cpp:1002-1009 | For every other size that is not a multiple of 512, a run that returns without having written the end. |
| `AlignedFile.LastBlockMisplaced` | VeraCrypt/src/Common/BootEncryption.cpp:948-953 | For every size above 4096 whose last, incomplete block holds a whole sector, a run that returns with that block's sectors written over the start of the range, where they are neither old nor as given. |
| `AlignedFile.ExactUnsoughtOnlyNothing` | VeraCrypt/src/Common/BootEncryption.cpp:914-1011 | Over all pairs of a remembered position and a handle's position, equal or apart, returning means having written the data exactly for the empty write, whichever of the two positions the data are expected at. |
| `AlignedFile.SectorsElsewhere` | VeraCrypt/src/Common/BootEncryption.cpp:1002-1009 | For every size, a run that returns without the data at the handle's position, since the sectors go to the remembered one. |
| `AlignedFile.WrittenElsewhere` | VeraCrypt/src/Common/BootEncryption.cpp:936 | For every size, an undisturbed run that writes to the handle's position, not to the remembered one. |
| `AlignedFile.SectorAllOrNothing` | VeraCrypt/src/Common/BootEncryption.cpp:914-1011 | A write of one 512-byte sector inside the medium right after a seek is complete and exact when it returns and has changed nothing when it throws, for every handle, flag and failure. |
| `AlignedFile.File.SeekAt` | VeraCrypt/src/Common/BootEncryption.cpp:868-884 | Success leaves both the remembered position and the handle's pointer at the position. |
| `AlignedFile.File.Read` | VeraCrypt/src/Common/BootEncryption.cpp:807-866 | The method with its internal buffer delivers exactly the modelled outcome, which `ReadIsIdeal` and `UndisturbedReadReturns` determine, into the front of the caller's buffer and touches nothing behind it. |
| `AlignedFile.File.ReadLastBlock` | VeraCrypt/src/Common/BootEncryption.cpp:850-856 | The end of the fallback read: one whole block, of which what was asked for is kept and the pointer put back behind it. |
| `AlignedFile.File.Write` | VeraCrypt/src/Common/BootEncryption.cpp:914-1011 | The method ends in exactly the modelled outcome, including the sector loop after a write protection error; `UndisturbedWriteReturns` says when it returns and `ExactForSafeSizes` what it has then written. |
| `AlignedFile.File.WriteThroughHandle` | VeraCrypt/src/Common/BootEncryption.cpp:924-994 | The part inside the try block, with what the buffer pointer still points at when it throws. |
| `AlignedFile.File.WriteLastBlock` | VeraCrypt/src/Common/BootEncryption.cpp:961-980 | Read-modify-write of the last block. |
| `HeaderRewrite.AlwaysOpens` | VeraCrypt/src/Common/BootEncryption.cpp:5413-5468 | After every number of writes both header locations open with the old or the new password under the same master key; the primary opens with the new one after the first write, the backup after the first of its own. |
| `HeaderRewrite.BackupUntouchedBefore` | VeraCrypt/src/Common/BootEncryption.cpp:5419-5462 | The backup location keeps its header until all passes over the primary one are written. |
| `HeaderRewrite.CompleteRunOpensNew` | VeraCrypt/src/Common/BootEncryption.cpp:5413-5468 | After a complete run every rewritten location opens with the new password. |
| `HeaderRewrite.HeaderWriteDoneOrNot` | VeraCrypt/src/Common/BootEncryption.cpp:5452-5453 | A header written through the file routines changes what its own location holds to that header, and the other locations not at all, or nothing when the call throws; this is what the rewrite takes for granted of its device. |
| `HeaderRewrite.PlannedPrefix` | VeraCrypt/src/Common/BootEncryption.cpp:5419-5462 | A run cut off earlier has done a prefix of the same writes. |
| `HeaderRewrite.RewriteHeaders` | VeraCrypt/src/Common/BootEncryption.cpp:5413-5468 | The pass loops write exactly the planned headers up to the first failure, leave the locations as those writes make them, and return success, the creation's status or an operating system error accordingly. |
| `HeaderRewrite.FindBackupHeader` | VeraCrypt/src/Common/BootEncryption.cpp:5346-5354 | The offset near the end of the first partition that starts where the hidden system does, -1 when there is none. |
| `HeaderRewrite.ChangePassword` | VeraCrypt/src/Common/BootEncryption.cpp:5326-5470 | The call ends in the outcome and with the header locations that the lemmas below determine; all early refusals write nothing, and the driver is asked to reopen exactly when something was written and no creation failed. |
| `HeaderRewrite.GoesAhead` | VeraCrypt/src/Common/BootEncryption.cpp:5326-5418 | Headers are rewritten exactly when the request is proper, nothing in front fails, and the header in use (at 31744, or 65536 behind the start of the hidden system) opens with the old password under a key that may be kept; then it is rewritten, and for a hidden system also the backup header 65536 in front of the end of the first partition that starts there, under that key. |
| `HeaderRewrite.Refusals` | VeraCrypt/src/Common/BootEncryption.cpp:5326-5407 | Each refusal has its own exact condition, and a refused call changes nothing. |
| `HeaderRewrite.SuccessIsComplete` | VeraCrypt/src/Common/BootEncryption.cpp:5413-5468 | Success means as many writes as there are passes, twice that for a hidden system. |
| `HeaderRewrite.SuccessOpensNew` | VeraCrypt/src/Common/BootEncryption.cpp:5326-5468 | After success the header in use, and for a hidden system the backup header, open with the new password, under the key that the header in use opened with before. |
| `HeaderRewrite.ElsewhereUntouched` | VeraCrypt/src/Common/BootEncryption.cpp:5326-5468 | Whatever the outcome, no other location changes. |
| `HeaderRewrite.WipeModes` | VeraCrypt/src/Common/BootEncryption.cpp:5419-5453 | All headers written to a location but the last are made in wipe mode, all of them with the new password and the old key. |
| `HeaderRewrite.FirstFailureDecides` | VeraCrypt/src/Common/BootEncryption.cpp:5419-5468 | The first step that is not carried out decides the result: the status of a failed creation, or an operating system error for a failed write. |
| `HeaderRewrite.ChangeIsSafe` | VeraCrypt/src/Common/BootEncryption.cpp:5326-5468 | Safety of the whole change, for every request, every failure and every prefix of the run, from the check of the old password to the last write. |
| `BootOrder.SetKeepsOthers` | VeraCrypt/src/Common/BootEncryption.cpp:2852-2902 | In an order that fits the buffer, setting the entry keeps the order of all others, and never creates a second occurrence. |
| `BootOrder.DeleteKeepsOthers` | VeraCrypt/src/Common/BootEncryption.cpp:2689-2703 | Deleting removes exactly one occurrence and keeps the order of all others. |
| `BootOrder.SetPlaces` | VeraCrypt/src/Common/BootEncryption.cpp:2873-2897 | Forced with Windows first the entry ends at index 0; otherwise it keeps its index or becomes the last one. |
| `BootOrder.SetAround` | VeraCrypt/src/Common/BootEncryption.cpp:2683-2902 | An order that holds the number: set leaves it, or takes the first occurrence to the front; delete takes the first occurrence out, and all else keeps its place. |
| `BootOrder.SetInto` | VeraCrypt/src/Common/BootEncryption.cpp:2873-2891 | An order without the number: a known device is entered in front or at the end; an unknown one is not, and a delete finds nothing. |
| `BootOrder.DeleteForgetsSet` | VeraCrypt/src/Common/BootEncryption.cpp:2683-2902 | Without the buffer limit, deleting after setting is deleting; after an inserting set it restores the original order. |
| `BootOrder.DeleteForgetsSetExactly` | VeraCrypt/src/Common/BootEncryption.cpp:2683-2902 | With the buffer limit on both calls this holds exactly when the device is unknown, there is room, or a full order has the entry already. |
| `BootOrder.SetTwiceIsOnce` | VeraCrypt/src/Common/BootEncryption.cpp:2852-2902 | Setting again changes nothing more. |
| `BootOrder.RunKeepsOthers` | VeraCrypt/src/Common/BootEncryption.cpp:2683-2902 | For every order that has no other entries, or fits the buffer with the others leaving a place in it: every run of sets and deletes, as the routines carry them out on the buffer, stays inside it and never changes the order of the other entries. |
| `BootOrder.RunsHarmlessExactly` | VeraCrypt/src/Common/BootEncryption.cpp:2683-2902 | For every order: all runs stay inside the buffer and keep the other entries exactly when there are no others, or the order fits the buffer and the others leave a place in it. |
| `BootOrder.RunAddsNoSecond` | VeraCrypt/src/Common/BootEncryption.cpp:2683-2902 | Over every run of every order VeraCrypt's number occurs at most once if it did at the start. |
| `BootOrder.OneSetHarms` | VeraCrypt/src/Common/BootEncryption.cpp:2841-2902 | For every other order a single set of a known device overruns the buffer or loses entries. |
| `BootOrder.SetThroughBuffer` | VeraCrypt/src/Common/BootEncryption.cpp:2841-2902 | Against the buffer of 1024: nothing happens in between in an order that leaves room or needs none, a full one is overrun exactly by an insertion, and a longer one reads as empty for both routines. |
| `BootOrder.WindowsFirstMeans` | VeraCrypt/src/Common/BootEncryption.cpp:2855-2870 | The first entry counts as Windows exactly when its entry variable exists and is recognised; an empty order has none. |
| `BootOrder.OthersSurviveExactly` | VeraCrypt/src/Common/BootEncryption.cpp:2841-2902 | A set stays inside the buffer and keeps the other entries exactly when the device is unknown, when there is room, or when a full order has the entry already; a longer order reads as empty and is replaced, which loses nothing only when it names no other entry. |
| `BootOrder.FullOrderOverruns` | VeraCrypt/src/Common/BootEncryption.cpp:2879-2886 | For every entry number a full order of 1024 entries on which both ways of inserting write behind the buffer. |
| `BootOrder.Firmware.GetOrder` | VeraCrypt/src/Common/BootEncryption.cpp:2685 | The order is read into the buffer when it fits, and reads as empty when it does not. |
| `BootOrder.EfiBoot.FindEntry` | VeraCrypt/src/Common/BootEncryption.cpp:2845-2850 | The index of the first occurrence, or the count. |
| `BootOrder.EfiBoot.CloseGap` | VeraCrypt/src/Common/BootEncryption.cpp:2698-2700 | The downward shift removes exactly the entry at the position. |
| `BootOrder.EfiBoot.MoveToFront` | VeraCrypt/src/Common/BootEncryption.cpp:2879-2882 | The upward shift puts the number first and removes the slot it stood in. |
| `BootOrder.EfiBoot.Enter` | VeraCrypt/src/Common/BootEncryption.cpp:2873-2897 | For every order: an overrun exactly when a known device is inserted into a full buffer; otherwise the buffer becomes the order after the set, and the update flag is raised exactly when it changed or the entry was moved. |
| `BootOrder.EfiBoot.UpdateOrder` | VeraCrypt/src/Common/BootEncryption.cpp:2837-2902 | For every stored order, of any length: the outcome of the set, to the front exactly when forced and the first entry is the Windows boot manager's. |
| `BootOrder.EfiBoot.WriteEntry` | VeraCrypt/src/Common/BootEncryption.cpp:2742-2835 | The entry variable holds exactly the serialised load option afterwards, whether it was rewritten or already equal. |
| `BootOrder.EfiBoot.SetStartExec` | VeraCrypt/src/Common/BootEncryption.cpp:2725-2916 | The whole routine for every stored order: entry variable, order and next-boot variable, up to an overrun where there is one. |
| `BootOrder.EfiBoot.DeleteStartExec` | VeraCrypt/src/Common/BootEncryption.cpp:2679-2723 | The entry is gone, the order loses it, and the next-boot variable is cleared exactly when the order changed and it named the entry. |
| `LoadOption.SerializeStartExec` | VeraCrypt/src/Common/BootEncryption.cpp:2744-2822 | The moving write pointer fills exactly the varSize bytes computed beforehand with the load option of section 3.1.3 of the UEFI Specification: attributes, path list length, description, hard drive, file path and end nodes. |
| `LoadOption.BytesFields` | VeraCrypt/src/Common/BootEncryption.cpp:2744-2822 | The variable field by field: attributes, description, hard drive node with length 42, file path node and end node each at its place. |
| `LoadOption.HardDriveFields` | VeraCrypt/src/Common/BootEncryption.cpp:2768-2802 | The payload of the hard drive node field by field: partition number, start and length in 512-byte sectors, signature, and the two format bytes. |
| `LoadOption.TerminatedAt` | VeraCrypt/src/Common/BootEncryption.cpp:2758-2764 | A string lies there character by character, lowest byte first, with a zero character behind it. |
| `LoadOption.PutHardDrive` | VeraCrypt/src/Common/BootEncryption.cpp:2768-2802 | The 42 bytes of the hard drive node, with its stored length equal to what is emitted. |
| `LoadOption.PutFilePath` | VeraCrypt/src/Common/BootEncryption.cpp:2804-2822 | The file path node with its stored length, and the end node. |
| `LoadOption.PutString` | VeraCrypt/src/Common/BootEncryption.cpp:2758-2764 | The character loop and its terminating zero. |
| `LoadOption.EntryReadBack` | VeraCrypt/src/Common/BootEncryption.cpp:2744-2822 | A reader that goes by the stored lengths recovers attributes, description, partition and path when neither string holds a zero and the path list length fits 16 bits. |
| `LoadOption.ReadBackExactly` | VeraCrypt/src/Common/BootEncryption.cpp:2744-2822 | And only then. |
| `LoadOption.NodeTaken` | VeraCrypt/src/Common/BootEncryption.cpp:2768-2822 | A node is taken off a device path by its stored length, whatever follows it. |
| `LoadOption.StringReadBack` | VeraCrypt/src/Common/BootEncryption.cpp:2758-2764 | A stored string is read back up to its first zero, whatever follows it. |
| `MultiString.StringsOfJoined` | VeraCrypt/src/Common/BootEncryption.cpp:4591-4670 | The strings of the buffer made from a list are the list, and its walk ends before the buffer does. |
| `MultiString.DoubleZeroEnds` | VeraCrypt/src/Common/BootEncryption.cpp:4646 | Two zeros at the end of a buffer end every list in it. |
| `MultiString.CompareMultiString` | VeraCrypt/src/Common/BootEncryption.cpp:4591-4618 | True exactly for lists equal string by string but for the case of letters. |
| `MultiString.SameByteExactly` | VeraCrypt/src/Common/BootEncryption.cpp:4591-4618 | Two bytes count as the same exactly when they are equal or the two cases of one letter. |
| `MultiString.AppendToMultiString` | VeraCrypt/src/Common/BootEncryption.cpp:4620-4644 | The loops leave exactly the specified content: unchanged without room, else the stripped content, a separator, the input and two zeros. |
| `MultiString.RoomExactly` | VeraCrypt/src/Common/BootEncryption.cpp:4620-4644 | There is room exactly when a byte stays free behind the strings so far, a zero, the input and two zeros. |
| `MultiString.AppendExactly` | VeraCrypt/src/Common/BootEncryption.cpp:4620-4644 | As lists: with room the input is appended exactly when the content had no empty string inside or the input is empty; behind a gap it is stored but never seen. |
| `MultiString.InvisibleAppend` | VeraCrypt/src/Common/BootEncryption.cpp:4620-4644 | A concrete buffer and input for which it is stored and never seen. |
| `MultiString.StringsAfter` | VeraCrypt/src/Common/BootEncryption.cpp:4638-4641 | Strings stored behind a separator extend the list without a gap in front, and are invisible with one. |
| `MultiString.FindString` | VeraCrypt/src/Common/BootEncryption.cpp:4652-4666 | The walk finds the first match, and its place. |
| `MultiString.RemoveFromMultiString` | VeraCrypt/src/Common/BootEncryption.cpp:4647-4670 | The answer tells whether some string matched, and the first size bytes are the content with exactly the first match cut out. |
| `MultiString.RemoveExactly` | VeraCrypt/src/Common/BootEncryption.cpp:4647-4670 | As lists: exactly the first case-insensitive match is gone, the size falls by its length plus one, and nothing changes without a match. |
| `MultiString.RemoveUndoesAppend` | VeraCrypt/src/Common/BootEncryption.cpp:4620-4670 | Removing a freshly appended new string gives back the original list, for every capacity and content: with room whatever the content is, and without room in an ended buffer, as the routine demands. |
| `NamedMutex.StepKeepsOneCreator` | VeraCrypt/src/Common/Dlgcode.c:3373-3434 | No system call of any process leads to two processes that created the living object. |
| `NamedMutex.StepKeepsLog` | VeraCrypt/src/Common/Dlgcode.c:3373-3409 | Every call keeps the history of answers orderly and naming exactly the process that has the mutex. |
| `NamedMutex.EveryRunKeepsInv` | VeraCrypt/src/Common/Dlgcode.c:3373-3434 | Both hold in every interleaving of any number of processes, with failing calls and dying processes. |
| `NamedMutex.AtMostOneHolder` | VeraCrypt/src/Common/Dlgcode.c:3373-3409 | In every interleaving at most one process has returned TRUE from TCCreateMutex and not yet closed, even while losers or probes keep the object alive. |
| `NamedMutex.ProbeWhileHeld` | VeraCrypt/src/Common/Dlgcode.c:3413-3434 | A probe whose OpenMutex falls into the time another process has the mutex answers TRUE at once or after closing its handle, however the others go on; the one exception is an OpenMutex failing for a reason other than denied access. |
| `NamedMutex.ProbeWhenFree` | VeraCrypt/src/Common/Dlgcode.c:3413-3434 | In every possible run in which no process has a handle, a probe answers FALSE at once, whatever its OpenMutex would have come to. |
| `NamedMutex.ProbeTrueMeansObject` | VeraCrypt/src/Common/Dlgcode.c:3413-3434 | A probe that answers TRUE, at once or after closing its handle, has called OpenMutex while some process had a handle. |
| `NamedMutex.FailedAttempt` | VeraCrypt/src/Common/Dlgcode.c:3378-3397 | An attempt that fails, or finds the object there and closes its handle, answers FALSE and leaves its process as it was. |
| `NamedMutex.HoldersAttempt` | VeraCrypt/src/Common/Dlgcode.c:3373-3376 | A process that has the mutex and tries again changes nothing. |
| `NamedMutex.HolderCloses` | VeraCrypt/src/Common/Dlgcode.c:3400-3409 | As long as no CloseHandle fails, a process that has the mutex gets rid of it, and of its ownership, by TCCloseMutex. |
| `NamedMutex.StaysDuring` | VeraCrypt/src/Common/Dlgcode.c:3413-3434 | Between two calls of a process the others cannot change where it is. |
| `NamedMutex.AcquiresExactlyWhenFree` | VeraCrypt/src/Common/Dlgcode.c:3378-3397 | A CreateMutex that does not fail leads to TRUE exactly when no other process has any handle at that moment. |
| `NamedMutex.RefusedThoughNobodyHolds` | VeraCrypt/src/Common/Dlgcode.c:3388-3395 | A concrete run in which nobody has the mutex and an attempt is refused, because a probe is still open. |
| `VolumeIdCache.Finder.RemoveGone` | VeraCrypt/src/Common/Dlgcode.c:13201-13220 | The erasing loop keeps exactly the candidates that are still present, in their order. |
| `VolumeIdCache.Finder.AddNew` | VeraCrypt/src/Common/Dlgcode.c:13222-13253 | The adding loop appends exactly the paths not yet there, each with what opening it gave. |
| `VolumeIdCache.Finder.IsCandidate` | VeraCrypt/src/Common/Dlgcode.c:13226-13236 | Whether a path is in the cache. |
| `VolumeIdCache.Finder.FindDeviceByVolumeID` | VeraCrypt/src/Common/Dlgcode.c:13132-13269 | The whole lookup on the non-service path: nothing without the list of mounted volumes, else the mounted volume, else the refreshed cache in order; the cache changes only in the last case. |
| `VolumeIdCache.FirstMountedDecides` | VeraCrypt/src/Common/Dlgcode.c:13132-13200 | The first mounted volume with the ID decides: its path when that is terminated, else nothing; without one the list does not answer. |
| `VolumeIdCache.AnsweredAtTheList` | VeraCrypt/src/Common/Dlgcode.c:13132-13200 | A call that gets no list of mounted volumes answers nothing, and one answered there leaves the cache alone. |
| `VolumeIdCache.EitherIdMatches` | VeraCrypt/src/Common/Dlgcode.c:13255-13266 | A candidate matches by either of its two IDs, and never when they could not be computed. |
| `VolumeIdCache.FirstCandidateWins` | VeraCrypt/src/Common/Dlgcode.c:13255-13266 | The first candidate that matches is the answer. |
| `VolumeIdCache.ExtendedInOrder` | VeraCrypt/src/Common/Dlgcode.c:13222-13253 | A refresh leaves known devices in front and in their order, and takes new ones in as they are listed. |
| `VolumeIdCache.UpdatedHoldsPresent` | VeraCrypt/src/Common/Dlgcode.c:13201-13253 | One refresh of a duplicate-free cache holds each present path exactly once and nothing else, keeps the identifiers of those it had and opens the others. |
| `VolumeIdCache.CacheHoldsPresent` | VeraCrypt/src/Common/Dlgcode.c:13132-13269 | After every run of calls, some of them answered or given up at the list of mounted volumes, the cache holds each path present at the last call that got past that list exactly once and nothing else; without such a call it is empty. |
| `VolumeIdCache.CachedAsOpened` | VeraCrypt/src/Common/Dlgcode.c:13132-13269 | After every run the cache holds exactly the devices taken in and not seen to go away since, with the identifiers they were opened with then. |
| `VolumeIdCache.FreshExactly` | VeraCrypt/src/Common/Dlgcode.c:13132-13269 | After every run with such a call, the cache holds exactly what opening every device present at the last one gives, if and only if each of them gives what it gave when it was taken in. |
| `VolumeIdCache.CacheIsFresh` | VeraCrypt/src/Common/Dlgcode.c:13132-13269 | In particular it is fresh when identifiers are the same at every two such calls in a row at which a device is present. |
| `VolumeIdCache.WatchedIsStable` | VeraCrypt/src/Common/Dlgcode.c:13132-13269 | Identifiers that are the same from call to call are so at those calls, as long as no device present at two of them in a row was absent from a call between them. |
| `VolumeIdCache.LookupByOpening` | VeraCrypt/src/Common/Dlgcode.c:13255-13266 | After any run, a call that gets past the list of mounted volumes finds a path exactly when some present device matched as it was taken in, and the path it returns is one of those. |
| `VolumeIdCache.LookupAgreesExactly` | VeraCrypt/src/Common/Dlgcode.c:13255-13266 | The answer agrees with a fresh scan if and only if the device found still matches, or, where none matched as it was taken in, none matches now. |
| `VolumeIdCache.LookupAgreesWithScan` | VeraCrypt/src/Common/Dlgcode.c:13132-13269 | In particular it agrees when identifiers are stable in that sense, after any run. |
| `VolumeIdCache.UnseenAbsence` | VeraCrypt/src/Common/Dlgcode.c:13201-13220 | A concrete run in which identifiers are stable from call to call, and yet the cache is stale and the answer wrong: the device was away during a call answered from the list of mounted volumes, and is found under an identifier that no present device has. |
| `BenchmarkSort.SortBenchmarkTable` | VeraCrypt/src/Common/Dlgcode.c:6179-6221 | The bubble sort ends on every table and leaves it sorted (time ascending for PRF, speed descending otherwise, id ascending by name), a stable permutation of before, with entries beyond the total untouched. |
| `BenchmarkSort.SortedMeans` | VeraCrypt/src/Common/Dlgcode.c:6179-6221 | What sorted means: by speed, times ascend for PRFs and speeds descend otherwise; by name, ids ascend. |
| `BenchmarkSort.SwapRemovesInversion` | VeraCrypt/src/Common/Dlgcode.c:6191-6199 | Each swap lowers the number of inversions by exactly one. |
| `BenchmarkSort.SwapIsStable` | VeraCrypt/src/Common/Dlgcode.c:6191-6199 | A swap of neighbours with different keys keeps the order of records with equal keys. |
| `BenchmarkSort.NeighboursSuffice` | VeraCrypt/src/Common/Dlgcode.c:6185-6201 | A pass without a swap means the whole table is sorted. |
| `BenchmarkSort.StableSortUnique` | VeraCrypt/src/Common/Dlgcode.c:6179-6221 | There is only one sorted stable permutation, so the result is determined by the table and the keys. |
| `BenchmarkSort.StableIsPermutation` | VeraCrypt/src/Common/Dlgcode.c:6179-6221 | A stable permutation has the same records with the same multiplicities. |
| `MountRetry.Mounter.MountVolume` | VeraCrypt/src/Common/Dlgcode.c:8889-9267 | The loop over the retry label sends exactly the requests of the specified run and returns its result; a check in front of it sends none. |
| `MountRetry.Mounter.AfterRequest` | VeraCrypt/src/Common/Dlgcode.c:9080-9139 | What one answer of driver and user leads to, as the state machine has it. |
| `MountRetry.AgainLeavesLess` | VeraCrypt/src/Common/Dlgcode.c:9080-9139 | Every way back to the label uses up a favourite retry, the exclusive flag or the unused backup header, so the loop ends. |
| `MountRetry.TurnTaken` | VeraCrypt/src/Common/Dlgcode.c:8896-9139 | One turn either ends the run as specified or leads to the next turn of the same run with exactly one more request sent. |
| `MountRetry.RunFromFacts` | VeraCrypt/src/Common/Dlgcode.c:8896-9267 | Along every run exclusive access is only dropped, for a sharing violation with consent or in quiet mode, and the backup header only switched on, for a reported wrong password; the result is 1 or 2 exactly when the last request succeeded, 1 for an exclusive and 2 for a shared one, and the count of wrong passwords is 0 then. |
| `MountRetry.FirstRequest` | VeraCrypt/src/Common/Dlgcode.c:8889-8896 | The first request is exclusive unless shared access was asked for, and for the backup header exactly when that was. |
| `MountRetry.OtherAnswersEnd` | VeraCrypt/src/Common/Dlgcode.c:9117-9139 | Any other failure ends the call with -1, and any other code of the driver with 0. |
| `MountRetry.WrongPasswordCounts` | VeraCrypt/src/Common/Dlgcode.c:9125-9139 | A reported wrong password is counted; from the third on it is tried again with the backup header, unless that was in use. |
| `MountRetry.SharingViolationRetries` | VeraCrypt/src/Common/Dlgcode.c:9080-9115 | A sharing violation is tried again unchanged up to nine times for a favourite, then once as shared with consent or in quiet mode, and else ends the call with -1. |
| `MountRetry.AtMostTwelveRequests` | VeraCrypt/src/Common/Dlgcode.c:9080-9139 | Every sequence of answers leads to at most 12 mount requests. |
| `MountRetry.TwelveRequestsReached` | VeraCrypt/src/Common/Dlgcode.c:9080-9139 | And 12 are reached. |
| `StringPool.Dictionary.AddPoolData` | VeraCrypt/src/Common/Dictionary.c:63-80 | Null exactly when the data does not fit unrounded or the pool cannot be allocated; otherwise an aligned block inside the pool, behind all earlier ones, which keep their bytes; the fill level stays aligned and within the capacity. |
| `StringPool.RoundingStaysInsideExactly` | VeraCrypt/src/Common/Dictionary.c:65-79 | Checking before rounding keeps an aligned fill level inside the pool exactly for capacities that are multiples of four. |
| `StringPool.OneMore` | VeraCrypt/src/Common/Dictionary.c:73-80 | Storing above the fill level keeps all earlier blocks intact and apart. |
| `StringPool.Dictionary.AddDictionaryEntry` | VeraCrypt/src/Common/Dictionary.c:27-38 | The key maps change only for a key that is given and a non-zero number; null values are stored like others, and the rest keep pointing at live blocks. |
| `StringPool.Dictionary.GetDictionaryValue` | VeraCrypt/src/Common/Dictionary.c:41-49 | What is found is a block handed out since the last clearing, still holding its bytes. |
| `StringPool.Dictionary.GetDictionaryValueByInt` | VeraCrypt/src/Common/Dictionary.c:52-60 | The same by number. |
| `StringPool.Dictionary.ClearDictionaryPool` | VeraCrypt/src/Common/Dictionary.c:83-88 | The pool is empty and both maps are, so that no lookup reaches a block that will be reused. |

## Left out

- `BootOrder.EfiBoot.SetStartExec`: ends at a write behind the buffer, since nothing is defined from there on; does not model stored orders of an odd number of bytes, the 512-byte limit on reading the first entry when looking for the Windows boot manager, nor a failing variable write.
- `LoadOption.SerializeStartExec`: does not model the wrap-around of the 32-bit size for strings of more than two thousand million characters.
- `StringPool.Dictionary.AddPoolData`: does not model wrap-around of the size sum.
- `StringPool.Dictionary.AddDictionaryEntry`: does not model running out of memory while a map grows, which the source swallows.
- `MultiString.AppendToMultiString`: does not model 32-bit wrap-around of sizes; a null input or destination has no counterpart.
- `MultiString.CompareMultiString`: case is that of ASCII letters, as in the C locale; other locales of the comparison routine are not modelled.
- `AlignedFile.File.Write`: leaves the position of the pointer after a write unstated beyond the model, since the source leaves it behind the whole block; the sector writes of the fallback are taken to reach the same medium.
- `NamedMutex.ProbeWhileHeld`: closing the handle of a loser or a probe is taken to succeed, and each process runs one of the three routines at a time; name lookup and security descriptors are not modelled beyond the outcomes of the calls.
- `PasswordCache.SameLogs`: nothing is claimed for never-written slots under RAM encryption, which decrypt to keystream, other than under the stated condition that no offered password coincides with one.
- `HeaderRewrite.ChangeIsSafe`: a header write that the system cuts off without returning, as by a power failure, is taken as done or not done; torn sectors are not modelled. The update of the boot loader after the run is not part of this model.
- `VolumeIdCache.Finder.FindDeviceByVolumeID`: the list of present devices is an input, and the path taken in the system service, which opens every device number, is not modelled.
- `MountRetry.Mounter.MountVolume`: the checks in front of the loop appear as one refusal value, and what is done with a mounted volume afterwards (labels, notifications) is not modelled.
- `BlockBatches.TransformRun`: the batch routines of the individual ciphers are taken to transform each block as their single-block routine does; the ciphers themselves are not part of this model.
- `CipherCascade.EncryptBufferXTS`: the XTS pass itself, its tweak arithmetic and the splitting of data units over the thread pool are not part of this model.
- `CipherCascade.DecryptBuffer`: the all-zero rows are excluded, for which the source would read in front of the row; `EAInit` refuses row 0.
- `CipherCascade.EncryptDataUnitsCurrentThread`: data unit numbers and byte counts are unbounded, where the source has 64 and 32 bits.
- `MemoryProtection.VcProtectMemory`: the derivation of the keystream from the key derivation area and the ID is not modelled; it is an arbitrary function of ID and position. Overlapping buffers are excluded.
- `CommandApdu.CommandAPDU.FromBytes`: the error strings are not modelled.
- Elevated file access through COM, registry, services and privileges: the system's side only.
- Boot loader and alternative cipher back end builds of `Crypto.c`: the full build is modelled.
- `FindStringInFile`, `BufferContainsPattern`, `GetFirstAvailableDrive` and the plain searches: they would only add easy members.
- Configuration files, rescue disks, dialogs and drag and drop: input, output and user interface.
