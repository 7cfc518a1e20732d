# Verified models of DDNet's base and game core

These modules model the parts of DDNet where a short claim rests on intricate code, and prove the claims for all
inputs, all maps and all interleavings:

- the asynchronous file writer: a growable ring buffer shared by any number of threads and one worker, the shutdown
  protocol around it, and the log messages written through it;
- the future logger, whose real target is set while other threads log;
- the streaming SHA-256;
- UTF-8 decoding, encoding and the string copies that must not cut a character in half, Base64, edit distance, strings
  packed into integers, and network addresses as text;
- tile collision: the four-corner test, swept movement, the teleporter index;
- the tee's state machine of jumps and hook, and who hooks whom in a world of tees;
- the skip index of tile layers.

`dafny verify dfyconfig.toml` checks everything.

## How the models are built

Code that changes things in place is modelled as methods over arrays and objects, each proved against a function or a
relation on values; the theorems are about those. The concurrent parts are step systems: a state, what each thread may do
next, and theorems about every state of every run. Standards are written down independently of the program, one module
each: `Sha256Standard` (FIPS 180-4), `Utf8Standard` (RFC 3629), `Base64Standard` (RFC 4648).

What a method and its specification both use, such as byte orders, digit tables or the number of a tile, has a lemma of its
own that says what it means without them: the characters of the digits, a reader for what is printed, a terminal for the
colors, the edges of a column, values of published examples.

| Module | Part of the program |
|---|---|
| `CString` | NUL-terminated strings as byte sequences |
| `AsyncRing`, `AsyncBuffer` | the ring buffer of `ASYNCIO`, as a value and as an array in memory |
| `AsyncProtocol` | worker and clients around lock, semaphore, `finish` and `refcount` |
| `AsyncLogger`, `FutureLogger` | `CLoggerAsync` and `CFutureLogger` |
| `Sha256Standard`, `Sha256Primes`, `Sha256Bits`, `Sha256Constants`, `Sha256Stream`, `Sha256Example` | SHA-256 |
| `Utf8Standard`, `Utf8`, `Utf8Strings` | UTF-8 and string copies |
| `PackedString` | `StrToInts`, `IntsToStr` |
| `EditDistance` | Levenshtein distance on two rows |
| `Base64Standard`, `Base64` | Base64 |
| `DecimalText`, `NetAddress` | numbers in decimal, IPv4 and IPv6 addresses as text |
| `Collision`, `MoveBox`, `MoveCases`, `TeleIndex` | tiles, boxes, movement, teleporters |
| `CharacterCore`, `TickCases`, `HookLinks`, `HookWorld` | jumps and hook of a tee, hooks among the tees of a world, as values and as objects |
| `TileSkip` | run lengths of empty tiles |

What the proofs brought up:

- `next_buffer_size` terminates exactly for needed sizes up to 2^31; beyond, the size wraps to 0 and stays there
  (`AsyncRing.NextSizeTerminates`).
- `sha256_update` passes a `size_t` length on as 32 bits. The bytes hashed are the whole message exactly when every piece
  is shorter than 2^32 bytes (`Sha256Stream.SeenIsJoined`).
- `str_utf8_encode` also writes surrogates. What it writes is read back by the decoder exactly for the characters of
  RFC 3629, and for -1, which the decoder also uses for errors (`Utf8.EncodedBytesDecode`).
- `str_utf8_truncate` with a negative limit on characters, or without room, passes 0 as size to the copy, which then
  copies all of the source (`Utf8Strings.Truncate`). The result then fits exactly if the source would
  (`Utf8Strings.TruncatedFitsIff`, with the input of `Utf8Strings.NegativeLimitIgnoresSize`).
- `parse_int` accumulates in an `int`. It stays within it exactly if the whole number does (`DecimalText.PrefixesFitIff`);
  parsing an IPv4 address is undefined exactly for texts with such a number behind numbers that are all right
  (`NetAddress.FromStrIff`), such as "4294967297.2.3.4", which an overflow that wraps around takes for 1.2.3.4
  (`NetAddress.OverlongAddress`).
- Four corners tell whether a whole box is free exactly for boxes of at most 32 by 32 (`Collision.CornersSufficeIff`);
  the game uses 28.
- The future logger delivers every message once, but a message can overtake older ones (`FutureLogger.FlushIsOvertaken`):
  it does exactly if `Set` is flushing and has pending messages left to pass on (`FutureLogger.InOrderIff`).
- Emptying the list of attached players in `Reset` leaves the hook relation right exactly when no other tee hooks the one
  that is reset (`HookWorld.Tee.Reset`); `HookWorld.ResetForgetsHooker` is a world in which one does.
- A tee that dies stays on the list of the one it hooked, and is still on it when it joins again
  (`HookLinks.RespawnStaysListed`). Who hooks a tee is on its list nevertheless, when every tee had a tick while the slot
  was empty (`HookLinks.RejoiningKeepsHooking`).
- A comment in `CCharacterCore::Tick` (src/game/gamecore.cpp:222-226) says that with one jump the second jumped bit is set
  after the first jump. A jump from the ground sets it and the ground clears it again in the same tick: after the tick it
  is set exactly if the jump was not from the ground (`CharacterCore.SecondBitAfterJump`). By `Tick` alone such a tee can
  jump again in the air (`CharacterCore.OneJumpMadeTwice`); on a server the jump rules behind the tick
  (src/game/server/entities/character.cpp:2226-2246) set the bit again (`CharacterCore.RulesSetSecondBit`).
- A hook that goes through a teleporter wipes all events of its tick, the launch and a jump included
  (`CharacterCore.EventsTell`, with the tick of `CharacterCore.EventsAreWiped`).
- `InitTilemapSkip` marks neither the first column nor the empty tiles it jumps over. In a layer that comes with skips
  the walk from the first column can miss tiles; when it does is `TileSkip.StaleRowIff`, and a row where it does although
  the first column's own skip is right is `TileSkip.OldSkipBehindFirst`.

## Model

| member | source | states |
|---|---|---|
| AsyncRing.AppendsToQueue | src/base/system.cpp:690-738 | A write appends exactly its payload to the queue that the two segments denote, in place over the end of the buffer or in a larger one, and never fills the ring completely |
| AsyncRing.DrainSplitsQueue | src/base/system.cpp:591-610 | What the worker takes and what it leaves are together the queue; it takes at most 64 KiB, and something whenever there is something |
| AsyncRing.NextSizeTerminates | src/base/system.cpp:670-677 | In 32-bit arithmetic the doubling loop reaches the needed size if and only if that is at most 2^31 |
| AsyncRing.NextBufferSize | src/base/system.cpp:670-677 | The result is the least size by doubling that is large enough, and fits 32 bits |
| AsyncRing.NextSizeFits | src/base/system.cpp:713-714 | A buffer grown for at most 2^31 bytes is at most 2^31 bytes large |
| AsyncBuffer.AsyncIo.constructor | src/base/system.cpp:633-642 | A new writer has an empty queue |
| AsyncBuffer.AsyncIo.BufferLen | src/base/system.cpp:658-668 | The length of the queue |
| AsyncBuffer.AsyncIo.BufferPtrs | src/base/system.cpp:530-545 | The two segments, one behind the other, are the queue, and the first is empty only if it is |
| AsyncBuffer.AsyncIo.WriteUnlocked | src/base/system.cpp:690-738 | The array afterwards holds the old queue and the payload; the buffer is replaced exactly if the payload does not fit |
| AsyncBuffer.AsyncIo.WriteInPlace | src/base/system.cpp:697-708 | The copies into one array, with and without going over its end, are the value-level append |
| AsyncBuffer.AsyncIo.Grow | src/base/system.cpp:709-737 | The larger buffer begins with the old queue and the payload |
| AsyncBuffer.AsyncIo.TakeLocal | src/base/system.cpp:591-610 | The worker's critical section: local buffer and remaining queue are the old queue, at most 64 KiB move |
| AsyncBuffer.CopySegments | src/base/system.cpp:592-609 | The two clamped copies make the first 64 KiB of both segments together |
| AsyncProtocol.InitKeeps | src/base/system.cpp:622-656 | A new writer satisfies the invariant |
| AsyncProtocol.StepKeeps | src/base/system.cpp:547-803 | Every step of the worker and of any client keeps the invariant: bytes conserved, no lost wakeup, lock held by one, clean exit, who waits for the exit has asked for it, references counted, freed once |
| AsyncProtocol.BytesAreConserved | src/base/system.cpp:562-738 | In every state of every run, bytes given to `io_write`, the worker's local copy and the ring are together all payloads in lock order |
| AsyncProtocol.WorkerIsWoken | src/base/system.cpp:573-589 | In every run, a worker that waits although the ring is not empty or it should finish has a signal pending or a client that still owes one |
| AsyncProtocol.ShutdownIsClean | src/base/system.cpp:573-584 | When the worker has left, or the file is closed, everything queued was written; the file is closed at most once, exactly when the worker has left and `aio_close` came before that |
| AsyncProtocol.ClosedIff | src/base/system.cpp:573-584 | In every run the file is closed if and only if the worker has left and an `aio_close` came before it left |
| AsyncProtocol.FreedIsTheEnd | src/base/system.cpp:547-560 | The structure is freed at most once, after `aio_free` and the worker's exit, and no step of any thread comes after that |
| AsyncProtocol.FreedAtRest | src/base/system.cpp:547-560 | A run in which `aio_free` was called and nobody can step any more has freed the structure, once |
| AsyncProtocol.SectionIsContiguous | src/base/system.cpp:679-688 | What a client writes between `aio_lock` and `aio_unlock` is one piece of the byte stream |
| AsyncProtocol.WorkerProgresses | src/base/system.cpp:562-620 | Every step of the worker decreases a measure of the work left |
| AsyncProtocol.WorkerStops | src/base/system.cpp:562-620 | No schedule keeps the worker busy for more steps than that measure |
| AsyncProtocol.RestIsDone | src/base/system.cpp:573-589 | With no client in a call, except in `thread_wait`, a worker that cannot step has written everything, and waits, or has left if it was told to |
| AsyncProtocol.ShutdownCompletes | src/base/system.cpp:769-792 | With clients in `thread_wait` or in no call, every maximal run of the worker after `aio_close` or `aio_wait` ends in its exit with everything written, with the file closed once if it was `aio_close`, and the waiting clients can return |
| AsyncProtocol.CallsStop | src/base/system.cpp:547-803 | Without new calls and writes no schedule of the worker and the calls that have begun goes on for more steps than a measure of their work |
| AsyncProtocol.AllRestIsDone | src/base/system.cpp:547-803 | There is no deadlock: where neither the worker nor a call that has begun can step, every call has returned, everything is written, and the worker waits, or has left if it was told to |
| AsyncProtocol.CallsComplete | src/base/system.cpp:769-803 | Every maximal run of the worker and the calls that have begun ends like that: `aio_wait` returns, with the worker gone |
| AsyncLogger.SetColor | src/base/log.cpp:238-248 | The escape sequence with any color fits the 32 bytes it is formatted into |
| AsyncLogger.RenderedIsShown | src/base/log.cpp:238-255 | On a terminal that knows the two escape sequences, a message is its line in its color, red, green and blue in their places, and everything behind it is in the default color |
| AsyncLogger.LoggerAsync.Log | src/base/log.cpp:231-257 | A message adds its color, line, reset and newline to the queue, or nothing if it is filtered |
| AsyncLogger.WritesAreRendered | src/base/log.cpp:238-255 | The single writes of a message are together the message as rendered |
| AsyncLogger.MessageIsContiguous | src/base/log.cpp:231-257 | However many threads log, each message is one piece of the file, in lock order, once the worker has left |
| FutureLogger.StepKeeps | src/base/log.cpp:499-533 | Every step of `Set` and of any `Log` keeps the invariant: one holder of the lock, views still true, every message handed over is in one place once |
| FutureLogger.DeliveredExactlyOnce | src/base/log.cpp:499-533 | Once `Set` has released its lock, every returned `Log` call's message was passed on exactly once, and nothing else was |
| FutureLogger.NeverLost | src/base/log.cpp:517-533 | At any time the message of a returned call was passed on or is pending, not both |
| FutureLogger.PendingStaysEmpty | src/base/log.cpp:509-514 | After `Set` has released its lock the pending list is empty for good |
| FutureLogger.InOrderIff | src/base/log.cpp:499-533 | A message is passed on after all messages of calls that have returned, if and only if `Set` is not flushing with pending messages left |
| FutureLogger.FlushIsOvertaken | src/base/log.cpp:509-524 | A run in which a later call's message is passed on first |
| FutureLogger.CallsStop | src/base/log.cpp:499-533 | Without new calls no schedule of `Set` and the calls that have begun goes on for more steps than a measure of their work |
| FutureLogger.RestIsDone | src/base/log.cpp:499-533 | Where nobody can step, every call has returned and `Set` is not under way |
| FutureLogger.CallsComplete | src/base/log.cpp:499-533 | Every maximal run of the calls that have begun ends with all of them returned |
| Sha256Bits.Ch | src/base/hash_libtomcrypt.cpp:55 | Equals Ch of FIPS 180-4 |
| Sha256Bits.Maj | src/base/hash_libtomcrypt.cpp:56 | Equals Maj of FIPS 180-4 |
| Sha256Bits.Sigma0 | src/base/hash_libtomcrypt.cpp:57-59 | Shifts and ors equal the rotations of the standard |
| Sha256Bits.Sigma1 | src/base/hash_libtomcrypt.cpp:60 | Shifts and ors equal the rotations of the standard |
| Sha256Bits.Gamma0 | src/base/hash_libtomcrypt.cpp:61 | Shifts and ors equal the rotations of the standard |
| Sha256Bits.Gamma1 | src/base/hash_libtomcrypt.cpp:62 | Shifts and ors equal the rotations of the standard |
| Sha256Bits.Load32 | src/base/hash_libtomcrypt.cpp:36-39 | The word with the four bytes, the most significant one first |
| Sha256Stream.Store32 | src/base/hash_libtomcrypt.cpp:48-53 | The four bytes of the word in that order |
| Sha256Constants.RoundConstantIsCubeRootFraction | src/base/hash_libtomcrypt.cpp:15-29 | Each of the 64 constants is the fraction of the cube root of its prime that section 4.2.2 asks for |
| Sha256Constants.InitialIsSquareRootFraction | src/base/hash_libtomcrypt.cpp:116-123 | Each initial word is the fraction of the square root of its prime that section 5.3.3 asks for |
| Sha256Primes.PrimesAreFirst | src/base/hash_libtomcrypt.cpp:15-29 | The numbers whose roots these are, are the first sixty-four primes, in order |
| Sha256Standard.ZeroBytesIsLeast | src/base/hash_libtomcrypt.cpp:165-180 | The number of padding zeros is the least that section 5.1.1 allows |
| Sha256Standard.BytesOfWord | src/base/hash_libtomcrypt.cpp:72-75 | The bytes of a block stand in its words from the left |
| Sha256Standard.BigEndian32Is | src/base/hash_libtomcrypt.cpp:48-53 | Four bytes of the output are the bytes of the word they come from |
| Sha256Standard.PaddedSaysLength | src/base/hash_libtomcrypt.cpp:41-46 | The last eight bytes of the padded message are its length in bits, as a number |
| Sha256Example.FirstBlock | src/base/hash_libtomcrypt.cpp:165-183 | The first block of the example of two blocks, padding included |
| Sha256Example.Words | src/base/hash_libtomcrypt.cpp:72-79 | Words of that block, and the first one of its schedule that is computed, as in the example |
| Sha256Example.FirstRound | src/base/hash_libtomcrypt.cpp:82-102 | The values of the working variables after its first round, as in the example |
| Sha256Stream.FillSchedule | src/base/hash_libtomcrypt.cpp:73-79 | The array filled in place is the message schedule of section 6.2.2 |
| Sha256Stream.RunRound | src/base/hash_libtomcrypt.cpp:82-102 | The round with its rotation of eight array cells is one round of the standard |
| Sha256Stream.RunRounds | src/base/hash_libtomcrypt.cpp:69-103 | The loop is the sixty-four rounds |
| Sha256Stream.Compress | src/base/hash_libtomcrypt.cpp:64-108 | The state becomes the hash value after one more block |
| Sha256Stream.Context.constructor | src/base/hash_libtomcrypt.cpp:112-124 | Nothing was absorbed yet |
| Sha256Stream.Context.AbsorbBlock | src/base/hash_libtomcrypt.cpp:133-139 | The fast path absorbs a block and keeps the invariant |
| Sha256Stream.Context.AbsorbPiece | src/base/hash_libtomcrypt.cpp:140-154 | The slow path absorbs a piece, whether or not it fills the buffer |
| Sha256Stream.Context.Update | src/base/hash_libtomcrypt.cpp:126-156 | The bytes the 32-bit length covers are absorbed; buffer, state and bit counter agree with all that was |
| Sha256Stream.Context.PadMessage | src/base/hash_libtomcrypt.cpp:165-180 | Both cases of padding give the padding of section 5.1.1 up to the length field |
| Sha256Stream.Context.PutLength | src/base/hash_libtomcrypt.cpp:182-183 | The length field is the 64-bit counter, most significant byte first |
| Sha256Stream.Context.Finish | src/base/hash_libtomcrypt.cpp:158-189 | The result is the digest of everything absorbed |
| Sha256Stream.HashPieces | src/base/hash.cpp:31-37 | For any split of a message into pieces the result is the FIPS 180-4 digest of the whole |
| Sha256Stream.SeenIsJoined | src/base/hash_libtomcrypt.cpp:196-199 | The whole message is seen if and only if every piece's length fits 32 bits |
| Utf8Standard.EncodeIsChar | src/base/system.cpp:4068-4099 | Encoding gives a character of the grammar of RFC 3629 that stands for the same number |
| Utf8Standard.EncodeDecode | src/base/system.cpp:4113-4178 | Every character of the grammar is the encoding of its number |
| Utf8.PartialExtends | src/base/system.cpp:4113-4178 | The states of the decoder are exactly the proper beginnings of characters |
| Utf8.DecodeStep | src/base/system.cpp:4101-4178 | One step decodes the first character, or reports an error for the longest beginning of one; it consumes at least one byte and never passes the NUL |
| Utf8.HeadIsZero | src/base/system.cpp:4113-4178 | A step returns 0 at the NUL and nowhere else |
| Utf8.ErrorIsLongest | src/base/system.cpp:4113-4178 | An error takes the longest prefix that begins a character |
| Utf8.DecodeAllMatchesStandard | src/base/system.cpp:4113-4178 | On well-formed text the steps give what RFC 3629 says; an error shows up if and only if the text is not well formed |
| Utf8.DecodeAllEncodeAll | src/base/system.cpp:4068-4178 | Decoding the encodings of any sequence of characters returns the sequence |
| Utf8.EncodedStringDecodesIff | src/base/system.cpp:4068-4178 | As a NUL-terminated string the encodings of characters decode to them if and only if U+0000 is not among them |
| Utf8.Check | src/base/system.cpp:4180-4191 | Accepts a string if and only if it is well formed |
| Utf8.EncodeInto | src/base/system.cpp:4068-4099 | Writes the encoding and nothing behind it, and returns its length |
| Utf8.EncodedBytesDecode | src/base/system.cpp:4068-4099 | Written characters are those of RFC 3629, and the decoder reads a number back if and only if it is such a character or -1 |
| Utf8.SurrogateBytes | src/base/system.cpp:4068-4099 | What is written for numbers that are no characters: three octets for a surrogate, one for a negative number, none beyond U+10FFFF |
| Utf8Strings.RewindCursor | src/base/system.cpp:4030-4039 | Goes back to the last start octet, over continuation octets only, or to the beginning |
| Utf8Strings.FixTruncation | src/base/system.cpp:4041-4056 | Drops a broken last character in place and returns the new length |
| Utf8Strings.RepairedIsLongestFit | src/base/system.cpp:4041-4056 | A well-formed text cut anywhere and repaired is its longest prefix of whole characters up to the cut |
| Utf8Strings.StepsAreLongest | src/base/system.cpp:2867-2882 | Whole decoding steps within both limits give the longest whole prefix within both limits |
| Utf8Strings.Copy | src/base/system.cpp:2860-2865 | Of a well-formed text it leaves the longest whole prefix that fits, of any text a terminated string, and it returns the length; a size below 1 is no limit |
| Utf8Strings.Append | src/base/system.cpp:2843-2858 | The same for the text that was there with the new one behind it; nothing beyond the given size changes |
| Utf8Strings.TruncatedSize | src/base/system.cpp:2869-2880 | The loop stops at the longest prefix within the limits on octets and characters; it is not entered, and leaves -1, exactly without room or with a negative limit |
| Utf8Strings.Truncate | src/base/system.cpp:2867-2882 | Of a well-formed text it leaves the longest whole prefix that fits and has no more characters than allowed; without room or with a negative limit it leaves all of it |
| Utf8Strings.TruncatedFitsIff | src/base/system.cpp:2867-2882 | What is left stays below the size given if and only if there is room and the limit is not negative, or the whole text is as short |
| Utf8Strings.NegativeLimitIgnoresSize | src/base/system.cpp:2881 | With a limit of -1 "ab" is left whole, whatever the size given |
| PackedString.StrToInts | src/game/gamecore.cpp:70-88 | The integers hold four characters each, the last byte is zero |
| PackedString.IntsToStr | src/game/gamecore.cpp:90-119 | For arbitrary integers a terminated well-formed string is left, empty if false is returned |
| PackedString.PackedOctet | src/game/gamecore.cpp:70-88 | Each octet of the integers is a signed character plus 128, the first one the highest, and the last octet is zero |
| PackedString.UnpackedOctet | src/game/gamecore.cpp:95-110 | Each character unpacked is an octet less 128, and the last one the NUL |
| PackedString.OctetsMake | src/game/gamecore.cpp:84 | The octets make up the bit pattern of the integer |
| PackedString.AbIsPacked | src/game/gamecore.cpp:70-88 | "ab" in one integer is -505249792 |
| PackedString.UnpackedPacked | src/game/gamecore.cpp:70-119 | Unpacking undoes packing for every text that fits |
| PackedString.RoundTrip | src/game/gamecore.cpp:70-119 | Through both routines a text comes back if and only if it is well formed |
| EditDistance.DistanceIsLeast | src/base/system.cpp:3283-3317 | The distance is the least number of insertions, deletions and substitutions that turn one text into the other |
| EditDistance.DistanceSymmetric | src/base/system.cpp:3287-3297 | Swapping the texts does not change it |
| EditDistance.Utf32DistBuffer | src/base/system.cpp:3283-3317 | Two alternating rows and swapped arguments compute exactly the distance, and touch only the cells they are given |
| EditDistance.FillRow | src/base/system.cpp:3303-3314 | One row from the row before |
| EditDistance.ToUtf32 | src/base/system.cpp:3272-3281 | Decodes a text to the front of a buffer, with a 0 behind it, in at most as many cells as octets |
| EditDistance.Utf8DistBuffer | src/base/system.cpp:3319-3337 | After both texts are decoded into the buffer, what is left of it is enough for the rows |
| EditDistance.Utf8Dist | src/base/system.cpp:3263-3270 | The distance of the decoded texts |
| Base64.EncodeAt | src/base/system.cpp:3533-3583 | Each character of the group-wise encoding, straight from the data bits |
| Base64.DigitStep | src/base/system.cpp:3547-3571 | With bits pending, the accumulator's next sextet is the next character of the encoding |
| Base64.PaddingStep | src/base/system.cpp:3572-3581 | With none, there is padding to write or the encoding is complete |
| Base64.EncodeInto | src/base/system.cpp:3533-3583 | The buffer receives the encoding, or exactly the prefix of it that fits, and a NUL |
| Base64.DigitValue | src/base/system.cpp:3585-3608 | Inverse of the digit table, -1 for every other character |
| Base64Standard.DigitIsCharacter | src/base/system.cpp:3535 | The digits are A to Z, a to z, 0 to 9, plus and slash |
| Base64Standard.Example | src/base/system.cpp:3533-3583 | The example "foobar" of section 10 of RFC 4648, and "fo" with padding |
| Base64.DecodeInvertsEncode | src/base/system.cpp:3610-3677 | The decoder gives data for a text if and only if the text is their canonical encoding |
| Base64.DecodeOneGroup | src/base/system.cpp:3629-3674 | One group of four characters, padding allowed in the last one only |
| Base64.DecodeInto | src/base/system.cpp:3610-3677 | A length is returned only for the encoding of the octets left in the buffer, an error only if there are no such octets or the buffer may be too small |
| NetAddress.FromStrIff | src/base/system.cpp:1459-1486 | The IPv4 parser reads exactly four numbers below 256 with dots and an optional port below 65536, as what they mean; it is undefined exactly where a number of 2^31 or more stands behind numbers that are all right; it rejects the rest |
| NetAddress.NetAddrFromStr | src/base/system.cpp:1459-1486 | The parser with its moving pointer computes that reading, undefined outcomes included, for text that is not in brackets |
| NetAddress.ParseField | src/base/system.cpp:1462-1473 | One number and the dot behind it: what is read from the whole follows from what is read from the rest |
| NetAddress.ParseEnd | src/base/system.cpp:1474-1483 | The same for the last number, the port and the end of the text |
| NetAddress.OverlongAddress | src/base/system.cpp:1290-1313 | "4294967297.2.3.4" is undefined, and passes for 1.2.3.4 with an overflow that wraps around |
| NetAddress.ParseInt | src/base/system.cpp:1290-1313 | The longest run of digits and its value, an overflow exactly if the value is 2^31 or more |
| NetAddress.ParseUint | src/base/system.cpp:1323-1343 | A number within the range, failure, or the overflow |
| DecimalText.PrefixesFitIff | src/base/system.cpp:1302-1308 | Reading digit by digit stays within `int` at every digit if and only if the whole number does |
| DecimalText.AccumulatedIff | src/base/system.cpp:1302-1308 | Digits accumulated in 32 bits that wrap around give the number if and only if it is below 2^31 |
| DecimalText.DigitIsCharacter | src/base/system.cpp:1302-1308 | The digits are the characters 0 to 9 |
| NetAddress.ParsesBack | src/base/system.cpp:1172-1184 | What is printed for an IPv4 address is parsed back to it |
| NetAddress.LongestZeroRun | src/base/system.cpp:1107-1148 | The run to shorten by section 4.2 of RFC 5952: the longest, the first of several, none shorter than two |
| NetAddress.RunIsUnique | src/base/system.cpp:1107-1148 | There is only one such run |
| NetAddress.NetAddrStrV6 | src/base/system.cpp:1105-1170 | The text is the groups in hexadecimal between colons, with a double colon for that run, in brackets, and the port |
| NetAddress.ReadsBack | src/base/system.cpp:1150-1164 | Read by section 2.2 of RFC 4291 the text means the address that was printed |
| NetAddress.SameTextIff | src/base/system.cpp:1105-1170 | Two addresses have the same text if and only if they and their ports are the same |
| NetAddress.TextReadsBack | src/base/system.cpp:1105-1170 | From the whole text the groups and the port are read back |
| NetAddress.Punctuation | src/base/system.cpp:1150-1169 | Dot, colon and brackets are these characters |
| NetAddress.HexDigitIsCharacter | src/base/system.cpp:1163 | The hexadecimal digits are 0 to 9 and a to f |
| NetAddress.TextFits | src/base/types.h:47 | With its NUL the text fits `NETADDR_MAXSTRSIZE` |
| Collision.CornersSuffice | src/game/collision.cpp:507-519 | For boxes of at most one tile, no corner is in a solid tile if and only if no point of the box is |
| Collision.CornersSufficeIff | src/game/collision.cpp:507-519 | Four corners are enough on every map and at every position if and only if no side is longer than 32 |
| Collision.BetweenIsAtEnd | src/game/collision.cpp:314-326 | Rounding, truncating division and clamping put every point between two at most 32 apart into the tile of one of them |
| Collision.CellIff | src/game/collision.cpp:314-326 | A coordinate is in a column exactly from half a unit before the column's edge on, up to half a unit before the next one, and without end at the borders |
| Collision.CheckPointIff | src/game/collision.cpp:314-326 | A point is solid if and only if the tile of its column and row, counted row by row, is solid or not hookable |
| MoveBox.MoveBox | src/game/collision.cpp:521-594 | The loop computes the sub-steps, early exits included |
| MoveBox.Advance | src/game/collision.cpp:546-588 | One round moves along every axis that is free and turns the velocity around along the others |
| MoveBox.EarlyExitChangesNothing | src/game/collision.cpp:538-553 | The two early exits do not change the result |
| MoveBox.BoxStaysFree | src/game/collision.cpp:521-594 | A box that is free at the start is free after every sub-step, and up to one tile in size no point of it ends in a solid tile |
| MoveBox.VelocityBounds | src/game/collision.cpp:521-594 | Along each axis the box gets no further than its initial velocity, and no faster |
| MoveBox.ArrivesIff | src/game/collision.cpp:521-594 | A box that starts free and is not too slow gets where its velocity points if and only if the path's points are free; then it keeps its velocity |
| MoveBox.SlidesIff | src/game/collision.cpp:546-588 | A box that is blocked along one axis at once, without bouncing there, gets where its velocity along the other axis points if and only if that path's points are free |
| MoveCases.SubStepCases | src/game/collision.cpp:546-588 | A sub-step, by the three boxes that are tested: along which axes it goes on, where it bounces back, and when it lands; at a corner it stops along both axes |
| MoveCases.ShortMove | src/game/collision.cpp:521-594 | A call for less than one unit is one such step, with the elasticity limited to 1, and none for next to nothing |
| MoveCases.BothAxesAlike | src/game/collision.cpp:521-594 | On the map turned over its diagonal a call ends where it would, turned over |
| MoveBox.SubStepsAreShort | src/game/collision.cpp:527-546 | No sub-step is as long as one unit |
| MoveBox.GroundedIff | src/game/collision.cpp:555-585 | The grounded flag is raised if and only if it was, or some sub-step landed |
| MoveBox.FloorIsNear | src/game/collision.cpp:555-585 | A raised flag means that the ground bounces and that an obstacle is less than one unit below where the box was in some sub-step, straight or less than one unit to the side |
| TeleIndex.TeleMaps.Init | src/game/collision.cpp:122-148 | The four maps list the centres of their tiles in map order, under the tile's number less one |
| TeleIndex.TeleMaps.TeleAllGet | src/game/collision.cpp:1253-1282 | Returns the centre of the tile at the offset, and (-1, -1) past the last |
| TeleIndex.TeleMaps.TeleAllSize | src/game/collision.cpp:1284-1296 | The number of tiles |
| TeleIndex.AllTilesAre | src/game/collision.cpp:122-148 | What is enumerated for a number is every tile of it with a kind, and nothing twice |
| TeleIndex.ListsAreByKind | src/game/collision.cpp:122-148 | Entrances, exits and checkpoint exits are in their own maps, all other teleporters in the fourth |
| TeleIndex.AllTilesInOrder | src/game/collision.cpp:1253-1282 | The enumeration is map by map, and in map order within each |
| TeleIndex.CentreIsInTile | src/game/collision.cpp:831-836 | The map index of a tile's centre is the tile's own, also of what `GetPos` returns |
| TeleIndex.GetPosIs | src/game/collision.cpp:956-964 | `GetPos` is the point 16 units inside the tile's corner |
| TeleIndex.PureMapIndexIs | src/game/collision.cpp:831-836 | The map index of a point is the one of its row and column |
| CharacterCore.LaunchesAreSeparated | src/game/gamecore.cpp:262-279 | In any run, the hook key was up in some tick between two launches |
| CharacterCore.JumpsAreSeparated | src/game/gamecore.cpp:229-259 | In any run, the jump key was up in some tick between two jumps |
| CharacterCore.AirJumpsAreSeparated | src/game/gamecore.cpp:228-289 | In any run, between two air jumps the tee stood on the ground in a tick or landed in a move |
| CharacterCore.RunKeepsJumpsSound | src/game/gamecore.cpp:228-289 | From `Reset` on, the count of air jumps is 0 or 1 and a counted one is spent |
| CharacterCore.SecondBitAfterJump | src/game/gamecore.cpp:222-289 | After a tick with a jump of a tee with at most one jump, the second bit is set if and only if the tee was not on the ground |
| CharacterCore.OneJumpMadeTwice | src/game/gamecore.cpp:222-289 | By `Tick` alone a tee with one jump jumps from the ground and again in the air |
| CharacterCore.RulesSetSecondBit | src/game/server/entities/character.cpp:2226-2246 | Behind the server's jump rules the second bit is set after every jump of such a tee |
| CharacterCore.JumpsInAirIff | src/game/gamecore.cpp:228-259 | With two jumps or more, on a server, a tee jumps in the air if and only if it is off the ground, the key was not held, and it has a jump left |
| CharacterCore.ServerRunKeepsCount | src/game/server/entities/character.cpp:2226-2246 | In any run of ticks with the jump rules and moves, the air jumps counted are at most the jumps less one, and the second bit is set exactly when they are that many |
| CharacterCore.AirJumpsAreBounded | src/game/server/entities/character.cpp:2226-2246 | In any such run a tee makes at most as many air jumps without touching the ground as it has jumps less one |
| CharacterCore.JumpsOnServerAreSeparated | src/game/server/entities/character.cpp:2226-2246 | With the jump rules too, the jump key was up in some tick between two jumps |
| CharacterCore.RulesAndFirstBit | src/game/server/entities/character.cpp:2226-2246 | The rules leave the first bit alone, except where they take back the second one |
| TickCases.TickJumps | src/game/gamecore.cpp:222-289 | Both jumped bits and the count after a tick, from the input, the ground and what they were |
| TickCases.TickReportsJumps | src/game/gamecore.cpp:229-279 | Which jump and which launch a tick makes and tells |
| TickCases.FreshTeeJumps | src/game/server/entities/character.cpp:2226-2246 | A tee fresh from `Reset` has one jump from the ground and one in the air |
| TickCases.TickReleases | src/game/gamecore.cpp:262-279 | With the key up the hook is idle and holds nobody |
| TickCases.TickGoesOnRetracting | src/game/gamecore.cpp:304-313 | State, time and events of a retracting or retracted hook after a tick |
| TickCases.TickHolds | src/game/gamecore.cpp:406-454 | State, time and player of a hook that has grabbed, after a tick |
| TickCases.TickFlies | src/game/gamecore.cpp:314-403 | A hook in flight that finds no player: what it does when it gets too long, meets nothing, a teleporter, a tile it cannot hold on to, or any other tile, and which events tell so |
| TickCases.TickGrabs | src/game/gamecore.cpp:347-372 | A hook in flight that finds players: whom it grabs, and whether it holds on |
| TickCases.TeleportsIff | src/game/gamecore.cpp:388-397 | Exactly when it goes through a teleporter |
| CharacterCore.TickKeepsHookSound | src/game/gamecore.cpp:300-454 | A player is only ever held by a hook in state GRABBED |
| CharacterCore.RunKeepsHookSound | src/game/gamecore.cpp:300-454 | The same over whole runs |
| CharacterCore.FlyGrabsNearest | src/game/gamecore.cpp:347-372 | A hook in flight grabs the nearest player it can, of equally near ones the first, and none if and only if there is none or it may not look for one |
| CharacterCore.HoldingUsesTime | src/game/gamecore.cpp:446-453 | Each tick of holding a player uses up one tick of hook time, up to the limit |
| CharacterCore.HoldIsBounded | src/game/gamecore.cpp:406-454 | In any run, while a player is held it is one player, and for no more ticks than hook time is left |
| CharacterCore.RetractsInTime | src/game/gamecore.cpp:304-314 | In any run, while the key is held, a retracting hook goes through its states one a tick, is retracted within three ticks, and stays so |
| CharacterCore.StaysHeldIff | src/game/gamecore.cpp:262-454 | A held player stays held in a tick if and only if the key is down, the player is there and may be held, and hook time is left |
| CharacterCore.EventsTell | src/game/gamecore.cpp:194-403 | A tick reports its jump and its launch if and only if the hook does not go through a teleporter in it |
| CharacterCore.EventsAreWiped | src/game/gamecore.cpp:388-397 | A tick that jumps and launches, goes through a teleporter and reports neither |
| HookLinks.AttachedHookIff | src/game/gamecore.cpp:702-724 | Of all steps only a join can spoil that who is attached hooks, and exactly a join of a slot that is still listed or with a list that is out of date |
| HookLinks.HookingAreAttachedIff | src/game/gamecore.cpp:147-165 | Only a reset of a tee that is hooked, and a join of a slot that is still hooked, spoil that who hooks is attached |
| HookLinks.RunIsLinkedIff | src/game/gamecore.cpp:702-724 | Over a run of ticks, resets, joins, leaves and hooks set by others, both directions hold throughout if and only if no step of it is one of those |
| HookLinks.NobodyHooksGone | src/game/gamecore.cpp:406-454 | While a slot that was left is empty, a tee that had a tick since then, or joined, does not hook it, unless it was made to outside of a tick |
| HookLinks.RejoiningKeepsHooking | src/game/server/entities/character.cpp:79-84 | When every tee had a tick, or joined, since a slot was left, the slot can be joined anew and still who hooks is attached |
| HookLinks.RespawnStaysListed | src/game/server/entities/character.cpp:996 | A run in which a tee hooks, dies and joins again, hooks nobody and is still on a list |
| HookLinks.TickHooksLive | src/game/gamecore.cpp:406-454 | No tick ends with a hook on an empty slot |
| HookLinks.TickGrabsLive | src/game/gamecore.cpp:347-372 | No tick, whatever the hook's state, takes hold of an empty slot |
| HookWorld.WorldCore.Join | src/game/server/entities/character.cpp:79-84 | A tee takes its slot, and the links change as by a join |
| HookWorld.WorldCore.Leave | src/game/server/entities/character.cpp:996 | A slot is emptied, and the links change as by a leave |
| HookWorld.LinksAgree | src/game/gamecore.cpp:702-724 | The relation among the objects is the one among their links |
| HookWorld.Tee.SetHookedPlayer | src/game/gamecore.cpp:702-724 | Exactly the lists of the player let go and the one hooked change, and the links as by setting a hook; who is attached hooks, who hooks is attached, is kept either way |
| HookWorld.Tee.Reset | src/game/gamecore.cpp:147-165 | Who is attached still hooks; who hooks is still attached if and only if no other tee hooks this one; the links change as by a reset |
| HookWorld.ResetForgetsHooker | src/game/gamecore.cpp:157-158 | Two tees of which one hooks the other: after the other's reset it is not on its list |
| HookWorld.Tee.Read | src/game/gamecore.cpp:621-637 | Keeps both directions of the hook relation, and the links change as by setting a hook |
| HookWorld.Tee.GrabPlayers | src/game/gamecore.cpp:347-372 | The loop over the slots, with its calls, grabs the player of the value-level search and keeps the relation |
| HookWorld.Tee.Tick | src/game/gamecore.cpp:191-458 | The fields change as in the state machine, the links change as by a tick, and the hook relation is kept in both directions |
| HookWorld.Tee.Move | src/game/gamecore.cpp:546-550 | A landing gives the air jump back |
| TileSkip.InitTilemapSkip | src/game/layers.cpp:151-167 | The loops over the array, with their stride, mark the rows |
| TileSkip.LayerWalks | src/game/layers.cpp:151-167 | Whatever skips were there, in each row the walk from column 1 visits every tile that is not empty, jumps over empty ones only, and as far as it can |
| TileSkip.LayerKeepsTiles | src/game/layers.cpp:151-167 | Nothing but skips changes, and not in the first column |
| TileSkip.WalkFromAnywhere | src/game/layers.cpp:151-167 | In a layer that comes without skips, as `ExtractTiles` (src/engine/shared/map.cpp:163-177) leaves it, every walk visits every tile that is not empty from where it starts, also across rows |
| TileSkip.StaleRowIff | src/game/layers.cpp:151-167 | In a layer with skips from before, a walk from the first column sees all of its row if and only if the old skips lead to the first tile behind it that is not empty, or to a column before that which is marked anew |
| TileSkip.OldSkipBehindFirst | src/game/layers.cpp:151-167 | A row whose walk misses a tile although the first column's own skip is right |

## Left out

- Rounding of `float`: coordinates, velocities and distances are real numbers, so claims about the last bit are not made.
- `float` to `int` conversions out of range, and `int` overflow in tile coordinates.
- Rings beyond 2^31 bytes: a precondition of every write, as `next_buffer_size` does not terminate there.
- Files, the semaphore's and the lock's own implementation, thread creation and failure to allocate memory. `io_write`
  appends to a sequence; the error field is not modelled.
- Use of the writer against its rules: writing after `aio_close` or `aio_wait`, `aio_free` without one of them or during
  another call, and joining the worker twice. They are conditions on the clients' steps.
- Windows line ends in the log: the newline is one byte.
- Two calls of `CFutureLogger::Set`, which is an assertion failure; and its second store of the same value, which is not
  atomic (src/base/log.cpp:507) although other threads may load it: the model has the one atomic exchange.
- AsyncLogger.LoggerAsync.Log: the message is given as rendered by the caller; formatting of time stamp, level and system is
  not modelled.
- `Rot` as a function: its shifts are written out with the literal amounts of each use.
- Messages of 2^61 bytes and more: `Sha256Standard.Padded` then uses the low 64 bits of the length, as the program's counter
  does; FIPS 180-4 does not define them.
- NetAddress.NetAddrFromStr: text in brackets, which goes to `inet_pton`, is not modelled; nor is what the program does
  after an overflow in `parse_int`, which is an outcome of its own.
- Other platforms' address functions.
- The assembly of IPv6 groups from the bytes of an address.
- Buffers too small for an address: `NetAddress.TextFits` shows the default one is not.
- MoveBox.EarlyExitChangesNothing: over real numbers the second exit coincides with zero velocity; a `float` velocity too
  small to move the box is not covered.
- Tuning values, acceleration, friction, drag and the direction of the hook: what they decide in a step (grounded, too
  long, what is hit, who is near, how far away) is an input of the step.
- Changes to jumps and hook between ticks by the server's game rules, such as endless or refilled jumps, a
  number of jumps that changes, or an endless hook, but for the jump rules of `CharacterCore.JumpRules`.
- CharacterCore.HoldIsBounded: the bound is on runs of `Tick` and `Move`; setting `m_HookTick` from outside starts it anew.
- HookLinks.NobodyHooksGone: a tick counts when the hook was sound before it, holding a player in state GRABBED only, as
  ticks leave it (`CharacterCore.RunKeepsHookSound`); `Read` can set another combination, whose hook a tick may keep.
- Tees without a world or an id.
- The loops of `InitTilemapSkip` over groups and layers; one layer is modelled.
- Hex digests, color packing, tile-validity tests, map bug flags and file-name comparison: nothing hard to prove there.
