# ringBuffer in Dafny

A model of `Ring_Buffer_t` and the operations in `Core/Src/ringBuffer.c`. This is a small
byte ring buffer for bytes that arrive one at a time (for example from a serial port), with a fixed capacity of
`RING_MAX_SIZE` = 64 bytes.

- `tail` is the read index and `head` is the write index.
- One slot always stays free, so the ring holds at most 63 bytes.
- A write into a full ring overwrites the oldest byte.
- A read of an empty ring returns the sentinel 0.
- On top of these primitives there are:
  - a simplified pattern scanner, `findDataInBuffer`;
  - two extractors, `copyBufferData` and `copyAfterPattern`. They run the C library's
    `strstr` over the raw storage array read as a NUL-terminated string;
  - a bulk read, `copyCircularBuffer`.

The project has three modules:

- `CString` (`cstring.dfy`). The byte types (`Byte` = uint8_t, `U16` = uint16_t) and the
  `<string.h>` behaviour the code relies on:
  - `StrLen`, and `CStr`, the bytes before the first NUL;
  - `StrStr`, the leftmost occurrence as in ISO C11 section 7.24.5.7, with its
    specification lemma.
- `RingSpec` (`ring_spec.dfy`). The value-level meaning of the ring:
  - `Logical(storage, tail, head)` is the held bytes, oldest first, with byte `i` at
    storage index `(tail + i) % 64`;
  - `WriteContents` / `WriteAll` give the overwrite-oldest policy;
  - `Drain` is what successive reads return;
  - `Scan` is the scanner of `findDataInBuffer`;
  - `SpanFrom` counts the bytes a copy loop takes.
  - Each comes with lemmas: FIFO order, overwrite-oldest, the scanner's soundness and its
    known blind spot.
- `Ring` (`ring_buffer.dfy`). The class `RingBuffer`:
  - fields: a 64-byte `storage` array and the two `U16` indices, as in the C struct;
  - one method per C function;
  - a ghost field `Contents`, tied to `Logical(storage[..], tail, head)` by the invariant
    `Valid()`.
  - Every method's contract says what it does to `Contents`, to the indices and to the
    output arrays.

Behaviour that follows the code rather than its comments:

- `Find` updates `tail` on success. The doc comment of `findDataInBuffer` says that `tail`
  is not updated; the code moves it by the pattern length, counted from the old `tail`
  rather than from the match. The model does what the code does.
- In the scanner, a mismatch resets the match count to 0 without testing the current byte
  again. So some occurrences are missed, and `ScanMissesRestart` exhibits one.
- After 64 writes into an empty ring, the first byte has been evicted and the second is the
  next one read (`OverwriteOldest`).
- `copyBufferData` and `copyAfterPattern` search the storage array from index 0 up to its
  first zero byte, not the logical contents. Bytes that wrapped past index 63 sit at
  `storage[0..head)` and are searched first. What the search misses is an occurrence that
  spans the wrap from index 63 to index 0, and anything after the first zero byte. It also
  searches bytes outside `tail..head`, which are stale or already read.

## Model

| member | source | states |
|---|---|---|
| CString.StrLen | Core/Src/ringBuffer.c:117 | strlen of a byte array holding a NUL is the index of its first NUL: every byte before it is non-NUL |
| CString.CStr | Core/Src/ringBuffer.c:115 | the C string a byte array holds is a prefix of it, contains no NUL, and is followed by a NUL in the array |
| CString.StrStr | Core/Src/ringBuffer.c:115 | a reported strstr position leaves room for the whole needle inside the haystack |
| CString.SearchFrom | Core/Src/ringBuffer.c:151 | a search from `from` reports a position at or after `from` with room for the needle |
| CString.SearchFromSpec | Core/Src/ringBuffer.c:151 | the search from `from` reports a true occurrence, none lies between `from` and it, and None means no occurrence at or after `from` |
| CString.StrStrSpec | Core/Src/ringBuffer.c:115 | strstr returns the leftmost occurrence of the needle, and NULL (None) exactly when it occurs nowhere |
| RingSpec.Logical | Core/Inc/ringBuffer.h:19-23 | the held bytes number (head - tail) mod 64 |
| RingSpec.WriteContents | Core/Src/ringBuffer.c:47-51 | the overwrite-oldest policy on the held bytes: a ring of at most 63 bytes grows by one up to 63, and the new byte is always the newest |
| RingSpec.WriteAll | Core/Src/ringBuffer.c:46-52 | a run of writeBufferData calls: from a valid ring the result holds at most 63 bytes and never fewer than before |
| RingSpec.Drain | Core/Src/ringBuffer.c:177-181 | the bytes returned by count successive reads: exactly count of them, the first being the oldest held byte or the sentinel 0 |
| RingSpec.LengthFormula | Core/Src/ringBuffer.c:78-80 | the C length formula equals the number of held bytes; it is at most 63, zero exactly when head == tail, and 63 exactly when (head + 1) % 64 == tail (the empty and full tests) |
| RingSpec.Advance | Core/Src/ringBuffer.c:64 | moving tail forward by n (mod 64), n at most the held count, drops exactly the first n held bytes |
| RingSpec.WriteNotFull | Core/Src/ringBuffer.c:50-51 | storing at head and advancing head in a ring that is not full appends the byte to the held bytes |
| RingSpec.WriteFull | Core/Src/ringBuffer.c:47-51 | in a full ring, advancing tail and then storing and advancing head drops the oldest byte and appends the new one |
| RingSpec.WriteEffect | Core/Src/ringBuffer.c:46-52 | the storage-level steps of writeBufferData have the overwrite-oldest effect WriteContents on the held bytes |
| RingSpec.WriteContentsNewest | Core/Src/ringBuffer.c:47-51 | one write into a ring of at most 63 bytes leaves the newest at most 63 bytes of the old contents followed by the new byte |
| RingSpec.WriteAllKeepsNewest | Core/Src/ringBuffer.c:46-52 | after any sequence of writes the ring holds exactly the newest min(total, 63) bytes of the stream, in order |
| RingSpec.WritesWithoutOverflow | Core/Src/ringBuffer.c:46-52 | at most 63 writes into an empty ring are all held, in write order |
| RingSpec.OverwriteOldest | Core/Src/ringBuffer.c:47-49 | 64 writes into an empty ring leave bytes 2..64, so the first byte has been overwritten |
| RingSpec.DrainPrefix | Core/Src/ringBuffer.c:177-181 | count successive reads yield the first min(count, held) bytes in order, then zeros |
| RingSpec.DrainAt | Core/Src/ringBuffer.c:179 | a sequence whose j-th byte is the j-th held byte (or 0 past the end) is exactly what count reads return |
| RingSpec.Fifo | Core/Src/ringBuffer.c:46-67 | writing up to 63 bytes into an empty ring and reading as many returns them unchanged and in order |
| RingSpec.Scan | Core/Src/ringBuffer.c:86-97 | a completed scan ends at least (pattern length - k) bytes after the start index and inside the held bytes |
| RingSpec.ScanSound | Core/Src/ringBuffer.c:88-93 | when the scanner reports a match, the held bytes of pattern length just before the reported index are exactly the pattern |
| RingSpec.ScanCompletes | Core/Src/ringBuffer.c:88-92 | once k pattern bytes are matched at the start of a real occurrence, the scan completes that occurrence at its end |
| RingSpec.ScanFindsPrefix | Core/Src/ringBuffer.c:86-93 | a pattern at the front of the held bytes is always found |
| RingSpec.ScanMissesRestart | Core/Src/ringBuffer.c:94-96 | because a mismatch resets the count without retesting the byte, "aab" is not found in "aaab" although it occurs there |
| RingSpec.SpanFrom | Core/Src/ringBuffer.c:123-129 | the copy length from `from` stays inside the string and under the limit, skips no stop byte, and ends at the end, the limit or a stop byte |
| Ring.StrSize | Core/Src/ringBuffer.c:77 | the 16-bit strSize of findDataInBuffer truncates strlen: never more than the pattern length, and equal to it for patterns shorter than 65536 bytes |
| Ring.FindSucceeds | Core/Src/ringBuffer.c:82-99 | the return value of findDataInBuffer; when it is true, the truncated length is positive and at most the number of held bytes |
| Ring.RingBuffer.constructor | Core/Inc/ringBuffer.h:19-23 | a zero-initialised struct: both indices 0, storage all zero, nothing held |
| Ring.RingBuffer.Reset | Core/Src/ringBuffer.c:15-19 | both indices become 0, every storage byte 0, and the ring holds nothing |
| Ring.RingBuffer.IsEmpty | Core/Src/ringBuffer.c:27-29 | true exactly when the indices coincide, which is exactly when the ring holds nothing |
| Ring.RingBuffer.IsFull | Core/Src/ringBuffer.c:36-38 | true exactly when head + 1 reaches tail mod 64, which is exactly when 63 bytes are held |
| Ring.RingBuffer.Write | Core/Src/ringBuffer.c:46-52 | the byte is stored at the old head, head advances mod 64, tail advances exactly when the ring was full, and the held bytes become WriteContents (at most 63) |
| Ring.RingBuffer.Read | Core/Src/ringBuffer.c:60-67 | an empty ring returns 0 and is unchanged; otherwise the oldest byte is returned, tail advances mod 64 and that byte is no longer held |
| Ring.RingBuffer.Find | Core/Src/ringBuffer.c:75-100 | the result is true exactly when the truncated 16-bit length is between 1 and 64, the ring is not empty, and the scan completes; on success tail moves by that length from the old tail and that many bytes are dropped; otherwise nothing changes |
| Ring.RingBuffer.CopyBufferData | Core/Src/ringBuffer.c:108-131 | the first fieldSize bytes are zeroed; when the ring is not empty and the pattern occurs in the storage C string, they hold the string from the leftmost occurrence up to the first CR or LF, at most fieldSize - 1 bytes, followed by zeros; bytes beyond fieldSize are untouched |
| Ring.RingBuffer.CopyAfterPattern | Core/Src/ringBuffer.c:148-171 | without an occurrence of start only byte 0 becomes NUL; otherwise the bytes following the leftmost occurrence, up to finish, the NUL or len - 1 bytes, are copied and NUL-terminated, and later bytes are untouched |
| Ring.RingBuffer.CopyCircularBuffer | Core/Src/ringBuffer.c:177-181 | dest[0..count) receives what count reads return (Drain); min(count, held) bytes are consumed, tail advances by that much, and dest beyond count is untouched |

## Left out

- checkDataInBuffer: declared in `Core/Inc/ringBuffer.h` but defined nowhere, so there is nothing to model.
- The platform header `main.h` and the byte source that feeds the ring (an interrupt or a polling loop): these are I/O and are not modelled.
- Concurrent access from an ISR and the main loop is not modelled. Every operation is atomic here.
- The `tempBuffer` stack arrays of copyBufferData and copyAfterPattern are not modelled. The loops write `copyField` directly, which has the same effect on `copyField`.
- CopyBufferData, CopyAfterPattern, CopyCircularBuffer: the output array is required to be a different array from the storage. Aliasing of the two is not modelled.
- CopyBufferData, CopyAfterPattern: a NUL is required somewhere in the storage wherever strstr is called. Without one the C code reads past the array, which is undefined behaviour.
- CopyAfterPattern: `len` must be at least 1 and at most the length of `copyField`. With `len` == 0 the C code writes to a zero-length array.
- Find: the pattern must be non-empty. For the empty string the C loop can read `str[1]`, past the terminator.
- Find: the truncation of strlen to `uint16_t` is modelled. The loop counters `i` and `strIndex` are modelled as unbounded naturals, because they never exceed 63.
- Plain `char` is taken to be unsigned, as on ARM targets. findDataInBuffer compares a `uint8_t` storage byte with a `const char` pattern byte (ringBuffer.c:88); with a signed `char`, a pattern byte of 0x80 or above would never match. The model compares both as `Byte`.
- Patterns (`pattern`, `start`) are the bytes of a C string before its terminator. A NUL inside them is not excluded, but C could not pass one.
