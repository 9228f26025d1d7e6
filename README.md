# ZK-Sentinel sensor: feature extraction

ZK-Sentinel's sensor ("The Eye") accepts TCP connections. From each connection it
takes up to 1023 bytes and turns them into a two-feature vector: the djb2 hash of
the bytes and how many bytes there were. It writes the vector to standard output
as one JSON line, `{"v": [<hash>, <length>]}`. The detector ("The Brain") reads
these lines and compares them with encrypted threat signatures.

This project models the sensor's feature extractor in `src/sensor.c` and proves
properties of it:

- `djb2.dfy`, module `Djb2`: the hash.
  - `unsigned long` is a 64-bit word: an integer in [0, 2^64).
  - The loop step `((hash << 5) + hash) + byte` wraps modulo 2^64 at every operator, as C's unsigned arithmetic does (`Step`).
  - The loop itself is a left fold from the seed 5381 (`HashFrom`, `Hash`).
  - The published form h ↦ h·33 + c mod 2^64 (`ModularHash`) is proved equal to the fold.
- `sensor.dfy`, module `Sensor`: the C functions.
  - `vectorize_input` is a loop method over an `array?<Byte>`. A null `data` leads to the `Aborted` outcome, which stands for the process exit in `SAFE_ASSERT`.
  - `recv` is modelled by what is pending on the socket (`Incoming`) and a copy into the zeroed buffer (`Receive`).
  - `handle_connection` allocates the 1024-byte buffer, receives into it, writes the NUL terminator, hashes and returns the lines it emits.
- `decimal.dfy`, module `Decimal`: how `%lu` and `%zd` render non-negative numbers, with the reading-back function.
- `record.dfy`, module `Record`: the output line `FormatRecord` and a reader for exactly that layout, `ParseRecord`. The reader is the inverse the round-trip lemmas use. It is not a JSON parser.

Stated assumptions:
- `unsigned long` is 64 bits wide (LP64).
- Input bytes are the values of `(unsigned char)data[i]`, so 0..255. Whether plain `char` is signed does not matter, because of that cast.

## Model

| member | source | states |
|---|---|---|
| `Djb2.Step` | src/sensor.c:32 | the loop step `((hash << 5) + hash) + byte`, with 64-bit wrap-around at each operator, equals `(hash * 33 + byte) mod 2^64` |
| `Djb2.HashFromConcat` | src/sensor.c:31-33 | running the hash loop over `s + t` from accumulator `h` equals running it over `s` and then carrying on over `t` from the accumulator reached |
| `Djb2.HashSnoc` | src/sensor.c:31-33 | incremental form: the hash of `s + [b]` is one loop step applied to the hash of `s` |
| `Djb2.HashIsModularHash` | src/sensor.c:26-34 | the loop's result equals the published djb2 (start at 5381, h := h·33 + c mod 2^64 for each byte), and the result always lies in [0, 2^64) |
| `Sensor.VectorizeInput` | src/sensor.c:26-35 | aborts with "Null data input" exactly when `data` is null, and otherwise returns the hash of exactly the first min(len, 1024) bytes. Only those bytes affect the result, and len = 0 gives 5381 |
| `Sensor.Delivered` | src/sensor.c:42 | `recv` with length limit `maxLen` copies a prefix of the pending bytes of length min(pending, maxLen), and nothing on error |
| `Sensor.Receive` | src/sensor.c:42 | the buffer's first bytes become the delivered bytes, the rest of the buffer is unchanged, and the return value is their number, or -1 on error |
| `Sensor.Received` | src/sensor.c:38-42 | a connection never contributes more than BUFFER_SIZE - 1 = 1023 bytes |
| `Sensor.HandleConnection` | src/sensor.c:37-53 | at most one line is emitted, and one exactly when bytes arrived. Then 0 < bytes_read ≤ 1023, so the NUL store `buffer[bytes_read]` is in bounds and the 1024-byte cap never truncates. The line is `{"v": [hash, bytes_read]}` plus a newline, with the hash of every received byte, and it reads back as those two features |
| `Decimal.NatToDecimal` | src/sensor.c:49 | the `%lu` / `%zd` rendering of a non-negative number is a non-empty string of digits with no leading zero, and it is "0" exactly for 0 |
| `Decimal.DecimalValueOfNatToDecimal` | src/sensor.c:49 | reading back a rendered number gives the number |
| `Decimal.NatToDecimalOfDecimalValue` | src/sensor.c:49 | every canonical numeral is the rendering of the number it denotes, so the rendering is a bijection onto canonical numerals |
| `Record.RecordIsOneLine` | src/sensor.c:49 | the emitted record is one line: it ends in a newline and contains no other newline |
| `Record.RecordRoundTrip` | src/sensor.c:49 | every record written for (hash, length) reads back as exactly (hash, length) |
| `Record.ParseBodyOfNumerals` | src/sensor.c:49 | the text between the brackets, two rendered numbers around ", ", reads back as those two numbers: no digit can be taken for the separator |
| `Record.RecordOfParse` | src/sensor.c:49 | every line the reader accepts is the record written for the features it reads, so the record layout is unambiguous |

## Left out

- `main` (src/sensor.c:55-88): socket creation, `setsockopt`, `bind`, `listen` and the accept loop over MAX_CONNECTIONS are network I/O. No state is carried from one connection to the next, so each iteration is one `HandleConnection`.
- `recv` (src/sensor.c:42) is not modelled as a system call. It is modelled as a copy of the first min(pending, 1023) pending bytes, or an error returning -1. A shorter partial read is the same as a shorter pending sequence.
- `close(client_fd)` (src/sensor.c:52) is I/O. Both paths of `HandleConnection` reach the point where it is called.
- `fflush(stdout)` and the actual write to the stream (src/sensor.c:49-50) are I/O. `HandleConnection` returns the lines it would write.
- Other widths of `unsigned long`: only the LP64 width of 64 bits is modelled.
- Validity of `data` in `vectorize_input`: C leaves reading past the object undefined. The model requires that a non-null `data` hold at least min(len, 1024) bytes.
- `src/brain.py` is not part of this model, for these reasons:
  - its Paillier encryption, decryption and homomorphic operations come from the external `phe` library;
  - `normalize_vector` and the `> 0.99` similarity threshold are floating-point numpy arithmetic;
  - JSON decoding is a library call;
  - the per-line exception handling is control flow around those foreign calls.
- The detector's JSON parsing is not modelled. `Record.ParseRecord` reads only the sensor's own layout, and it is there to state the round trip.
