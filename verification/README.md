# Black Hole chunk-reversal compressors, modelled in Dafny

The Black Hole programs shrink a file by transforming it before handing it
to a general-purpose compressor. Three variants (Black_Hole_60, Black_Hole_58
and Black_Hole_64) share one idea:

- Cut the file into `chunk_size`-byte chunks.
- Reverse the chunks at some randomly chosen positions.
- Put a self-describing header in front of the result:
  - big-endian `>Q original_size`, `>I chunk_size`, `>I count`;
  - then `count` positions as `>I`;
  - `16 + 4 * count` bytes in all.
- Keep the smallest container found in an endless random search.

Restoring reads the header back, reverses the same chunks again, and
truncates to the original size. A fourth program, Black_Hole_53, instead
wraps the compressor in a byte layer: a `'08b'` bit-string round trip and an
XOR with decimal digits of pi.

How the variants differ:

- **Black_Hole_60** (`black_hole_60.dfy`):
  - zero-pads the last chunk;
  - its "compressor" is the identity, so the container is header ++ payload;
  - the search walks chunk sizes `2 ** exp`.
- **Black_Hole_58** (`black_hole_58.dfy`):
  - uses the same padded transform;
  - compresses header ++ payload together;
  - restores with `len // chunk_size` complete chunks;
  - searches chunk sizes 1..255, with a min-style acceptance rule.
- **Black_Hole_64** (`black_hole_64.dfy`):
  - does not pad; streams the file one chunk at a time;
  - draws the positions inside the transform, over all `ceil(size / cs)` chunks;
  - restores with the ceiling count;
  - accepts with a `first_attempt` flag.
- **Black_Hole_53** (`black_hole_53.dfy`):
  - a 5-bit symbol table and its inverse;
  - bit reversal of bits 1..6 of a byte;
  - XOR with pi digits;
  - bit-string to base-256 conversion;
  - the compress-and-encode and decode-and-decompress pipelines.

Shared modules:

| file | module | holds |
|---|---|---|
| `basics.dfy` | `Basics` | bytes, `Option`, `s[::-1]`, `s[:n]`, `b"".join` |
| `positional.dfy` | `Positional` | fixed-width digit strings (`struct.pack`, `format(b, '08b')`) |
| `chunking.dfy` | `Chunking` | splitting, padding, reversal by position, re-joining |
| `metadata.dfy` | `Metadata` | the header codec |
| `compression.dfy` | `Compression` | the external compressor, as a pair of functions |
| `sampling.dfy` | `Sampling` | what the random draws can produce |

The operations that mutate as they go are methods with loops. Two of them
are proved equal to the functions that specify them:

- the position loop `for pos in positions`;
- the streaming read-reverse-write loop of Black_Hole_64.

The three search loops are proved against a search invariant instead
(`SearchInv` in each variant). Each loop keeps the written file restorable
to the input and `previous_size` equal to its length. It never raises
`previous_size`, and it bounds it by every container it built. The file it
keeps is always one of those containers, so it is one of minimum size.

The positions loop of `reverse_chunks_at_positions` reverses a chunk once
per occurrence in `positions`. So a chunk listed twice comes back
unreversed, and entries outside the chunk range are skipped. The model
(`Chunking.Parity`) states exactly that. Where a position list has no
repeats, as `random.sample` guarantees, this is the same as "reversed iff
listed" (`Chunking.SelectIsParity`). The code accepts and ignores
out-of-range positions. Decoding only fails where `struct.unpack`, `range`
or `//` raise, or where `paq.decompress` fails (Black_Hole_58 and
Black_Hole_64). The model follows the code in both respects rather than any
stricter validation a reader might expect.

## Model

| member | source | states |
|---|---|---|
| Basics.Zeros | Black_Hole_60.py:15 | `b'\x00' * n` is `n` bytes, all zero |
| Basics.Reverse | Black_Hole_60.py:20 | `s[::-1]` has the same length and holds element `len - 1 - i` at `i` |
| Basics.ReverseReverse | Black_Hole_60.py:80 | reversing a chunk twice gives it back |
| Basics.Take | Black_Hole_60.py:86 | `s[:n]` has `min(n, len(s))` elements and is a prefix of `s` |
| Basics.CeilDiv | Black_Hole_64.py:10 | `(n + d - 1) // d` is the smallest count of `d`-sized windows covering `n` items: `n <= q * d < n + d` |
| Basics.Flatten | Black_Hole_60.py:23 | `b"".join(chunks)` is as long as all the chunks together |
| Basics.FlattenAppend | Black_Hole_60.py:23 | joining two lists of chunks is joining each and concatenating |
| Positional.FromToDigits | Black_Hole_60.py:31-33 | a value below `base ** n` is read back from its `n` digits |
| Positional.ToFromDigits | Black_Hole_60.py:68-70 | `n` digits are re-spelled exactly from the value they denote |
| Positional.FromDigitsBound | Black_Hole_60.py:68-70 | `n` digits denote a value below `base ** n` |
| Metadata.BigEndian | Black_Hole_60.py:31-33 | `struct.pack(">Q"/">I", v)` is defined only for a value that fits the field, and is then 8 or 4 bytes |
| Metadata.ReadBigEndian | Black_Hole_60.py:68-70 | `struct.unpack` of `n` bytes gives a value below `256 ** n` |
| Metadata.EncodePositions | Black_Hole_60.py:34 | defined only for positions that fit 32 bits; the packed list is then `4 * count` bytes |
| Metadata.DecodePositions | Black_Hole_60.py:71 | unpacking `4 * n` bytes gives `n` positions |
| Metadata.Encode | Black_Hole_60.py:31-34 | the header is `16 + 4 * count` bytes |
| Metadata.Decode | Black_Hole_60.py:68-74 | fails exactly when the buffer is shorter than 16 bytes or than `16 + 4 * count`; otherwise gives `count` positions and the rest of the buffer as payload |
| Metadata.BigEndianRoundTrip | Black_Hole_60.py:68-70 | unpacking a packed field gives the value back |
| Metadata.ReadBigEndianRoundTrip | Black_Hole_60.py:68-70 | every field read is in range and packs back to the same bytes |
| Metadata.PositionsRoundTrip | Black_Hole_60.py:71 | unpacking packed 32-bit positions gives the same list |
| Metadata.PositionsRoundTripBack | Black_Hole_60.py:71 | unpacked positions fit 32 bits and pack back to the same bytes |
| Metadata.DecodeEncode | Black_Hole_60.py:68-74 | decoding a header followed by any payload gives that header and payload |
| Metadata.EncodeDecode | Black_Hole_60.py:68-74 | a successful decode returns a packable header that, re-encoded before the payload, is the buffer |
| Sampling.WindowCount | Black_Hole_60.py:110-111 | `file_size // cs` is positive exactly when `cs <= file_size`, and never exceeds the file size |
| Sampling.SampledHeaderEncodable | Black_Hole_60.py:31-34 | sampled parameters of a file below 4 GiB always fit the header fields |
| Chunking.Split | Black_Hole_60.py:11 | the windows are non-empty, at most `cs` bytes, and all but the last exactly `cs` |
| Chunking.SplitShape | Black_Hole_60.py:11 | joining the windows gives the data back, and there are `ceil(len / cs)` of them |
| Chunking.SplitFront | Black_Hole_64.py:16 | the first window is what `read(chunk_size)` returns; the rest are the windows of the remainder |
| Chunking.SplitFlatten | Black_Hole_60.py:77 | re-splitting joined well-formed windows gives the same windows |
| Chunking.PadLast | Black_Hole_60.py:14-15 | padding the last window keeps the number of windows |
| Chunking.Padded | Black_Hole_60.py:14-15 | the padded data is at least the data and less than one window more, a multiple of `cs`, with the data as prefix |
| Chunking.PadLastSplit | Black_Hole_60.py:14-15 | padding the last window equals splitting the zero-padded data; every window is then full and there are `ceil(len / cs)` |
| Chunking.PadLastFlatten | Black_Hole_60.py:15 | padding appends fewer than `cs` zero bytes and makes every window full |
| Chunking.PadLastFull | Black_Hole_60.py:14-15 | after padding the last window, every window of the split is exactly `cs` bytes |
| Chunking.Parity | Black_Hole_60.py:18-20 | the result has as many windows as the input, each as long as before |
| Chunking.ReverseListed | Black_Hole_60.py:18-20 | the `for pos in positions` loop reverses each chunk once per occurrence of its index and skips out-of-range entries |
| Chunking.ParitySnoc | Black_Hole_60.py:18-20 | one more listed position reverses that chunk once more if it is an index, and changes nothing otherwise |
| Chunking.ParityInvolution | Black_Hole_60.py:78-80 | reversing the same positions again restores every chunk |
| Chunking.Select | Black_Hole_64.py:17-18 | reversing the listed chunks keeps the number and lengths of the chunks |
| Chunking.OddCountDistinct | Black_Hole_64.py:13 | for a position list without repeats, an index occurs an odd number of times exactly when it occurs |
| Chunking.SelectIsParity | Black_Hole_64.py:17-18 | with distinct positions, "reversed iff listed" equals "reversed once per occurrence" |
| Chunking.SplitFloor | Black_Hole_58.py:70-71 | the floor-count split gives `len // cs` windows, each exactly `cs` bytes |
| Chunking.SplitFloorShape | Black_Hole_58.py:70-71 | the floor-count split keeps `len // cs` full windows, a prefix of the data, and drops fewer than `cs` bytes |
| Chunking.SplitFloorFlatten | Black_Hole_58.py:70-71 | on a payload of full windows the floor-count split drops nothing |
| BlackHole60.Transformed | Black_Hole_60.py:11-23 | reversing chunks keeps the zero-padded length |
| BlackHole60.ReverseChunksAtPositions | Black_Hole_60.py:6-23 | the output is the padded data with the listed chunks reversed, `ceil(len / cs) * cs` bytes long |
| BlackHole60.TransformedShape | Black_Hole_60.py:11-20 | the output is `ceil(len / cs) * cs` bytes, and re-cut it shows each padded chunk reversed iff listed an odd number of times |
| BlackHole60.Container | Black_Hole_60.py:31-37 | the container is `16 + 4 * count` header bytes plus the payload |
| BlackHole60.Candidate | Black_Hole_60.py:116-119 | the container built from a file is `16 + 4 * count + ceil(len / cs) * cs` bytes |
| BlackHole60.Restored | Black_Hole_60.py:58-86 | restoring fails exactly when the header cannot be read or the chunk size is 0 |
| BlackHole60.DecompressAndRestore | Black_Hole_60.py:77-86 | the chunk loop computes exactly `Restored` |
| BlackHole60.RoundTrip | Black_Hole_60.py:77-86 | restoring a container built from the data gives back exactly the data |
| BlackHole60.CompressWithPaq | Black_Hole_60.py:42-55 | the first attempt is always written; later ones only when strictly smaller; the returned size is that of the file written, or `previous_size`; `first_attempt` becomes false |
| BlackHole60.Attempt | Black_Hole_60.py:110-126 | the first attempt, or a container smaller than `previous_size`, is written and becomes the best chunk size and positions; otherwise file and best stay as they were. `previous_size` becomes the smaller of itself and the container size, and the written file stays restorable |
| BlackHole60.ValidDraws | Black_Hole_60.py:110-113 | the draws admitted for every chunk size `2 ** exp` that fits the file: `1..min(file_size // cs, 64)` distinct positions below `file_size // cs` |
| BlackHole60.ChunkSizeGrows | Black_Hole_60.py:105-108 | the chunk sizes `2 ** exp` are positive and grow with `exp` |
| BlackHole60.BeyondFile | Black_Hole_60.py:107-108 | once `2 ** exp` exceeds the file size, no later exponent is tried, so `break` loses no candidate |
| BlackHole60.Step | Black_Hole_60.py:106-126 | one chunk size: the file stays restorable, `previous_size` does not grow and is at most this chunk size's container, and the file is either unchanged or the container built for this chunk size |
| BlackHole60.Pass | Black_Hole_60.py:105-108 | one pass keeps the file restorable and never raises `previous_size`. It leaves `previous_size` at most every container the pass built, and the file either unchanged or one of those containers |
| BlackHole60.FindBestChunkStrategy | Black_Hole_60.py:94-128 | after any number of passes the file on disk restores to the input. It exists iff a pass ran on a non-empty file, and it is one of the containers built (`BuiltAt`). `previous_size` is at most every container built |
| Compression.Container | Black_Hole_58.py:39 | `paq.compress(metadata + reversed_data)` (also Black_Hole_64.py:35): with a lossless compressor, decompressing it gives the header followed by the payload |
| BlackHole58.Candidate | Black_Hole_58.py:105-112 | with a lossless compressor, the container built for a chunk size and its sampled positions restores to the file |
| BlackHole58.ValidDraws | Black_Hole_58.py:104-108 | the draws admitted for every chunk size in 1..255 with `file_size // cs > 0`: `1..min(file_size // cs, 64)` distinct positions below `file_size // cs` |
| BlackHole58.Restored | Black_Hole_58.py:54-83 | restoring fails exactly when decompression fails, the header cannot be read, or the chunk size is 0 |
| BlackHole58.DecompressAndRestore | Black_Hole_58.py:59-83 | the chunk loop computes exactly `Restored` |
| BlackHole58.RoundTrip | Black_Hole_58.py:59-83 | with a lossless compressor, restoring a container built from the data gives back exactly the data |
| BlackHole58.CompressWithPaq | Black_Hole_58.py:28-51 | a container is written iff strictly smaller than `previous_size`, and the smaller size is returned |
| BlackHole58.Attempt | Black_Hole_58.py:105-121 | the container is written iff it is smaller than `previous_size`; otherwise the file stays as it was. `previous_size` becomes the minimum of itself and the container size, and the file stays restorable |
| BlackHole58.Step | Black_Hole_58.py:104-108 | one chunk size keeps the file restorable and never raises `previous_size`. It covers that chunk size when the file holds a full chunk, and leaves the file unchanged or the container built for this chunk size |
| BlackHole58.Pass | Black_Hole_58.py:104-121 | one pass over 1..255 never raises `previous_size` and leaves it at most every container built. The file is unchanged or one of the containers the pass built |
| BlackHole58.FindBestChunkStrategy | Black_Hole_58.py:92-121 | after any number of passes the file restores to the input and is one of the containers built (`BuiltAt`). `previous_size` is at most every container built |
| BlackHole64.TotalChunks | Black_Hole_64.py:10 | the ceiling chunk count is at most the file size and positive iff the file is non-empty |
| BlackHole64.ChunkSample | Black_Hole_64.py:13 | what `random.sample(range(total_chunks), min(num_positions, total_chunks))` can return: every sampled index is below the file size, and a non-empty file with a positive count gets at least one |
| BlackHole64.Transformed | Black_Hole_64.py:15-21 | the unpadded transform is exactly as long as the input |
| BlackHole64.ReverseChunksAtPositions | Black_Hole_64.py:7-21 | the streamed output is the data with exactly the sampled chunks reversed, as long as the input |
| BlackHole64.ReadChunk | Black_Hole_64.py:16 | each `read(chunk_size)` returns the next chunk and leaves the later ones unread |
| BlackHole64.ShortLastChunkMayBeSelected | Black_Hole_64.py:13 | the short last chunk can be sampled and reversed |
| BlackHole64.Restored | Black_Hole_64.py:46-70 | restoring fails exactly when decompression fails, the header cannot be read, or the chunk size is 0 |
| BlackHole64.DecompressAndRestore | Black_Hole_64.py:53-70 | the chunk loop computes exactly `Restored` |
| BlackHole64.Undo | Black_Hole_64.py:63-70 | the ceiling re-cut with the same distinct positions gives back the input |
| BlackHole64.RoundTrip | Black_Hole_64.py:62-70 | with a lossless compressor and distinct positions, restoring gives back exactly the data |
| BlackHole64.CompressWithPaq | Black_Hole_64.py:24-43 | written iff first attempt or strictly smaller, then `(size, False)`; otherwise both values unchanged |
| BlackHole64.NumPositionsLimit | Black_Hole_64.py:86-87 | the upper bound for `num_positions` is in 1..64, and at most `file_size // cs` when that is positive |
| BlackHole64.ValidDraw | Black_Hole_64.py:85-88 | a draw the search can make: chunk size in `1..min(file_size, 2 ** 31)`, count in `1..NumPositionsLimit`, and a matching chunk sample |
| BlackHole64.DrawBounds | Black_Hole_64.py:85-87 | a draw exists only for a non-empty file; then `file_size // cs > 0`, so the `else 1` branch is dead, and 1..64 positions below the chunk count are drawn |
| BlackHole64.DrawEncodable | Black_Hole_64.py:29-32 | every draw for a file below 4 GiB fits the header |
| BlackHole64.Candidate | Black_Hole_64.py:85-91 | with a lossless compressor, the container built from a draw restores to the file |
| BlackHole64.Round | Black_Hole_64.py:85-93 | the container is written on the first attempt or when it is smaller than `previous_size`, else the file stays. `previous_size` becomes the container size on the first attempt, the minimum of the two afterwards; the file stays restorable |
| BlackHole64.FindBestChunkStrategy | Black_Hole_64.py:79-93 | `first_attempt` holds iff no round ran. The file restores to the input and is the container of one of the rounds. `previous_size` is at most every container built |
| BlackHole53.SymbolMapIndexed | Black_Hole_53.py:9-41 | the table gives the `i`-th listed character code `i + 1` and has no other keys |
| BlackHole53.SymbolCodes | Black_Hole_53.py:9-41 | every code is in 1..31 and no two characters share one |
| BlackHole53.ReverseSymbolMap | Black_Hole_53.py:43 | the reverse table is the exact inverse of the table, both ways |
| BlackHole53.ReverseSymbolMapKeys | Black_Hole_53.py:43 | the reverse table's keys are exactly 1..31 |
| BlackHole53.Bits | Black_Hole_53.py:89 | `format(b, '08b')` has 8 binary digits |
| BlackHole53.BitsRoundTrip | Black_Hole_53.py:89-90 | reading a byte's 8 bits back gives the byte |
| BlackHole53.BitsOf | Black_Hole_53.py:74 | 8 binary digits read back give a byte whose bits they are |
| BlackHole53.BitsInjective | Black_Hole_53.py:89 | different bytes have different bit strings |
| BlackHole53.ByteParts | Black_Hole_53.py:55-56 | `b & 1`, `(b & 0b01111110) >> 1` and `b >> 7` are the last digit, middle six digits and first digit of `'08b'` |
| BlackHole53.ReverseBits | Black_Hole_53.py:54-58 | the result is a byte with bits 0 and 7 unchanged |
| BlackHole53.ReverseBitsSpec | Black_Hole_53.py:54-58 | the `'08b'` spelling of the result is that of the input with the six middle digits reversed |
| BlackHole53.ReverseBitsInvolution | Black_Hole_53.py:54-58 | `reverse_bits(reverse_bits(b)) == b` |
| BlackHole53.ReverseBitsInData | Black_Hole_53.py:60-61 | same length, and each byte's middle six bits reversed |
| BlackHole53.ReverseBitsInDataInvolution | Black_Hole_53.py:60-61 | applying it twice gives back the data |
| BlackHole53.Xor | Black_Hole_53.py:66 | bit `i` of `a ^ b` is set exactly when bits `i` of `a` and `b` differ |
| BlackHole53.XorTwice | Black_Hole_53.py:66 | `(a ^ b) ^ b == a` |
| BlackHole53.XorKeepsHighBits | Black_Hole_53.py:66 | XOR with a value below 16 keeps the high four bits |
| BlackHole53.EncodeWithPi | Black_Hole_53.py:64-66 | the output has `min(len(data), len(digits))` bytes, byte `i` being `data[i] ^ digit[i]` |
| BlackHole53.EncodeKeepsHighBits | Black_Hole_53.py:64-66 | encoding changes only the low four bits of each byte |
| BlackHole53.EncodeTwice | Black_Hole_53.py:64-66 | with at least as many digits as bytes, encoding twice gives back the data |
| BlackHole53.PiDigits | Black_Hole_53.py:46-51 | the generator refuses exactly a request for fewer than 1 digit |
| BlackHole53.BinaryString | Black_Hole_53.py:89 | `format(b, '08b')` is 8 characters, each `'0'` or `'1'` |
| BlackHole53.SpellingDigits | Black_Hole_53.py:89 | the characters of `format(b, '08b')` stand for the bits of `b` |
| BlackHole53.BytesToBinary | Black_Hole_53.py:89 | the joined bit string is `8 * len(data)` binary characters |
| BlackHole53.BinaryChunk | Black_Hole_53.py:89 | characters `8k .. 8k + 7` of the joined string spell byte `k` |
| BlackHole53.ParseByte | Black_Hole_53.py:74 | on a chunk of `'0'`/`'1'` characters, `int(chunk, 2)` yields the byte those bits spell; the model rejects every other chunk |
| BlackHole53.ParseChunks | Black_Hole_53.py:73-74 | on a string of `'0'`/`'1'` characters, parsing every 8-character chunk yields one byte per chunk; the model rejects every other string |
| BlackHole53.BinaryToBase256 | Black_Hole_53.py:69-76 | fails when the length is not a multiple of 8 or a character is not `'0'`/`'1'`; otherwise value `k` is characters `8k..8k+7` read most significant first |
| BlackHole53.BinaryRoundTrip | Black_Hole_53.py:89-90 | `binary_to_base256` of the `'08b'` spelling of some bytes gives those bytes |
| BlackHole53.CompressAndEncode | Black_Hole_53.py:79-106 | fails exactly when the compressed data is empty (no pi digits can be asked for) |
| BlackHole53.DecodeAndDecompress | Black_Hole_53.py:109-133 | an empty encoded file fails |
| BlackHole53.RoundTrip | Black_Hole_53.py:109-126 | with a lossless compressor and a digit source giving enough digits, decoding an encoded file gives back the original |

## Left out

- File I/O, file existence checks, and output file names are not modelled. Every operation works on the byte content of the files.
- `paq.compress` / `paq.decompress` are external. `Compression.Compressor` passes them in as two functions. Every round-trip property assumes only `Compression.Lossless`. A decompression error is `None`.
- `generate_pi_digits` uses `mpmath`. The digits are a function parameter, and only its `digits < 1` refusal is modelled. `BlackHole53.RoundTrip` assumes the source gives at least as many digits as asked for. Which digits pi actually has is not modelled, nor is `mpmath`'s rounding of the last one. `str(mp.pi)` also drops trailing zeros, so the source can return fewer digits than asked for. For example, the 32nd decimal of pi is 0, so asking for 32 digits gives 31. `zip` in `encode_with_pi` then drops the last byte (`BlackHole53.EncodeWithPi` keeps `min(len(data), len(digits))` bytes), and the round trip fails for such lengths. `BlackHole53.RoundTrip` excludes these sources through `BlackHole53.LongEnough`.
- `random.randint` / `random.sample` are not called: their results are inputs constrained by `Sampling.SampledPositions`, `BlackHole58.ValidDraws`, `BlackHole60.ValidDraws` and `BlackHole64.ValidDraw`.
- The search loops' `while True` runs for a given number of `rounds`. The properties proved hold after every round, so they hold at any point of the endless loop.
- Floating point is not modelled:
  - `float('inf')` in Black_Hole_64 becomes `None`;
  - compression ratios, `best_count` and the progress messages are left out;
  - `best_compression_ratio` is left out.
- `main` menus, input parsing and the catch-all exception handlers that print an error are not modelled. An error the handler would print is `None`.
- Black_Hole_53 never calls `reverse_bits_in_data`, despite the comment at Black_Hole_53.py:92. The model covers it as a function of its own and keeps it out of the pipelines. The symbol table is not used by any operation either.
- `struct.pack` raises when a field does not fit. `Metadata.BigEndian`, `Metadata.EncodePositions` and `Metadata.Encode` require instead that every field fits (`Metadata.Encodable`). In the source, a sampled position can reach 2**32 on a file of 4 GiB or more, and `struct.pack` then raises `struct.error` (e.g. chunk size 1 on a 5 GiB file, Black_Hole_60.py:34). The model does not cover such files: the search methods require a file below 4 GiB, where every sampled field fits (`Sampling.SampledHeaderEncodable`, `BlackHole64.DrawEncodable`).
- BlackHole60.ReverseChunksAtPositions: an empty file or a zero chunk size raises in the source (`chunked_data[-1]`, `range` with step 0). The model requires both away instead of returning an error value. The search never calls it with either.
- BlackHole64.FindBestChunkStrategy: on an empty file `random.randint(1, 0)` raises a `ValueError` (Black_Hole_64.py:85), and nothing catches it, because the `try` in `main` covers only the mode prompt (Black_Hole_64.py:100-107). The model requires `ValidDraw` for every round instead, which no draw meets on an empty file, so the empty file is excluded rather than modelled as an error.
- BlackHole53.ParseByte: rejects every chunk that is not eight `'0'`/`'1'` characters. Python's `int(chunk, 2)` also accepts a sign, surrounding whitespace, underscores and a `0b` prefix. Only the binary case is stated.
- BlackHole53.ParseChunks: rejects every string that is not made of `'0'`/`'1'` characters, for the same reason as `BlackHole53.ParseByte`.
- BlackHole53.BinaryToBase256: accepts only strings of `'0'`/`'1'`. Python's `int(chunk, 2)` also accepts a sign, surrounding whitespace, underscores and a `0b` prefix. The model only ever applies it to `format(b, '08b')` output, which contains none of these.
- BlackHole53.DecodeAndDecompress: states only the empty-input failure. Whether decoding other bytes succeeds depends on the decompressor. Its success on encoder output is stated by `BlackHole53.RoundTrip`.
