# n64swap in Dafny

A model of `n64swap.py`, a converter between the three byte orders of N64
cartridge images:

- `.z64` is big-endian, with magic header `80 37 12 40`.
- `.n64` reverses every 32-bit word, with header `40 12 37 80`.
- `.v64` swaps the two bytes of every 16-bit half-word, with header `37 80 40 12`.

The model follows `main` step by step:

1. It checks the output extension without regard to case.
2. It reads four bytes and classifies them with `get_rom_format`, then rewinds.
3. It creates the output file.
4. It copies the input when the formats agree. This branch does not end the
   conversion.
5. It runs the `if`/`elif` chain. Each branch streams the input through
   `read_in_chunks` (1024-byte chunks) and one of three transforms:
   - `swap_bytes`;
   - the `float32` byteswap, seen as a reversal of every four bytes;
   - the byteswap followed by `swap_bytes`.

The files are:

- `formats.dfy`: bytes, formats, magic headers, `get_rom_format` and the
  extension check.
- `transforms.dfy`: the two byte permutations, `swap_bytes` as an array-filling
  method, and the three transforms.
- `streams.dfy`: the input file, with a read position, `read`, `seek(0)` and
  `read_in_chunks`; the output file, with `write`.
- `n64swap.dfy`: the dispatch, the conversion loops and `main` itself
  (`N64Swap.Run`).
- `conversions.dfy`: properties of a whole run.

`N64Swap.Run` is proved to return `N64Swap.Expected`, a whole-stream
description of the same behaviour. The lemmas in `Conversions` are stated
about that description.

Errors are modelled as values:

- `swap_bytes` raises `ValueError` on an odd length. The two sides of the
  first slice assignment then differ in size: `byteswapped[0::2]` has
  `(n + 1) / 2` slots, and `chunk_bytearray[1::2]` has `n / 2` bytes.
- `numpy.frombuffer` raises `ValueError` on a length that is not a multiple of
  four.

Both are modelled as `None`. A run that raises ends as `Aborted(bytes)`, where
`bytes` is what was already written to the output file.

Behaviour of the code that the model keeps:

- Chunking is invisible. Every chunk but the last is 1024 bytes, a multiple of
  four. So a conversion writes exactly the transform of the whole input when
  the input's length is aligned. Otherwise only the last chunk raises.
- The extension check lower-cases the extension, but the dispatch compares it
  as written. So `.Z64`, `.N64` and `.V64` pass the check: the output file is
  created and left empty.
- The `.v64` to `.n64` branch reverses first and swaps second. The comment on
  that branch names the steps in the other order. The two orders agree on
  aligned data (`Transforms.SwapsCommute`).

A length the transform cannot take makes `numpy.frombuffer` or `swap_bytes`
raise `ValueError` on the last chunk. The run stops there, and the chunks
before it stay written (`Aborted`).

## Model

| member | source | states |
|---|---|---|
| `Formats.GetRomFormat` | n64swap.py:24-32 | A format is returned only when the header equals that format's magic bytes. Nothing is returned exactly when no magic header matches, which includes every header shorter than four bytes. |
| `Formats.MagicAndExtInjective` | n64swap.py:24-32 | The three magic headers are pairwise distinct, and so are the three extensions returned for them. |
| `Formats.ValidOutputExtCases` | n64swap.py:46-49 | The extension check accepts exactly `.n64`, `.v64` and `.z64`, each with its letter in either case, and nothing else. |
| `Formats.ExtIsValid` | n64swap.py:7-7 | Every extension `get_rom_format` returns is in `valid_ext` and passes the check. |
| `Transforms.PairSwapAt` | n64swap.py:35-40 | In the pair-swapped bytes, an even position holds the next input byte and an odd position holds the previous one. |
| `Transforms.PairSwapInvolution` | n64swap.py:35-40 | Swapping the pairs twice gives back the input. |
| `Transforms.SwapBytes` | n64swap.py:35-40 | The method fills a new array slot by slot, the even slots from the odd input bytes and then the odd slots from the even ones. It succeeds exactly when the length is even, and then returns the pair-swapped input. |
| `Transforms.QuadReverseAt` | n64swap.py:68-68 | After the `float32` byteswap, byte `d` of every four-byte group comes from byte `3 - d` of the same group. |
| `Transforms.QuadReverseInvolution` | n64swap.py:66-76 | Reversing every group of four twice gives back the input. |
| `Transforms.FloatByteswap` | n64swap.py:68-68 | `numpy.frombuffer` accepts the chunk exactly when its length is a multiple of four, and the byteswap keeps the length. |
| `Transforms.SwapsCommute` | n64swap.py:83-86 | On aligned data, the byteswap then `swap_bytes` equals `swap_bytes` then the byteswap. Each word `a b c d` becomes `c d a b`. |
| `Transforms.ReverseThenSwapWord` | n64swap.py:83-86 | The byteswap then `swap_bytes` turns word `g`, `a b c d`, into `c d a b`. |
| `Transforms.ApplyWord` | n64swap.py:65-89 | On one word `a b c d`, the three transforms give `b a d c`, `d c b a` and `c d a b`. |
| `Transforms.ApplyInvolution` | n64swap.py:65-89 | Each of the three transforms undoes itself. |
| `Transforms.ApplyAppend` | n64swap.py:62-89 | When two pieces are aligned, transforming them one after the other equals transforming their concatenation. |
| `Streams.RomFile.Open` | n64swap.py:51-51 | `open(infile, "rb")` holds the input's bytes, positioned at the start. |
| `Streams.RomFile.Read` | n64swap.py:52-52 | `read(n)` returns the next `n` bytes, or fewer at the end of the file, and moves the position past them. |
| `Streams.RomFile.Rewind` | n64swap.py:57-57 | `seek(0)` puts the position back at the start. |
| `Streams.OutFile.Create` | n64swap.py:60-60 | `open(outfile, "wb")` creates the output file empty. |
| `Streams.OutFile.Write` | n64swap.py:63-63 | `write` appends its bytes to the file. |
| `Streams.ChunksConcat` | n64swap.py:14-21 | With a positive chunk size, the chunks put back together are exactly the unread bytes. |
| `Streams.ChunksSizes` | n64swap.py:14-21 | Every chunk is non-empty and at most the chunk size long. Every chunk but the last is exactly the chunk size. |
| `Streams.ReadInChunks` | n64swap.py:14-21 | The loop reads until a read comes back empty. It yields the chunks of the unread bytes in order and leaves the file at its end. |
| `N64Swap.Dispatch` | n64swap.py:65-89 | The `if`/`elif` chain selects a transform exactly when the output extension is one of the three lower-case extensions and differs from the input format's own. |
| `N64Swap.DispatchMapsHeader` | n64swap.py:65-89 | For any two distinct formats, a transform is selected, and it turns the source's magic header into the destination's. |
| `N64Swap.DispatchSymmetric` | n64swap.py:65-89 | Converting from A to B and from B to A select the same transform. |
| `N64Swap.StreamAppend` | n64swap.py:67-68 | Streaming two runs of chunks writes the first run and, only if no chunk in it raised, the second after it. |
| `N64Swap.LastChunkStart` | n64swap.py:14-21 | The last chunk of a non-empty file starts at a multiple of 1024 before the end, so at a chunk boundary, and is at most one chunk long. |
| `N64Swap.StreamChunksAligned` | n64swap.py:62-89 | If the input's length is aligned for the transform, the chunk loop writes exactly the transform of the whole input and does not raise. |
| `N64Swap.StreamChunksMisaligned` | n64swap.py:62-89 | Otherwise the loop raises on the last chunk, after writing the transform of everything before it. |
| `N64Swap.StreamChunks` | n64swap.py:62-89 | The two cases above together. On aligned input, chunking changes nothing. Otherwise everything before the last chunk is written, where a single call on the whole input would have written nothing. |
| `N64Swap.ConvertChunk` | n64swap.py:79-80 | One chunk through the selected calls (the byteswap, `swap_bytes`, or both) succeeds exactly when the length is aligned, and then gives the transform of the chunk. |
| `N64Swap.WriteChunks` | n64swap.py:67-68 | The loop body writes each converted chunk in turn and stops at the first chunk that raises. The new file is the old one plus the stream's output. |
| `N64Swap.WriteConverted` | n64swap.py:66-89 | One conversion loop over `read_in_chunks`: it appends the stream of the unread bytes to the output file. |
| `N64Swap.Header` | n64swap.py:52-52 | `read(4)` on the fresh file gives the first four bytes, or the whole input when it is shorter. |
| `N64Swap.Expected` | n64swap.py:43-91 | The whole-stream outcome of `main`. The extension check alone decides `BadExtension`. What is written is never longer than the input, and an aborted run wrote strictly less. |
| `N64Swap.Run` | n64swap.py:43-91 | `main` as written, with its non-exclusive copy branch, returns the whole-stream outcome `Expected`. |
| `Conversions.EarlyRejections` | n64swap.py:46-56 | A run stops without output exactly when the extension is not one of the six accepted spellings, or when the first four bytes are not a magic header. An input under four bytes is never a ROM. |
| `Conversions.ConvertedOutput` | n64swap.py:60-89 | A conversion between distinct formats finishes exactly when the length is aligned for its transform. The output then has the input's length and is recognised as the destination format. |
| `Conversions.ConvertsAligned` | n64swap.py:65-89 | An aligned conversion writes the selected transform of the whole input. |
| `Conversions.RoundTrip` | n64swap.py:65-89 | Converting a finished output back to the source format gives back the original bytes. |
| `Conversions.SameFormatCopies` | n64swap.py:61-63 | Asking for the input's own format writes the input unchanged. |
| `Conversions.UpperCaseLeavesOutputEmpty` | n64swap.py:47-89 | An extension that passes the check but is not lower case (`.N64`, `.V64`, `.Z64`) leaves a created but empty output file. |
| `Conversions.AbortedOutput` | n64swap.py:62-89 | A run aborts only on a recognised ROM with a selected transform and a misaligned length. The bytes written are then the selected transform of the input up to a chunk boundary. Only the last chunk, of 1 to 1024 bytes, is missing. |
| `Conversions.Z64ToN64Example` | n64swap.py:65-68 | `80 37 12 40 00 01 02 03` converted to `.n64` is `40 12 37 80 03 02 01 00`. |
| `Conversions.N64ToV64Example` | n64swap.py:77-80 | `40 12 37 80 AA BB CC DD` converted to `.v64` is `37 80 40 12 CC DD AA BB`. |

## Left out

- Argument parsing and the `__main__` guard (lines 8-11, 94-95) are not
  modelled. The input bytes and the output extension are parameters of
  `N64Swap.Run`.
- `os.path.splitext` is not modelled. The extension is given directly.
- Messages printed to the console (lines 48, 55, 59, 91) are not modelled.
  Which message a run prints can be read off its `Outcome`.
- Files are byte sequences. The operating system, closing files by `with`,
  and I/O errors are not modelled.
- The TODO at line 44 (input and output naming the same file) is not modelled.
  The two files are always distinct.
- `read_in_chunks` is lazy in the source. The model reads all chunks of a loop
  before converting them. The bytes written are the same. Only the input
  file's position after an exception differs, and nothing reads it afterwards.
- The `float32` values numpy builds are never looked at. Only the byte
  permutation of `byteswap()` is modelled.
- `str.lower()` is modelled on ASCII letters only, which covers every
  extension the check can accept.
- `Transforms.FloatByteswap`: its contract states only when numpy refuses the
  chunk and that the length is kept. Where each byte goes is stated by
  `Transforms.QuadReverseAt` about the function it returns.
