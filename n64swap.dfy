/** main of n64swap.py: the extension check, the header check, the choice of
    transform from the (source format, output extension) pair, and the loops
    that write the input through that transform one chunk at a time. */
module N64Swap {
  import opened Formats
  import opened Transforms
  import opened Streams

  /** The default chunk size of read_in_chunks, used by every loop in main. */
  const ChunkSize: nat := 1024

  /** The `if`/`elif` chain after the copy branch. The comparisons are on the
      raw output extension, so only the lower-case spellings select anything;
      the same format, or a valid extension written in upper case, selects
      nothing. */
  function Dispatch(romFormat: Format, outputExt: string): (r: Option<Transform>)
    ensures r.Some? <==> outputExt in ValidExt && outputExt != Ext(romFormat)
  {
    match romFormat
    case Z64 =>
      if outputExt == ".n64" then Some(EndianSwap)
      else if outputExt == ".v64" then Some(ByteSwap)
      else None
    case N64 =>
      if outputExt == ".z64" then Some(EndianSwap)
      else if outputExt == ".v64" then Some(EndianSwapThenByteSwap)
      else None
    case V64 =>
      if outputExt == ".n64" then Some(EndianSwapThenByteSwap)
      else if outputExt == ".z64" then Some(ByteSwap)
      else None
  }

  /** The transform chosen for a conversion turns the source format's magic
      header into exactly the destination format's magic header. */
  lemma {:induction false} DispatchMapsHeader(src: Format, dst: Format)
    requires src != dst
    ensures Dispatch(src, Ext(dst)).Some?
    ensures Apply(Dispatch(src, Ext(dst)).value, Magic(src)) == Magic(dst)
  {
    ExtIsValid(dst);
    MagicAndExtInjective(src, dst);
    var m := Magic(src);
    assert m == [m[0], m[1], m[2], m[3]];
    ApplyWord(Dispatch(src, Ext(dst)).value, m[0], m[1], m[2], m[3]);
  }

  /** Converting from `src` to `dst` and from `dst` back to `src` select the
      same transform. */
  lemma DispatchSymmetric(src: Format, dst: Format)
    ensures Dispatch(src, Ext(dst)) == Dispatch(dst, Ext(src))
  {
  }

  /** What the conversion loops have written so far, and whether they got
      through every chunk without an exception. */
  datatype Written = Written(output: seq<byte>, ok: bool)

  /** The chunks through one transform in order, stopping at the first chunk
      numpy or swap_bytes refuses; the bytes written before it remain. */
  function Stream(t: Transform, chunks: seq<seq<byte>>): Written
  {
    if chunks == [] then Written([], true)
    else if !Fits(t, |chunks[0]|) then Written([], false)
    else
      var rest := Stream(t, chunks[1..]);
      Written(Apply(t, chunks[0]) + rest.output, rest.ok)
  }

  /** Streaming two runs of chunks is streaming the first and, if it got
      through, the second after it. */
  lemma {:induction false} StreamAppend(t: Transform, a: seq<seq<byte>>, b: seq<seq<byte>>)
    ensures Stream(t, a + b) ==
      if Stream(t, a).ok then Written(Stream(t, a).output + Stream(t, b).output, Stream(t, b).ok)
      else Stream(t, a)
    decreases |a|
  {
    if a == [] {
      assert a + b == b;
    } else {
      var ab := a + b;
      assert ab != [] && ab[0] == a[0] && ab[1..] == a[1..] + b;
      if Fits(t, |a[0]|) {
        StreamAppend(t, a[1..], b);
        var x, y, z := Apply(t, a[0]), Stream(t, a[1..]).output, Stream(t, b).output;
        assert x + (y + z) == (x + y) + z;
      }
    }
  }

  /** The first chunk is either refused, ending the stream, or converted
      and followed by the stream of the rest. */
  lemma StreamHead(t: Transform, cs: seq<seq<byte>>)
    requires cs != []
    ensures !Fits(t, |cs[0]|) ==> Stream(t, cs) == Written([], false)
    ensures Fits(t, |cs[0]|) ==> Stream(t, cs) == Written(Apply(t, cs[0]) + Stream(t, cs[1..]).output, Stream(t, cs[1..]).ok)
  {
  }

  /** Where the last chunk of an `n`-byte file starts: every chunk before it
      is full, so this is a whole number of chunks. */
  function LastChunkStart(n: nat): (k: nat)
    ensures k <= n && (n > 0 ==> k < n && n - k <= ChunkSize)
    ensures k % ChunkSize == 0
    ensures k % 4 == 0 && k % 2 == 0
    decreases n
  {
    if n <= ChunkSize then 0
    else
      var k := ChunkSize + LastChunkStart(n - ChunkSize);
      QuadSum(ChunkSize, k - ChunkSize);
      k
  }

  lemma LastChunkStartStep(n: nat)
    requires n > ChunkSize
    ensures LastChunkStart(n) == ChunkSize + LastChunkStart(n - ChunkSize)
  {
  }

  /** A transform fits a length exactly when it fits that length plus one
      full chunk. */
  lemma FitsShift(t: Transform, n: nat)
    ensures Fits(t, n + ChunkSize) <==> Fits(t, n)
  {
    assert (n + 1024) % 4 == n % 4;
    assert (n + 1024) % 2 == n % 2;
  }

  /** An input that fits in one chunk is read as that one chunk. */
  lemma StreamOneChunk(t: Transform, s: seq<byte>)
    requires 0 < |s| <= ChunkSize
    ensures Stream(t, Chunks(s, ChunkSize)) ==
      if Fits(t, |s|) then Written(Apply(t, s), true) else Written([], false)
  {
    var cs := Chunks(s, ChunkSize);
    assert cs == [s];
    TailOfCons(s, []);
    AppendEmpty([s]);
    StreamHead(t, cs);
    if Fits(t, |s|) {
      AppendEmpty(Apply(t, s));
    }
  }

  /** An input longer than one chunk is read as a full first chunk, which
      every transform accepts, and then the chunks of the rest. */
  lemma StreamFirstChunk(t: Transform, s: seq<byte>)
    requires |s| > ChunkSize
    ensures Fits(t, ChunkSize)
    ensures Stream(t, Chunks(s, ChunkSize)) ==
      Written(Apply(t, s[..ChunkSize]) + Stream(t, Chunks(s[ChunkSize..], ChunkSize)).output,
              Stream(t, Chunks(s[ChunkSize..], ChunkSize)).ok)
  {
    var head, rest := s[..ChunkSize], Chunks(s[ChunkSize..], ChunkSize);
    var cs := Chunks(s, ChunkSize);
    assert cs == [head] + rest;
    TailOfCons(head, rest);
    StreamHead(t, cs);
  }

  /** When the whole input is aligned, the chunks give exactly the transform
      of the whole input. */
  lemma {:induction false} StreamChunksAligned(t: Transform, s: seq<byte>)
    requires Fits(t, |s|)
    ensures Stream(t, Chunks(s, ChunkSize)) == Written(Apply(t, s), true)
    decreases |s|
  {
    if s == [] {
      assert |Apply(t, s)| == 0;
    } else if |s| <= ChunkSize {
      StreamOneChunk(t, s);
    } else {
      var head, tail := s[..ChunkSize], s[ChunkSize..];
      StreamFirstChunk(t, s);
      FitsShift(t, |tail|);
      StreamChunksAligned(t, tail);
      TakeDrop(s, ChunkSize);
      ApplyAppend(t, head, tail);
    }
  }

  /** When the input is misaligned, only its last chunk is refused, and what
      was written is the transform of everything before that chunk. */
  lemma {:induction false} StreamChunksMisaligned(t: Transform, s: seq<byte>)
    requires !Fits(t, |s|)
    ensures Stream(t, Chunks(s, ChunkSize)) == Written(Apply(t, s[..LastChunkStart(|s|)]), false)
    decreases |s|
  {
    if |s| <= ChunkSize {
      StreamShortMisaligned(t, s);
    } else {
      var tail := s[ChunkSize..];
      StreamFirstChunk(t, s);
      FitsShift(t, |tail|);
      StreamChunksMisaligned(t, tail);
      ApplyUpToLastChunk(t, s);
    }
  }

  /** A misaligned input no longer than one chunk writes nothing. */
  lemma StreamShortMisaligned(t: Transform, s: seq<byte>)
    requires !Fits(t, |s|) && |s| <= ChunkSize
    ensures Stream(t, Chunks(s, ChunkSize)) == Written(Apply(t, s[..LastChunkStart(|s|)]), false)
  {
    FitsWholeChunks(t, |s|);
    assert s != [] && LastChunkStart(|s|) == 0;
    StreamOneChunk(t, s);
    assert |Apply(t, s[..0])| == 0;
  }

  /** The converted bytes before the last chunk of `s` are the converted
      first chunk followed by the converted bytes before the last chunk of
      the rest. */
  lemma ApplyUpToLastChunk(t: Transform, s: seq<byte>)
    requires |s| > ChunkSize
    ensures Fits(t, ChunkSize)
    ensures Apply(t, s[..LastChunkStart(|s|)]) ==
      Apply(t, s[..ChunkSize]) + Apply(t, s[ChunkSize..][..LastChunkStart(|s[ChunkSize..]|)])
  {
    var head, tail := s[..ChunkSize], s[ChunkSize..];
    var n := |s| - ChunkSize;
    assert |tail| == n;
    var k := LastChunkStart(n);
    FitsWholeChunks(t, n);
    LastChunkStartStep(|s|);
    assert LastChunkStart(|s|) == ChunkSize + k;
    TakeLonger(s, ChunkSize, k);
    assert s[..LastChunkStart(|s|)] == head + tail[..k];
    ApplyAppend(t, head, tail[..k]);
  }

  /** Every transform accepts a full chunk, and any number of them. */
  lemma FitsWholeChunks(t: Transform, n: nat)
    ensures Fits(t, ChunkSize) && Fits(t, LastChunkStart(n))
  {
    var k := LastChunkStart(n);
    assert k % 4 == 0 && k % 2 == 0;
  }

  /** Chunking is invisible: because the chunk size is a multiple of four,
      every chunk but the last is aligned for every transform. So when the
      whole input fits the transform, the chunks give exactly the transform
      of the whole input; otherwise only the last chunk is refused, and what
      was written is the transform of everything before it. */
  lemma StreamChunks(t: Transform, s: seq<byte>)
    ensures Stream(t, Chunks(s, ChunkSize)) ==
      if Fits(t, |s|) then Written(Apply(t, s), true)
      else Written(Apply(t, s[..LastChunkStart(|s|)]), false)
  {
    if Fits(t, |s|) {
      StreamChunksAligned(t, s);
    } else {
      StreamChunksMisaligned(t, s);
    }
  }

  /** One iteration of a conversion loop: the chunk through the transform,
      calling swap_bytes and the float32 byteswap as the branch does. */
  method ConvertChunk(t: Transform, chunk: seq<byte>) returns (r: Option<seq<byte>>)
    ensures r.Some? <==> Fits(t, |chunk|)
    ensures r.Some? ==> r.value == Apply(t, chunk)
  {
    match t
    case ByteSwap =>
      r := SwapBytes(chunk);
    case EndianSwap =>
      r := FloatByteswap(chunk);
    case EndianSwapThenByteSwap =>
      var endianSwapped := FloatByteswap(chunk);
      if endianSwapped.None? {
        r := None;
      } else {
        QuadIsEven(|chunk|);
        r := SwapBytes(endianSwapped.value);
      }
  }

  /** The body of a conversion loop over the chunks already yielded: write
      each transformed chunk, until the chunks run out or one raises. */
  method WriteChunks(outFile: OutFile, t: Transform, chunks: seq<seq<byte>>) returns (ok: bool)
    modifies outFile
    ensures ok == Stream(t, chunks).ok
    ensures outFile.contents == old(outFile.contents) + Stream(t, chunks).output
  {
    var rest := chunks;
    while rest != []
      invariant Stream(t, chunks).ok == Stream(t, rest).ok
      invariant old(outFile.contents) + Stream(t, chunks).output == outFile.contents + Stream(t, rest).output
      decreases |rest|
    {
      var converted := ConvertChunk(t, rest[0]);
      StreamHead(t, rest);
      if converted.None? {
        AppendEmpty(outFile.contents);
        return false;
      }
      AppendAssoc(outFile.contents, converted.value, Stream(t, rest[1..]).output);
      outFile.Write(converted.value);
      rest := rest[1..];
    }
    AppendEmpty(outFile.contents);
    ok := true;
  }

  /** A conversion loop: `for chunk in read_in_chunks(rom_file)` writing each
      transformed chunk, until the input is exhausted or a chunk raises. */
  method WriteConverted(romFile: RomFile, outFile: OutFile, t: Transform) returns (ok: bool)
    requires romFile.Valid()
    modifies romFile, outFile
    ensures romFile.Valid()
    ensures ok == Stream(t, Chunks(old(romFile.Remaining()), ChunkSize)).ok
    ensures outFile.contents == old(outFile.contents) + Stream(t, Chunks(old(romFile.Remaining()), ChunkSize)).output
  {
    var chunks := ReadInChunks(romFile, ChunkSize);
    ok := WriteChunks(outFile, t, chunks);
  }

  /** The four bytes main reads to classify the input, fewer if the file is
      shorter. */
  function Header(input: seq<byte>): (h: seq<byte>)
    ensures |input| >= 4 ==> |h| == 4
    ensures |input| < 4 ==> h == input
    ensures h == input[..|h|]
  {
    input[..Min(4, |input|)]
  }

  /** How a run of main ends. */
  datatype Outcome =
    | BadExtension             // returns before opening either file
    | NotARom                  // returns after reading the header; no output file
    | Finished(output: seq<byte>)  // the output file, complete
    | Aborted(output: seq<byte>)   // an exception left the output file with these bytes

  /** What main does, stated on whole streams with the copy case made an
      exclusive branch. */
  function Expected(input: seq<byte>, outputExt: string): (r: Outcome)
    ensures r.BadExtension? <==> !IsValidOutputExt(outputExt)
    ensures (r.Finished? || r.Aborted?) ==> |r.output| <= |input|
    ensures r.Aborted? ==> |r.output| < |input|
  {
    if !IsValidOutputExt(outputExt) then BadExtension
    else match GetRomFormat(Header(input))
      case None => NotARom
      case Some(src) =>
        if Ext(src) == outputExt then Finished(input)
        else match Dispatch(src, outputExt)
          case None => Finished([])
          case Some(t) =>
            if Fits(t, |input|) then Finished(Apply(t, input))
            else Aborted(Apply(t, input[..LastChunkStart(|input|)]))
  }

  /** main, step by step as written: the extension check, the header read
      and rewind, the copy branch (which does not end the conversion), then
      the `if`/`elif` chain over the same, now possibly exhausted, input.
      The result is the whole-stream description above. */
  method Run(input: seq<byte>, outputExt: string) returns (outcome: Outcome)
    ensures outcome == Expected(input, outputExt)
  {
    if !IsValidOutputExt(outputExt) {
      return BadExtension;
    }
    var romFile := new RomFile.Open(input);
    var header := romFile.Read(4);
    var romFormat := GetRomFormat(header);
    if romFormat.None? {
      return NotARom;
    }
    romFile.Rewind();
    var outFile := new OutFile.Create();
    if Ext(romFormat.value) == outputExt {
      var chunks := ReadInChunks(romFile, ChunkSize);
      for i := 0 to |chunks|
        invariant outFile.contents == Concat(chunks[..i])
      {
        ConcatAppend(chunks[..i], [chunks[i]]);
        TakeSnoc(chunks, i);
        ConcatOne(chunks[i]);
        outFile.Write(chunks[i]);
      }
      TakeAll(chunks);
      ChunksConcat(input, ChunkSize);
    }
    var ok := true;
    var transform := Dispatch(romFormat.value, outputExt);
    if transform.Some? {
      ghost var rest := romFile.Remaining();
      ok := WriteConverted(romFile, outFile, transform.value);
      StreamChunks(transform.value, rest);
    }
    outcome := if ok then Finished(outFile.contents) else Aborted(outFile.contents);
  }
}
