/** What a run of main produces, stated on the whole-stream description
    N64Swap.Expected, which N64Swap.Run is proved to compute. */
module Conversions {
  import opened Formats
  import opened Transforms
  import opened Streams
  import opened N64Swap

  /** main stops before touching the output exactly when the extension is
      not one of the three, in either case, or when the first four bytes are
      not one of the three magic headers; a file shorter than four bytes is
      never a ROM. */
  lemma EarlyRejections(input: seq<byte>, outputExt: string)
    ensures Expected(input, outputExt) == BadExtension <==>
      outputExt !in [".n64", ".N64", ".v64", ".V64", ".z64", ".Z64"]
    ensures Expected(input, outputExt) == NotARom <==>
      IsValidOutputExt(outputExt) && GetRomFormat(Header(input)).None?
    ensures |input| < 4 && IsValidOutputExt(outputExt) ==> Expected(input, outputExt) == NotARom
  {
    ValidOutputExtCases(outputExt);
  }

  /** A transform that fits `n` bytes fits the `n - 4` after the header. */
  lemma FitsAfterHeader(t: Transform, n: int)
    requires n >= 4 && Fits(t, n)
    ensures Fits(t, n - 4)
  {
    if t.ByteSwap? {
      assert (n - 4) % 2 == n % 2;
    } else {
      assert (n - 4) % 4 == n % 4;
    }
  }

  /** Converting a ROM to another format finishes exactly when its length is
      aligned for the transform (even for the byte swap, a multiple of four
      otherwise); the output then has the input's length and starts with the
      destination format's magic header, so it is recognised as that format. */
  lemma {:induction false} ConvertedOutput(input: seq<byte>, src: Format, dst: Format)
    requires GetRomFormat(Header(input)) == Some(src) && src != dst
    ensures Dispatch(src, Ext(dst)).Some?
    ensures Expected(input, Ext(dst)).Finished? <==> Fits(Dispatch(src, Ext(dst)).value, |input|)
    ensures Expected(input, Ext(dst)).Finished? ==>
      |Expected(input, Ext(dst)).output| == |input| &&
      GetRomFormat(Header(Expected(input, Ext(dst)).output)) == Some(dst)
  {
    ExtIsValid(dst);
    MagicAndExtInjective(src, dst);
    DispatchMapsHeader(src, dst);
    var t := Dispatch(src, Ext(dst)).value;
    assert |Header(input)| == 4;
    if Fits(t, |input|) {
      var head, body := input[..4], input[4..];
      assert input == head + body;
      FitsAfterHeader(t, |input|);
      ApplyAppend(t, head, body);
      var output := Apply(t, input);
      assert Expected(input, Ext(dst)) == Finished(output);
      assert Header(output) == output[..4] == Apply(t, head);
      GetRomFormatMagic(dst);
    }
  }

  /** get_rom_format recognises each magic header as its own format. */
  lemma GetRomFormatMagic(f: Format)
    ensures GetRomFormat(Magic(f)) == Some(f)
  {
    MagicAndExtInjective(f, f);
  }

  /** Converting back undoes a conversion: if converting a ROM from `src` to
      `dst` finishes, converting its output to `src` finishes with the
      original bytes. */
  lemma {:induction false} RoundTrip(input: seq<byte>, src: Format, dst: Format)
    requires GetRomFormat(Header(input)) == Some(src) && src != dst
    requires Expected(input, Ext(dst)).Finished?
    ensures Expected(Expected(input, Ext(dst)).output, Ext(src)) == Finished(input)
  {
    ConvertedOutput(input, src, dst);
    ExtIsValid(src);
    MagicAndExtInjective(src, dst);
    DispatchSymmetric(src, dst);
    var t := Dispatch(src, Ext(dst)).value;
    var output := Expected(input, Ext(dst)).output;
    assert output == Apply(t, input);
    ApplyInvolution(t, input);
  }

  /** Asking for the format the ROM is already in copies it unchanged. */
  lemma SameFormatCopies(input: seq<byte>, src: Format)
    requires GetRomFormat(Header(input)) == Some(src)
    ensures Expected(input, Ext(src)) == Finished(input)
  {
    ExtIsValid(src);
  }

  /** The extension check ignores case but the branches that write do not:
      a ROM asked for under an upper-case extension passes the check, the
      output file is created, and nothing is written to it. */
  lemma UpperCaseLeavesOutputEmpty(input: seq<byte>, outputExt: string)
    requires IsValidOutputExt(outputExt) && outputExt !in ValidExt
    requires GetRomFormat(Header(input)).Some?
    ensures Expected(input, outputExt) == Finished([])
    ensures outputExt in [".N64", ".V64", ".Z64"]
  {
    ValidOutputExtCases(outputExt);
    ExtIsValid(GetRomFormat(Header(input)).value);
  }

  /** When a conversion raises, the bytes already written are the converted
      input up to its last chunk, which holds the misaligned tail. */
  lemma AbortedOutput(input: seq<byte>, outputExt: string)
    requires Expected(input, outputExt).Aborted?
    ensures GetRomFormat(Header(input)).Some?
    ensures Dispatch(GetRomFormat(Header(input)).value, outputExt).Some?
    ensures !Fits(Dispatch(GetRomFormat(Header(input)).value, outputExt).value, |input|)
    ensures |Expected(input, outputExt).output| < |input| <= |Expected(input, outputExt).output| + ChunkSize
    ensures |Expected(input, outputExt).output| % ChunkSize == 0
    ensures var t := Dispatch(GetRomFormat(Header(input)).value, outputExt).value;
      var out := Expected(input, outputExt).output;
      Fits(t, |out|) && out == Apply(t, input[..|out|])
  {
    FitsWholeChunks(Dispatch(GetRomFormat(Header(input)).value, outputExt).value, |input|);
  }

  /** A ROM whose length is aligned for the chosen transform is converted
      as a whole. */
  lemma ConvertsAligned(input: seq<byte>, src: Format, dst: Format)
    requires GetRomFormat(Header(input)) == Some(src) && src != dst
    requires Fits(Dispatch(src, Ext(dst)).value, |input|)
    ensures Expected(input, Ext(dst)) == Finished(Apply(Dispatch(src, Ext(dst)).value, input))
  {
    ExtIsValid(dst);
    MagicAndExtInjective(src, dst);
  }

  /** The byte orders spelled out on an eight-byte big-endian image turned
      into a word-reversed one. */
  lemma Z64ToN64Example()
    ensures Expected([0x80, 0x37, 0x12, 0x40, 0x00, 0x01, 0x02, 0x03], ".n64")
      == Finished([0x40, 0x12, 0x37, 0x80, 0x03, 0x02, 0x01, 0x00])
  {
    var input: seq<byte> := [0x80, 0x37, 0x12, 0x40, 0x00, 0x01, 0x02, 0x03];
    var head, body := input[..4], input[4..];
    assert head == [0x80, 0x37, 0x12, 0x40] && body == [0x00, 0x01, 0x02, 0x03];
    TakeDrop(input, 4);
    ApplyWord(EndianSwap, 0x80, 0x37, 0x12, 0x40);
    ApplyWord(EndianSwap, 0x00, 0x01, 0x02, 0x03);
    ApplyAppend(EndianSwap, head, body);
    var output := Apply(EndianSwap, input);
    assert output == [0x40, 0x12, 0x37, 0x80] + [0x03, 0x02, 0x01, 0x00];
    assert output == [0x40, 0x12, 0x37, 0x80, 0x03, 0x02, 0x01, 0x00];
    assert Header(input) == Magic(Z64);
    assert Dispatch(Z64, Ext(N64)) == Some(EndianSwap);
    ConvertsAligned(input, Z64, N64);
  }

  /** The same for a word-reversed image turned into a half-word-swapped
      one, which takes both steps. */
  lemma N64ToV64Example()
    ensures Expected([0x40, 0x12, 0x37, 0x80, 0xAA, 0xBB, 0xCC, 0xDD], ".v64")
      == Finished([0x37, 0x80, 0x40, 0x12, 0xCC, 0xDD, 0xAA, 0xBB])
  {
    var input: seq<byte> := [0x40, 0x12, 0x37, 0x80, 0xAA, 0xBB, 0xCC, 0xDD];
    var head, body := input[..4], input[4..];
    assert head == [0x40, 0x12, 0x37, 0x80] && body == [0xAA, 0xBB, 0xCC, 0xDD];
    TakeDrop(input, 4);
    ApplyWord(EndianSwapThenByteSwap, 0x40, 0x12, 0x37, 0x80);
    ApplyWord(EndianSwapThenByteSwap, 0xAA, 0xBB, 0xCC, 0xDD);
    ApplyAppend(EndianSwapThenByteSwap, head, body);
    var output := Apply(EndianSwapThenByteSwap, input);
    assert output == [0x37, 0x80, 0x40, 0x12] + [0xCC, 0xDD, 0xAA, 0xBB];
    assert output == [0x37, 0x80, 0x40, 0x12, 0xCC, 0xDD, 0xAA, 0xBB];
    assert Header(input) == Magic(N64);
    assert Dispatch(N64, Ext(V64)) == Some(EndianSwapThenByteSwap);
    ConvertsAligned(input, N64, V64);
  }
}
