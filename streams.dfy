/** The two open files of main, reduced to their bytes, and read_in_chunks,
    the generator that feeds the input file to the conversion loops. */
module Streams {
  import opened Formats

  /** The input file opened with `open(infile, "rb")`: its fixed contents and
      the position of the next read. */
  class RomFile {
    const data: seq<byte>
    var pos: nat

    ghost predicate Valid()
      reads this
    {
      pos <= |data|
    }

    /** The rest of the file from the current position. */
    ghost function Remaining(): seq<byte>
      reads this
      requires Valid()
    {
      data[pos..]
    }

    constructor Open(contents: seq<byte>)
      ensures Valid() && data == contents && pos == 0
    {
      data := contents;
      pos := 0;
    }

    /** `read(n)`: up to `n` bytes from the current position, fewer only at
        the end of the file, and the position moves past them. */
    method Read(n: nat) returns (chunk: seq<byte>)
      requires Valid()
      modifies this
      ensures Valid()
      ensures chunk == old(data[pos..Min(pos + n, |data|)])
      ensures pos == old(pos) + |chunk|
    {
      var end := Min(pos + n, |data|);
      chunk := data[pos..end];
      pos := end;
    }

    /** `seek(0)`. */
    method Rewind()
      requires Valid()
      modifies this
      ensures Valid() && pos == 0
    {
      pos := 0;
    }
  }

  /** The output file opened with `open(outfile, "wb")`: created empty, and
      every `write` appends. */
  class OutFile {
    var contents: seq<byte>

    constructor Create()
      ensures contents == []
    {
      contents := [];
    }

    method Write(b: seq<byte>)
      modifies this
      ensures contents == old(contents) + b
    {
      contents := contents + b;
    }
  }

  function Min(a: int, b: int): int
  {
    if a <= b then a else b
  }

  lemma AppendAssoc<T>(a: seq<T>, b: seq<T>, c: seq<T>)
    ensures (a + b) + c == a + (b + c)
  {
  }

  lemma AppendEmpty<T>(a: seq<T>)
    ensures a + [] == a
  {
  }

  lemma TailOfCons<T>(x: T, r: seq<T>)
    ensures ([x] + r)[1..] == r
  {
  }

  lemma DropDrop<T>(s: seq<T>, i: nat, j: nat)
    requires i + j <= |s|
    ensures s[i..][j..] == s[i + j..]
  {
  }

  lemma DropTake<T>(s: seq<T>, i: nat, j: nat)
    requires i + j <= |s|
    ensures s[i..][..j] == s[i..i + j]
  {
  }

  lemma TakeSnoc<T>(s: seq<T>, i: nat)
    requires i < |s|
    ensures s[..i] + [s[i]] == s[..i + 1]
  {
  }

  lemma TakeAll<T>(s: seq<T>)
    ensures s[..|s|] == s
  {
  }

  lemma TakeDrop<T>(s: seq<T>, n: nat)
    requires n <= |s|
    ensures s[..n] + s[n..] == s
  {
  }

  /** A prefix reaching past `s[..n]` is `s[..n]` followed by a prefix of
      the rest. */
  lemma TakeLonger<T>(s: seq<T>, n: nat, k: nat)
    requires n + k <= |s|
    ensures s[..n + k] == s[..n] + s[n..][..k]
  {
  }

  /** The chunks one after the other. */
  function Concat(chunks: seq<seq<byte>>): seq<byte>
  {
    if chunks == [] then [] else chunks[0] + Concat(chunks[1..])
  }

  lemma {:induction false} ConcatAppend(a: seq<seq<byte>>, b: seq<seq<byte>>)
    ensures Concat(a + b) == Concat(a) + Concat(b)
    decreases |a|
  {
    if a == [] {
      assert a + b == b;
    } else {
      assert (a + b)[1..] == a[1..] + b;
      ConcatAppend(a[1..], b);
    }
  }

  lemma ConcatOne(chunk: seq<byte>)
    ensures Concat([chunk]) == chunk
  {
    TailOfCons(chunk, []);
    AppendEmpty([chunk]);
    AppendEmpty(chunk);
  }

  /** What read_in_chunks yields from `s` with the given chunk size: full
      chunks while the rest is longer than one, then the rest. A chunk size
      of zero makes the first read empty, and the generator stops at once. */
  function Chunks(s: seq<byte>, size: nat): (cs: seq<seq<byte>>)
    decreases |s|
  {
    if size == 0 || s == [] then []
    else if |s| <= size then [s]
    else [s[..size]] + Chunks(s[size..], size)
  }

  /** With a positive chunk size the chunks, in order, are exactly the bytes
      that were left in the file; with size zero nothing is yielded. */
  lemma {:induction false} ChunksConcat(s: seq<byte>, size: nat)
    ensures size > 0 ==> Concat(Chunks(s, size)) == s
    ensures size == 0 ==> Chunks(s, size) == []
    decreases |s|
  {
    if size > 0 && |s| > size {
      var cs := Chunks(s[size..], size);
      assert ([s[..size]] + cs)[1..] == cs;
      ChunksConcat(s[size..], size);
      assert s[..size] + s[size..] == s;
    } else if size > 0 && s != [] {
      assert [s][1..] == [];
    }
  }

  /** Every chunk is non-empty and at most `size` long, and every chunk but
      the last is exactly `size` long. */
  lemma {:induction false} ChunksSizes(s: seq<byte>, size: nat)
    ensures forall i :: 0 <= i < |Chunks(s, size)| ==> 0 < |Chunks(s, size)[i]| <= size
    ensures forall i :: 0 <= i < |Chunks(s, size)| - 1 ==> |Chunks(s, size)[i]| == size
    decreases |s|
  {
    if size > 0 && |s| > size {
      ChunksSizes(s[size..], size);
    }
  }

  /** A non-empty read takes the first chunk off the front. */
  lemma ChunksStep(s: seq<byte>, size: nat)
    requires size > 0 && s != []
    ensures Chunks(s, size) == [s[..Min(size, |s|)]] + Chunks(s[Min(size, |s|)..], size)
  {
    if |s| <= size {
      assert s[..|s|] == s;
    }
  }

  /** read_in_chunks, run to exhaustion: read `size` bytes at a time until a
      read comes back empty. The chunks are what the generator yields, in
      order, and the file is left at its end. */
  method ReadInChunks(f: RomFile, size: nat) returns (chunks: seq<seq<byte>>)
    requires f.Valid()
    modifies f
    ensures f.Valid()
    ensures chunks == Chunks(old(f.Remaining()), size)
    ensures size > 0 ==> f.pos == |f.data|
  {
    ghost var all := Chunks(f.Remaining(), size);
    chunks := [];
    while true
      invariant f.Valid()
      invariant all == chunks + Chunks(f.Remaining(), size)
      invariant size == 0 ==> f.pos == old(f.pos)
      decreases |f.data| - f.pos
    {
      ghost var start := f.pos;
      ghost var before := f.Remaining();
      var data := f.Read(size);
      if data == [] {
        break;
      }
      assert size > 0 && before != [];
      var n := Min(size, |before|);
      DropTake(f.data, start, n);
      DropDrop(f.data, start, n);
      ghost var after := f.Remaining();
      assert data == before[..n] && after == before[n..];
      ChunksStep(before, size);
      AppendAssoc(chunks, [data], Chunks(after, size));
      chunks := chunks + [data];
    }
  }
}
