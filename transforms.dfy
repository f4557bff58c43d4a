/** The two byte permutations the converter is built from: swap_bytes, which
    exchanges the bytes of every 16-bit word, and the numpy float32 byteswap,
    which only reverses the four bytes of every 32-bit element. */
module Transforms {
  import opened Formats

  /** Every adjacent byte pair exchanged, pair by pair from the front. */
  function PairSwap(s: seq<byte>): (r: seq<byte>)
    requires |s| % 2 == 0
    ensures |r| == |s|
    decreases |s|
  {
    if s == [] then [] else [s[1], s[0]] + PairSwap(s[2..])
  }

  /** Every group of four bytes reversed, group by group from the front. */
  function QuadReverse(s: seq<byte>): (r: seq<byte>)
    requires |s| % 4 == 0
    ensures |r| == |s|
    decreases |s|
  {
    if s == [] then [] else [s[3], s[2], s[1], s[0]] + QuadReverse(s[4..])
  }

  /** Byte `i` of the result comes from the other byte of its pair. */
  lemma {:induction false} PairSwapAt(s: seq<byte>, i: nat)
    requires |s| % 2 == 0 && i < |s|
    ensures PairSwap(s)[i] == if i % 2 == 0 then s[i + 1] else s[i - 1]
    decreases i
  {
    if i >= 2 {
      PairSwapAt(s[2..], i - 2);
    }
  }

  /** Byte `d` of group `g` of the result comes from the mirror position of
      the same group: offset 0 from 3, 1 from 2, 2 from 1, 3 from 0. */
  lemma {:induction false} QuadReverseAt(s: seq<byte>, g: nat, d: nat)
    requires |s| % 4 == 0 && 4 * g + 4 <= |s| && d < 4
    ensures QuadReverse(s)[4 * g + d] == s[4 * g + 3 - d]
    decreases g
  {
    if g > 0 {
      QuadReverseAt(s[4..], g - 1, d);
    }
  }

  /** Swapping the pairs twice gives back the original bytes. */
  lemma {:induction false} PairSwapInvolution(s: seq<byte>)
    requires |s| % 2 == 0
    ensures PairSwap(PairSwap(s)) == s
    decreases |s|
  {
    if s != [] {
      var rest := PairSwap(s[2..]);
      assert ([s[1], s[0]] + rest)[2..] == rest;
      PairSwapInvolution(s[2..]);
    }
  }

  /** Reversing the groups of four twice gives back the original bytes. */
  lemma {:induction false} QuadReverseInvolution(s: seq<byte>)
    requires |s| % 4 == 0
    ensures QuadReverse(QuadReverse(s)) == s
    decreases |s|
  {
    if s != [] {
      var rest := QuadReverse(s[4..]);
      assert ([s[3], s[2], s[1], s[0]] + rest)[4..] == rest;
      QuadReverseInvolution(s[4..]);
    }
  }

  /** A whole number of groups of four is a whole number of pairs. */
  lemma {:induction false} QuadIsEven(n: int)
    requires n % 4 == 0
    ensures n % 2 == 0
  {
    var k := n / 4;
    assert n == 2 * (2 * k);
  }

  lemma {:induction false} QuadSum(m: int, n: int)
    requires m % 4 == 0 && n % 4 == 0
    ensures (m + n) % 4 == 0 && (m + n) % 2 == 0
  {
    assert (m + n) % 4 == 0;
    QuadIsEven(m + n);
  }

  lemma {:induction false} PairSum(m: int, n: int)
    requires m % 2 == 0 && n % 2 == 0
    ensures (m + n) % 2 == 0
  {
    var a, b := m / 2, n / 2;
    assert m == 2 * a && n == 2 * b;
    assert m + n == 2 * (a + b);
  }

  /** On 4-aligned data the two permutations commute, and either order maps
      each group [a, b, c, d] to [c, d, a, b]; so reversing first and then
      swapping pairs is the same as swapping first and then reversing. */
  lemma {:induction false} SwapsCommute(s: seq<byte>)
    requires |s| % 4 == 0
    ensures ReverseThenSwap(s) == SwapThenReverse(s)
    ensures forall g :: 0 <= g && 4 * g + 4 <= |s| ==>
      ReverseThenSwap(s)[4 * g .. 4 * g + 4] == [s[4 * g + 2], s[4 * g + 3], s[4 * g], s[4 * g + 1]]
    decreases |s|
  {
    QuadIsEven(|s|);
    forall g | 0 <= g && 4 * g + 4 <= |s|
      ensures ReverseThenSwap(s)[4 * g .. 4 * g + 4] == [s[4 * g + 2], s[4 * g + 3], s[4 * g], s[4 * g + 1]]
    {
      ReverseThenSwapWord(s, g);
    }
    if s != [] {
      var head, tail := s[..4], s[4..];
      assert s == head + tail;
      QuadIsEven(|tail|);
      // reverse first, then swap pairs
      assert QuadReverse(s) == [s[3], s[2], s[1], s[0]] + QuadReverse(tail);
      PairSwapAppend([s[3], s[2], s[1], s[0]], QuadReverse(tail));
      assert PairSwap([s[3], s[2], s[1], s[0]]) == [s[2], s[3], s[0], s[1]];
      // swap pairs first, then reverse
      PairSwapAppend(head, tail);
      assert PairSwap(head) == [s[1], s[0], s[3], s[2]];
      QuadReverseAppend(PairSwap(head), PairSwap(tail));
      assert QuadReverse([s[1], s[0], s[3], s[2]]) == [s[2], s[3], s[0], s[1]];
      SwapsCommute(tail);
    }
  }

  /** Reversing then swapping pairs maps group `g`, [a, b, c, d], to
      [c, d, a, b]. */
  lemma ReverseThenSwapWord(s: seq<byte>, g: nat)
    requires |s| % 4 == 0 && 4 * g + 4 <= |s|
    ensures ReverseThenSwap(s)[4 * g .. 4 * g + 4] == [s[4 * g + 2], s[4 * g + 3], s[4 * g], s[4 * g + 1]]
  {
    QuadIsEven(|s|);
    var q := QuadReverse(s);
    var i := 4 * g;
    assert i % 2 == 0 && (i + 2) % 2 == 0 && (i + 1) % 2 == 1 && (i + 3) % 2 == 1;
    PairSwapAt(q, i);
    PairSwapAt(q, i + 1);
    PairSwapAt(q, i + 2);
    PairSwapAt(q, i + 3);
    QuadReverseAt(s, g, 0);
    QuadReverseAt(s, g, 1);
    QuadReverseAt(s, g, 2);
    QuadReverseAt(s, g, 3);
  }

  /** Both permutations work group by group, so they distribute over a
      concatenation whose first part is a whole number of groups. */
  lemma {:induction false} PairSwapAppend(x: seq<byte>, y: seq<byte>)
    requires |x| % 2 == 0 && |y| % 2 == 0
    ensures |x + y| % 2 == 0
    ensures PairSwap(x + y) == PairSwap(x) + PairSwap(y)
    decreases |x|
  {
    PairSum(|x|, |y|);
    if x == [] {
      assert x + y == y;
    } else {
      var xs := x[2..];
      assert (x + y)[2..] == xs + y;
      calc {
        PairSwap(x + y);
        [x[1], x[0]] + PairSwap(xs + y);
        { PairSwapAppend(xs, y); }
        [x[1], x[0]] + (PairSwap(xs) + PairSwap(y));
        ([x[1], x[0]] + PairSwap(xs)) + PairSwap(y);
        PairSwap(x) + PairSwap(y);
      }
    }
  }

  lemma {:induction false} QuadReverseAppend(x: seq<byte>, y: seq<byte>)
    requires |x| % 4 == 0 && |y| % 4 == 0
    ensures |x + y| % 4 == 0
    ensures QuadReverse(x + y) == QuadReverse(x) + QuadReverse(y)
    decreases |x|
  {
    QuadSum(|x|, |y|);
    if x == [] {
      assert x + y == y;
    } else {
      var xs := x[4..];
      assert (x + y)[4..] == xs + y;
      calc {
        QuadReverse(x + y);
        [x[3], x[2], x[1], x[0]] + QuadReverse(xs + y);
        { QuadReverseAppend(xs, y); }
        [x[3], x[2], x[1], x[0]] + (QuadReverse(xs) + QuadReverse(y));
        ([x[3], x[2], x[1], x[0]] + QuadReverse(xs)) + QuadReverse(y);
        QuadReverse(x) + QuadReverse(y);
      }
    }
  }

  /** swap_bytes: a zero-filled buffer of the same length is filled by the
      two strided slice assignments `out[0::2] = b[1::2]` and
      `out[1::2] = b[0::2]`. Python refuses an extended-slice assignment
      whose two sides differ in length, which is the case exactly when the
      length is odd; that error is None here. */
  method SwapBytes(b: seq<byte>) returns (r: Option<seq<byte>>)
    ensures r.Some? <==> |b| % 2 == 0
    ensures r.Some? ==> r.value == PairSwap(b)
  {
    var n := |b|;
    var swapped := new byte[n];
    // out[0::2] has (n + 1) / 2 elements, b[1::2] has n / 2
    if (n + 1) / 2 != n / 2 {
      return None;
    }
    var i := 0;
    while i < n
      invariant 0 <= i <= n && i % 2 == 0
      invariant forall j :: 0 <= j < i && j % 2 == 0 ==> swapped[j] == b[j + 1]
    {
      swapped[i] := b[i + 1];
      i := i + 2;
    }
    i := 1;
    while i < n
      invariant 1 <= i <= n + 1 && i % 2 == 1
      invariant forall j :: 0 <= j < n && j % 2 == 0 ==> swapped[j] == b[j + 1]
      invariant forall j :: 0 <= j < i && j % 2 == 1 ==> swapped[j] == b[j - 1]
    {
      swapped[i] := b[i - 1];
      i := i + 2;
    }
    forall j | 0 <= j < n
      ensures swapped[j] == PairSwap(b)[j]
    {
      PairSwapAt(b, j);
    }
    r := Some(swapped[..]);
  }

  /** `numpy.frombuffer(chunk, numpy.float32).byteswap()`, seen only through
      its bytes: every four-byte element is reversed, no value is computed.
      frombuffer refuses a buffer that is not a whole number of elements. */
  function FloatByteswap(chunk: seq<byte>): (r: Option<seq<byte>>)
    ensures r.Some? <==> |chunk| % 4 == 0
    ensures r.Some? ==> |r.value| == |chunk|
  {
    if |chunk| % 4 == 0 then Some(QuadReverse(chunk)) else None
  }

  /** The float32 byteswap followed by swap_bytes; each group [a, b, c, d]
      becomes [c, d, a, b]. */
  function ReverseThenSwap(s: seq<byte>): (r: seq<byte>)
    requires |s| % 4 == 0
    ensures |r| == |s|
  {
    QuadIsEven(|s|);
    PairSwap(QuadReverse(s))
  }

  /** swap_bytes followed by the float32 byteswap: the order in which the
      comment on the .v64 to .n64 branch of main describes that conversion. */
  function SwapThenReverse(s: seq<byte>): (r: seq<byte>)
    requires |s| % 4 == 0
    ensures |r| == |s|
  {
    QuadIsEven(|s|);
    QuadReverse(PairSwap(s))
  }

  /** The conversions the dispatch in main can pick besides plain copying. */
  datatype Transform =
    | ByteSwap                 // swap_bytes
    | EndianSwap               // float32 byteswap
    | EndianSwapThenByteSwap   // float32 byteswap, then swap_bytes

  /** The lengths a transform accepts without raising. */
  predicate Fits(t: Transform, n: int)
  {
    match t
    case ByteSwap => n % 2 == 0
    case EndianSwap => n % 4 == 0
    case EndianSwapThenByteSwap => n % 4 == 0
  }

  /** A transform applied to a whole stream of acceptable length. */
  function Apply(t: Transform, s: seq<byte>): (r: seq<byte>)
    requires Fits(t, |s|)
    ensures |r| == |s|
  {
    match t
    case ByteSwap => PairSwap(s)
    case EndianSwap => QuadReverse(s)
    case EndianSwapThenByteSwap => ReverseThenSwap(s)
  }

  /** On a single 32-bit word: the byte swap exchanges the bytes of each
      half, the endian swap reverses the word, and the two together exchange
      its halves. */
  lemma {:induction false} ApplyWord(t: Transform, a: byte, b: byte, c: byte, d: byte)
    ensures Fits(t, 4)
    ensures Apply(t, [a, b, c, d]) ==
      match t
      case ByteSwap => [b, a, d, c]
      case EndianSwap => [d, c, b, a]
      case EndianSwapThenByteSwap => [c, d, a, b]
  {
    assert PairSwap([a, b, c, d]) == [b, a, d, c] by {
      assert [a, b, c, d][2..] == [c, d];
      assert PairSwap([c, d]) == [d, c] by {
        assert [c, d][2..] == [];
      }
    }
    assert QuadReverse([a, b, c, d]) == [d, c, b, a] by {
      assert [a, b, c, d][4..] == [];
    }
    assert PairSwap([d, c, b, a]) == [c, d, a, b] by {
      assert [d, c, b, a][2..] == [b, a];
      assert PairSwap([b, a]) == [a, b] by {
        assert [b, a][2..] == [];
      }
    }
  }

  /** Each transform is its own inverse. */
  lemma {:induction false} ApplyInvolution(t: Transform, s: seq<byte>)
    requires Fits(t, |s|)
    ensures Apply(t, Apply(t, s)) == s
  {
    match t
    case ByteSwap => PairSwapInvolution(s);
    case EndianSwap => QuadReverseInvolution(s);
    case EndianSwapThenByteSwap =>
      var q := QuadReverse(s);
      QuadIsEven(|s|);
      calc {
        ReverseThenSwap(ReverseThenSwap(s));
        PairSwap(QuadReverse(PairSwap(q)));
        PairSwap(SwapThenReverse(q));
        { SwapsCommute(q); }
        PairSwap(ReverseThenSwap(q));
        PairSwap(PairSwap(QuadReverse(q)));
        { PairSwapInvolution(QuadReverse(q)); }
        QuadReverse(q);
        { QuadReverseInvolution(s); }
        s;
      }
  }

  /** Each transform works on aligned pieces independently. */
  lemma {:induction false} ApplyAppend(t: Transform, x: seq<byte>, y: seq<byte>)
    requires Fits(t, |x|) && Fits(t, |y|)
    ensures Fits(t, |x + y|)
    ensures Apply(t, x + y) == Apply(t, x) + Apply(t, y)
  {
    match t
    case ByteSwap =>
      PairSum(|x|, |y|);
      PairSwapAppend(x, y);
    case EndianSwap =>
      QuadSum(|x|, |y|);
      QuadReverseAppend(x, y);
    case EndianSwapThenByteSwap =>
      SwapAfterReverseAppend(x, y);
  }

  lemma {:induction false} SwapAfterReverseAppend(x: seq<byte>, y: seq<byte>)
    requires |x| % 4 == 0 && |y| % 4 == 0
    ensures |x + y| % 4 == 0
    ensures ReverseThenSwap(x + y) == ReverseThenSwap(x) + ReverseThenSwap(y)
  {
    QuadSum(|x|, |y|);
    QuadIsEven(|x|);
    QuadIsEven(|y|);
    QuadReverseAppend(x, y);
    PairSwapAppend(QuadReverse(x), QuadReverse(y));
  }
}
