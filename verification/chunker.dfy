/**
 Splitting a file's content into the pieces that are written to the chunk store
 one transaction at a time (`bufferChunk` and the size branch of `request`).
 */
module Chunker {
  import opened Arith

  newtype byte = x: int | 0 <= x < 256
  type Bytes = seq<byte>

  /** Files of more than 475 KiB are split; smaller ones go up in one piece. */
  const SplitThreshold: nat := 475 * 1024

  /** Integer ceiling of `a / b`, as `Math.ceil` computes it on exact integers. */
  function CeilDiv(a: nat, b: nat): nat
    requires b > 0
  {
    (a + b - 1) / b
  }

  /** The ceiling is the least multiple count of `b` that reaches `a`. */
  lemma CeilDivBounds(a: nat, b: nat)
    requires b > 0
    ensures CeilDiv(a, b) * b >= a
    ensures CeilDiv(a, b) == 0 || (CeilDiv(a, b) - 1) * b < a
  {
    var m := a + b - 1;
    var q := m / b;
    assert m == q * b + m % b;
    assert (q - 1) * b == q * b - b;
  }

  /** Those two bounds pin the ceiling down. */
  lemma CeilDivUnique(a: nat, b: nat, q: nat)
    requires b > 0
    requires q * b >= a
    requires q == 0 || (q - 1) * b < a
    ensures CeilDiv(a, b) == q
  {
    var c := CeilDiv(a, b);
    CeilDivBounds(a, b);
    if c < q {
      MulLe(c, q - 1, b);
      assert false;
    } else if c > q {
      MulLe(q, c - 1, b);
      assert false;
    }
  }

  /** The bytes of all pieces, in order. */
  function Flatten(pieces: seq<Bytes>): Bytes
  {
    if |pieces| == 0 then [] else pieces[0] + Flatten(pieces[1..])
  }

  /** One more piece needs one more `width`: ceil(L / w) == 1 + ceil((L - w) / w). */
  lemma CeilDivStep(len: nat, width: nat)
    requires width > 0 && len > width
    ensures CeilDiv(len, width) == 1 + CeilDiv(len - width, width)
  {
    var q := CeilDiv(len - width, width);
    CeilDivBounds(len - width, width);
    assert (1 + q) * width == q * width + width;
    if q > 0 {
      assert (q - 1) * width == q * width - width;
    }
    CeilDivUnique(len, width, 1 + q);
  }

  /**
   Cuts `buffer` into consecutive slices of `width` bytes. As with a slice whose
   end runs past the buffer, the final slice takes whatever is left.
   */
  function Slices(buffer: Bytes, width: nat): (r: seq<Bytes>)
    requires width > 0
    ensures Flatten(r) == buffer
    ensures |r| == CeilDiv(|buffer|, width)
    ensures forall k :: 0 <= k < |r| ==> 1 <= |r[k]| <= width
    ensures forall k :: 0 <= k < |r| - 1 ==> |r[k]| == width
    decreases |buffer|
  {
    if |buffer| == 0 then
      CeilDivUnique(0, width, 0);
      []
    else if |buffer| <= width then
      CeilDivUnique(|buffer|, width, 1);
      assert Flatten([buffer]) == buffer + Flatten([]);
      [buffer]
    else
      var rest := Slices(buffer[width..], width);
      var r := [buffer[..width]] + rest;
      CeilDivStep(|buffer|, width);
      assert r[1..] == rest;
      assert buffer == buffer[..width] + buffer[width..];
      r
  }

  /** The piece length `bufferChunk` uses: ceil(len / n). */
  function PieceLength(len: nat, n: nat): nat
    requires n >= 1
  {
    CeilDiv(len, n)
  }

  /** Cutting at ceil(len / n) never needs more than n pieces. */
  lemma PieceCountBound(len: nat, n: nat)
    requires n >= 1 && len >= 1
    ensures PieceLength(len, n) >= 1
    ensures CeilDiv(len, PieceLength(len, n)) <= n
    ensures len > n * (n - 1) ==> CeilDiv(len, PieceLength(len, n)) == n
  {
    var k := PieceLength(len, n);
    CeilDivBounds(len, n);
    assert k >= 1;
    var c := CeilDiv(len, k);
    CeilDivBounds(len, k);
    if c > n {
      MulLe(n, c - 1, k);
      assert false;
    }
    if len > n * (n - 1) {
      // len / n > n - 1, so the piece length is at least n ...
      if k < n {
        MulLe(k, n - 1, n);
        assert false;
      }
      // ... and then n - 1 pieces of that length fall short of the buffer.
      assert (k - 1) * n == k * n - n;
      assert (n - 1) * k == n * k - k;
      CeilDivUnique(len, k, n);
    }
  }

  /**
   `bufferChunk(buffer, n)`: the parameter is a piece COUNT n; the buffer is cut
   into consecutive pieces of ceil(len / n) bytes, the last possibly shorter.
   */
  function BufferChunk(buffer: Bytes, n: nat): (r: seq<Bytes>)
    requires n >= 1
    ensures Flatten(r) == buffer
    ensures |buffer| == 0 ==> r == []
    ensures |buffer| > 0 ==> |r| == CeilDiv(|buffer|, PieceLength(|buffer|, n))
    ensures 1 <= |r| <= n || |buffer| == 0
    ensures forall k :: 0 <= k < |r| ==> 1 <= |r[k]| <= PieceLength(|buffer|, n)
    ensures forall k :: 0 <= k < |r| - 1 ==> |r[k]| == PieceLength(|buffer|, n)
  {
    if |buffer| == 0 then []
    else
      PieceCountBound(|buffer|, n);
      Slices(buffer, PieceLength(|buffer|, n))
  }

  /** The pieces of one upload, and the count `n` the file size is divided by for the fee. */
  datatype Split = Split(chunks: seq<Bytes>, divisor: nat)

  /**
   For `request`'s count n = ceil(len / 475 KiB) the cut always yields exactly n
   pieces of at most 475 KiB: n - 1 full pieces could hold at most (n - 1) * 475 KiB
   bytes, and a file that needs n as its count is longer than that.
   */
  lemma LargeFilePieceCount(len: nat)
    requires SplitThreshold < len
    ensures CeilDiv(len, SplitThreshold) >= 2
    ensures PieceLength(len, CeilDiv(len, SplitThreshold)) <= SplitThreshold
    ensures CeilDiv(len, PieceLength(len, CeilDiv(len, SplitThreshold))) == CeilDiv(len, SplitThreshold)
  {
    var n := CeilDiv(len, SplitThreshold);
    CeilDivBounds(len, SplitThreshold);
    var k := PieceLength(len, n);
    CeilDivBounds(len, n);
    if k > SplitThreshold {
      MulLe(SplitThreshold, k - 1, n);
      assert false;
    }
    MulLe(k, SplitThreshold, n - 1);
    assert (n - 1) * k < len;
    CeilDivUnique(len, k, n);
  }

  /**
   The size branch of `request`: up to 475 KiB the whole content is one chunk
   (even when empty) and the size is not divided; above, the content goes through
   `BufferChunk` with n = ceil(size / 475 KiB), giving exactly n chunks, and the
   size is divided by n.
   */
  function SplitFile(content: Bytes): (s: Split)
    ensures s.divisor >= 1
    ensures Flatten(s.chunks) == content
    ensures |content| <= SplitThreshold ==> s.chunks == [content] && s.divisor == 1
    ensures |content| > SplitThreshold ==>
      && s.divisor == CeilDiv(|content|, SplitThreshold) >= 2
      && s.chunks == BufferChunk(content, s.divisor)
      && |s.chunks| == s.divisor
    ensures forall k :: 0 <= k < |s.chunks| ==> |s.chunks[k]| <= SplitThreshold
  {
    if |content| > SplitThreshold then
      var n := CeilDiv(|content|, SplitThreshold);
      LargeFilePieceCount(|content|);
      Split(BufferChunk(content, n), n)
    else
      assert Flatten([content]) == content + Flatten([]);
      Split([content], 1)
  }

  /** A count is not always met: 9 bytes asked for 4 pieces give 3 pieces of 3. */
  lemma NineBytesFourPieces(buffer: Bytes)
    requires |buffer| == 9
    ensures |BufferChunk(buffer, 4)| == 3
    ensures forall k :: 0 <= k < 3 ==> |BufferChunk(buffer, 4)[k]| == 3
  {
    assert PieceLength(9, 4) == 3;
    assert CeilDiv(9, 3) == 3;
    var r := BufferChunk(buffer, 4);
    assert r == Slices(buffer, 3);
    assert |r[2]| == 3 by {
      assert Slices(buffer, 3) == [buffer[..3]] + Slices(buffer[3..], 3);
      assert Slices(buffer[3..], 3) == [buffer[3..][..3]] + Slices(buffer[3..][3..], 3);
      assert |buffer[3..][3..]| == 3;
      assert Slices(buffer[3..][3..], 3) == [buffer[3..][3..]];
    }
  }
}
