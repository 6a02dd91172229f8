/**
 * Conversion of a rasterized glyph buffer into the 4-bytes-per-pixel buffer
 * that is drawn onto the title bitmap.
 */
module Packing {
  import opened Backend

  /**
   * The coverage of one source chunk: its fourth byte (alpha) over 255 when
   * it has one, otherwise the plain average of its red, green and blue bytes
   * over 255.  Computed exactly; the source does it in f32.
   */
  function Coverage(px: seq<u8>): (a: real)
    requires |px| >= 3
    ensures 0.0 <= a <= 1.0
  {
    if |px| >= 4 then px[3] as real / 255.0
    else (px[0] as real / 255.0 + px[1] as real / 255.0 + px[2] as real / 255.0) / 3.0
  }

  /**
   * A chunk is fully transparent exactly when its coverage source is all
   * zero, and fully opaque exactly when it is all 255; an alpha byte, when
   * present, decides alone.
   */
  lemma CoverageExtremes(px: seq<u8>)
    requires |px| >= 3
    ensures Coverage(px) == 0.0 <==> if |px| >= 4 then px[3] == 0 else px[0] == 0 && px[1] == 0 && px[2] == 0
    ensures Coverage(px) == 1.0 <==> if |px| >= 4 then px[3] == 255 else px[0] == 255 && px[1] == 255 && px[2] == 255
  {
  }

  /**
   * The output pixel of one chunk: the base colour with its alpha replaced by
   * the coverage, premultiplied and converted to bytes, emitted as
   * red, red, green, alpha (blue is dropped).
   */
  function Pixel(sk: Skia, color: Color, px: seq<u8>): seq<u8>
    requires |px| >= 3
  {
    var c := sk.premultiply(color.(alpha := Coverage(px)));
    [c.red, c.red, c.green, c.alpha]
  }

  /** The number of chunks `len` bytes split into with chunk size n (the last may be short). */
  function ChunkCount(len: nat, n: nat): nat
    requires n == 3 || n == 4
  {
    if n == 3 then (len + 2) / 3 else (len + 3) / 4
  }

  /** The offset of chunk k, k * n. */
  function ChunkStart(k: nat, n: nat): nat
    requires n == 3 || n == 4
  {
    if n == 3 then 3 * k else 4 * k
  }

  /** Chunk k of v: bytes k*n up to (k+1)*n, cut at the end of v (Rust's `chunks(n)`). */
  function Chunk(v: seq<u8>, n: nat, k: nat): (px: seq<u8>)
    requires n == 3 || n == 4
    requires k < ChunkCount(|v|, n)
    ensures 0 < |px| <= n
    ensures WholeChunks(|v|, n) ==> |px| >= 3
  {
    var start := ChunkStart(k, n);
    v[start .. if start + n <= |v| then start + n else |v|]
  }

  /** The pixels of the first k chunks of v, in order. */
  function PackChunks(sk: Skia, color: Color, v: seq<u8>, n: nat, k: nat): (out: seq<u8>)
    requires n == 3 || n == 4
    requires WholeChunks(|v|, n) && k <= ChunkCount(|v|, n)
    ensures |out| == 4 * k
  {
    if k == 0 then [] else PackChunks(sk, color, v, n, k - 1) + Pixel(sk, color, Chunk(v, n, k - 1))
  }

  /** The packed buffer: the pixels of all chunks of v. */
  function Pack(sk: Skia, color: Color, v: seq<u8>, n: nat): seq<u8>
    requires n == 3 || n == 4
    requires WholeChunks(|v|, n)
  {
    PackChunks(sk, color, v, n, ChunkCount(|v|, n))
  }

  /** The packed buffer holds exactly 4 bytes per source chunk. */
  lemma PackLength(sk: Skia, color: Color, v: seq<u8>, n: nat)
    requires n == 3 || n == 4
    requires WholeChunks(|v|, n)
    ensures |Pack(sk, color, v, n)| == 4 * ChunkCount(|v|, n)
  {
  }

  /** Bytes 4j .. 4j+3 of the pixels of the first k chunks are the pixel of chunk j. */
  lemma {:induction false} PackChunksAt(sk: Skia, color: Color, v: seq<u8>, n: nat, k: nat, j: nat)
    requires n == 3 || n == 4
    requires WholeChunks(|v|, n) && k <= ChunkCount(|v|, n)
    requires j < k
    ensures forall m :: 0 <= m < 4 ==>
      PackChunks(sk, color, v, n, k)[4 * j + m] == Pixel(sk, color, Chunk(v, n, j))[m]
  {
    var prefix := PackChunks(sk, color, v, n, k - 1);
    var last := Pixel(sk, color, Chunk(v, n, k - 1));
    assert PackChunks(sk, color, v, n, k) == prefix + last;
    if j < k - 1 {
      PackChunksAt(sk, color, v, n, k - 1, j);
    }
  }

  /**
   * Every output pixel is red, red, green, alpha of the base colour tinted
   * with its chunk's coverage; so its first two bytes are always equal and
   * the blue channel never appears.
   */
  lemma PixelLayout(sk: Skia, color: Color, v: seq<u8>, n: nat, k: nat)
    requires n == 3 || n == 4
    requires WholeChunks(|v|, n)
    requires k < ChunkCount(|v|, n)
    ensures |Pack(sk, color, v, n)| == 4 * ChunkCount(|v|, n)
    ensures var c := sk.premultiply(color.(alpha := Coverage(Chunk(v, n, k))));
      var out := Pack(sk, color, v, n);
      out[4 * k] == c.red && out[4 * k + 1] == c.red &&
      out[4 * k + 2] == c.green && out[4 * k + 3] == c.alpha
  {
    PackChunksAt(sk, color, v, n, ChunkCount(|v|, n), k);
    var out := Pack(sk, color, v, n);
    var px := Pixel(sk, color, Chunk(v, n, k));
    assert out[4 * k + 0] == px[0] && out[4 * k + 1] == px[1];
    assert out[4 * k + 2] == px[2] && out[4 * k + 3] == px[3];
  }

  /** The per-pixel loop that turns one glyph's buffer into output bytes. */
  method PackGlyph(sk: Skia, color: Color, buffer: GlyphBuffer) returns (out: seq<u8>)
    requires WholeChunks(|buffer.bytes|, buffer.Stride())
    ensures out == Pack(sk, color, buffer.bytes, buffer.Stride())
  {
    var v: seq<u8>, n: nat;
    match buffer {
      case Rgb(bytes) => v, n := bytes, 3;
      case Rgba(bytes) => v, n := bytes, 4;
    }
    out := [];
    var count := ChunkCount(|v|, n);
    for k := 0 to count
      invariant out == PackChunks(sk, color, v, n, k)
    {
      var start := ChunkStart(k, n);
      var px := v[start .. if start + n <= |v| then start + n else |v|];
      assert px == Chunk(v, n, k);
      var alpha := Coverage(px);
      var c := sk.premultiply(color.(alpha := alpha));
      out := out + [c.red, c.red, c.green, c.alpha];
    }
  }
}
