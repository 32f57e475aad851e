/**
 * Pixel buffers as the tools see them: a cairo ARGB32 image surface is a
 * row-major array of `height` rows of `stride` bytes, and each pixel is four
 * bytes stored in the order blue, green, red, alpha (src/tools/bucket_tool.c).
 * Colours are handled as raw bytes; cairo's premultiplied-alpha reading of
 * those bytes is not part of this model.
 */
module Pixels {

  /** One 8-bit channel value. */
  type Byte = b: int | 0 <= b < 256

  /** A colour in red, green, blue, alpha order, independent of storage order. */
  datatype Pixel = Pixel(r: Byte, g: Byte, b: Byte, a: Byte)

  /** All four bytes zero: fully transparent black. */
  const Transparent := Pixel(0, 0, 0, 0)

  function Abs(v: int): nat {
    if v < 0 then -v else v
  }

  /** True when every channel of `p` and `q` differs by at most `tolerance`. */
  predicate ColorsEqual(p: Pixel, q: Pixel, tolerance: int) {
    && Abs(p.r - q.r) <= tolerance
    && Abs(p.g - q.g) <= tolerance
    && Abs(p.b - q.b) <= tolerance
    && Abs(p.a - q.a) <= tolerance
  }

  /** The tolerance test is a symmetric relation, exact equality at tolerance 0,
      reflexive for any non-negative tolerance and monotone in the tolerance. */
  lemma ColorsEqualFacts(p: Pixel, q: Pixel, t: int)
    ensures ColorsEqual(p, q, t) <==> ColorsEqual(q, p, t)
    ensures ColorsEqual(p, q, 0) <==> p == q
    ensures t >= 0 ==> ColorsEqual(p, p, t)
    ensures t < 0 ==> !ColorsEqual(p, q, t)
    ensures ColorsEqual(p, q, t) ==> ColorsEqual(p, q, t + 1)
  {
  }

  /** An image surface: `height` rows of `stride` bytes, `width` pixels used per row. */
  datatype Surface = Surface(width: int, height: int, stride: int, data: seq<Byte>)

  predicate Valid(s: Surface) {
    && 0 <= s.width
    && 0 <= s.height
    && 4 * s.width <= s.stride
    && |s.data| == s.height * s.stride
  }

  /** Both surfaces are valid and have the same geometry. */
  predicate SameShape(s: Surface, t: Surface) {
    && Valid(s) && Valid(t)
    && s.width == t.width && s.height == t.height && s.stride == t.stride
  }

  predicate InBounds(s: Surface, x: int, y: int) {
    0 <= x < s.width && 0 <= y < s.height
  }

  /** Index of the first byte of pixel (x, y). */
  function Offset(s: Surface, x: int, y: int): int {
    y * s.stride + 4 * x
  }

  lemma MulMonotone(a: int, b: int, c: int)
    requires 0 <= a <= b && 0 <= c
    ensures 0 <= a * c <= b * c
  {
    assert b * c - a * c == (b - a) * c;
  }

  /** The four bytes of an in-bounds pixel lie inside the buffer. */
  lemma OffsetInRange(s: Surface, x: int, y: int)
    requires Valid(s) && InBounds(s, x, y)
    ensures 0 <= Offset(s, x, y) && Offset(s, x, y) + 4 <= |s.data|
  {
    MulMonotone(y, y, s.stride);
    MulMonotone(y + 1, s.height, s.stride);
    assert (y + 1) * s.stride == y * s.stride + s.stride;
  }

  /** Distinct in-bounds pixels own disjoint groups of four bytes. */
  lemma OffsetsApart(s: Surface, x: int, y: int, x': int, y': int)
    requires Valid(s) && InBounds(s, x, y) && InBounds(s, x', y') && (x, y) != (x', y')
    ensures Offset(s, x, y) + 4 <= Offset(s, x', y') || Offset(s, x', y') + 4 <= Offset(s, x, y)
  {
    if y < y' {
      MulMonotone(y + 1, y', s.stride);
      assert (y + 1) * s.stride == y * s.stride + s.stride;
    } else if y' < y {
      MulMonotone(y' + 1, y, s.stride);
      assert (y' + 1) * s.stride == y' * s.stride + s.stride;
    }
  }

  /** The bytes of pixel `p` in storage order B, G, R, A. */
  function Channel(p: Pixel, k: int): Byte {
    if k == 0 then p.b else if k == 1 then p.g else if k == 2 then p.r else p.a
  }

  /** The four bytes at the offset of (x, y) lie inside the buffer, whether
      or not (x, y) is a pixel of the image. */
  predicate Readable(s: Surface, x: int, y: int) {
    0 <= Offset(s, x, y) && Offset(s, x, y) + 4 <= |s.data|
  }

  /** get_pixel without a bounds check: the B, G, R, A bytes at the offset of (x, y). */
  function RawPixel(s: Surface, x: int, y: int): Pixel
    requires Readable(s, x, y)
  {
    var o := Offset(s, x, y);
    Pixel(s.data[o + 2], s.data[o + 1], s.data[o], s.data[o + 3])
  }

  /** get_pixel on a pixel of the image: reads its B, G, R, A bytes. */
  function GetPixel(s: Surface, x: int, y: int): Pixel
    requires Valid(s) && InBounds(s, x, y)
  {
    OffsetInRange(s, x, y);
    var o := Offset(s, x, y);
    Pixel(s.data[o + 2], s.data[o + 1], s.data[o], s.data[o + 3])
  }

  /** On a pixel of the image the unchecked read is get_pixel. */
  lemma GetIsRaw(s: Surface, x: int, y: int)
    requires Valid(s) && InBounds(s, x, y)
    ensures Readable(s, x, y) && RawPixel(s, x, y) == GetPixel(s, x, y)
  {
    OffsetInRange(s, x, y);
  }

  /** The bytes of `data` with the four starting at `o` replaced by `px` in B, G, R, A order. */
  function Poke(data: seq<Byte>, o: int, px: Pixel): (r: seq<Byte>)
    requires 0 <= o && o + 4 <= |data|
    ensures |r| == |data|
    ensures r[o] == px.b && r[o + 1] == px.g && r[o + 2] == px.r && r[o + 3] == px.a
    ensures forall i :: 0 <= i < |data| && !(o <= i < o + 4) ==> r[i] == data[i]
  {
    data[..o] + [px.b, px.g, px.r, px.a] + data[o + 4..]
  }

  /** set_pixel: writes `px` into the four bytes of pixel (x, y) in B, G, R, A
      order; no other byte of the buffer changes. */
  function SetPixel(s: Surface, x: int, y: int, px: Pixel): (r: Surface)
    requires Valid(s) && InBounds(s, x, y)
    ensures SameShape(r, s)
    ensures var o := Offset(s, x, y);
      && 0 <= o && o + 4 <= |r.data| == |s.data|
      && r.data[o] == px.b && r.data[o + 1] == px.g && r.data[o + 2] == px.r && r.data[o + 3] == px.a
      && forall i :: 0 <= i < |s.data| && !(o <= i < o + 4) ==> r.data[i] == s.data[i]
  {
    OffsetInRange(s, x, y);
    s.(data := Poke(s.data, Offset(s, x, y), px))
  }

  /** Reading a pixel after writing one returns the written value at the same
      place and the previous value everywhere else. */
  lemma GetAfterSet(s: Surface, x: int, y: int, px: Pixel, x': int, y': int)
    requires Valid(s) && InBounds(s, x, y) && InBounds(s, x', y')
    ensures GetPixel(SetPixel(s, x, y, px), x', y') == if (x', y') == (x, y) then px else GetPixel(s, x', y')
  {
    OffsetInRange(s, x', y');
    if (x', y') != (x, y) {
      OffsetsApart(s, x, y, x', y');
    }
  }

  /** A tightly packed w x h surface (stride 4w) holding `pixels` in row-major order. */
  function FromPixels(w: nat, h: nat, pixels: seq<Pixel>): (s: Surface)
    requires |pixels| == w * h
    ensures Valid(s) && s.width == w && s.height == h && s.stride == 4 * w
  {
    assert h * (4 * w) == 4 * (w * h);
    Surface(w, h, 4 * w, seq(4 * |pixels|, i requires 0 <= i < 4 * |pixels| => Channel(pixels[i / 4], i % 4)))
  }

  /** Reading pixel (x, y) of a packed surface gives the (y*w + x)-th pixel. */
  lemma GetFromPixels(w: nat, h: nat, pixels: seq<Pixel>, x: int, y: int)
    requires |pixels| == w * h && 0 <= x < w && 0 <= y < h
    ensures 0 <= y * w + x < |pixels|
    ensures GetPixel(FromPixels(w, h, pixels), x, y) == pixels[y * w + x]
  {
    var s := FromPixels(w, h, pixels);
    OffsetInRange(s, x, y);
    var m := y * w + x;
    assert Offset(s, x, y) == 4 * m by {
      assert y * (4 * w) == 4 * (y * w);
    }
    MulMonotone(y + 1, h, w);
    assert (y + 1) * w == y * w + w;
  }
}
