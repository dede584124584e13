/** The Image pixel buffer of image.h / image.cpp: a width x height array of
    colours stored row by row, written with a vertical flip and read without
    one, and packed into interleaved RGB bytes for the PNG writer. */
module Images {
  import opened Vectors

  /** The source's uint32. */
  type U32 = n: int | 0 <= n < 0x1_0000_0000

  /** An 8-bit channel value, the source's uint8. */
  type Byte = b: int | 0 <= b < 256

  /** Reduction modulo 2^32, as uint32 arithmetic does it. */
  function Wrap32(v: int): (r: U32)
    ensures 0 <= v < 0x1_0000_0000 ==> r == v
    ensures -0x1_0000_0000 <= v < 0 ==> r == v + 0x1_0000_0000
  {
    v % 0x1_0000_0000
  }

  // ---------------------------------------------------------------------
  // Row-major index arithmetic

  lemma MulMonotone(a: nat, b: nat, c: nat)
    requires a <= b
    ensures a * c <= b * c
  {
    assert b * c == a * c + (b - a) * c;
  }

  lemma MulCancelLess(a: nat, b: nat, c: nat)
    requires a * c < b * c
    ensures a < b
  {
    if b <= a {
      MulMonotone(b, a, c);
    }
  }

  /** Storage index of column x in row `row`: what getPixel reads. */
  function ReadIndex(w: nat, h: nat, x: nat, row: nat): (i: nat)
    requires x < w && row < h
    ensures i < w * h
  {
    RowMajorInBounds(w, h, x, row);
    row * w + x
  }

  /** Storage index setPixel writes for logical pixel (x, y): the row is flipped
      so that (0, 0) is the bottom-left corner. */
  function WriteIndex(w: nat, h: nat, x: nat, y: nat): (i: nat)
    requires x < w && y < h
    ensures i < w * h
  {
    ReadIndex(w, h, x, h - 1 - y)
  }

  lemma RowMajorInBounds(w: nat, h: nat, x: nat, row: nat)
    requires x < w && row < h
    ensures row * w + x < w * h
  {
    MulMonotone(row + 1, h, w);
    assert row * w + x < (row + 1) * w <= h * w;
  }

  /** Distinct coordinates never share a storage slot. */
  lemma RowMajorInjective(w: nat, x1: nat, r1: nat, x2: nat, r2: nat)
    requires x1 < w && x2 < w
    requires r1 * w + x1 == r2 * w + x2
    ensures x1 == x2 && r1 == r2
  {
    MulCancelLess(r1, r2 + 1, w);
    MulCancelLess(r2, r1 + 1, w);
  }

  /** Every storage slot is the write slot of exactly one logical pixel. */
  lemma WriteIndexCovers(w: nat, h: nat, i: nat)
    requires i < w * h
    ensures w > 0 && i % w < w && h - 1 - i / w >= 0 && i / w < h
    ensures WriteIndex(w, h, i % w, h - 1 - i / w) == i
  {
    assert w > 0;
    assert (i / w) * w + i % w == i;
    MulCancelLess(i / w, h, w);
    RowMajorInBounds(w, h, i % w, i / w);
  }

  // ---------------------------------------------------------------------
  // Byte packing of saveToFile

  /** int(f): float-to-int conversion, truncating toward zero. */
  function Trunc(r: real): (t: int)
    ensures 0.0 <= r ==> t as real <= r < t as real + 1.0
    ensures r < 0.0 ==> t as real - 1.0 < r <= t as real
  {
    if r >= 0.0 then r.Floor else -((-r).Floor)
  }

  /** uint8(std::min(int(c * 255.0f), 255)): clamped at the top only; the
      conversion to uint8 reduces modulo 256. */
  function ChannelByte(c: real): (b: Byte)
    ensures 0.0 <= c <= 1.0 ==> b as real <= 255.0 * c < b as real + 1.0
    ensures 1.0 <= c ==> b == 255
  {
    var t := Trunc(c * 255.0);
    var m := if 255 < t then 255 else t;
    m % 256
  }

  /** For non-negative channels the byte never decreases as the channel grows. */
  lemma ChannelByteMonotone(c1: real, c2: real)
    requires 0.0 <= c1 <= c2
    ensures ChannelByte(c1) <= ChannelByte(c2)
  {
    if c2 < 1.0 {
      assert Trunc(c1 * 255.0) <= Trunc(c2 * 255.0);
    }
  }

  /** Nothing clamps below zero. A channel with -1 < 255 * c < 0 truncates to
      byte 0, but from 255 * c <= -1 on the negative value wraps modulo 256, so
      a slightly negative channel such as -1/255 packs to full intensity. */
  lemma NegativeChannelWraps(c: real)
    requires c < 0.0
    ensures -1.0 < 255.0 * c ==> ChannelByte(c) == 0
    ensures -256.0 < 255.0 * c <= -1.0 ==> ChannelByte(c) == 256 + Trunc(c * 255.0) && ChannelByte(c) >= 1
    ensures c == -1.0 / 255.0 ==> ChannelByte(c) == 255
  {
    if c == -1.0 / 255.0 {
      assert Trunc(c * 255.0) == -1;
    }
  }

  /** The three bytes of one pixel, in R, G, B order. */
  function PixelBytes(c: Vec3): (bs: seq<Byte>)
    ensures |bs| == 3
    ensures forall k :: 0 <= k < 3 ==> bs[k] == ChannelByte(Channel(c, k))
  {
    [ChannelByte(c.x), ChannelByte(c.y), ChannelByte(c.z)]
  }

  /** The interleaved RGB byte buffer of a pixel sequence, in storage order. */
  function Packed(s: seq<Vec3>): (bs: seq<Byte>)
  {
    if s == [] then [] else Packed(s[..|s| - 1]) + PixelBytes(s[|s| - 1])
  }

  lemma {:induction false} PackedLength(s: seq<Vec3>)
    ensures |Packed(s)| == 3 * |s|
  {
    if s != [] {
      PackedLength(s[..|s| - 1]);
    }
  }

  /** Channel k of pixel i lands at byte 3 * i + k. */
  lemma {:induction false} PackedAt(s: seq<Vec3>, i: nat, k: nat)
    requires i < |s| && k < 3
    ensures |Packed(s)| == 3 * |s|
    ensures Packed(s)[3 * i + k] == ChannelByte(Channel(s[i], k))
  {
    PackedLength(s);
    var init := s[..|s| - 1];
    PackedLength(init);
    if i < |s| - 1 {
      PackedAt(init, i, k);
      assert init[i] == s[i];
    }
  }

  lemma MulThree(a: nat, b: nat)
    ensures a * (3 * b) == 3 * (a * b)
  {
  }

  /** Where a PNG writer given row stride `stride` finds channel k of pixel x
      of byte row `row`. */
  function ByteOffset(stride: nat, row: nat, x: nat, k: nat): nat
  {
    row * stride + 3 * x + k
  }

  /** Byte 3 * i + k of the write slot i of (x, y) sits in byte row h - 1 - y. */
  lemma StrideOffset(w: nat, h: nat, x: nat, y: nat, k: nat)
    requires x < w && y < h && k < 3
    ensures 3 * WriteIndex(w, h, x, y) + k == ByteOffset(3 * w, h - 1 - y, x, k)
  {
    var row := h - 1 - y;
    assert WriteIndex(w, h, x, y) == row * w + x;
    MulThree(row, w);
  }

  /** With row stride 3 * w, the logical pixel (x, y) is found in byte row
      h - 1 - y: the flip applied on write puts the top row first. */
  lemma PackedRowOrder(s: seq<Vec3>, w: nat, h: nat, x: nat, y: nat, k: nat)
    requires |s| == w * h && x < w && y < h && k < 3
    ensures ByteOffset(3 * w, h - 1 - y, x, k) < |Packed(s)|
    ensures Packed(s)[ByteOffset(3 * w, h - 1 - y, x, k)] == ChannelByte(Channel(s[WriteIndex(w, h, x, y)], k))
  {
    StrideOffset(w, h, x, y, k);
    PackedAt(s, WriteIndex(w, h, x, y), k);
  }

  // ---------------------------------------------------------------------
  // The buffer object

  class Image {
    const width: U32
    const height: U32
    const pixels: array<Vec3>

    /** The buffer has exactly width * height entries, and that count fits
        the signed loop index of the constructor. */
    ghost predicate Valid()
    {
      pixels.Length == width * height && width * height < 0x8000_0000
    }

    /** The logical pixel (x, y) as setPixel addresses it, (0, 0) bottom-left. */
    ghost function At(x: nat, y: nat): Vec3
      reads pixels
      requires Valid() && x < width && y < height
    {
      pixels[WriteIndex(width, height, x, y)]
    }

    constructor (width: U32, height: U32)
      requires width * height < 0x8000_0000
      ensures Valid() && fresh(pixels)
      ensures this.width == width && this.height == height
      ensures forall i :: 0 <= i < pixels.Length ==> pixels[i] == ZERO
      ensures forall x: nat, y: nat :: x < width && y < height ==> At(x, y) == ZERO
    {
      var n := width * height;
      var buf := new Vec3[n];
      var i := 0;
      while i < n
        invariant 0 <= i <= n
        invariant forall j :: 0 <= j < i ==> buf[j] == ZERO
      {
        buf[i] := ZERO;
        i := i + 1;
      }
      this.width := width;
      this.height := height;
      pixels := buf;
    }

    function GetWidth(): (w: U32)
      ensures w == width
    {
      width
    }

    function GetHeight(): (h: U32)
      ensures h == height
    {
      height
    }

    /** Reads storage row y without a flip, so it sees the logical row
        height - 1 - y. */
    function GetPixel(x: U32, y: U32): (c: Vec3)
      reads pixels
      requires Valid() && x < width && y < height
      ensures c == At(x, height - 1 - y)
    {
      pixels[ReadIndex(width, height, x, y)]
    }

    method SetPixel(x: U32, y: U32, c: Vec3)
      requires Valid() && x < width && y < height
      modifies pixels
      ensures pixels[..] == old(pixels[..])[WriteIndex(width, height, x, y) := c]
      ensures forall xx: nat, yy: nat :: xx < width && yy < height ==>
        At(xx, yy) == (if xx == x && yy == y then c else old(At(xx, yy)))
      ensures GetPixel(x, height - 1 - y) == c
    {
      pixels[WriteIndex(width, height, x, y)] := c;
      forall xx: nat, yy: nat | xx < width && yy < height && !(xx == x && yy == y)
        ensures At(xx, yy) == old(At(xx, yy))
      {
        if WriteIndex(width, height, xx, yy) == WriteIndex(width, height, x, y) {
          RowMajorInjective(width, xx, height - 1 - yy, x, height - 1 - y);
        }
      }
    }

    /** min(y1, height - 1) in uint32 arithmetic: with height == 0 the
        subtraction wraps and y1 is kept. */
    function LineTop(y1: U32): (t: U32)
      ensures t <= y1
      ensures height >= 1 ==> t < height && (y1 < height ==> t == y1)
      ensures 1 <= height <= y1 ==> t == height - 1
      ensures height == 0 ==> t == y1
    {
      var last := Wrap32(height - 1);
      if last < y1 then last else y1
    }

    /** Fills the inclusive logical rows y0 .. min(y1, height - 1) of column x.
        (The source's max(y0, 0) leaves an unsigned y0 as it is.) */
    method SetLine(x: U32, y0: U32, y1: U32, c: Vec3)
      requires Valid()
      requires y0 <= LineTop(y1) ==> x < width && LineTop(y1) < height
      modifies pixels
      ensures forall xx: nat, yy: nat :: xx < width && yy < height ==>
        At(xx, yy) == (if xx == x && y0 <= yy <= LineTop(y1) then c else old(At(xx, yy)))
      ensures y0 > LineTop(y1) ==> pixels[..] == old(pixels[..])
    {
      var top := LineTop(y1);
      var y: int := y0;
      while y <= top
        invariant y0 <= y <= (if y0 <= top then top + 1 else y0)
        invariant y == y0 ==> pixels[..] == old(pixels[..])
        invariant forall xx: nat, yy: nat :: xx < width && yy < height ==>
          At(xx, yy) == (if xx == x && y0 <= yy < y then c else old(At(xx, yy)))
        decreases top - y
      {
        SetPixel(x, y, c);
        y := y + 1;
      }
    }

    /** The packing loop of saveToFile: returns the byte buffer and the row
        stride that are handed to the PNG writer. */
    method SaveToFile() returns (bytes: seq<Byte>, stride: U32)
      requires Valid() && width * height * 3 < 0x1_0000_0000
      ensures stride == Wrap32(width * 3)
      ensures |bytes| == width * height * 3
      ensures bytes == Packed(pixels[..])
      ensures forall i, k :: 0 <= i < pixels.Length && 0 <= k < 3 ==>
        bytes[3 * i + k] == ChannelByte(Channel(pixels[i], k))
    {
      stride := Wrap32(width * 3);
      var buf := new Byte[width * height * 3];
      var n := width * height;
      var i := 0;
      while i < n
        invariant 0 <= i <= n
        invariant buf[..3 * i] == Packed(pixels[..i])
      {
        var color := pixels[i];
        var r := ChannelByte(color.x);
        var g := ChannelByte(color.y);
        var b := ChannelByte(color.z);
        var offset := i * 3;
        buf[offset + 0] := r;
        buf[offset + 1] := g;
        buf[offset + 2] := b;
        assert pixels[..i + 1] == pixels[..i] + [pixels[i]];
        assert pixels[..i + 1][..i] == pixels[..i];
        assert buf[..3 * (i + 1)] == buf[..3 * i] + PixelBytes(color);
        i := i + 1;
      }
      assert pixels[..n] == pixels[..];
      bytes := buf[..];
      PackedLength(pixels[..]);
      forall i, k | 0 <= i < pixels.Length && 0 <= k < 3
        ensures bytes[3 * i + k] == ChannelByte(Channel(pixels[i], k))
      {
        PackedAt(pixels[..], i, k);
      }
    }
  }
}
