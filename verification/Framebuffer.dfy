/** The linear framebuffer: a buffer of 32-bit pixels whose rows are `pitch / 4` pixels apart, of
    which the first `width` are visible. All drawing stores into the buffer in place. */
module Framebuffer {
  import opened Arith
  import opened Words

  /** The place of pixel (x, y) in a buffer whose rows are `stride` pixels apart. */
  function Index(stride: nat, x: nat, y: nat): nat { x + y * stride }

  lemma IndexInjective(stride: nat, x: nat, y: nat, x': nat, y': nat)
    requires x < stride && x' < stride
    ensures Index(stride, x, y) == Index(stride, x', y') <==> x == x' && y == y'
  {
    if Index(stride, x, y) == Index(stride, x', y') {
      DivModUnique(Index(stride, x, y), y, x, stride);
      DivModUnique(Index(stride, x', y'), y', x', stride);
    }
  }

  lemma IndexBelow(stride: nat, x: nat, y: nat, height: nat)
    requires x < stride && y < height
    ensures Index(stride, x, y) < height * stride
  {
    MulMono(y + 1, height, stride);
    MulDistributes(y, 1, stride);
  }

  class Screen {
    const width: nat
    const height: nat
    const pitch: nat
    const address: array<u32>

    constructor (width: nat, height: nat, pitch: nat, address: array<u32>)
      requires width <= pitch / 4 && address.Length == height * (pitch / 4)
      ensures Valid()
      ensures this.width == width && this.height == height && this.pitch == pitch && this.address == address
    {
      this.width, this.height, this.pitch, this.address := width, height, pitch, address;
    }

    function Stride(): nat { pitch / 4 }

    /** In bytes: pixel (x, y) lies four bytes for each pixel and `pitch` bytes for each row beyond the
        start, when rows are whole numbers of pixels apart. */
    lemma PixelInBytes(x: nat, y: nat)
      requires pitch % 4 == 0
      ensures 4 * Index(Stride(), x, y) == 4 * x + pitch * y
    {
      assert pitch == 4 * (pitch / 4);
      MulAssociates(4, pitch / 4, y);
    }

    /** The buffer holds `height` rows, and a row holds the visible pixels. */
    predicate Valid() {
      width <= Stride() && address.Length == height * Stride()
    }

    /** (x, y) is a pixel of the buffer, visible or in the padding at the end of a row. */
    predicate Has(x: nat, y: nat) { x < Stride() && y < height }

    /** Pixel (x, y) of a buffer of this size. */
    function PixelIn(buffer: seq<u32>, x: nat, y: nat): u32
      requires |buffer| == height * Stride() && Has(x, y)
    {
      IndexBelow(Stride(), x, y, height);
      buffer[Index(Stride(), x, y)]
    }

    function Pixel(x: nat, y: nat): u32
      requires Valid() && Has(x, y)
      reads address
    {
      PixelIn(address[..], x, y)
    }

    lemma StoredPixels(buffer: seq<u32>, x: nat, y: nat, color: u32)
      requires |buffer| == height * Stride() && Has(x, y)
      ensures Index(Stride(), x, y) < |buffer|
      ensures forall x': nat, y': nat :: Has(x', y') ==>
                PixelIn(buffer[Index(Stride(), x, y) := color], x', y') ==
                if x' == x && y' == y then color else PixelIn(buffer, x', y')
    {
      IndexBelow(Stride(), x, y, height);
      forall x': nat, y': nat | Has(x', y')
        ensures PixelIn(buffer[Index(Stride(), x, y) := color], x', y') ==
                if x' == x && y' == y then color else PixelIn(buffer, x', y')
      {
        IndexBelow(Stride(), x', y', height);
        IndexInjective(Stride(), x', y', x, y);
      }
    }

    /** Stores at the place of (x, y) without looking at the width: beyond the end of a row that is a
        pixel of the next one. */
    method SetPixel(x: nat, y: nat, color: u32)
      requires Valid() && Index(Stride(), x, y) < address.Length
      modifies address
      ensures address[..] == old(address[..])[Index(Stride(), x, y) := color]
      ensures Has(x, y) ==> forall x': nat, y': nat :: Has(x', y') ==>
                Pixel(x', y') == if x' == x && y' == y then color else old(Pixel(x', y'))
    {
      ghost var before := address[..];
      address[Index(Stride(), x, y)] := color;
      assert address[..] == before[Index(Stride(), x, y) := color];
      if Has(x, y) {
        StoredPixels(before, x, y, color);
      }
    }

    lemma InBuffer(x: nat, y: nat)
      requires Valid() && Has(x, y)
      ensures Index(Stride(), x, y) < address.Length
    {
      IndexBelow(Stride(), x, y, height);
    }

    method Clear()
      requires Valid()
      modifies address
      ensures forall x: nat, y: nat :: Has(x, y) ==> Pixel(x, y) == if x < width then 0 else old(Pixel(x, y))
    {
      for y := 0 to height
        invariant forall x': nat, y': nat :: Has(x', y') ==>
                    Pixel(x', y') == if x' < width && y' < y then 0 else old(Pixel(x', y'))
      {
        for x := 0 to width
          invariant forall x': nat, y': nat :: Has(x', y') ==>
                      Pixel(x', y') == if x' < width && (y' < y || (y' == y && x' < x)) then 0 else old(Pixel(x', y'))
        {
          InBuffer(x, y);
          SetPixel(x, y, 0);
        }
      }
    }

    /** Moves the visible part up by `pixels` rows. Nothing else changes: not the last `pixels`
        rows, and not the padding. */
    method ScrollUpBy(pixels: nat)
      requires Valid()
      modifies address
      ensures forall x: nat, y: nat :: Has(x, y) ==>
                Pixel(x, y) == if x < width && y + pixels < height then old(Pixel(x, y + pixels)) else old(Pixel(x, y))
    {
      var y := pixels;
      while y < height
        invariant pixels <= y
        invariant y <= height || y == pixels
        invariant forall x': nat, y': nat :: Has(x', y') ==>
                    Pixel(x', y') == if x' < width && y' + pixels < y
                                     then old(Pixel(x', y' + pixels)) else old(Pixel(x', y'))
      {
        for x := 0 to width
          invariant forall x': nat, y': nat :: Has(x', y') ==>
                      Pixel(x', y') == if x' < width && (y' + pixels < y || (y' + pixels == y && x' < x))
                                       then old(Pixel(x', y' + pixels)) else old(Pixel(x', y'))
        {
          var above := Pixel(x, y);
          InBuffer(x, y - pixels);
          SetPixel(x, y - pixels, above);
        }
        y := y + 1;
      }
    }
  }
}
