/** The channel-mask remap that the texture inspector applies to every pixel
    of the RGBA data it reads back from the GPU.

    A buffer is a flat sequence of bytes, four per pixel, in the order
    R, G, B, A. The remap looks at each pixel on its own and rewrites it
    according to which of the four channels the user asked to see. */
module PixelRemap {

  /** One element of a `Uint8Array`. */
  type Byte = x: int | 0 <= x < 256

  /** The channels the inspector is asked to display (a `TextureChannelsToDisplay`). */
  datatype Channels = Channels(R: bool, G: bool, B: bool, A: bool)

  datatype Pixel = Pixel(r: Byte, g: Byte, b: Byte, a: Byte)

  predicate AllSelected(c: Channels) {
    c.R && c.G && c.B && c.A
  }

  /** Alpha is the only channel shown. */
  predicate AlphaOnly(c: Channels) {
    c.A && !c.R && !c.G && !c.B
  }

  /** How many of the three colour channels are shown. */
  function ColourCount(c: Channels): nat {
    (if c.R then 1 else 0) + (if c.G then 1 else 0) + (if c.B then 1 else 0)
  }

  /** The rewrite of one pixel. Alpha shown alone turns the pixel into an
      opaque grey of its alpha. Otherwise a hidden alpha becomes 255, and a
      hidden colour takes the value of the single shown colour if there is
      exactly one, and 0 otherwise. */
  function RemapPixel(c: Channels, p: Pixel): (q: Pixel)
    // alpha alone: a greyscale image of alpha, fully opaque
    ensures AlphaOnly(c) ==> q == Pixel(p.a, p.a, p.a, 255)
    // alpha hidden: fully opaque; alpha shown beside a colour: kept
    ensures !c.A ==> q.a == 255
    ensures c.A && ColourCount(c) > 0 ==> q.a == p.a
    // a shown colour channel keeps its value
    ensures c.R ==> q.r == p.r
    ensures c.G ==> q.g == p.g
    ensures c.B ==> q.b == p.b
    // exactly one colour shown: it is copied into the other two
    ensures c.R && !c.G && !c.B ==> q.r == q.g == q.b == p.r
    ensures c.G && !c.R && !c.B ==> q.r == q.g == q.b == p.g
    ensures c.B && !c.R && !c.G ==> q.r == q.g == q.b == p.b
    // exactly two colours shown: the third is zero
    ensures ColourCount(c) == 2 ==>
              (!c.R ==> q.r == 0) && (!c.G ==> q.g == 0) && (!c.B ==> q.b == 0)
    // nothing shown at all: opaque black
    ensures !c.A && ColourCount(c) == 0 ==> q == Pixel(0, 0, 0, 255)
    // everything shown: the pixel is untouched
    ensures AllSelected(c) ==> q == p
  {
    if AlphaOnly(c) then
      Pixel(p.a, p.a, p.a, 255)
    else
      var a := if !c.A then 255 else p.a;
      var r := if c.R then p.r
               else if c.G && !c.B then p.g
               else if c.B && !c.G then p.b
               else 0;
      var g := if c.G then p.g
               else if c.R && !c.B then r
               else if c.B && !c.R then p.b
               else 0;
      var b := if c.B then p.b
               else if c.R && !c.G then r
               else if c.G && !c.R then g
               else 0;
      Pixel(r, g, b, a)
  }

  /** The pixel whose four bytes start at offset `4 * p`. */
  function PixelAt(s: seq<Byte>, p: nat): Pixel
    requires 4 * p + 4 <= |s|
  {
    Pixel(s[4 * p], s[4 * p + 1], s[4 * p + 2], s[4 * p + 3])
  }

  function Bytes(q: Pixel): seq<Byte> {
    [q.r, q.g, q.b, q.a]
  }

  /** Every pixel of the buffer remapped, in order. */
  function RemapAll(c: Channels, s: seq<Byte>): (t: seq<Byte>)
    requires |s| % 4 == 0
    ensures |t| == |s|
    decreases |s|
  {
    if |s| == 0 then [] else Bytes(RemapPixel(c, PixelAt(s, 0))) + RemapAll(c, s[4..])
  }

  /** Pixel `p` of the remapped buffer depends on pixel `p` of the input
      alone: each 4-byte group is rewritten from its own four bytes. */
  lemma {:induction false} RemapAllAt(c: Channels, s: seq<Byte>, p: nat)
    requires |s| % 4 == 0 && 4 * p + 4 <= |s|
    ensures PixelAt(RemapAll(c, s), p) == RemapPixel(c, PixelAt(s, p))
  {
    if p > 0 {
      RemapAllAt(c, s[4..], p - 1);
      assert PixelAt(s[4..], p - 1) == PixelAt(s, p);
    }
  }

  /** With every channel selected the remap changes nothing, so the
      source's early exit for that mask only saves work. */
  lemma {:induction false} RemapAllIdentity(c: Channels, s: seq<Byte>)
    requires |s| % 4 == 0 && AllSelected(c)
    ensures RemapAll(c, s) == s
    decreases |s|
  {
    if |s| > 0 {
      RemapAllIdentity(c, s[4..]);
      assert s == Bytes(PixelAt(s, 0)) + s[4..];
    }
  }

  /** The whole remap pass: skipped for cube textures and when all four
      channels are selected, otherwise every pixel is remapped. */
  function RemapPass(c: Channels, isCube: bool, s: seq<Byte>): (t: seq<Byte>)
    requires |s| % 4 == 0
    ensures |t| == |s|
  {
    if isCube || AllSelected(c) then s else RemapAll(c, s)
  }

  /** The pass leaves a cube texture's buffer alone; otherwise pixel `p` of the result is the remap of pixel `p` of the
      input, whatever the mask (including the all-selected shortcut). */
  lemma RemapPassAt(c: Channels, isCube: bool, s: seq<Byte>, p: nat)
    requires |s| % 4 == 0 && 4 * p + 4 <= |s|
    ensures isCube ==> RemapPass(c, isCube, s) == s
    ensures !isCube ==> PixelAt(RemapPass(c, isCube, s), p) == RemapPixel(c, PixelAt(s, p))
  {
    if !isCube {
      if AllSelected(c) {
        RemapAllIdentity(c, s);
      } else {
        RemapAllAt(c, s, p);
      }
    }
  }

  /** When alpha is hidden, every alpha byte of a non-cube result is 255. */
  lemma AlphaOpaque(c: Channels, isCube: bool, s: seq<Byte>, k: nat)
    requires |s| % 4 == 0 && k < |s| && k % 4 == 3
    requires !c.A && !isCube
    ensures RemapPass(c, isCube, s)[k] == 255
  {
    RemapPassAt(c, isCube, s, k / 4);
  }
}
