/**
 * 32-bit texels of a top-down DIB section: alpha in the high byte, then
 * red, green and blue. A texel is kept as its four bytes; `ToWord` and
 * `FromWord` relate it to the `uint32_t` the renderers shift and mask, and
 * the bit operations they use (`>> 16 & 0xFF`, `| 0xFF000000`,
 * `(r << 16) | ...`) are the byte operations below.
 */
module Texels {
  import opened Geometry

  /** One 8-bit channel. */
  type Byte = x: int | 0 <= x < 0x100

  /** One `uint32_t`. */
  type UInt32 = x: int | 0 <= x < 0x1_0000_0000

  /** One texel: alpha, red, green, blue. */
  datatype Texel = Texel(a: Byte, r: Byte, g: Byte, b: Byte)

  /** `(a << 24) | (r << 16) | (g << 8) | b`. */
  function ToWord(t: Texel): (w: UInt32)
    ensures w / 0x100_0000 == t.a
  {
    t.a * 0x100_0000 + t.r * 0x1_0000 + t.g * 0x100 + t.b
  }

  /** The bytes of a word: `w >> 24`, `(w >> 16) & 0xFF`, `(w >> 8) & 0xFF`, `w & 0xFF`. */
  function FromWord(w: UInt32): Texel
  {
    Texel(w / 0x100_0000, (w / 0x1_0000) % 0x100, (w / 0x100) % 0x100, w % 0x100)
  }

  /** Unpacking a packed texel gives back its four bytes. */
  lemma {:induction false} UnpackPacked(t: Texel)
    ensures FromWord(ToWord(t)) == t
  {
    var v := ToWord(t);
    assert v / 0x100 == t.a * 0x1_0000 + t.r * 0x100 + t.g;
    assert v / 0x1_0000 == t.a * 0x100 + t.r;
  }

  /** Packing the bytes of a word gives back the word. */
  lemma {:induction false} PackUnpacked(w: UInt32)
    ensures ToWord(FromWord(w)) == w
  {
    var u := FromWord(w);
    assert w / 0x1_0000 == u.a * 0x100 + u.r;
    assert w / 0x100 == (w / 0x1_0000) * 0x100 + u.g;
    assert w == (w / 0x100) * 0x100 + u.b;
  }

  /** The solid colour `RGB(r, g, b)` as GDI's FillRect leaves it in a 32-bit DIB: alpha byte 0. */
  function Rgb(r: Byte, g: Byte, b: Byte): Texel
  {
    Texel(0, r, g, b)
  }

  /** `t | 0xFF000000`: alpha forced to 255, colour bytes kept. */
  function WithOpaqueAlpha(t: Texel): Texel
  {
    t.(a := 0xFF)
  }

  /** On the word, forcing the alpha byte is setting its top eight bits. */
  lemma {:induction false} OpaqueSetsTopByte(t: Texel)
    ensures ToWord(WithOpaqueAlpha(t)) == ToWord(t) % 0x100_0000 + 0xFF00_0000
    ensures ToWord(t) >= 0xFF00_0000 ==> WithOpaqueAlpha(t) == t
  {
    assert ToWord(t) == t.a * 0x100_0000 + (t.r * 0x1_0000 + t.g * 0x100 + t.b);
  }

  /** Forcing the alpha byte a second time changes nothing. */
  lemma OpaqueIdempotent(t: Texel)
    ensures WithOpaqueAlpha(WithOpaqueAlpha(t)) == WithOpaqueAlpha(t)
  {
  }

  /**
   * The weighted sum `bg * (255 - p8) + chip * p8` of the fade-in, built up
   * one weight step at a time so that the solver meets its products only
   * through `WeightedClosedForm`.
   */
  function Weighted(bg: Byte, chip: Byte, p8: Byte): int
  {
    if p8 == 0 then bg * 0xFF else Weighted(bg, chip, p8 - 1) - bg + chip
  }

  lemma {:induction false} WeightedClosedForm(bg: Byte, chip: Byte, p8: Byte)
    ensures Weighted(bg, chip, p8) == bg * (0xFF - p8) + chip * p8
  {
    if p8 > 0 {
      WeightedClosedForm(bg, chip, p8 - 1);
    }
  }

  /**
   * One channel of the chip fade-in (src/switcher.cpp:375-377):
   * `(bg * (255 - p8) + chip * p8) / 255` with unsigned integer division.
   * The result lies between the two inputs, so it is again a byte.
   */
  function BlendChannel(bg: Byte, chip: Byte, p8: Byte): (c: Byte)
    ensures Min(bg, chip) <= c <= Max(bg, chip)
    ensures p8 == 0 ==> c == bg
    ensures p8 == 0xFF ==> c == chip
  {
    var lo, hi := Min(bg, chip), Max(bg, chip);
    WeightedClosedForm(bg, chip, p8);
    WeightedBounds(bg, chip, p8, lo, hi);
    DivBounds(Weighted(bg, chip, p8), lo, hi);
    Weighted(bg, chip, p8) / 0xFF
  }

  /**
   * The whole blended texel written at src/switcher.cpp:378: every colour
   * channel blended and the alpha byte forced to 0xFF.
   */
  function BlendTexel(bg: Texel, chip: Texel, p8: Byte): Texel
  {
    Texel(0xFF, BlendChannel(bg.r, chip.r, p8), BlendChannel(bg.g, chip.g, p8), BlendChannel(bg.b, chip.b, p8))
  }

  /** p8 = 0 reproduces the saved background and p8 = 255 the drawn chip, both made opaque. */
  lemma BlendEndpoints(bg: Texel, chip: Texel)
    ensures BlendTexel(bg, chip, 0) == WithOpaqueAlpha(bg)
    ensures BlendTexel(bg, chip, 0xFF) == WithOpaqueAlpha(chip)
  {
  }

  /** Blending a colour with itself gives that colour back, whatever the weight. */
  lemma BlendSame(t: Texel, p8: Byte)
    ensures BlendTexel(t, t, p8) == WithOpaqueAlpha(t)
  {
  }

  function Min(a: int, b: int): (m: int)
    ensures m <= a && m <= b && (m == a || m == b)
  {
    if a <= b then a else b
  }

  function Max(a: int, b: int): int { if a <= b then b else a }

  lemma {:induction false} WeightedBounds(x: Byte, y: Byte, p8: Byte, lo: int, hi: int)
    requires lo == Min(x, y) && hi == Max(x, y)
    ensures lo * 0xFF <= x * (0xFF - p8) + y * p8 <= hi * 0xFF
  {
    MulMonotone(lo, x, 0xFF - p8);
    MulMonotone(x, hi, 0xFF - p8);
    MulMonotone(lo, y, p8);
    MulMonotone(y, hi, p8);
    assert lo * (0xFF - p8) + lo * p8 == lo * 0xFF;
    assert hi * (0xFF - p8) + hi * p8 == hi * 0xFF;
  }

  lemma {:induction false} DivBounds(num: int, lo: int, hi: int)
    requires lo * 0xFF <= num <= hi * 0xFF
    ensures lo <= num / 0xFF <= hi
  {
  }
}
