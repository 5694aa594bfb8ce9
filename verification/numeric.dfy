/**
 * Small numeric helpers of the output device: the C `(int)(x + 0.5)` rounding
 * of device coordinates, the clamp of colour components to a byte, and the
 * packing of a fill colour into a 24-bit RGB value.
 */
module Numeric {
  import Numbers

  /** C conversion of a real to int: truncation toward zero. */
  function Trunc(r: real): (i: int)
    ensures r >= 0.0 ==> i as real <= r < i as real + 1.0
    ensures r < 0.0 ==> i as real - 1.0 < r <= i as real
  {
    if r >= 0.0 then r.Floor else -((-r).Floor)
  }

  /**
   * `round(x)` of the device: `(int)(x + 0.5)`. For x >= -0.5 this is the
   * nearest integer (halves rounded up); below that the truncation makes it
   * round toward zero by one more half, e.g. Round(-1.7) == -1.
   */
  function Round(x: real): (i: int)
    ensures x >= -0.5 ==> i as real - 0.5 <= x < i as real + 0.5
    ensures x < -0.5 ==> i as real - 1.5 < x <= i as real - 0.5
  {
    Trunc(x + 0.5)
  }

  /** Clamp to the range of an unsigned 8-bit value. */
  function Clamp(x: int): (c: int)
    ensures 0 <= c <= 255
    ensures 0 <= x <= 255 ==> c == x
    ensures x > 255 ==> c == 255
    ensures x < 0 ==> c == 0
  {
    if x > 255 then 255 else if x < 0 then 0 else x
  }

  /** Clamp never reverses the order of its arguments. */
  lemma ClampMonotone(x: int, y: int)
    requires x <= y
    ensures Clamp(x) <= Clamp(y)
  {
  }

  /**
   * A fill colour of the renderer: three colour components in 16.16-style
   * fixed point (the renderer's GfxColorComp, 0x10000 standing for 1.0).
   */
  datatype Rgb = Rgb(r: int, g: int, b: int)

  /** The byte value of one component: `clamp(c >> 8)`; `>>` on an int is a floor division. */
  function ComponentByte(c: int): (v: int)
    ensures 0 <= v <= 255
    ensures 0 <= c < 0x10000 ==> v == c / 256
  {
    Clamp(c / 256)
  }

  /** The packed colour `(r << 16) + (g << 8) + b` of the clamped components. */
  function PackColor(rgb: Rgb): (color: int)
    ensures 0 <= color <= 0xFF_FFFF
  {
    ComponentByte(rgb.r) * 0x1_0000 + ComponentByte(rgb.g) * 0x100 + ComponentByte(rgb.b)
  }

  /** The three bytes of the packed colour are the three clamped components. */
  lemma PackColorBytes(rgb: Rgb)
    ensures PackColor(rgb) / 0x1_0000 == ComponentByte(rgb.r)
    ensures (PackColor(rgb) / 0x100) % 0x100 == ComponentByte(rgb.g)
    ensures PackColor(rgb) % 0x100 == ComponentByte(rgb.b)
  {
    var r, g, b := ComponentByte(rgb.r), ComponentByte(rgb.g), ComponentByte(rgb.b);
    var c := PackColor(rgb);
    Numbers.ModUnique(c, 0x1_0000, r, g * 0x100 + b);
    Numbers.ModUnique(c, 0x100, r * 0x100 + g, b);
    Numbers.ModUnique(r * 0x100 + g, 0x100, r, g);
  }
}
