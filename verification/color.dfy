/** The 8-bit colour of `src/color.rs` and its conversion from ratios. */
module Colors {

  type Byte = n: int | 0 <= n < 0x100

  datatype Color = Color(r: Byte, g: Byte, b: Byte)

  /** A float-to-integer cast truncates toward zero. */
  function TruncateTowardZero(x: real): (n: int)
    ensures 0.0 <= x ==> 0 <= n && n as real <= x < n as real + 1.0
    ensures x < 0.0 ==> n <= 0 && x <= n as real < x + 1.0
  {
    if x >= 0.0 then x.Floor else -((-x).Floor)
  }

  /** A cast to `u8` saturates at the ends of the byte range. */
  function SaturateToByte(n: int): (b: Byte)
    ensures 0 <= n < 0x100 ==> b == n
    ensures n < 0 ==> b == 0
    ensures 0x100 <= n ==> b == 0xFF
  {
    if n < 0 then 0 else if n > 0xFF then 0xFF else n
  }

  /** `x as u8` for a finite `x` */
  function AsU8(x: real): Byte {
    SaturateToByte(TruncateTowardZero(x))
  }

  /** The inner `to8` of `Color::from_ratio`: `(i * 255.99) as u8`. */
  function To8(i: real): Byte {
    AsU8(i * 255.99)
  }

  /** `Color::from_ratio`: each channel converted by `to8`. */
  function FromRatio(r: real, g: real, b: real): Color {
    Color(To8(r), To8(g), To8(b))
  }

  /** On [0, 1] `to8` is plain truncation of `i * 255.99`, and never saturates. */
  lemma To8OnUnitInterval(i: real)
    requires 0.0 <= i <= 1.0
    ensures To8(i) == (i * 255.99).Floor
    ensures To8(i) as real <= i * 255.99 < To8(i) as real + 1.0
  {
  }

  /** 0.0 maps to 0 and 1.0 maps to 255. */
  lemma To8Endpoints()
    ensures To8(0.0) == 0
    ensures To8(1.0) == 0xFF
  {
  }

  /** A larger ratio never gives a smaller byte. */
  lemma To8Monotone(i: real, j: real)
    requires i <= j
    ensures To8(i) <= To8(j)
  {
  }

  /** A channel of `from_ratio` depends only on its own ratio. */
  lemma FromRatioChannelsIndependent(r: real, g: real, b: real, r': real, g': real, b': real)
    ensures FromRatio(r, g, b).r == FromRatio(r, g', b').r
    ensures FromRatio(r, g, b).g == FromRatio(r', g, b').g
    ensures FromRatio(r, g, b).b == FromRatio(r', g', b).b
  {
  }

  /** The test vector of `conversion_from_ratio`. */
  lemma FromRatioTestVector()
    ensures FromRatio(0.4, 1.0, 0.0) == Color(102, 255, 0)
  {
    To8OnUnitInterval(0.4);
    To8Endpoints();
  }
}
