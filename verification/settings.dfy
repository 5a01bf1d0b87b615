/**
 * The layout constants shared with the game engine and the three record types
 * of the converter: a glyph of the font file, a rendered glyph bitmap awaiting
 * placement, and an atlas page.
 */
module Settings {
  import opened Bytes

  /** Bytes of the shader-name field of a glyph record. */
  const MaxShaderName: nat := 32
  /** Bytes of the font-name field of the trailing info block. */
  const MaxQPath: nat := 64

  /** Twelve 4-byte numbers followed by the shader name. */
  const PerGlyphDataSize: nat := 4 * 12 + MaxShaderName
  /** The 4-byte glyph scale followed by the font name. */
  const GlobalInfoDataSize: nat := 4 + MaxQPath

  /** Default number of glyph slots of a font. */
  const GlyphsPerFont: nat := 256

  /**
   * One glyph of a font. The four texture coordinates have type `F`: opaque
   * 4-byte floats in the file codecs, exact reals where they are computed from
   * an atlas placement.
   */
  datatype Glyph<F> = Glyph(
    id: int,
    height: int,
    top: int,
    bottom: int,
    pitch: int,
    xSkip: int,
    imageWidth: int,
    imageHeight: int,
    s: F,
    t: F,
    s2: F,
    t2: F,
    glyph: int,
    shaderName: string)

  /** The attribute names of a glyph, in declaration order (`vars(Glyph())`). */
  const GlyphAttributes: seq<string> := ["id", "height", "top", "bottom", "pitch", "xSkip",
    "imageWidth", "imageHeight", "s", "t", "s2", "t2", "glyph", "shaderName"]

  /** `Glyph()`: every number zero, every float +0.0, an empty shader name. */
  const FreshGlyph: Glyph<Float32> :=
    Glyph(0, 0, 0, 0, 0, 0, 0, 0, FloatZero, FloatZero, FloatZero, FloatZero, 0, "")

  /** The bounding box `(left, top, right, bottom)` the renderer reports for a character. */
  datatype BBox = BBox(left: int, top: int, right: int, bottom: int)

  /** A rendered character waiting for, or holding, its place on an atlas page. */
  datatype TtfGlyph = TtfGlyph(
    charIndex: int,
    ch: string,
    x: int,
    y: int,
    width: int,
    height: int,
    margin: int,
    ascent: int,
    descent: int,
    bbox: BBox,
    textureIndex: int)

  /** `TTFGlyph()`: an unplaced glyph at the origin of page 0, with no character yet. */
  const FreshTtfGlyph: TtfGlyph := TtfGlyph(0, "", 0, 0, 0, 0, 0, 0, 0, BBox(0, 0, 0, 0), 0)

  /** One atlas page and the glyphs placed on it, in placement order. */
  datatype Texture = Texture(textureIndex: int, width: int, height: int, ttfGlyphs: seq<TtfGlyph>)

  /** `Texture()`: page 0, of size 0x0, holding no glyph. */
  const FreshTexture: Texture := Texture(0, 0, 0, [])
}
