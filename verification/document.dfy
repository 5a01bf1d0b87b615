/**
 * The in-memory font both file formats describe: glyphs keyed by id, the
 * glyph scale, the font name, and the number of slots the writers emit.
 */
module FontDocument {
  import opened Bytes
  import opened Settings

  datatype FontData = FontData(
    glyphs: map<int, Glyph<Float32>>,
    glyphScale: Float32,
    name: string,
    maxGlyphs: int)

  /**
   * `FontData(max_glyphs=...)` before anything is read: no glyph, an empty
   * name, the given slot count, and the scale 0.5, whose binary32 bits have
   * the sign clear, the biased exponent 126 and a zero fraction (2 to the -1).
   */
  function NewFontData(maxGlyphs: int): (d: FontData)
    ensures |d.glyphs| == 0 && d.name == "" && d.maxGlyphs == maxGlyphs
    ensures var bits := LittleEndian32(PackFloat32(d.glyphScale));
      bits / 0x8000_0000 == 0 && bits / 0x80_0000 == 126 && bits % 0x80_0000 == 0
  {
    FontData(map[], FloatHalf, "", maxGlyphs)
  }

  /** Number of slots `range(max_glyphs)` visits. */
  function SlotCount(maxGlyphs: int): nat {
    if maxGlyphs < 0 then 0 else maxGlyphs
  }
}
