# RTCW font converter: a verified model of its core

The converter translates Return to Castle Wolfenstein fonts between two
formats, and generates new fonts from a TrueType font:

- the binary `.dat` format: one 80-byte record per glyph slot and a 68-byte
  info block at the end;
- the `.fnt` text format: one `char` block per glyph and a `fontinfo` block.

This project models the pure logic of that core in Dafny and proves
properties of it:

- **Layout constants and records** (`Settings`): the record sizes and the
  `Glyph`, `TTFGlyph` and `Texture` records.
- **Binary codec** (`Bytes`, `SlotFile`, `DatCodec`): `write_dat` and
  `read_dat`. This covers `parse_glyph_info`, the int32 and fixed-width string
  helpers, the zero-record skipping and the info block at the end of the file.
- **Text codec** (`PyStr`, `Comments`, `FntFormat`, `FntRead`, `FntWrite`,
  `FntRoundTrip`):
  - the comment stripper `_remove_lines_comments`;
  - the key lookup `fnt_get_line_value` and the block scan of `read_fnt`;
  - the emission of `write_fnt`;
  - the round trip between the writer and the reader.
- **Atlas packing** (`Packer`): the shelf packer `pack_textures`, as a loop
  with invariants.
- **Glyph records** (`GlyphData`): `generate_glyphs_data`, which derives
  metrics, texture coordinates and shader names from packed glyphs.
- **Image writer** (`Tga`): `_save_tga_for_rtcw`, which writes the TGA header
  and flips the rows and swaps the channels.
- **Character set** (`Charset`): `_get_available_characters`, with the
  font's character maps given as input.

Representation choices:

- **Bytes** are integers in `[0, 256)`.
- **Integers** are unbounded. The int32 range is checked where Python's
  `to_bytes(4, signed=True)` would raise.
- **Floats** are opaque:
  - A 4-byte float is carried as its bit pattern, so `struct.pack('<f')` and
    `struct.unpack('<f')` are exact inverses.
  - `float()` parsing and `:.6f` formatting in the text format are function
    parameters.
  - The texture coordinates of generated glyphs are exact reals. This is an
    idealisation of Python's binary floats.
- **Strings** are sequences of Unicode scalar values.
  - Writing a name to a fixed field encodes it as UTF-8.
  - Reading a name back decodes it as Latin-1.
- **Errors** are values. The model returns what the source raises as an
  error variant:
  - a file shorter than its info block;
  - an int that does not fit 32 bits;
  - `chr` outside the code space;
  - a missing key, or a key lookup that runs past the last line;
  - a non-integer or non-float value;
  - `ord` of a text that is not one character;
  - division by a page size of 0.

  Empty writes model the source's "warning and return" as their own outcome.
- **Merging:** the readers merge into the font they are given, as the
  source's dictionary is never cleared.

Where the code and its description differ, the model follows the code:

- **Fixed-width fields:** `dat_str_to_hex` counts characters, not bytes.
  A non-ASCII name therefore makes a field longer than its width
  (`Bytes.NonAsciiWidens`).
- **Lookup past the last line:** `fnt_get_line_value` can index past the last
  line when no `}` follows the key (src/RF_FontData.py:66). The model makes this
  its own error, `LinesExhausted`, rather than requiring a `}`.
- **Short `.dat` files:** a file shorter than the info block fails at the
  `seek` (src/RF_FontData.py:137). The source's own length check is never
  reached.
- **Block comments:** a line with text before a `/*` keeps the block comment
  open even if the same line closes it (`Comments.CodeBeforeBlockStaysOpen`).

## Model

| member | source | states |
|---|---|---|
| DatCodec.FormatSizes | src/RF_Set.py:8-12 | A glyph record is 4·12 + 32 = 80 bytes and the info block 4 + 64 = 68 bytes. |
| FntRead.BlockStrideIs13 | src/RF_FontData.py:99 | A `Glyph` has fourteen attributes, so the text reader steps 13 lines past each `char` line. |
| DatCodec.FreshGlyphIsAbsentSlot | src/RF_Set.py:19-34 | A freshly constructed `Glyph()` fits the writer's integers and encodes to 80 zero bytes, exactly like an absent slot. |
| FontDocument.NewFontData | src/RF_FontData.py:18-23 | A new font holds no glyphs and an empty name, keeps the slot count it is given, and has glyph scale 0.5: sign 0, biased exponent 126, mantissa 0 in binary32. |
| FntFormat.FntKeysFollowAttributes | src/RF_FontData.py:79-95 | Every glyph attribute has a key in the text format, and every key except `char` (which holds the id) is the attribute's own name. |
| Bytes.BytesToInt32 | src/RF_FontData.py:118 | Decoding four little-endian bytes gives an int32, which is negative exactly when the top bit of the last byte is set. |
| Bytes.Int32RoundTrip | src/RF_FontData.py:253-255 | Decoding what `to_bytes(4, 'little', signed=True)` wrote gives the int32 back. |
| Bytes.Int32BytesRoundTrip | src/RF_FontData.py:118-124 | Re-encoding any four bytes read as an int32 reproduces the bytes. |
| Bytes.Int32ZeroBytes | src/RF_FontData.py:162 | Zero is the only int32 whose encoding is the four zero bytes of an absent slot. |
| Bytes.FloatRoundTrip | src/RF_FontData.py:257-259 | Unpacking a packed 4-byte float gives the same float; this holds by the chosen representation, a float being its own bit pattern. |
| Bytes.FloatBytesRoundTrip | src/RF_FontData.py:125-128 | Packing a float unpacked from four bytes reproduces the bytes, again by the chosen representation. |
| Bytes.EncodeUtf8 | src/RF_FontData.py:264-268 | UTF-8 is never shorter than the text, is as long exactly for ASCII text, and then holds each character's code. |
| Bytes.Latin1 | src/RF_FontData.py:130 | Latin-1 decoding keeps the length and maps each byte to the code point of the same value. |
| Bytes.UntilNul | src/RF_FontData.py:130 | Splitting at the first NUL keeps a NUL-free prefix, ended by a NUL unless the whole input was kept. |
| Bytes.EncodeFixed | src/RF_FontData.py:261-269 | A fixed field is at least its width, and exactly its width for ASCII text. |
| Bytes.EncodeFixedLayout | src/RF_FontData.py:263-268 | For ASCII text, byte k of the field is character k when the text reaches that far, and NUL otherwise. |
| Bytes.FixedFieldRoundTrip | src/RF_FontData.py:261-269 | A reader recovers the ASCII text cut to the field width and then at its first NUL. |
| Bytes.FixedFieldExact | src/RF_FontData.py:261-269 | A NUL-free ASCII text no longer than its field comes back unchanged. |
| Bytes.FixedFieldZero | src/RF_FontData.py:266 | A field is all NUL exactly when every character kept from the text is U+0000. |
| Bytes.FixedFieldReencode | src/RF_FontData.py:130 | An ASCII, NUL-padded field read as text and written again is the same field. |
| Bytes.NonAsciiWidens | src/RF_FontData.py:262-268 | A one-character non-ASCII name fills a 32-byte field with 33 bytes: the width counts characters, not bytes. |
| DatCodec.ParseGlyphInfo | src/RF_FontData.py:111-132 | A decoded record is the glyph with the slot's id, and its integers are int32. |
| DatCodec.EncodeRecord | src/RF_FontData.py:293-305 | A present glyph's record is at least 80 bytes, and exactly 80 when its shader name is ASCII. |
| DatCodec.EncodeInfo | src/RF_FontData.py:307-309 | The info block is 68 bytes when the font name is ASCII. |
| DatCodec.InfoRoundTrip | src/RF_FontData.py:143-144 | The info block of an ASCII name is 68 bytes; its first four bytes unpack to the scale and its name field reads back as the name's field text. |
| DatCodec.WriteDat | src/RF_FontData.py:271-309 | `write_dat` warns exactly when there are no glyphs, and overflows exactly when a visited glyph's integer is outside int32. Otherwise it writes the slot records then the info block. |
| DatCodec.ReadDat | src/RF_FontData.py:134-179 | `read_dat` fails exactly on files under 68 bytes. Otherwise it warns exactly when the glyph area is not a multiple of 80, takes scale and quoted name from the last 68 bytes, and adds the non-zero slots of the first ⌊size/80⌋ records to the glyphs already held. |
| SlotFile.ReadRecordsClosed | src/RF_FontData.py:156-170 | The read loop adds exactly the non-zero records, each under its slot number, even when zero records are skipped before it. |
| DatCodec.DatBytesLength | src/RF_FontData.py:287-309 | With ASCII names, the file is 80 bytes per slot plus the info block, which is its last 68 bytes. |
| DatCodec.DatBytesSlot | src/RF_FontData.py:288-305 | Slot i of the file holds what the writer emits for id i. |
| DatCodec.WriteDatLayout | src/RF_FontData.py:287-309 | A written file is `max_glyphs`·80 + 68 bytes. Slot i is all zero when id i is absent and the glyph's record when present, and the info block comes last. |
| DatCodec.RecordRoundTrip | src/RF_FontData.py:116-130 | Decoding an encoded record restores every number exactly and the shader name as the quoted text of its field. |
| DatCodec.DatRoundTrip | src/RF_FontData.py:134-179 | Reading back a written file into a fresh font: no misalignment; the same scale and slot count; the name as its quoted field text; the glyphs are exactly the ids in `[0, max_glyphs)` with a non-zero record, restored. |
| DatCodec.DatRoundTripExact | src/RF_FontData.py:130 | With NUL-free ASCII names that fit their fields and no all-zero record, reading back gives every glyph whole and the name quoted. |
| DatCodec.ZeroRecordIff | src/RF_FontData.py:162-165 | A record is all zero, and so skipped by the reader, exactly when every number is zero, every float is +0.0 and the kept shader name is all NUL. |
| DatCodec.RecordReencode | src/RF_FontData.py:293-305 | Encoding the glyph decoded from a canonical record gives that record back byte for byte. |
| DatCodec.DatReencode | src/RF_FontData.py:287-309 | A file the writer could have produced is written back byte for byte after being read into a fresh font of the same slot count. |
| Comments.StripFrom | src/RF_FontData.py:357-388 | Every input line yields at most one output line. |
| Comments.StepLineSpec | src/RF_FontData.py:357-388 | One line of the stripper: outside a block comment, any emitted text holds no `//` and a block opens only on a line holding `/*`. Inside one, the block stays open exactly when the line holds no `*/`, an open block emits a bare newline, and a closing line emits only a tail of the line. |
| Comments.RemoveLinesComments | src/RF_FontData.py:350-355 | Stripping never adds lines, and empty input gives empty output. |
| Comments.PlainLinePasses | src/RF_FontData.py:378-379 | Outside a block comment, a line with neither `//` nor `/*` passes unchanged and opens no block. |
| Comments.LineCommentCuts | src/RF_FontData.py:360-362 | Outside a block comment, `//` cuts the line at its first occurrence and puts a newline back. |
| Comments.InsideBlockLine | src/RF_FontData.py:387-388 | Inside a block comment, a line without `*/` becomes a bare newline and the block stays open. |
| Comments.BlockCloses | src/RF_FontData.py:382-386 | Inside a block comment, the first `*/` closes it, and the text after it is kept unless it is empty. |
| Comments.CodeBeforeBlockStaysOpen | src/RF_FontData.py:365-369 | Text before a `/*` is kept and opens a block, even when the same line closes it again. |
| Comments.NoBlockCommentsIsMap | src/RF_FontData.py:357-379 | Without block comments, the stripper cuts each line's `//` comment independently, one output line per input line. |
| Comments.InsideBlockText | src/RF_FontData.py:380-388 | Inside a block comment, lines without `*/` each become a bare newline. |
| PyStr.StripSpec | src/RF_FontData.py:58 | `strip()` keeps the middle of the text and drops only whitespace around it. |
| PyStr.FindSpec | src/RF_FontData.py:61 | The search finds the first occurrence of a pattern, and fails exactly when there is none. |
| PyStr.LastWordOfPair | src/RF_FontData.py:63 | The last whitespace-separated word of `key value` is the value. |
| PyStr.IntRoundTrip | src/RF_FontData.py:79-94 | `int(str(n)) == n` for every integer. |
| PyStr.ParseIntSpec | src/RF_FontData.py:79-94 | `int()` of a line value succeeds exactly when, after stripping whitespace and one sign, it is digits with single `_` between them; a negative result needs a `-`, and a `-` gives no positive result. |
| FntRead.FindKeyLine | src/RF_FontData.py:55-68 | The lookup's scan, when it finds a line, finds one at or after the `char` line. |
| FntRead.FindKeyLineSpec | src/RF_FontData.py:55-68 | The scan stops at a line holding `key ` and starting with the key's first letter, after walking past every earlier line. It reports the key missing only at a line with `}` after lines walked past, and running out of lines exactly when every line from the `char` line on is walked past. |
| FntRead.FindKeyLineFirst | src/RF_FontData.py:60-63 | The scan finds the first line holding the key when no earlier line closes the block. |
| FntRead.FindKeyLineClosed | src/RF_FontData.py:60-68 | A `}` before any line holding the key makes the lookup fail with the key missing. |
| FntRead.GetLineValueSpec | src/RF_FontData.py:55-68 | The lookup returns the last word of the first line holding the key when no `}` comes before it. A returned value is one word found that way. It runs out of lines exactly when every line from the `char` line on is passed over, and otherwise fails only with the key missing. |
| FntRead.ParseGlyphBlockReads | src/RF_FontData.py:79-97 | A block is read exactly when all fourteen keys give a value, and the glyph then holds each key's value. |
| FntRead.ParseGlyphBlockFails | src/RF_FontData.py:79-95 | A block that is not read fails with the error of the first key, in source order, that gives no value. |
| FntRead.ReadLinesSkips | src/RF_FontData.py:74-107 | Lines holding neither `char ` nor `glyphScale ` are passed over one at a time without changing the outcome. |
| FntRead.ReadFieldsFit | src/RF_FontData.py:79-95 | Every value read is of its key's kind: integers for the metrics, floats for the coordinates, text for the shader name. |
| FntRead.ReadLinesMerges | src/RF_FontData.py:74-107 | A successful read keeps the slot count and every id already present. Every glyph it stores sits under its own id. |
| FntRead.ReadFnt | src/RF_FontData.py:45-107 | An empty file leaves the font as it was. A successful read keeps the slot count and every id already present, and each glyph it holds is either one it already had, unchanged, or sits under its own id. |
| FntFormat.KeysShadowFree | src/RF_FontData.py:61 | No key of a glyph block is mistaken by the lookup of a later key: no earlier key ends in the later key and starts with its letter. |
| FntFormat.GlyphOfFields | src/RF_FontData.py:222-236 | A glyph taken apart into the values of its block and put together again is the same glyph. |
| FntFormat.FieldsOfGlyph | src/RF_FontData.py:82-96 | Fourteen values, each of its key's kind, put together into a glyph and taken apart again are the same values. |
| FntWrite.CharLabel | src/RF_FontData.py:218-221 | The comment shows `(LF)` for 10, `(CR)` for 13 and at most one character otherwise. It exists exactly for ids in the code space. |
| FntWrite.PresentIds | src/RF_FontData.py:212-216 | The writer visits only ids in `[0, max_glyphs)` that hold a glyph. |
| FntWrite.PresentIdsComplete | src/RF_FontData.py:212-216 | Every id in `[0, max_glyphs)` that holds a glyph is visited. |
| FntWrite.PresentIdsAscending | src/RF_FontData.py:212-216 | The ids are visited in strictly ascending order. |
| FntWrite.GlyphBlocksSpec | src/RF_FontData.py:217-221 | Writing the blocks succeeds exactly when every visited glyph has a character to show. Otherwise the error is the id of the first glyph without one. |
| FntWrite.GlyphBlockAt | src/RF_FontData.py:217-237 | Block j of the written body is the eighteen lines of the glyph under the j-th visited id. |
| FntWrite.WriteFnt | src/RF_FontData.py:186-243 | Nothing is written exactly when there are no glyphs. A written text is 6 header lines, 18 lines per visited glyph and 7 footer lines, cut at the newlines the writer puts; these are the file's lines when the source name and the font's names hold no line break. A failure names a visited glyph whose id is outside the code space. |
| FntRoundTrip.FntRoundTrip | src/RF_FontData.py:45-107 | The reader gives the font back from the text the writer produced, read into a fresh font of the same size. This holds when every glyph sits under its own id in range, every name and formatted float is a word that parses back, and the source name holds no `\n` or `\r`. |
| Packer.Wrap | src/RF_FontImage.py:160-163 | After the wrap test the glyph fits the row to the right margin, or a new row starts at the left margin with no height. The row never moves up when the row height plus the spacing is not negative. |
| Packer.Turn | src/RF_FontImage.py:165-177 | After the page test the glyph fits above the bottom margin, or the cursor is at the top-left margin. Either nothing changes, or the current page is closed and an empty page with the next index is opened. |
| Packer.Put | src/RF_FontImage.py:179-189 | Placing appends the glyph at the cursor to the current page and keeps everything before it. The cursor moves right by the width plus spacing, and the row height grows to at least the glyph's height. |
| Packer.StepSound | src/RF_FontImage.py:159-189 | One iteration keeps pages numbered and of the given size. It places exactly the given glyph, after all earlier ones, changing only its position and page index. |
| Packer.StepMargins | src/RF_FontImage.py:160-189 | With non-negative spacing and width, every placed glyph lies right of and below the margins. |
| Packer.StepBounds | src/RF_FontImage.py:160-182 | When the glyph fits a page inside its margins, it lands inside all four margins, and only a non-empty page is closed. |
| Packer.StepApart | src/RF_FontImage.py:180-189 | With non-negative spacing and width, no two glyphs on the same page overlap. |
| Packer.FinishKeeps | src/RF_FontImage.py:191-193 | The last page is added only when something is on it, and the pages keep every property the loop kept. |
| Packer.PackTextures | src/RF_FontImage.py:141-193 | Pages are numbered 0, 1, 2, … and all of the given size. Reading the pages in order gives the input glyphs in order, each placed and tagged with its page. With non-negative spacing and widths, glyphs lie inside the top and left margins and never overlap on a page. When every glyph fits, they also lie inside the right and bottom margins and no page is empty. |
| Packer.TallGlyphLeavesEmptyPage | src/RF_FontImage.py:166-177 | There is no capacity error: a first glyph taller than a page inside its margins closes page 0 empty and is placed on page 1. |
| Packer.Pack | src/RF_FontImage.py:141-193 | The packer makes no page exactly when it is given no glyph. |
| Packer.DefaultSingleGlyph | src/RF_FontImage.py:141-193 | With the default 1024×1024 pages, spacing 2 and margin 16, a single glyph that fits lands at (16, 16) on page 0, the only page. |
| GlyphData.Record | src/RF_FontImage.py:202-218 | A record is made exactly when the character is one code point and the page has an area, and the character is checked first. It describes the bitmap's metrics (id, cell size, top and bottom, advance) and names the page's shader. |
| GlyphData.RecordLocates | src/RF_FontImage.py:212-215 | A record's texture coordinates, scaled back by the page size, give the glyph's rectangle on the page. |
| GlyphData.FreshGlyphUnrecordable | src/RF_Set.py:37-50 | A freshly constructed `TTFGlyph()` has an empty character, so `ord` of it fails and no record is made. |
| GlyphData.ShaderNameInjective | src/RF_FontImage.py:218 | Different page indices give different shader names. |
| GlyphData.InsideUnitRect | src/RF_FontImage.py:212-215 | A glyph inside its page has texture coordinates in [0, 1], with s ≤ s2 and t ≤ t2. |
| GlyphData.PageRecords | src/RF_FontImage.py:201-220 | A page yields one record per glyph. |
| GlyphData.PageRecordsSpec | src/RF_FontImage.py:201-220 | A page's records are made exactly when each of its glyphs is recordable, and record j is glyph j's record. |
| GlyphData.GenerateGlyphsData | src/RF_FontImage.py:197-220 | There is one record per glyph of all pages. |
| GlyphData.GenerateOk | src/RF_FontImage.py:197-220 | The records come out exactly when every glyph on every page is recordable. |
| GlyphData.GeneratePromises | src/RF_FontImage.py:197-220 | Record i describes glyph i of the pages in order. It names its page's shader when glyphs carry their page's index, and lies in the unit square when glyphs lie inside their pages. |
| GlyphData.PackedPagesInside | src/RF_FontImage.py:180-182 | The packer's numbering and margin guarantees imply both premises of the previous row. |
| Tga.Header | src/RF_FontImage.py:244-253 | The header is 18 bytes. |
| Tga.HeaderSpec | src/RF_FontImage.py:244-253 | Byte 2 is 2, bytes 12–13 and 14–15 hold width and height modulo 65536 little-endian, byte 16 is 32, byte 17 is 0, and the other header bytes are 0. |
| Tga.SaveTga | src/RF_FontImage.py:237-265 | The file is the 18-byte header and four bytes per pixel: 18 + 4·W·H bytes. |
| Tga.PixelAt | src/RF_FontImage.py:254-261 | Pixel c of file row r is pixel c of image row H−1−r, stored blue, green, red, alpha. |
| Tga.TgaRoundTrip | src/RF_FontImage.py:237-265 | A reader of uncompressed 32-bit TGA with lower-left origin recovers the image from the file, for sizes below 65536. |
| Charset.AvailableSet | src/RF_FontImage.py:62-70 | The set holds exactly the Latin-1 code points and the format-4 mapped codes from 0 to `max_glyphs` inclusive. |
| Charset.SortedList | src/RF_FontImage.py:72 | The list holds exactly the set's elements, each once, in increasing order. |
| Charset.GetAvailableCharacters | src/RF_FontImage.py:61-72 | The offered characters are increasing and duplicate-free. They are exactly the code points 0–255 plus the format-4 mapped codes from 0 to `max_glyphs` inclusive. |

## Left out

- File and directory handling is not modelled: `_startup`, the output paths of `write_fnt` and `write_dat`, `makedirs`, and the font search path. The writers return the file's contents, and the readers take the contents as input.
- Splitting a text file into lines is not modelled. The text reader takes the lines as `readlines` gives them, and `FntWrite.WriteFnt` returns the lines it writes.
- Decoding with `errors='ignore'` is not modelled. Text is taken as already decoded. The one exception: the writer drops a lone surrogate from a comment line, which is what `errors='ignore'` does to it.
- Float conversion is not modelled. `float()` and `:.6f` are parameters. The round trip assumes they invert each other on the values written.
- Binary32 rounding is not modelled. `struct.pack('<f')` is exact on the bit pattern.
- GlyphData.GenerateGlyphsData: texture coordinates are exact reals, not the binary64 quotients Python computes (rounded to binary32 only when written), so the unit-square bounds are proved for the exact quotients only.
- DatCodec.WriteDat: `struct.pack('<f')` raising OverflowError for a float outside the binary32 range is not modelled; floats are already 4-byte patterns, so every float can be written.
- Rendering and font loading through PIL and fontTools are not modelled: `render_glyphs`, `_load_font`, `getbbox` and `getmetrics`. Their results (size, bounding box, ascent, margin) are fields of the input glyphs, and the character maps are an input to `Charset.GetAvailableCharacters`.
- `save_textures`' compositing with `Image.paste` and the `convert('RGBA')` call are not modelled. `Tga.SaveTga` takes the RGBA pixel grid it would produce.
- Printing, `show_info`, `show_info_need`, progress messages and main.py are not modelled. Warnings that decide nothing are reported as flags or outcomes only.
- Partial output when an exception aborts a loop is not modelled. The model reports the error instead of the half-filled dictionary or list.
- `pack_textures` and `generate_glyphs_data` mutate `ttf_glyph` objects in place. The model returns the placed copies, and `Packer.Flatten` of the pages is the list the source mutates.
- Charset.GetAvailableCharacters: the characters are represented as code points. `chr` of a format-4 code cannot fail, because such codes are 16-bit.
- DatCodec.DatRoundTrip: stated for ASCII names only. Non-ASCII names change the field width (see `Bytes.NonAsciiWidens`).
- Tga.TgaRoundTrip: stated only for widths and heights below 65536, because larger sizes wrap in the 16-bit header fields (`Tga.HeaderSpec` states the wrap).
- FntRoundTrip.FntRoundTrip: stated only for fonts whose glyphs sit under their own id within `[0, max_glyphs)`, whose names are single words, and whose formatted floats parse back, and for a source file name without `\n` or `\r`. `write_fnt` writes the name verbatim, so a line break in it splits a comment line of the real file and the reader would see a different line list.
- FntWrite.WriteFnt: returns the written text cut after each newline the writer itself puts. These pieces are the file's lines only when no name written into them holds `\n` or `\r`; a glyph or font name read from a `.dat` file may hold them, and the line counts then describe pieces, not lines.
- PyStr.ParseInt: accepts ASCII digits only, with single `_` separators. Python's `int()` also accepts the other Unicode decimal digits (for example Arabic-Indic and full-width digits), which the model rejects.
