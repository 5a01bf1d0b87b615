/**
 * The binary font file (`write_dat` / `read_dat`): one fixed 80-byte record per
 * glyph slot, the slot position being the glyph id, followed by a 68-byte
 * info block at the END of the file holding the glyph scale and the font name.
 * An absent slot is written as 80 zero bytes, and an all-zero record is read
 * as an absent slot.
 *
 * Offsets are written as literals (80 for `PerGlyphDataSize`, 68 for
 * `GlobalInfoDataSize`, 48 for the twelve numbers before the shader name);
 * `FormatSizes` ties them to the named constants.
 */
module DatCodec {
  import opened Wrappers
  import opened Bytes
  import opened PyStr
  import opened Settings
  import opened FontDocument
  import opened SlotFile

  type DatGlyph = Glyph<Float32>

  lemma FormatSizes()
    ensures PerGlyphDataSize == 80 && GlobalInfoDataSize == 68
    ensures 4 * 12 + MaxShaderName == 80 && 4 + MaxQPath == 68
  {
  }

  // ---------------------------------------------------------------------------
  // Writing
  // ---------------------------------------------------------------------------

  /** Every integer field fits `to_bytes(4, signed=True)`; otherwise it raises OverflowError. */
  predicate IntsFit(g: DatGlyph) {
    && IsInt32(g.height) && IsInt32(g.top) && IsInt32(g.bottom) && IsInt32(g.pitch)
    && IsInt32(g.xSkip) && IsInt32(g.imageWidth) && IsInt32(g.imageHeight) && IsInt32(g.glyph)
  }

  /** The twelve numbers of a record, one 4-byte word each: seven ints, four floats, one int. */
  function RecordWords(g: DatGlyph): (ws: seq<seq<byte>>)
    requires IntsFit(g)
    ensures |ws| == 12 && AllWords(ws)
  {
    [Int32ToBytes(g.height), Int32ToBytes(g.top), Int32ToBytes(g.bottom), Int32ToBytes(g.pitch),
     Int32ToBytes(g.xSkip), Int32ToBytes(g.imageWidth), Int32ToBytes(g.imageHeight),
     PackFloat32(g.s), PackFloat32(g.t), PackFloat32(g.s2), PackFloat32(g.t2),
     Int32ToBytes(g.glyph)]
  }

  /** The record `write_dat` emits for a present glyph; quote characters are dropped from the shader name. */
  function EncodeRecord(g: DatGlyph): (r: seq<byte>)
    requires IntsFit(g)
    ensures |r| >= 80
    ensures IsAscii(g.shaderName) ==> |r| == 80
  {
    ConcatWord(RecordWords(g), 0);
    Concat(RecordWords(g)) + EncodeFixed(RemoveChar(g.shaderName, '"'), MaxShaderName)
  }

  /** What `write_dat` emits for slot `i`. */
  function SlotBytes(glyphs: map<int, DatGlyph>, i: int): seq<byte>
    requires i in glyphs ==> IntsFit(glyphs[i])
  {
    if i in glyphs then EncodeRecord(glyphs[i]) else Zeros(80)
  }

  predicate SlotsFit(doc: FontData) {
    forall i :: 0 <= i < doc.maxGlyphs && i in doc.glyphs ==> IntsFit(doc.glyphs[i])
  }

  /** The records of slots `0 .. maxGlyphs - 1`, in order; ids outside that range are never visited. */
  function SlotRecords(doc: FontData): (rs: seq<seq<byte>>)
    requires SlotsFit(doc)
    ensures |rs| == SlotCount(doc.maxGlyphs)
    ensures forall k :: 0 <= k < |rs| ==> rs[k] == SlotBytes(doc.glyphs, k)
  {
    seq(SlotCount(doc.maxGlyphs), k requires 0 <= k < SlotCount(doc.maxGlyphs) => SlotBytes(doc.glyphs, k))
  }

  /** The 68-byte info block: glyph scale, then the quote-free name in 64 bytes. */
  function EncodeInfo(doc: FontData): (r: seq<byte>)
    ensures IsAscii(doc.name) ==> |r| == 68
  {
    PackFloat32(doc.glyphScale) + EncodeFixed(RemoveChar(doc.name, '"'), MaxQPath)
  }

  /** Outcome of `write_dat`: nothing written (a warning), an OverflowError, or the file's bytes. */
  datatype DatWrite = EmptyWarning | IntOverflow | Written(data: seq<byte>)

  /** The bytes of the file: the slot records, then the info block. */
  function DatBytes(doc: FontData): seq<byte>
    requires SlotsFit(doc)
  {
    Concat(SlotRecords(doc)) + EncodeInfo(doc)
  }

  /**
   * `write_dat`: a warning and no file when there are no glyphs; an
   * OverflowError when a visited glyph holds an integer outside int32;
   * otherwise the file.
   */
  function WriteDat(doc: FontData): (r: DatWrite)
    ensures r.EmptyWarning? <==> |doc.glyphs| == 0
    ensures r.IntOverflow? <==> |doc.glyphs| > 0 && !SlotsFit(doc)
    ensures r.Written? ==> SlotsFit(doc) && r.data == DatBytes(doc)
  {
    if |doc.glyphs| == 0 then EmptyWarning
    else if !SlotsFit(doc) then IntOverflow
    else Written(DatBytes(doc))
  }

  // ---------------------------------------------------------------------------
  // Reading
  // ---------------------------------------------------------------------------

  function Quote(s: string): string {
    "\"" + s + "\""
  }

  /** Word `j` of a record: bytes `[4 j, 4 j + 4)`. */
  function Word(block: seq<byte>, j: nat): (r: seq<byte>)
    requires 4 * j + 4 <= |block|
    ensures |r| == 4
  {
    block[4 * j .. 4 * j + 4]
  }

  /** `parse_glyph_info`: decodes one full record as the glyph with id `index`. */
  function ParseGlyphInfo(block: seq<byte>, index: int): (g: DatGlyph)
    requires |block| == 80
    ensures g.id == index && IntsFit(g)
  {
    Glyph(index,
      BytesToInt32(Word(block, 0)), BytesToInt32(Word(block, 1)), BytesToInt32(Word(block, 2)),
      BytesToInt32(Word(block, 3)), BytesToInt32(Word(block, 4)), BytesToInt32(Word(block, 5)),
      BytesToInt32(Word(block, 6)),
      UnpackFloat32(Word(block, 7)), UnpackFloat32(Word(block, 8)),
      UnpackFloat32(Word(block, 9)), UnpackFloat32(Word(block, 10)),
      BytesToInt32(Word(block, 11)),
      Quote(Latin1(UntilNul(block[48..80]))))
  }

  /** The glyphs of the non-zero records among slots `k .. count - 1`, keyed by slot. */
  function DecodedSlots(data: seq<byte>, k: nat, count: nat): map<int, DatGlyph>
    requires count * 80 <= |data|
  {
    SlotMap(data, k, count, ParseGlyphInfo)
  }

  /** `read_dat` failed: the file is shorter than the info block. */
  datatype DatError = FileTooShort

  /** What `read_dat` leaves behind, and whether it printed the size warning. */
  datatype DatRead = DatRead(doc: FontData, misaligned: bool)

  /**
   * `read_dat`: the info block comes from the last 68 bytes; the bytes before
   * it are read as `floor(size / 80)` records, a remainder only raising the
   * warning. Glyphs are added to those `doc` already holds (the source never
   * clears its dictionary). A file shorter than 68 bytes is an error (the
   * source's `seek` fails before its own length check is reached).
   */
  function ReadDat(data: seq<byte>, doc: FontData): (r: Result<DatRead, DatError>)
    ensures r.Err? <==> |data| < 68
    ensures r.Ok? ==>
      var size := |data| - 68;
      && r.value.misaligned == (size % 80 != 0)
      && r.value.doc.glyphScale == UnpackFloat32(data[size..size + 4])
      && r.value.doc.name == Quote(Latin1(UntilNul(data[size + 4..])))
      && r.value.doc.glyphs == doc.glyphs + DecodedSlots(data, 0, size / 80)
      && r.value.doc.maxGlyphs == doc.maxGlyphs
  {
    if |data| < 68 then Err(FileTooShort)
    else
      var size := |data| - 68;
      var info := data[size..];
      var count := size / 80;
      var glyphs := ReadRecords(data, 0, count, doc.glyphs, ParseGlyphInfo);
      ReadRecordsClosed(data, 0, count, doc.glyphs, ParseGlyphInfo);
      assert info[4..68] == data[size + 4..];
      Ok(DatRead(
        doc.(glyphs := glyphs,
             glyphScale := UnpackFloat32(info[0..4]),
             name := Quote(Latin1(UntilNul(info[4..68])))),
        size % 80 != 0))
  }

  // ---------------------------------------------------------------------------
  // Layout of the written file
  // ---------------------------------------------------------------------------

  /** Every name the writer visits is ASCII, so every field has its nominal width. */
  predicate AsciiDoc(doc: FontData) {
    && IsAscii(doc.name)
    && forall i :: 0 <= i < doc.maxGlyphs && i in doc.glyphs ==> IsAscii(doc.glyphs[i].shaderName)
  }

  lemma SlotRecordsWidth(doc: FontData)
    requires SlotsFit(doc) && AsciiDoc(doc)
    ensures AllWidth(SlotRecords(doc), 80)
  {
  }

  /** The file is 80 bytes per slot plus the info block, which sits at the end. */
  lemma DatBytesLength(doc: FontData)
    requires SlotsFit(doc) && AsciiDoc(doc)
    ensures var n := SlotCount(doc.maxGlyphs);
      && |DatBytes(doc)| == n * 80 + 68
      && DatBytes(doc)[n * 80..] == EncodeInfo(doc)
  {
    SlotRecordsWidth(doc);
    ConcatLength(SlotRecords(doc), 80);
  }

  /** Slot `i` of the file holds what the writer emits for id `i`. */
  lemma DatBytesSlot(doc: FontData, i: nat)
    requires SlotsFit(doc) && AsciiDoc(doc) && i < doc.maxGlyphs
    ensures (i + 1) * 80 <= |DatBytes(doc)|
    ensures Slot(DatBytes(doc), i) == SlotBytes(doc.glyphs, i)
  {
    var rs := SlotRecords(doc);
    SlotRecordsWidth(doc);
    ConcatBlock(rs, 80, i);
    SlotOfPrefix(Concat(rs), EncodeInfo(doc), i);
  }

  /**
   * The layout of a written file with ASCII names: `maxGlyphs * 80 + 68`
   * bytes; the record of slot `i` at `[80 i, 80 i + 80)`, all zero when id `i`
   * is absent; then the scale and the name.
   */
  lemma WriteDatLayout(doc: FontData)
    requires WriteDat(doc).Written? && AsciiDoc(doc)
    ensures var data := WriteDat(doc).data; var n := SlotCount(doc.maxGlyphs);
      && |data| == n * 80 + 68
      && (forall i: nat :: i < n && i !in doc.glyphs ==> AllZero(Slot(data, i)))
      && (forall i: nat :: i < n && i in doc.glyphs ==> Slot(data, i) == EncodeRecord(doc.glyphs[i]))
      && data[n * 80..] == EncodeInfo(doc)
  {
    var n := SlotCount(doc.maxGlyphs);
    DatBytesLength(doc);
    forall i: nat | i < n ensures Slot(DatBytes(doc), i) == SlotBytes(doc.glyphs, i) {
      DatBytesSlot(doc, i);
    }
  }

  // ---------------------------------------------------------------------------
  // Round trips
  // ---------------------------------------------------------------------------

  /** The text a fixed field of `width` bytes gives back for `s`: quotes dropped, cut to width, cut at NUL. */
  function FieldText(s: string, width: nat): string {
    var t := RemoveChar(s, '"');
    TextUntilNul(t[..Min(|t|, width)])
  }

  /** What `read_dat` makes of the glyph `write_dat` stored in slot `i`. */
  function Restored(g: DatGlyph, i: int): DatGlyph {
    g.(id := i, shaderName := Quote(FieldText(g.shaderName, MaxShaderName)))
  }

  /** The words and the name field of an encoded record, where the parser looks for them. */
  lemma RecordFields(g: DatGlyph)
    requires IntsFit(g)
    ensures var b := EncodeRecord(g);
      && (forall j: nat :: j < 12 ==> Word(b, j) == RecordWords(g)[j])
      && b[48..] == EncodeFixed(RemoveChar(g.shaderName, '"'), MaxShaderName)
  {
    var ws := RecordWords(g);
    var b := EncodeRecord(g);
    var f := EncodeFixed(RemoveChar(g.shaderName, '"'), MaxShaderName);
    assert b == Concat(ws) + f;
    forall j: nat | j < 12 ensures Word(b, j) == ws[j] {
      WordsThenTail(ws, f, j);
    }
    WordsThenTail(ws, f, 0);
  }

  /** Decoding an encoded record restores every number exactly and the shader name as its field text. */
  lemma RecordRoundTrip(g: DatGlyph, i: int)
    requires IntsFit(g) && IsAscii(g.shaderName)
    ensures ParseGlyphInfo(EncodeRecord(g), i) == Restored(g, i)
  {
    var b := EncodeRecord(g);
    var name := RemoveChar(g.shaderName, '"');
    RecordFields(g);
    assert b[48..80] == EncodeFixed(name, MaxShaderName);
    Int32RoundTrip(g.height);
    Int32RoundTrip(g.top);
    Int32RoundTrip(g.bottom);
    Int32RoundTrip(g.pitch);
    Int32RoundTrip(g.xSkip);
    Int32RoundTrip(g.imageWidth);
    Int32RoundTrip(g.imageHeight);
    Int32RoundTrip(g.glyph);
    FixedFieldRoundTrip(name, MaxShaderName);
  }

  /** The glyphs a written file gives back: the ids in range whose record is not all zero, restored. */
  function RestoredGlyphs(doc: FontData): map<int, DatGlyph>
    requires SlotsFit(doc)
  {
    map i | i in doc.glyphs && 0 <= i < doc.maxGlyphs && !AllZero(EncodeRecord(doc.glyphs[i]))
      :: Restored(doc.glyphs[i], i)
  }

  lemma RestoredIsDecoded(doc: FontData, i: int)
    requires SlotsFit(doc) && AsciiDoc(doc) && i in RestoredGlyphs(doc)
    ensures var n := SlotCount(doc.maxGlyphs);
      && n * 80 <= |DatBytes(doc)|
      && i in DecodedSlots(DatBytes(doc), 0, n)
      && DecodedSlots(DatBytes(doc), 0, n)[i] == RestoredGlyphs(doc)[i]
  {
    DatBytesLength(doc);
    DatBytesSlot(doc, i);
    RecordRoundTrip(doc.glyphs[i], i);
  }

  lemma DecodedIsRestored(doc: FontData, i: int)
    requires SlotsFit(doc) && AsciiDoc(doc)
    requires SlotCount(doc.maxGlyphs) * 80 <= |DatBytes(doc)|
    requires i in DecodedSlots(DatBytes(doc), 0, SlotCount(doc.maxGlyphs))
    ensures i in RestoredGlyphs(doc)
  {
    DatBytesSlot(doc, i);
  }

  /** The slots of a written file decode to exactly the restored glyphs. */
  lemma WrittenSlotsDecode(doc: FontData)
    requires SlotsFit(doc) && AsciiDoc(doc)
    ensures var n := SlotCount(doc.maxGlyphs);
      n * 80 <= |DatBytes(doc)| && DecodedSlots(DatBytes(doc), 0, n) == RestoredGlyphs(doc)
  {
    var n := SlotCount(doc.maxGlyphs);
    DatBytesLength(doc);
    var got := DecodedSlots(DatBytes(doc), 0, n);
    var want := RestoredGlyphs(doc);
    forall i | i in want ensures i in got && got[i] == want[i] {
      RestoredIsDecoded(doc, i);
    }
    forall i | i in got ensures i in want {
      DecodedIsRestored(doc, i);
    }
    MapsEqual(got, want);
  }

  /** The info block decodes to the scale and the name's field text. */
  lemma InfoRoundTrip(doc: FontData)
    requires IsAscii(doc.name)
    ensures var info := EncodeInfo(doc);
      && |info| == 68
      && UnpackFloat32(info[..4]) == doc.glyphScale
      && Latin1(UntilNul(info[4..])) == FieldText(doc.name, MaxQPath)
  {
    var info := EncodeInfo(doc);
    assert info[..4] == PackFloat32(doc.glyphScale);
    assert info[4..] == EncodeFixed(RemoveChar(doc.name, '"'), MaxQPath);
    FixedFieldRoundTrip(RemoveChar(doc.name, '"'), MaxQPath);
  }

  /** The info block of a written file: the scale and the name's field text come back. */
  lemma WrittenInfoDecode(doc: FontData)
    requires SlotsFit(doc) && AsciiDoc(doc)
    ensures var data := DatBytes(doc); var size := |data| - 68;
      && size == SlotCount(doc.maxGlyphs) * 80
      && UnpackFloat32(data[size..size + 4]) == doc.glyphScale
      && Latin1(UntilNul(data[size + 4..])) == FieldText(doc.name, MaxQPath)
  {
    var data := DatBytes(doc);
    DatBytesLength(doc);
    InfoRoundTrip(doc);
    var size := |data| - 68;
    var info := data[size..];
    assert info == EncodeInfo(doc);
    assert data[size..size + 4] == info[..4];
    assert data[size + 4..] == info[4..];
  }

  /**
   * `read_dat(write_dat(doc))` into a fresh font: exactly the ids in
   * `[0, maxGlyphs)` whose record is not all zero come back, each with every
   * number unchanged and its shader name as the field text, re-quoted; the
   * scale is unchanged and the name is its field text, re-quoted.
   */
  lemma DatRoundTrip(doc: FontData)
    requires WriteDat(doc).Written? && AsciiDoc(doc)
    ensures var r := ReadDat(WriteDat(doc).data, NewFontData(doc.maxGlyphs));
      && r.Ok? && !r.value.misaligned
      && r.value.doc.glyphScale == doc.glyphScale
      && r.value.doc.name == Quote(FieldText(doc.name, MaxQPath))
      && r.value.doc.maxGlyphs == doc.maxGlyphs
      && r.value.doc.glyphs == RestoredGlyphs(doc)
  {
    var data := DatBytes(doc);
    WrittenInfoDecode(doc);
    WrittenSlotsDecode(doc);
    SlotArea(SlotCount(doc.maxGlyphs));
    EmptyUnion(RestoredGlyphs(doc));
  }

  /** Every glyph in range has a NUL-free shader name that fits its field and a record that is not all zero. */
  predicate ExactGlyphs(doc: FontData)
    requires SlotsFit(doc)
  {
    forall i :: 0 <= i < doc.maxGlyphs && i in doc.glyphs ==>
      && !HasNul(doc.glyphs[i].shaderName)
      && |RemoveChar(doc.glyphs[i].shaderName, '"')| <= MaxShaderName
      && !AllZero(EncodeRecord(doc.glyphs[i]))
  }

  lemma FieldTextWhole(s: string, width: nat)
    requires !HasNul(s) && |RemoveChar(s, '"')| <= width
    ensures FieldText(s, width) == RemoveChar(s, '"')
  {
    var t := RemoveChar(s, '"');
    assert t[..Min(|t|, width)] == t;
    NoNulIsWhole(t);
  }

  /** The glyphs of a font written whole, as the reader gives them back. */
  function WholeGlyphs(doc: FontData): map<int, DatGlyph> {
    map i | i in doc.glyphs && 0 <= i < doc.maxGlyphs
      :: doc.glyphs[i].(id := i, shaderName := Quote(RemoveChar(doc.glyphs[i].shaderName, '"')))
  }

  lemma RestoredWhole(doc: FontData)
    requires SlotsFit(doc) && ExactGlyphs(doc)
    ensures RestoredGlyphs(doc) == WholeGlyphs(doc)
  {
    var want := WholeGlyphs(doc);
    var got := RestoredGlyphs(doc);
    forall i | i in want ensures i in got && got[i] == want[i] {
      FieldTextWhole(doc.glyphs[i].shaderName, MaxShaderName);
    }
    MapsEqual(got, want);
  }

  /**
   * A font whose text is NUL-free ASCII within the field widths and whose
   * glyphs all have non-zero records comes back whole: every glyph in range,
   * with only its id set to its slot and its shader name quote-free and
   * re-quoted.
   */
  lemma DatRoundTripExact(doc: FontData)
    requires WriteDat(doc).Written? && AsciiDoc(doc) && ExactGlyphs(doc)
    requires !HasNul(doc.name) && |RemoveChar(doc.name, '"')| <= MaxQPath
    ensures var r := ReadDat(WriteDat(doc).data, NewFontData(doc.maxGlyphs));
      && r.Ok?
      && r.value.doc.name == Quote(RemoveChar(doc.name, '"'))
      && r.value.doc.glyphs == WholeGlyphs(doc)
  {
    DatRoundTrip(doc);
    FieldTextWhole(doc.name, MaxQPath);
    RestoredWhole(doc);
  }

  /**
   * A record the writer could have produced: its name field is ASCII without
   * quote characters and holds only NULs after its first NUL.
   */
  predicate CanonicalRecord(b: seq<byte>) {
    && |b| == 80
    && (forall k :: 48 <= k < |b| ==> b[k] < 128 && b[k] != '"' as int)
    && NulPadded(b[48..])
  }

  lemma {:induction false} UnquoteQuote(x: string)
    requires '"' !in x
    ensures RemoveChar(Quote(x), '"') == x
  {
    RemoveCharAppend("\"" + x, "\"", '"');
    RemoveCharAppend("\"", x, '"');
    assert RemoveChar("\"", '"') == "";
  }

  /** The numbers of a decoded record, re-encoded, are the record's first 48 bytes. */
  lemma RecordNumbersReencode(b: seq<byte>, i: int)
    requires |b| == 80
    ensures Concat(RecordWords(ParseGlyphInfo(b, i))) == b[..48]
  {
    var ws := RecordWords(ParseGlyphInfo(b, i));
    Int32BytesRoundTrip(Word(b, 0));
    Int32BytesRoundTrip(Word(b, 1));
    Int32BytesRoundTrip(Word(b, 2));
    Int32BytesRoundTrip(Word(b, 3));
    Int32BytesRoundTrip(Word(b, 4));
    Int32BytesRoundTrip(Word(b, 5));
    Int32BytesRoundTrip(Word(b, 6));
    FloatBytesRoundTrip(Word(b, 7));
    FloatBytesRoundTrip(Word(b, 8));
    FloatBytesRoundTrip(Word(b, 9));
    FloatBytesRoundTrip(Word(b, 10));
    Int32BytesRoundTrip(Word(b, 11));
    forall j | 0 <= j < 12 ensures ws[j] == b[4 * j .. 4 * j + 4] {
      assert ws[j] == Word(b, j);
    }
    ConcatOfSlices(ws, b);
  }

  /** A quote-free ASCII, NUL-padded name field survives being read, re-quoted, unquoted and written. */
  lemma NameFieldReencode(f: seq<byte>)
    requires forall k :: 0 <= k < |f| ==> f[k] < 128 && f[k] != '"' as int
    requires NulPadded(f)
    ensures EncodeFixed(RemoveChar(Quote(Latin1(UntilNul(f))), '"'), |f|) == f
  {
    NoQuoteKept(f);
    UnquoteQuote(Latin1(UntilNul(f)));
    FixedFieldReencode(f);
  }

  lemma NoQuoteKept(f: seq<byte>)
    requires forall k :: 0 <= k < |f| ==> f[k] != '"' as int
    ensures '"' !in Latin1(UntilNul(f))
  {
    var u := UntilNul(f);
    var x := Latin1(u);
    forall k | 0 <= k < |x| ensures x[k] != '"' {
      assert u[k] == f[k];
    }
  }

  /** Encoding the glyph decoded from a canonical record gives the record back, byte for byte. */
  lemma RecordReencode(b: seq<byte>, i: int)
    requires CanonicalRecord(b)
    ensures EncodeRecord(ParseGlyphInfo(b, i)) == b
  {
    var g := ParseGlyphInfo(b, i);
    var f := b[48..];
    assert b[48..80] == f;
    RecordNumbersReencode(b, i);
    NameFieldReencode(f);
    assert EncodeRecord(g) == Concat(RecordWords(g)) + EncodeFixed(RemoveChar(g.shaderName, '"'), MaxShaderName);
    assert b == b[..48] + f;
  }

  /**
   * A file the writer could have produced: `n` slots, each all zero or a
   * canonical record, at least one of them not all zero, and an info block
   * whose name field is quote-free ASCII padded with NULs.
   */
  predicate CanonicalFile(data: seq<byte>, n: nat) {
    && |data| == n * 80 + 68
    && (forall k: nat :: k < n ==> AllZero(Slot(data, k)) || CanonicalRecord(Slot(data, k)))
    && (exists k: nat :: k < n && !AllZero(Slot(data, k)))
    && CanonicalName(data[n * 80 + 4..])
  }

  /** A name field the writer could have produced: quote-free ASCII padded with NULs. */
  predicate CanonicalName(f: seq<byte>) {
    && (forall k :: 0 <= k < |f| ==> f[k] < 128 && f[k] != '"' as int)
    && NulPadded(f)
  }

  /** Decoded glyphs always fit the writer's integers. */
  lemma DecodedFit(data: seq<byte>, n: nat, doc: FontData)
    requires n * 80 <= |data|
    requires doc.maxGlyphs == n && doc.glyphs == DecodedSlots(data, 0, n)
    ensures SlotsFit(doc)
  {
  }

  /** Slot `k` of a canonical file is written back as read. */
  lemma CanonicalSlotReencode(data: seq<byte>, n: nat, doc: FontData, k: nat)
    requires n * 80 <= |data| && k < n
    requires AllZero(Slot(data, k)) || CanonicalRecord(Slot(data, k))
    requires doc.maxGlyphs == n && doc.glyphs == DecodedSlots(data, 0, n) && SlotsFit(doc)
    ensures SlotRecords(doc)[k] == Slot(data, k)
  {
    var b := Slot(data, k);
    if AllZero(b) {
      assert k !in doc.glyphs;
      assert b == Zeros(80);
    } else {
      assert doc.glyphs[k] == ParseGlyphInfo(b, k);
      RecordReencode(b, k);
    }
  }

  /** The slot area of a canonical file is written back as read. */
  lemma CanonicalSlotsReencode(data: seq<byte>, n: nat, doc: FontData)
    requires n * 80 <= |data|
    requires forall k: nat :: k < n ==> AllZero(Slot(data, k)) || CanonicalRecord(Slot(data, k))
    requires doc.maxGlyphs == n && doc.glyphs == DecodedSlots(data, 0, n) && SlotsFit(doc)
    ensures Concat(SlotRecords(doc)) == data[..n * 80]
  {
    var rs := SlotRecords(doc);
    forall j: nat | j < n ensures rs[j] == Slot(data, j) {
      CanonicalSlotReencode(data, n, doc, j);
    }
    SlotsInPlace(rs, data, n);
  }

  /**
   * `write_dat(read_dat(data))` for a file the writer could have produced,
   * read into a fresh font of the same slot count: the same bytes come back.
   */
  lemma DatReencode(data: seq<byte>, n: nat)
    requires CanonicalFile(data, n)
    ensures var r := ReadDat(data, NewFontData(n));
      r.Ok? && WriteDat(r.value.doc) == Written(data)
  {
    var doc := ReadWhole(data, n);
    WholeReencode(data, n, doc);
  }

  /** The font read from a canonical file is written as that file. */
  lemma WholeReencode(data: seq<byte>, n: nat, doc: FontData)
    requires CanonicalFile(data, n)
    requires doc.glyphs == DecodedSlots(data, 0, n) && doc.maxGlyphs == n
    requires doc.glyphScale == UnpackFloat32(data[n * 80..n * 80 + 4])
    requires doc.name == Quote(Latin1(UntilNul(data[n * 80 + 4..])))
    ensures WriteDat(doc) == Written(data)
  {
    SlotArea(n);
    CanonicalHasGlyph(data, n);
    DecodedFit(data, n, doc);
    CanonicalSlotsReencode(data, n, doc);
    CanonicalFileInfo(data, n, doc);
    WriteWhole(doc, data, n * 80);
  }

  /** The info block of a canonical file is written back as read. */
  lemma CanonicalFileInfo(data: seq<byte>, n: nat, doc: FontData)
    requires CanonicalFile(data, n)
    requires doc.glyphScale == UnpackFloat32(data[n * 80..n * 80 + 4])
    requires doc.name == Quote(Latin1(UntilNul(data[n * 80 + 4..])))
    ensures EncodeInfo(doc) == data[n * 80..]
  {
    CanonicalInfoReencode(data, n * 80, doc);
  }

  /** A font whose slot records and info block are the two halves of `data` is written as `data`. */
  lemma WriteWhole(doc: FontData, data: seq<byte>, size: nat)
    requires |doc.glyphs| > 0 && SlotsFit(doc) && size <= |data|
    requires Concat(SlotRecords(doc)) == data[..size] && EncodeInfo(doc) == data[size..]
    ensures WriteDat(doc) == Written(data)
  {
    assert data == data[..size] + data[size..];
  }

  /** What `read_dat` makes of a file of exactly `n` slots, read into a fresh font of `n` slots. */
  lemma ReadWhole(data: seq<byte>, n: nat) returns (doc: FontData)
    requires |data| == n * 80 + 68
    ensures doc.glyphs == DecodedSlots(data, 0, n) && doc.maxGlyphs == n
    ensures doc.glyphScale == UnpackFloat32(data[n * 80..n * 80 + 4])
    ensures doc.name == Quote(Latin1(UntilNul(data[n * 80 + 4..])))
    ensures ReadDat(data, NewFontData(n)) == Ok(DatRead(doc, false))
  {
    var size := n * 80;
    SlotArea(n);
    var glyphs := DecodedSlots(data, 0, n);
    EmptyUnion(glyphs);
    doc := FontData(glyphs, UnpackFloat32(data[size..size + 4]), Quote(Latin1(UntilNul(data[size + 4..]))), n);
  }

  /** A canonical file holds at least one glyph. */
  lemma CanonicalHasGlyph(data: seq<byte>, n: nat)
    requires CanonicalFile(data, n)
    ensures |DecodedSlots(data, 0, n)| > 0
  {
    var k: nat :| k < n && !AllZero(Slot(data, k));
    assert k in DecodedSlots(data, 0, n);
  }

  /** An info block with a quote-free ASCII, NUL-padded name field is written back as read. */
  lemma CanonicalInfoReencode(data: seq<byte>, size: nat, doc: FontData)
    requires |data| == size + 68
    requires CanonicalName(data[size + 4..])
    requires doc.glyphScale == UnpackFloat32(data[size..size + 4])
    requires doc.name == Quote(Latin1(UntilNul(data[size + 4..])))
    ensures EncodeInfo(doc) == data[size..]
  {
    var head := data[size..size + 4];
    var name := data[size + 4..];
    assert EncodeFixed(RemoveChar(doc.name, '"'), MaxQPath) == name by {
      NameFieldReencode(name);
    }
    assert PackFloat32(doc.glyphScale) == head by {
      FloatBytesRoundTrip(head);
    }
    assert data[size..] == head + name;
  }


  /** Every number of the glyph is zero and every float is +0.0. */
  predicate NumbersZero(g: DatGlyph) {
    && g.height == 0 && g.top == 0 && g.bottom == 0 && g.pitch == 0 && g.xSkip == 0
    && g.imageWidth == 0 && g.imageHeight == 0 && g.glyph == 0
    && g.s == FloatZero && g.t == FloatZero && g.s2 == FloatZero && g.t2 == FloatZero
  }

  lemma NumbersZeroIff(g: DatGlyph)
    requires IntsFit(g)
    ensures AllZero(Concat(RecordWords(g))) <==> NumbersZero(g)
  {
    var ws := RecordWords(g);
    ConcatZero(ws);
    assert AllZero(ws[0]) <==> g.height == 0 by { IntWordZero(g.height); }
    assert AllZero(ws[1]) <==> g.top == 0 by { IntWordZero(g.top); }
    assert AllZero(ws[2]) <==> g.bottom == 0 by { IntWordZero(g.bottom); }
    assert AllZero(ws[3]) <==> g.pitch == 0 by { IntWordZero(g.pitch); }
    assert AllZero(ws[4]) <==> g.xSkip == 0 by { IntWordZero(g.xSkip); }
    assert AllZero(ws[5]) <==> g.imageWidth == 0 by { IntWordZero(g.imageWidth); }
    assert AllZero(ws[6]) <==> g.imageHeight == 0 by { IntWordZero(g.imageHeight); }
    assert AllZero(ws[7]) <==> g.s == FloatZero by { FloatWordZero(g.s); }
    assert AllZero(ws[8]) <==> g.t == FloatZero by { FloatWordZero(g.t); }
    assert AllZero(ws[9]) <==> g.s2 == FloatZero by { FloatWordZero(g.s2); }
    assert AllZero(ws[10]) <==> g.t2 == FloatZero by { FloatWordZero(g.t2); }
    assert AllZero(ws[11]) <==> g.glyph == 0 by { IntWordZero(g.glyph); }
    TwelveWordsZero(ws);
  }

  lemma TwelveWordsZero(ws: seq<seq<byte>>)
    requires |ws| == 12
    ensures (forall j :: 0 <= j < |ws| ==> AllZero(ws[j])) <==>
      AllZero(ws[0]) && AllZero(ws[1]) && AllZero(ws[2]) && AllZero(ws[3]) && AllZero(ws[4])
      && AllZero(ws[5]) && AllZero(ws[6]) && AllZero(ws[7]) && AllZero(ws[8]) && AllZero(ws[9])
      && AllZero(ws[10]) && AllZero(ws[11])
  {
  }

  lemma FloatWordZero(f: Float32)
    ensures AllZero(PackFloat32(f)) <==> f == FloatZero
  {
    ZeroWord(PackFloat32(f));
  }

  /**
   * A record is all zero exactly when every number is zero, every float is
   * +0.0 and every kept character of the quote-free shader name is U+0000:
   * such a glyph is written like an absent slot and does not come back.
   */
  lemma ZeroRecordIff(g: DatGlyph)
    requires IntsFit(g) && IsAscii(g.shaderName)
    ensures AllZero(EncodeRecord(g)) <==> NumbersZero(g) && KeptAllNul(RemoveChar(g.shaderName, '"'), MaxShaderName)
  {
    var t := RemoveChar(g.shaderName, '"');
    assert EncodeRecord(g) == Concat(RecordWords(g)) + EncodeFixed(t, MaxShaderName);
    AllZeroAppend(Concat(RecordWords(g)), EncodeFixed(t, MaxShaderName));
    NumbersZeroIff(g);
    FixedFieldZero(t, MaxShaderName);
  }

  lemma IntWordZero(v: int)
    requires IsInt32(v)
    ensures AllZero(Int32ToBytes(v)) <==> v == 0
  {
    ZeroWord(Int32ToBytes(v));
    Int32ZeroBytes(v);
  }

  /** A fresh `Glyph()` encodes exactly like an absent slot. */
  lemma FreshGlyphIsAbsentSlot()
    ensures IntsFit(FreshGlyph) && AllZero(EncodeRecord(FreshGlyph))
  {
    ZeroRecordIff(FreshGlyph);
  }
}
