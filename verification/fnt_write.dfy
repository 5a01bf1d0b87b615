/**
 * The text font writer (`write_fnt`): a header, one 18-line block per glyph
 * whose id is in `[0, maxGlyphs)`, in ascending id order, and the `fontinfo`
 * block. The output is given as the lines a reader of the file gets back.
 */
module FntWrite {
  import opened Wrappers
  import opened PyStr
  import opened Bytes
  import opened Settings
  import opened FontDocument
  import opened FntFormat

  /** What `write_fnt` does: warn about an empty font, fail at `chr` of an id out of range, or write. */
  datatype FntOutput = EmptyWarning | CharError(id: int) | Written(lines: seq<string>)

  /**
   * The character shown in a block's comment: `(LF)` and `(CR)` for line feed
   * and carriage return, otherwise `chr(id)`, which fails outside the code
   * space; a lone surrogate is dropped by the file's `errors='ignore'`.
   */
  function CharLabel(id: int): (r: Option<string>)
    ensures r.Some? <==> 0 <= id < 0x11_0000
    ensures id == 10 ==> r == Some("(LF)")
    ensures id == 13 ==> r == Some("(CR)")
    ensures r.Some? && id != 10 && id != 13 ==> |r.value| <= 1
  {
    if id == 10 then Some("(LF)")
    else if id == 13 then Some("(CR)")
    else if 0 <= id < 0xD800 || 0xE000 <= id < 0x11_0000 then Some([id as char])
    else if 0xD800 <= id < 0xE000 then Some("")
    else None
  }

  /** The comment line that opens a block: the character and its code point, four hex digits or more. */
  function CommentLine(shown: string, id: nat): string
  {
    "\t// Character: '" + shown + "' (U+" + Hex4(id) + ")\n"
  }

  /** The value written under key `t` of `FntKeys`: numbers in decimal, coordinates through `formatFloat` (`:.6f`), the name as it is. */
  function GlyphValue(g: Glyph<Float32>, formatFloat: Float32 -> string, t: nat): string
    requires t < |FntKeys|
  {
    ShowField(GlyphField(g, t), formatFloat)
  }

  /** The values of a glyph's block, one per key. */
  function GlyphValues(g: Glyph<Float32>, formatFloat: Float32 -> string): (r: seq<string>)
    ensures |r| == |FntKeys|
    ensures forall t :: 0 <= t < |FntKeys| ==> r[t] == GlyphValue(g, formatFloat, t)
  {
    seq(|FntKeys|, t requires 0 <= t < |FntKeys| => GlyphValue(g, formatFloat, t))
  }

  /** The thirteen attribute lines after `char`, indented by two tabs. */
  function FieldLines(vals: seq<string>): (r: seq<string>)
    requires |vals| == |FntKeys|
    ensures |r| == 13
    ensures forall u :: 0 <= u < 13 ==> r[u] == Entry("\t\t", FntKeys[u + 1], vals[u + 1])
  {
    seq(13, u requires 0 <= u < 13 => Entry("\t\t", FntKeys[u + 1], vals[u + 1]))
  }

  /** The `char` line, the opening brace and the attribute lines: what the reader looks keys up in. */
  function BlockCore(vals: seq<string>): (r: seq<string>)
    requires |vals| == |FntKeys|
    ensures |r| == 15
  {
    [Entry("\t", FntKeys[0], vals[0]), "\t{\n"] + FieldLines(vals)
  }

  /** The eighteen lines of one glyph: comment, core, closing brace, blank line. */
  function GlyphLines(g: Glyph<Float32>, shown: string, formatFloat: Float32 -> string): (r: seq<string>)
    requires g.id >= 0
    ensures |r| == 18
  {
    [CommentLine(shown, g.id)] + BlockCore(GlyphValues(g, formatFloat)) + ["\t}\n", "\n"]
  }

  /** The keys `k .. max - 1` present in `glyphs`, ascending: the ids the loop `for i in range(max_glyphs)` writes. */
  function PresentIds(glyphs: map<int, Glyph<Float32>>, k: int, max: int): (r: seq<int>)
    ensures forall j :: 0 <= j < |r| ==> k <= r[j] < max && r[j] in glyphs
    decreases max - k
  {
    if k >= max then []
    else (if k in glyphs then [k] else []) + PresentIds(glyphs, k + 1, max)
  }

  /** Every key in range that holds a glyph is visited. */
  lemma {:induction false} PresentIdsComplete(glyphs: map<int, Glyph<Float32>>, k: int, max: int)
    ensures forall x :: k <= x < max && x in glyphs ==> x in PresentIds(glyphs, k, max)
    decreases max - k
  {
    if k < max {
      PresentIdsComplete(glyphs, k + 1, max);
    }
  }

  /** The ids come out strictly ascending. */
  lemma {:induction false} PresentIdsAscending(glyphs: map<int, Glyph<Float32>>, k: int, max: int)
    ensures Ascending(PresentIds(glyphs, k, max))
    decreases max - k
  {
    if k < max {
      PresentIdsAscending(glyphs, k + 1, max);
      var rest := PresentIds(glyphs, k + 1, max);
      if k in glyphs {
        var r := [k] + rest;
        assert PresentIds(glyphs, k, max) == r;
        forall i, j | 0 <= i < j < |r| ensures r[i] < r[j] {
          assert r[j] == rest[j - 1] && k + 1 <= rest[j - 1];
          if i > 0 {
            assert r[i] == rest[i - 1];
          }
        }
      } else {
        assert PresentIds(glyphs, k, max) == rest;
      }
    }
  }

  /** Every glyph stored under `ids` has a character to show. */
  predicate AllShown(glyphs: map<int, Glyph<Float32>>, ids: seq<int>)
    requires forall j :: 0 <= j < |ids| ==> ids[j] in glyphs
  {
    forall j :: 0 <= j < |ids| ==> CharLabel(glyphs[ids[j]].id).Some?
  }

  /**
   * The blocks of the glyphs stored under `ids`, in order. The first glyph
   * whose id has no character stops the writing, and its id is the error.
   */
  function GlyphBlocks(glyphs: map<int, Glyph<Float32>>, ids: seq<int>, formatFloat: Float32 -> string): (r: Result<seq<string>, int>)
    requires forall j :: 0 <= j < |ids| ==> ids[j] in glyphs
    ensures r.Ok? ==> |r.value| == 18 * |ids|
  {
    if |ids| == 0 then Ok([])
    else
      var g := glyphs[ids[0]];
      match CharLabel(g.id)
      case None => Err(g.id)
      case Some(shown) =>
        var rest :- GlyphBlocks(glyphs, ids[1..], formatFloat);
        Ok(GlyphLines(g, shown, formatFloat) + rest)
  }

  /**
   * The writing succeeds exactly when every glyph has a character to show;
   * otherwise the error is the id of the first glyph that has none.
   */
  lemma {:induction false} GlyphBlocksSpec(glyphs: map<int, Glyph<Float32>>, ids: seq<int>, formatFloat: Float32 -> string)
    requires forall j :: 0 <= j < |ids| ==> ids[j] in glyphs
    ensures var r := GlyphBlocks(glyphs, ids, formatFloat);
      && (r.Ok? <==> AllShown(glyphs, ids))
      && (r.Err? ==> CharLabel(r.error).None?)
      && (r.Err? ==> exists j :: 0 <= j < |ids| && r.error == glyphs[ids[j]].id && AllShown(glyphs, ids[..j]))
  {
    if |ids| > 0 {
      var g := glyphs[ids[0]];
      if CharLabel(g.id).None? {
        assert AllShown(glyphs, ids[..0]);
      } else {
        GlyphBlocksSpec(glyphs, ids[1..], formatFloat);
        var rest := GlyphBlocks(glyphs, ids[1..], formatFloat);
        ShownStep(glyphs, ids);
        if rest.Err? {
          var j :| 0 <= j < |ids| - 1 && rest.error == glyphs[ids[1..][j]].id && AllShown(glyphs, ids[1..][..j]);
          assert ids[..j + 1][1..] == ids[1..][..j];
          ShownStep(glyphs, ids[..j + 1]);
        }
      }
    }
  }

  /** All glyphs are shown exactly when the first is and the rest are. */
  lemma ShownStep(glyphs: map<int, Glyph<Float32>>, ids: seq<int>)
    requires forall j :: 0 <= j < |ids| ==> ids[j] in glyphs
    requires |ids| > 0
    ensures AllShown(glyphs, ids) <==> CharLabel(glyphs[ids[0]].id).Some? && AllShown(glyphs, ids[1..])
  {
    if CharLabel(glyphs[ids[0]].id).Some? && AllShown(glyphs, ids[1..]) {
      forall j | 0 <= j < |ids| ensures CharLabel(glyphs[ids[j]].id).Some? {
        if j > 0 {
          assert ids[j] == ids[1..][j - 1];
        }
      }
    }
  }

  /** Block `j` of the written body is the eighteen lines of the glyph stored under `ids[j]`. */
  lemma {:induction false} GlyphBlockAt(glyphs: map<int, Glyph<Float32>>, ids: seq<int>, formatFloat: Float32 -> string, j: nat)
    requires forall i :: 0 <= i < |ids| ==> ids[i] in glyphs
    requires GlyphBlocks(glyphs, ids, formatFloat).Ok? && j < |ids|
    ensures var g := glyphs[ids[j]];
      && CharLabel(g.id).Some? && g.id >= 0
      && GlyphBlocks(glyphs, ids, formatFloat).value[18 * j .. 18 * j + 18] == GlyphLines(g, CharLabel(g.id).value, formatFloat)
  {
    GlyphBlocksCons(glyphs, ids, formatFloat);
    var g := glyphs[ids[0]];
    var head := GlyphLines(g, CharLabel(g.id).value, formatFloat);
    var rest := GlyphBlocks(glyphs, ids[1..], formatFloat).value;
    if j == 0 {
      BlockOfJoin(head, rest, 0);
    } else {
      assert ids[1..][j - 1] == ids[j];
      GlyphBlockAt(glyphs, ids[1..], formatFloat, j - 1);
      BlockOfJoin(head, rest, j);
    }
  }

  /** A written body starts with the first glyph's block, followed by the blocks of the others. */
  lemma GlyphBlocksCons(glyphs: map<int, Glyph<Float32>>, ids: seq<int>, formatFloat: Float32 -> string)
    requires forall i :: 0 <= i < |ids| ==> ids[i] in glyphs
    requires GlyphBlocks(glyphs, ids, formatFloat).Ok? && |ids| > 0
    ensures var g := glyphs[ids[0]];
      && CharLabel(g.id).Some? && g.id >= 0
      && GlyphBlocks(glyphs, ids[1..], formatFloat).Ok?
      && GlyphBlocks(glyphs, ids, formatFloat).value
         == GlyphLines(g, CharLabel(g.id).value, formatFloat) + GlyphBlocks(glyphs, ids[1..], formatFloat).value
  {
  }

  /** Block `j` of a block followed by more blocks. */
  lemma BlockOfJoin<T>(head: seq<T>, rest: seq<T>, j: nat)
    requires |head| == 18 && 18 * j + 18 <= |head| + |rest|
    ensures j == 0 ==> (head + rest)[..18] == head
    ensures j > 0 ==> (head + rest)[18 * j .. 18 * j + 18] == rest[18 * (j - 1) .. 18 * (j - 1) + 18]
  {
  }

  /** The six lines before the first block; `count` is the number of glyphs, written or not. */
  function Header(source: string, count: nat): seq<string>
  {
    ["// RTCW Font File\n", "// Generated from: " + source + "\n",
     "// Total characters: " + IntToString(count) + "\n", "\n", "// glyphs\n", "{\n"]
  }

  /** The seven lines after the last block: the glyph list closes and the `fontinfo` block follows. */
  function Footer(doc: FontData, formatFloat: Float32 -> string): seq<string>
  {
    ["}\n", "\n", "// fontinfo\n", "{\n",
     Entry("\t", "glyphScale", formatFloat(doc.glyphScale)), Entry("\t", "name", doc.name), "}\n"]
  }

  /** The ids `write_fnt` writes: the stored ones in `[0, maxGlyphs)`. */
  function WrittenIds(doc: FontData): seq<int>
  {
    PresentIds(doc.glyphs, 0, doc.maxGlyphs)
  }

  /**
   * `write_fnt`, with `source` the base name of the file the font came from
   * and `formatFloat` Python's `:.6f`.
   */
  function WriteFnt(doc: FontData, source: string, formatFloat: Float32 -> string): (r: FntOutput)
    ensures r == EmptyWarning <==> |doc.glyphs| == 0
    ensures r.Written? ==> |r.lines| == 6 + 18 * |WrittenIds(doc)| + 7
    ensures r.CharError? ==> !(0 <= r.id < 0x11_0000)
    ensures r.CharError? ==> (exists x :: x in doc.glyphs && 0 <= x < doc.maxGlyphs && doc.glyphs[x].id == r.id)
  {
    if |doc.glyphs| == 0 then EmptyWarning
    else
      GlyphBlocksSpec(doc.glyphs, WrittenIds(doc), formatFloat);
      match GlyphBlocks(doc.glyphs, WrittenIds(doc), formatFloat)
      case Err(id) => CharError(id)
      case Ok(body) => Written(Header(source, |doc.glyphs|) + body + Footer(doc, formatFloat))
  }
}
