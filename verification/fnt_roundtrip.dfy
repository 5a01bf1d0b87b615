/**
 * Reading back what the text writer wrote: for a font whose every glyph is
 * stored under its own id in `[0, maxGlyphs)` and whose names and formatted
 * coordinates are single words the reader can take back, `read_fnt` of the
 * lines `write_fnt` produces, into a fresh font, gives the font again.
 */
module FntRoundTrip {
  import opened Wrappers
  import opened PyStr
  import opened Bytes
  import opened Settings
  import opened FontDocument
  import opened Comments
  import opened FntFormat
  import opened FntRead
  import opened FntWrite

  /** A float written by `formatFloat` as a word that `parseFloat` turns back into the same float. */
  predicate FloatReadsBack(f: Float32, formatFloat: Float32 -> string, parseFloat: string -> Option<Float32>) {
    Word(formatFloat(f)) && parseFloat(formatFloat(f)) == Some(f)
  }

  /** A glyph whose four coordinates and shader name come back unchanged. */
  predicate GlyphReadsBack(g: Glyph<Float32>, formatFloat: Float32 -> string, parseFloat: string -> Option<Float32>) {
    && FloatReadsBack(g.s, formatFloat, parseFloat) && FloatReadsBack(g.t, formatFloat, parseFloat)
    && FloatReadsBack(g.s2, formatFloat, parseFloat) && FloatReadsBack(g.t2, formatFloat, parseFloat)
    && Word(g.shaderName)
  }

  /**
   * A font the text format carries unchanged: not empty, every glyph stored
   * under its own id inside `[0, maxGlyphs)` and inside the code space, and
   * every text value a word.
   */
  predicate RoundTrips(doc: FontData, formatFloat: Float32 -> string, parseFloat: string -> Option<Float32>) {
    && |doc.glyphs| > 0
    && (forall x :: x in doc.glyphs ==>
         && 0 <= x < doc.maxGlyphs && x < 0x11_0000 && doc.glyphs[x].id == x
         && GlyphReadsBack(doc.glyphs[x], formatFloat, parseFloat))
    && FloatReadsBack(doc.glyphScale, formatFloat, parseFloat)
    && Word(doc.name)
  }

  /** Every value is a word. */
  predicate Words(vals: seq<string>) {
    forall t :: 0 <= t < |vals| ==> Word(vals[t])
  }

  lemma GlyphValuesWords(g: Glyph<Float32>, formatFloat: Float32 -> string, parseFloat: string -> Option<Float32>)
    requires GlyphReadsBack(g, formatFloat, parseFloat)
    ensures Words(GlyphValues(g, formatFloat))
  {
    var vals := GlyphValues(g, formatFloat);
    forall t | 0 <= t < |vals| ensures Word(vals[t]) {
      match GlyphField(g, t)
      case IntValue(n) => IntWord(n);
      case FloatValue(f) =>
        assert FloatReadsBack(f, formatFloat, parseFloat) by {
          if t == 8 { } else if t == 9 { } else if t == 10 { } else { assert t == 11; }
        }
      case TextValue(_) =>
    }
  }

  // ---------------------------------------------------------------------------
  // Looking keys up in a written block
  // ---------------------------------------------------------------------------

  /** An entry line whose key does not shadow `w` is walked past by a lookup of `w`. */
  lemma EntryPasses(indent: string, k: string, v: string, w: string)
    requires AllSpace(indent) && |k| > 0 && NoSpace(k) && '}' !in k && Word(v)
    requires |w| > 0 && NoSpace(w) && !Shadows(k, w)
    ensures Passes(Entry(indent, k, v), w)
  {
    var line := Entry(indent, k, v);
    EntryStrip(indent, k, v);
    assert '}' !in k + " " + v;
    MissingCharNotContained(k + " " + v, "}", '}');
    if k[0] == w[0] {
      EntryLacks(k, v, w);
    }
  }

  /** An entry line is found by a lookup of its own key, and does not close the block. */
  lemma EntryFound(indent: string, k: string, v: string)
    requires AllSpace(indent) && |k| > 0 && NoSpace(k) && '}' !in k && Word(v)
    ensures !Closes(Entry(indent, k, v)) && HoldsKey(Entry(indent, k, v), k)
    ensures LastWord(Strip(Entry(indent, k, v))) == v
  {
    EntryStrip(indent, k, v);
    assert '}' !in k + " " + v;
    MissingCharNotContained(k + " " + v, "}", '}');
    EntryHasKey(k, v);
    LastWordOfPair(k, v);
  }

  /** A line holding one visible character other than `}` is walked past by every lookup. */
  lemma BraceOpenPasses(pre: string, post: string, w: string)
    requires AllSpace(pre) && AllSpace(post) && |w| > 0
    ensures Passes(pre + "{" + post, w)
  {
    var line := pre + "{" + post;
    assert Strip(line) == "{" by {
      StripOne(pre, '{', post);
      assert line == pre + ['{'] + post;
    }
    assert !Closes(line) by {
      MissingCharNotContained("{", "}", '}');
    }
    assert !HoldsKey(line, w) by {
      MissingCharNotContained("{", w + " ", ' ');
    }
  }

  /** Where key `t` of a block core sits: `char` first, then the opening brace, then the attributes. */
  function KeyRow(t: nat): nat {
    if t == 0 then 0 else t + 1
  }

  /** Row `x` of a block core: the `char` entry, the opening brace, or an attribute entry. */
  function CoreRow(vals: seq<string>, x: nat): string
    requires |vals| == |FntKeys| && x < 15
  {
    if x == 0 then Entry("\t", FntKeys[0], vals[0])
    else if x == 1 then "\t{\n"
    else Entry("\t\t", FntKeys[x - 1], vals[x - 1])
  }

  lemma BlockCoreRows(vals: seq<string>)
    requires |vals| == |FntKeys|
    ensures forall x :: 0 <= x < 15 ==> BlockCore(vals)[x] == CoreRow(vals, x)
  {
  }

  /** The row of key `t` is found by its lookup and holds value `t`. */
  lemma RowFound(vals: seq<string>, t: nat)
    requires |vals| == |FntKeys| && Words(vals) && t < |FntKeys| && |FntKeys[t]| > 0
    ensures !Closes(CoreRow(vals, KeyRow(t))) && HoldsKey(CoreRow(vals, KeyRow(t)), FntKeys[t])
    ensures LastWord(Strip(CoreRow(vals, KeyRow(t)))) == vals[t]
  {
    KeysPlain();
    EntryFound(if t == 0 then "\t" else "\t\t", FntKeys[t], vals[t]);
  }

  /** Every row before the row of key `t` is walked past by its lookup. */
  lemma RowPasses(vals: seq<string>, x: nat, t: nat)
    requires |vals| == |FntKeys| && Words(vals) && t < |FntKeys| && |FntKeys[t]| > 0 && x < KeyRow(t)
    ensures Passes(CoreRow(vals, x), FntKeys[t])
  {
    if x == 1 {
      BraceOpenPasses("\t", "\n", FntKeys[t]);
      assert CoreRow(vals, x) == "\t" + "{" + "\n";
    } else {
      var u := if x == 0 then 0 else x - 1;
      var k := FntKeys[u];
      assert |k| > 0 && NoSpace(k) && '}' !in k && NoSpace(FntKeys[t]) by { KeysPlain(); }
      assert !Shadows(k, FntKeys[t]) by { KeysShadowFree(); }
      EntryPasses(if x == 0 then "\t" else "\t\t", k, vals[u], FntKeys[t]);
    }
  }

  /** The lookup of key `t` walks past the rows from row `x` up to its own. */
  lemma {:induction false} ClearFromRow(lines: seq<string>, c: nat, vals: seq<string>, t: nat, x: nat)
    requires |vals| == |FntKeys| && Words(vals) && t < |FntKeys| && |FntKeys[t]| > 0 && x <= KeyRow(t)
    requires c + 15 <= |lines| && forall y :: 0 <= y < 15 ==> lines[c + y] == CoreRow(vals, y)
    ensures ClearBefore(lines, c + x, c + KeyRow(t), FntKeys[t])
    decreases KeyRow(t) - x
  {
    if x < KeyRow(t) {
      assert lines[c + x] == CoreRow(vals, x);
      RowPasses(vals, x, t);
      ClearFromRow(lines, c, vals, t, x + 1);
    }
  }

  /** The lookup of key `t` from the `char` line walks past every row before its own. */
  lemma ClearToKey(lines: seq<string>, c: nat, vals: seq<string>, t: nat)
    requires |vals| == |FntKeys| && Words(vals) && t < |FntKeys| && |FntKeys[t]| > 0
    requires c + 15 <= |lines| && forall x :: 0 <= x < 15 ==> lines[c + x] == CoreRow(vals, x)
    ensures ClearBefore(lines, c, c + KeyRow(t), FntKeys[t])
  {
    ClearFromRow(lines, c, vals, t, 0);
  }

  /** Looking up key `t` from the `char` line of a written block core gives back value `t`. */
  lemma LookupInBlock(lines: seq<string>, c: nat, vals: seq<string>, t: nat)
    requires |vals| == |FntKeys| && Words(vals) && t < |FntKeys|
    requires c + 15 <= |lines| && forall x :: 0 <= x < 15 ==> lines[c + x] == CoreRow(vals, x)
    ensures GetLineValue(lines, c, FntKeys[t]) == Ok(vals[t])
  {
    var key := FntKeys[t];
    assert |key| > 0 by { KeysPlain(); }
    var m := c + KeyRow(t);
    assert lines[m] == CoreRow(vals, KeyRow(t));
    assert FindKeyLine(lines, c, key) == Ok(m) by {
      RowFound(vals, t);
      ClearToKey(lines, c, vals, t);
      FindKeyLineFirst(lines, c, m, key);
    }
    assert LastWord(Strip(lines[m])) == vals[t] by {
      RowFound(vals, t);
    }
  }

  /** Lines `c .. c + 14` are the core of the block written for `g`, all of whose values are words. */
  predicate CoreAt(lines: seq<string>, c: nat, g: Glyph<Float32>, formatFloat: Float32 -> string) {
    && c + 15 <= |lines|
    && Words(GlyphValues(g, formatFloat))
    && forall x {:trigger CoreRow(GlyphValues(g, formatFloat), x)} :: 0 <= x < 15 ==> lines[c + x] == CoreRow(GlyphValues(g, formatFloat), x)
  }

  /** A value whose written text the reader converts back: every integer, a float that reads back, any text. */
  predicate FieldReadsBack(v: FieldValue, formatFloat: Float32 -> string, parseFloat: string -> Option<Float32>) {
    v.FloatValue? ==> FloatReadsBack(v.f, formatFloat, parseFloat)
  }

  lemma GlyphFieldReadsBack(g: Glyph<Float32>, formatFloat: Float32 -> string, parseFloat: string -> Option<Float32>, t: nat)
    requires GlyphReadsBack(g, formatFloat, parseFloat) && t < |FntKeys|
    ensures FieldReadsBack(GlyphField(g, t), formatFloat, parseFloat)
  {
    if t == 8 { } else if t == 9 { } else if t == 10 { } else if t == 11 { }
  }

  /** When the lookup of key `t` finds the text written for `v`, the key's conversion gives `v` back. */
  lemma FieldReads(lines: seq<string>, c: nat, t: nat, v: FieldValue,
                   formatFloat: Float32 -> string, parseFloat: string -> Option<Float32>)
    requires c < |lines| && t < |FntKeys| && |FntKeys[t]| > 0
    requires OfKind(v, KeyKind(t)) && FieldReadsBack(v, formatFloat, parseFloat)
    requires GetLineValue(lines, c, FntKeys[t]) == Ok(ShowField(v, formatFloat))
    ensures GetField(lines, c, t, parseFloat) == Ok(v)
  {
    if v.IntValue? {
      IntRoundTrip(v.n);
    }
  }

  /** An attribute of the glyph whose block core was written reads back as the attribute. */
  lemma FieldBack(lines: seq<string>, c: nat, g: Glyph<Float32>, formatFloat: Float32 -> string,
                  parseFloat: string -> Option<Float32>, t: nat)
    requires GlyphReadsBack(g, formatFloat, parseFloat) && CoreAt(lines, c, g, formatFloat) && t < |FntKeys|
    ensures GetField(lines, c, t, parseFloat) == Ok(GlyphField(g, t))
  {
    var vals := GlyphValues(g, formatFloat);
    LookupInBlock(lines, c, vals, t);
    assert vals[t] == ShowField(GlyphField(g, t), formatFloat);
    assert |FntKeys[t]| > 0 by { KeysPlain(); }
    GlyphFieldReadsBack(g, formatFloat, parseFloat, t);
    FieldReads(lines, c, t, GlyphField(g, t), formatFloat, parseFloat);
  }

  /** A non-empty suffix is its first element followed by the rest. */
  lemma SliceCons<T>(s: seq<T>, t: nat)
    requires t < |s|
    ensures s[t..] == [s[t]] + s[t + 1..]
  {
  }

  /** The attributes under keys `t ..` of a written block core read back in key order. */
  lemma {:induction false} FieldsBack(lines: seq<string>, c: nat, g: Glyph<Float32>, formatFloat: Float32 -> string,
                                      parseFloat: string -> Option<Float32>, t: nat)
    requires GlyphReadsBack(g, formatFloat, parseFloat) && CoreAt(lines, c, g, formatFloat) && t <= |FntKeys|
    ensures ReadFields(lines, c, t, parseFloat) == Ok(GlyphFields(g)[t..])
    decreases |FntKeys| - t
  {
    if t < |FntKeys| {
      assert GetField(lines, c, t, parseFloat) == Ok(GlyphField(g, t)) by {
        FieldBack(lines, c, g, formatFloat, parseFloat, t);
      }
      assert Getter(lines, c, parseFloat)(t) == GetField(lines, c, t, parseFloat);
      assert ReadFields(lines, c, t + 1, parseFloat) == Ok(GlyphFields(g)[t + 1..]) by {
        FieldsBack(lines, c, g, formatFloat, parseFloat, t + 1);
      }
      assert GlyphFields(g)[t..] == [GlyphField(g, t)] + GlyphFields(g)[t + 1..] by {
        SliceCons(GlyphFields(g), t);
      }
      assert ReadFields(lines, c, t, parseFloat) == Ok([GlyphField(g, t)] + GlyphFields(g)[t + 1..]);
    } else {
      assert GlyphFields(g)[t..] == [];
    }
  }

  /** The core of a written block, looked up key by key from its `char` line, gives back the glyph. */
  lemma ParseWrittenCore(lines: seq<string>, c: nat, g: Glyph<Float32>,
                         formatFloat: Float32 -> string, parseFloat: string -> Option<Float32>)
    requires GlyphReadsBack(g, formatFloat, parseFloat) && CoreAt(lines, c, g, formatFloat)
    ensures ParseGlyphBlock(lines, c, parseFloat) == Ok(g)
  {
    FieldsBack(lines, c, g, formatFloat, parseFloat, 0);
    assert GlyphFields(g)[0..] == GlyphFields(g);
    GlyphOfFields(g);
  }

  // ---------------------------------------------------------------------------
  // Removing the comments of a written file
  // ---------------------------------------------------------------------------

  /** A line without a slash is kept by the comment stripper and opens no block. */
  lemma SlashFreeKept(line: string)
    requires '/' !in line
    ensures CutLineComment(line) == line && !Contains(line, "/*")
  {
    NoSlashNoCommentStart(line);
    PlainLineKept(line);
  }

  /** A `//` comment line after a slash-free indent is cut to the indent and a newline. */
  lemma CommentCut(indent: string, rest: string)
    requires '/' !in indent
    ensures CutLineComment(indent + "//" + rest) == indent + "\n"
    ensures !Contains(indent + "\n", "/*")
  {
    CommentLineCut(indent, rest);
    assert '/' !in indent + "\n";
    MissingCharNotContained(indent + "\n", "/*", '/');
  }

  /** Every row of a block core is kept by the comment stripper and opens no block. */
  lemma RowKept(vals: seq<string>, x: nat)
    requires |vals| == |FntKeys| && Words(vals) && x < 15
    ensures CutLineComment(CoreRow(vals, x)) == CoreRow(vals, x) && !Contains(CoreRow(vals, x), "/*")
  {
    if x == 1 {
      SlashFreeKept("\t{\n");
    } else {
      var u := if x == 0 then 0 else x - 1;
      var indent := if x == 0 then "\t" else "\t\t";
      var key := FntKeys[u];
      assert '/' !in key by { KeysPlain(); }
      assert '/' !in indent + key by {
        forall i | 0 <= i < |indent + key| ensures (indent + key)[i] != '/' {
          if i >= |indent| { assert (indent + key)[i] == key[i - |indent|]; }
        }
      }
      EntryKept(indent, key, vals[u]);
    }
  }

  /** The eighteen lines of a glyph, comments removed: the comment line leaves its indent. */
  predicate CleanBlockAt(lines: seq<string>, b: nat, g: Glyph<Float32>, formatFloat: Float32 -> string) {
    && b + 18 <= |lines|
    && lines[b] == "\t\n"
    && CoreAt(lines, b + 1, g, formatFloat)
    && lines[b + 16] == "\t}\n"
    && lines[b + 17] == "\n"
  }

  /** No line opens a block comment. */
  predicate NoOpeners(lines: seq<string>) {
    forall k :: 0 <= k < |lines| ==> !Contains(lines[k], "/*")
  }

  /** What is left of a glyph's eighteen lines once comments are removed. */
  function CleanBlock(g: Glyph<Float32>, formatFloat: Float32 -> string): (r: seq<string>)
    ensures |r| == 18
  {
    ["\t\n"] + BlockCore(GlyphValues(g, formatFloat)) + ["\t}\n", "\n"]
  }

  /** Cutting `//` comments commutes with taking a slice. */
  lemma CutAllSlice(w: seq<string>, a: nat, b: nat)
    requires a <= b <= |w|
    ensures CutAll(w)[a..b] == CutAll(w[a..b])
  {
  }

  /** Cutting `//` comments line by line commutes with joining texts. */
  lemma CutAllJoin(a: seq<string>, b: seq<string>)
    ensures CutAll(a + b) == CutAll(a) + CutAll(b)
  {
  }

  /** Lines that each survive the line step unchanged and open no block. */
  predicate Kept(lines: seq<string>) {
    forall k :: 0 <= k < |lines| ==> CutLineComment(lines[k]) == lines[k] && !Contains(lines[k], "/*")
  }

  lemma KeptCut(lines: seq<string>)
    requires Kept(lines)
    ensures CutAll(lines) == lines && NoOpeners(lines)
  {
  }

  /** The core of a block whose values are words is kept line for line. */
  lemma CoreKept(vals: seq<string>)
    requires |vals| == |FntKeys| && Words(vals)
    ensures Kept(BlockCore(vals))
  {
    BlockCoreRows(vals);
    forall x | 0 <= x < 15 ensures CutLineComment(BlockCore(vals)[x]) == BlockCore(vals)[x] && !Contains(BlockCore(vals)[x], "/*") {
      RowKept(vals, x);
    }
  }

  /** The line step over a glyph's lines keeps the core and cuts the comment line to its indent. */
  lemma CutGlyphLines(g: Glyph<Float32>, shown: string, formatFloat: Float32 -> string, parseFloat: string -> Option<Float32>)
    requires g.id >= 0 && GlyphReadsBack(g, formatFloat, parseFloat)
    ensures CutAll(GlyphLines(g, shown, formatFloat)) == CleanBlock(g, formatFloat)
    ensures NoOpeners(CleanBlock(g, formatFloat))
  {
    var vals := GlyphValues(g, formatFloat);
    GlyphValuesWords(g, formatFloat, parseFloat);
    var comment := CommentLine(shown, g.id);
    var core := BlockCore(vals);
    var tail := ["\t}\n", "\n"];
    assert CutAll([comment]) == ["\t\n"] && NoOpeners(["\t\n"]) by {
      CommentLineCleaned(shown, g.id);
    }
    assert CutAll(core) == core && NoOpeners(core) by {
      CoreKept(vals);
      KeptCut(core);
    }
    assert CutAll(tail) == tail && NoOpeners(tail) by {
      SlashFreeKept("\t}\n");
      SlashFreeKept("\n");
      KeptCut(tail);
    }
    CutAllJoin([comment] + core, tail);
    CutAllJoin([comment], core);
    NoOpenersJoin(["\t\n"], core);
    NoOpenersJoin(["\t\n"] + core, tail);
  }

  /** A line whose first two characters after a slash-free indent of `n` are `//` is cut to that indent. */
  lemma CommentAt(line: string, n: nat)
    requires n + 2 <= |line| && line[n] == '/' && line[n + 1] == '/'
    requires forall i :: 0 <= i < n ==> line[i] != '/'
    ensures CutLineComment(line) == line[..n] + "\n"
  {
    CommentLineCut(line[..n], line[n + 2..]);
    assert line == line[..n] + "//" + line[n + 2..];
  }

  /** The comment line of a block is cut to its tab. */
  lemma CommentLineCleaned(shown: string, id: nat)
    ensures CutAll([CommentLine(shown, id)]) == ["\t\n"] && NoOpeners(["\t\n"])
  {
    var line := CommentLine(shown, id);
    assert line[0] == '\t' && line[1] == '/' && line[2] == '/';
    CommentAt(line, 1);
    assert line[..1] == "\t";
    SlashFreeKept("\t\n");
    assert CutAll([line])[0] == "\t\n";
  }

  lemma NoOpenersJoin(a: seq<string>, b: seq<string>)
    requires NoOpeners(a) && NoOpeners(b)
    ensures NoOpeners(a + b)
  {
    forall k | 0 <= k < |a + b| ensures !Contains((a + b)[k], "/*") {
      if k >= |a| { assert (a + b)[k] == b[k - |a|]; }
    }
  }

  /** A cleaned block read as lines from `b`. */
  lemma CleanBlockRows(lines: seq<string>, b: nat, g: Glyph<Float32>, formatFloat: Float32 -> string, parseFloat: string -> Option<Float32>)
    requires GlyphReadsBack(g, formatFloat, parseFloat)
    requires b + 18 <= |lines| && lines[b..b + 18] == CleanBlock(g, formatFloat)
    ensures CleanBlockAt(lines, b, g, formatFloat)
  {
    var vals := GlyphValues(g, formatFloat);
    GlyphValuesWords(g, formatFloat, parseFloat);
    BlockCoreRows(vals);
    forall x | 0 <= x < 15 ensures lines[b + 1 + x] == CoreRow(vals, x) {
      assert lines[b..b + 18][1 + x] == BlockCore(vals)[x];
    }
    assert lines[b..b + 18][0] == lines[b];
    assert lines[b..b + 18][16] == lines[b + 16];
    assert lines[b..b + 18][17] == lines[b + 17];
  }

  /** The header, comments removed: five empty lines and the brace that opens the glyph list. */
  const CleanHeader: seq<string> := ["\n", "\n", "\n", "\n", "\n", "{\n"]

  /** The footer, comments removed: only the `fontinfo` comment goes. */
  function CleanFooter(doc: FontData, formatFloat: Float32 -> string): seq<string> {
    ["}\n", "\n", "\n", "{\n", Entry("\t", "glyphScale", formatFloat(doc.glyphScale)), Entry("\t", "name", doc.name), "}\n"]
  }

  /** Lines cut one by one into lines that open no block. */
  lemma CleanedLines(w: seq<string>, clean: seq<string>)
    requires |w| == |clean|
    requires forall k :: 0 <= k < |w| ==> CutLineComment(w[k]) == clean[k] && !Contains(clean[k], "/*")
    ensures CutAll(w) == clean && NoOpeners(clean)
  {
  }

  /** A line that starts a `//` comment is cut to a bare newline. */
  lemma CommentOnly(line: string)
    requires 2 <= |line| && line[0] == '/' && line[1] == '/'
    ensures CutLineComment(line) == "\n" && !Contains("\n", "/*")
  {
    CommentAt(line, 0);
    SlashFreeKept("\n");
  }

  lemma HeaderCleaned(source: string, count: nat)
    ensures CutAll(Header(source, count)) == CleanHeader && NoOpeners(CleanHeader)
  {
    var h := Header(source, count);
    forall k | 0 <= k < 6 ensures CutLineComment(h[k]) == CleanHeader[k] && !Contains(CleanHeader[k], "/*") {
      if k == 3 {
        SlashFreeKept("\n");
      } else if k == 5 {
        SlashFreeKept("{\n");
      } else {
        CommentOnly(h[k]);
      }
    }
    CleanedLines(h, CleanHeader);
  }

  lemma FooterCleaned(doc: FontData, formatFloat: Float32 -> string, parseFloat: string -> Option<Float32>)
    requires FloatReadsBack(doc.glyphScale, formatFloat, parseFloat) && Word(doc.name)
    ensures CutAll(Footer(doc, formatFloat)) == CleanFooter(doc, formatFloat) && NoOpeners(CleanFooter(doc, formatFloat))
  {
    var f := Footer(doc, formatFloat);
    var clean := CleanFooter(doc, formatFloat);
    forall k | 0 <= k < 7 ensures CutLineComment(f[k]) == clean[k] && !Contains(clean[k], "/*") {
      if k == 0 || k == 6 {
        SlashFreeKept("}\n");
      } else if k == 1 {
        SlashFreeKept("\n");
      } else if k == 2 {
        CommentOnly(f[k]);
      } else if k == 3 {
        SlashFreeKept("{\n");
      } else if k == 4 {
        EntryKept("\t", "glyphScale", formatFloat(doc.glyphScale));
      } else {
        EntryKept("\t", "name", doc.name);
      }
    }
    CleanedLines(f, clean);
  }

  /** The written blocks, comments removed, open no block comment. */
  lemma {:induction false} BodyCleaned(glyphs: map<int, Glyph<Float32>>, ids: seq<int>,
                                       formatFloat: Float32 -> string, parseFloat: string -> Option<Float32>)
    requires forall j :: 0 <= j < |ids| ==> ids[j] in glyphs && GlyphReadsBack(glyphs[ids[j]], formatFloat, parseFloat)
    requires GlyphBlocks(glyphs, ids, formatFloat).Ok?
    ensures NoOpeners(CutAll(GlyphBlocks(glyphs, ids, formatFloat).value))
  {
    if |ids| > 0 {
      var g := glyphs[ids[0]];
      var shown := CharLabel(g.id).value;
      var rest := GlyphBlocks(glyphs, ids[1..], formatFloat);
      GlyphBlockAt(glyphs, ids, formatFloat, 0);
      assert GlyphBlocks(glyphs, ids, formatFloat).value == GlyphLines(g, shown, formatFloat) + rest.value;
      BodyCleaned(glyphs, ids[1..], formatFloat, parseFloat);
      CutGlyphLines(g, shown, formatFloat, parseFloat);
      CutAllJoin(GlyphLines(g, shown, formatFloat), rest.value);
      NoOpenersJoin(CleanBlock(g, formatFloat), CutAll(rest.value));
    }
  }

  // ---------------------------------------------------------------------------
  // Reading the cleaned lines back
  // ---------------------------------------------------------------------------

  /** The blank and brace lines of a written file strip to at most one character. */
  lemma BareLine(line: string)
    requires line == "\n" || line == "\t\n" || line == "{\n" || line == "}\n" || line == "\t}\n"
    ensures ' ' !in Strip(line)
  {
    if line == "\n" || line == "\t\n" {
      StripAllSpace(line);
    } else if line == "{\n" {
      StripOne("", '{', "\n");
      assert "" + ['{'] + "\n" == line;
    } else if line == "}\n" {
      StripOne("", '}', "\n");
      assert "" + ['}'] + "\n" == line;
    } else {
      StripOne("\t", '}', "\n");
      assert "\t" + ['}'] + "\n" == line;
    }
  }

  /** A line whose stripped text has no space starts nothing and is stepped over. */
  lemma SkipLine(lines: seq<string>, i: nat, doc: FontData, parseFloat: string -> Option<Float32>)
    requires i < |lines| && ' ' !in Strip(lines[i])
    ensures ReadLines(lines, i, doc, parseFloat) == ReadLines(lines, i + 1, doc, parseFloat)
  {
    MissingCharNotContained(Strip(lines[i]), "char ", ' ');
    MissingCharNotContained(Strip(lines[i]), "glyphScale ", ' ');
  }

  /** An entry whose key ends in neither `char` nor `glyphScale` is stepped over. */
  lemma SkipEntry(lines: seq<string>, i: nat, doc: FontData, parseFloat: string -> Option<Float32>,
                  indent: string, k: string, v: string)
    requires i < |lines| && lines[i] == Entry(indent, k, v)
    requires AllSpace(indent) && |k| > 0 && NoSpace(k) && Word(v)
    requires !(4 <= |k| && k[|k| - 4..] == "char") && !(10 <= |k| && k[|k| - 10..] == "glyphScale")
    ensures ReadLines(lines, i, doc, parseFloat) == ReadLines(lines, i + 1, doc, parseFloat)
  {
    EntryStrip(indent, k, v);
    EntryLacks(k, v, "char");
    EntryLacks(k, v, "glyphScale");
    assert "char" + " " == "char " && "glyphScale" + " " == "glyphScale ";
  }

  /** The `char` line of a cleaned block starts a glyph block. */
  lemma CharLineStarts(lines: seq<string>, c: nat, g: Glyph<Float32>, formatFloat: Float32 -> string)
    requires CoreAt(lines, c, g, formatFloat)
    ensures Contains(Strip(lines[c]), "char ")
  {
    var vals := GlyphValues(g, formatFloat);
    assert lines[c + 0] == CoreRow(vals, 0);
    assert FntKeys[0] == "char";
    assert Word(vals[0]);
    EntryStrip("\t", "char", vals[0]);
    EntryHasKey("char", vals[0]);
    assert "char" + " " == "char ";
  }

  /** The `char` block of a cleaned block is read into the glyph, and the scan resumes at its `glyph` line. */
  lemma CharBlockRead(lines: seq<string>, c: nat, acc: FontData, g: Glyph<Float32>,
                      formatFloat: Float32 -> string, parseFloat: string -> Option<Float32>)
    requires GlyphReadsBack(g, formatFloat, parseFloat) && CoreAt(lines, c, g, formatFloat)
    ensures ReadLines(lines, c, acc, parseFloat)
         == ReadLines(lines, c + 13, acc.(glyphs := acc.glyphs[g.id := g]), parseFloat)
  {
    CharLineStarts(lines, c, g, formatFloat);
    ParseWrittenCore(lines, c, g, formatFloat, parseFloat);
    BlockStrideIs13();
  }

  /** The `glyph` and `shaderName` rows, the last two of a block core, are stepped over. */
  lemma SkipTailRow(lines: seq<string>, i: nat, doc: FontData, parseFloat: string -> Option<Float32>, vals: seq<string>, x: nat)
    requires |vals| == |FntKeys| && Words(vals) && (x == 13 || x == 14)
    requires i < |lines| && lines[i] == CoreRow(vals, x)
    ensures ReadLines(lines, i, doc, parseFloat) == ReadLines(lines, i + 1, doc, parseFloat)
  {
    if x == 13 {
      SkipEntry(lines, i, doc, parseFloat, "\t\t", "glyph", vals[12]);
    } else {
      SkipEntry(lines, i, doc, parseFloat, "\t\t", "shaderName", vals[13]);
    }
  }

  /** The `glyph` and `shaderName` lines that end a block core are stepped over. */
  lemma CoreTailSkipped(lines: seq<string>, c: nat, acc: FontData, g: Glyph<Float32>,
                        formatFloat: Float32 -> string, parseFloat: string -> Option<Float32>)
    requires CoreAt(lines, c, g, formatFloat)
    ensures ReadLines(lines, c + 13, acc, parseFloat) == ReadLines(lines, c + 15, acc, parseFloat)
  {
    var vals := GlyphValues(g, formatFloat);
    SkipTailRow(lines, c + 13, acc, parseFloat, vals, 13);
    SkipTailRow(lines, c + 14, acc, parseFloat, vals, 14);
  }

  /** A cleaned block is read into its glyph, stored under the glyph's id. */
  lemma ReadBlock(lines: seq<string>, b: nat, acc: FontData, g: Glyph<Float32>,
                  formatFloat: Float32 -> string, parseFloat: string -> Option<Float32>)
    requires GlyphReadsBack(g, formatFloat, parseFloat) && CleanBlockAt(lines, b, g, formatFloat)
    ensures ReadLines(lines, b, acc, parseFloat)
         == ReadLines(lines, b + 18, acc.(glyphs := acc.glyphs[g.id := g]), parseFloat)
  {
    var next := acc.(glyphs := acc.glyphs[g.id := g]);
    BareLine(lines[b]);
    SkipLine(lines, b, acc, parseFloat);
    CharBlockRead(lines, b + 1, acc, g, formatFloat, parseFloat);
    CoreTailSkipped(lines, b + 1, next, g, formatFloat, parseFloat);
    BareLine(lines[b + 16]);
    SkipLine(lines, b + 16, next, parseFloat);
    BareLine(lines[b + 17]);
    SkipLine(lines, b + 17, next, parseFloat);
  }

  /** The `glyphScale` line is the first line its own lookup finds. */
  lemma ScaleFound(lines: seq<string>, i: nat, f: Float32, formatFloat: Float32 -> string, parseFloat: string -> Option<Float32>)
    requires i < |lines| && lines[i] == Entry("\t", "glyphScale", formatFloat(f))
    requires FloatReadsBack(f, formatFloat, parseFloat)
    ensures GetFloat(lines, i, "glyphScale", parseFloat) == Ok(f)
  {
    PlainText("glyphScale");
    EntryFound("\t", "glyphScale", formatFloat(f));
    FindKeyLineFirst(lines, i, i, "glyphScale");
  }

  /** The `name` lookup from the `glyphScale` line walks past it and finds the next line. */
  lemma NameFound(lines: seq<string>, i: nat, v: string, name: string)
    requires i + 1 < |lines| && lines[i] == Entry("\t", "glyphScale", v) && lines[i + 1] == Entry("\t", "name", name)
    requires Word(v) && Word(name)
    ensures GetLineValue(lines, i, "name") == Ok(name)
  {
    PlainText("glyphScale");
    PlainText("name");
    assert !Shadows("glyphScale", "name");
    EntryPasses("\t", "glyphScale", v, "name");
    EntryFound("\t", "name", name);
    FindKeyLineFirst(lines, i, i + 1, "name");
  }

  /** A stripped entry holds `w + " "` exactly when `w` ends its key. */
  lemma EntryHolds(indent: string, k: string, v: string, w: string)
    requires AllSpace(indent) && |k| > 0 && NoSpace(k) && |v| > 0 && NoSpace(v) && NoSpace(w)
    ensures Contains(Strip(Entry(indent, k, v)), w + " ") <==> (|w| <= |k| && k[|k| - |w|..] == w)
  {
    EntryStrip(indent, k, v);
    var s := k + " " + v;
    if |w| <= |k| && k[|k| - |w|..] == w {
      assert OccursAt(s, w + " ", |k| - |w|) by {
        assert s[|k| - |w|..|k| + 1] == w + " ";
      }
      OccursContained(s, w + " ", |k| - |w|);
    } else {
      EntryLacks(k, v, w);
    }
  }

  /** The `glyphScale` line is not a `char` line, and it starts the `fontinfo` reading. */
  lemma ScaleLineStarts(v: string)
    requires Word(v)
    ensures !Contains(Strip(Entry("\t", "glyphScale", v)), "char ")
    ensures Contains(Strip(Entry("\t", "glyphScale", v)), "glyphScale ")
  {
    PlainText("glyphScale");
    PlainText("char");
    EntryHolds("\t", "glyphScale", v, "char");
    EntryHolds("\t", "glyphScale", v, "glyphScale");
    assert "char" + " " == "char " && "glyphScale" + " " == "glyphScale ";
  }

  /** The `fontinfo` entries give the scale and the name, and the reading ends there. */
  lemma ReadFontInfo(lines: seq<string>, i: nat, acc: FontData, doc: FontData,
                     formatFloat: Float32 -> string, parseFloat: string -> Option<Float32>)
    requires i + 1 < |lines|
    requires lines[i] == Entry("\t", "glyphScale", formatFloat(doc.glyphScale)) && lines[i + 1] == Entry("\t", "name", doc.name)
    requires FloatReadsBack(doc.glyphScale, formatFloat, parseFloat) && Word(doc.name)
    ensures ReadLines(lines, i, acc, parseFloat) == Ok(acc.(glyphScale := doc.glyphScale, name := doc.name))
  {
    ScaleLineStarts(formatFloat(doc.glyphScale));
    ScaleFound(lines, i, doc.glyphScale, formatFloat, parseFloat);
    NameFound(lines, i, formatFloat(doc.glyphScale), doc.name);
  }

  /** A bare line of a cleaned file is stepped over. */
  lemma SkipBare(lines: seq<string>, i: nat, acc: FontData, parseFloat: string -> Option<Float32>)
    requires i < |lines|
    requires lines[i] == "\n" || lines[i] == "\t\n" || lines[i] == "{\n" || lines[i] == "}\n" || lines[i] == "\t}\n"
    ensures ReadLines(lines, i, acc, parseFloat) == ReadLines(lines, i + 1, acc, parseFloat)
  {
    BareLine(lines[i]);
    SkipLine(lines, i, acc, parseFloat);
  }

  /** The cleaned footer: four lines stepped over, then the `fontinfo` entries. */
  lemma ReadFooter(lines: seq<string>, f: nat, acc: FontData, doc: FontData,
                   formatFloat: Float32 -> string, parseFloat: string -> Option<Float32>)
    requires f + 7 <= |lines| && lines[f..f + 7] == CleanFooter(doc, formatFloat)
    requires FloatReadsBack(doc.glyphScale, formatFloat, parseFloat) && Word(doc.name)
    ensures ReadLines(lines, f, acc, parseFloat) == Ok(acc.(glyphScale := doc.glyphScale, name := doc.name))
  {
    var foot := lines[f..f + 7];
    assert lines[f] == foot[0] && lines[f + 1] == foot[1] && lines[f + 2] == foot[2] && lines[f + 3] == foot[3];
    assert lines[f + 4] == foot[4] && lines[f + 5] == foot[5];
    SkipBare(lines, f, acc, parseFloat);
    SkipBare(lines, f + 1, acc, parseFloat);
    SkipBare(lines, f + 2, acc, parseFloat);
    SkipBare(lines, f + 3, acc, parseFloat);
    ReadFontInfo(lines, f + 4, acc, doc, formatFloat, parseFloat);
  }

  /** The cleaned header: six lines stepped over. */
  lemma ReadHeader(lines: seq<string>, acc: FontData, parseFloat: string -> Option<Float32>)
    requires 6 <= |lines| && lines[..6] == CleanHeader
    ensures ReadLines(lines, 0, acc, parseFloat) == ReadLines(lines, 6, acc, parseFloat)
  {
    var head := lines[..6];
    assert lines[0] == head[0] && lines[1] == head[1] && lines[2] == head[2];
    assert lines[3] == head[3] && lines[4] == head[4] && lines[5] == head[5];
    SkipBare(lines, 0, acc, parseFloat);
    SkipBare(lines, 1, acc, parseFloat);
    SkipBare(lines, 2, acc, parseFloat);
    SkipBare(lines, 3, acc, parseFloat);
    SkipBare(lines, 4, acc, parseFloat);
    SkipBare(lines, 5, acc, parseFloat);
  }

  // ---------------------------------------------------------------------------
  // The whole file
  // ---------------------------------------------------------------------------

  /** The first `j` ids, or all of them once `j` reaches their number. */
  function FirstIds(ids: seq<int>, j: nat): (r: seq<int>)
    ensures j <= |ids| ==> r == ids[..j]
    ensures j >= |ids| ==> r == ids
  {
    if j < |ids| then ids[..j] else ids
  }

  /** The glyphs stored under the ids of `ids`: what the reader has collected after their blocks. */
  function Stored(glyphs: map<int, Glyph<Float32>>, ids: seq<int>): map<int, Glyph<Float32>>
  {
    map x | x in ids && x in glyphs :: glyphs[x]
  }

  /** Reading one more block adds its glyph, under its id, to what was stored. */
  lemma StoredStep(glyphs: map<int, Glyph<Float32>>, ids: seq<int>, j: nat)
    requires j < |ids| && ids[j] in glyphs
    ensures Stored(glyphs, FirstIds(ids, j))[ids[j] := glyphs[ids[j]]] == Stored(glyphs, FirstIds(ids, j + 1))
  {
    assert ids[..j + 1] == ids[..j] + [ids[j]];
  }

  /** The blocks of the glyphs under `ids` lie one after the other in `lines` from line 6. */
  predicate BlocksFrom6(lines: seq<string>, glyphs: map<int, Glyph<Float32>>, ids: seq<int>, formatFloat: Float32 -> string) {
    forall i :: 0 <= i < |ids| ==> ids[i] in glyphs && CleanBlockAt(lines, 6 + 18 * i, glyphs[ids[i]], formatFloat)
  }

  /** Every stored glyph sits under its own id and reads back. */
  predicate ReadsBackAll(glyphs: map<int, Glyph<Float32>>, formatFloat: Float32 -> string, parseFloat: string -> Option<Float32>) {
    forall x :: x in glyphs ==> glyphs[x].id == x && GlyphReadsBack(glyphs[x], formatFloat, parseFloat)
  }

  /** What the reader returns from block `j` on, with the glyphs of the blocks before `j` stored. */
  function ReadFromBlock(lines: seq<string>, glyphs: map<int, Glyph<Float32>>, ids: seq<int>, base: FontData,
                         parseFloat: string -> Option<Float32>, j: nat): Result<FontData, FntError>
  {
    ReadLines(lines, 6 + 18 * j, base.(glyphs := Stored(glyphs, FirstIds(ids, j))), parseFloat)
  }

  /** Block `j` of the body adds the glyph under `ids[j]` to what was stored. */
  lemma ReadBodyStep(lines: seq<string>, glyphs: map<int, Glyph<Float32>>, ids: seq<int>, j: nat, base: FontData,
                     formatFloat: Float32 -> string, parseFloat: string -> Option<Float32>)
    requires j < |ids| && BlocksFrom6(lines, glyphs, ids, formatFloat) && ReadsBackAll(glyphs, formatFloat, parseFloat)
    ensures ReadFromBlock(lines, glyphs, ids, base, parseFloat, j) == ReadFromBlock(lines, glyphs, ids, base, parseFloat, j + 1)
  {
    var g := glyphs[ids[j]];
    var acc := base.(glyphs := Stored(glyphs, FirstIds(ids, j)));
    assert CleanBlockAt(lines, 6 + 18 * j, g, formatFloat);
    assert g.id == ids[j] && GlyphReadsBack(g, formatFloat, parseFloat);
    assert acc.(glyphs := acc.glyphs[g.id := g]) == base.(glyphs := Stored(glyphs, FirstIds(ids, j + 1))) by {
      StoredStep(glyphs, ids, j);
    }
    assert 6 + 18 * j + 18 == 6 + 18 * (j + 1);
    ReadBlock(lines, 6 + 18 * j, acc, g, formatFloat, parseFloat);
  }

  /** Reading the first `n` blocks of the body adds their glyphs, in order, to what was stored. */
  lemma {:induction false} ReadBody(lines: seq<string>, glyphs: map<int, Glyph<Float32>>, ids: seq<int>, base: FontData,
                                    formatFloat: Float32 -> string, parseFloat: string -> Option<Float32>, n: nat)
    requires n <= |ids| && BlocksFrom6(lines, glyphs, ids, formatFloat) && ReadsBackAll(glyphs, formatFloat, parseFloat)
    ensures ReadFromBlock(lines, glyphs, ids, base, parseFloat, 0) == ReadFromBlock(lines, glyphs, ids, base, parseFloat, n)
    decreases n
  {
    if n == 0 {
    } else {
      var m := n - 1;
      assert ReadFromBlock(lines, glyphs, ids, base, parseFloat, m) == ReadFromBlock(lines, glyphs, ids, base, parseFloat, n) by {
        ReadBodyStep(lines, glyphs, ids, m, base, formatFloat, parseFloat);
      }
      assert ReadFromBlock(lines, glyphs, ids, base, parseFloat, 0) == ReadFromBlock(lines, glyphs, ids, base, parseFloat, m) by {
        ReadBody(lines, glyphs, ids, base, formatFloat, parseFloat, m);
      }
    }
  }

  /** Every glyph the writer visits has a character to show. */
  lemma WrittenShown(doc: FontData, formatFloat: Float32 -> string, parseFloat: string -> Option<Float32>)
    requires RoundTrips(doc, formatFloat, parseFloat)
    ensures AllShown(doc.glyphs, WrittenIds(doc)) && GlyphBlocks(doc.glyphs, WrittenIds(doc), formatFloat).Ok?
  {
    GlyphBlocksSpec(doc.glyphs, WrittenIds(doc), formatFloat);
  }

  /** A text whose cut lines open no block comment has no block comment. */
  lemma OpenersCut(w: seq<string>)
    requires NoOpeners(CutAll(w))
    ensures NoBlockComments(w)
  {
    forall k | 0 <= k < |w| ensures !Contains(CutLineComment(w[k]), "/*") {
      assert CutAll(w)[k] == CutLineComment(w[k]);
    }
  }

  /** The written file, comments removed: the cleaned header, the cleaned blocks, the cleaned footer. */
  lemma WrittenCleaned(doc: FontData, source: string, formatFloat: Float32 -> string, parseFloat: string -> Option<Float32>)
    requires RoundTrips(doc, formatFloat, parseFloat)
    ensures WriteFnt(doc, source, formatFloat).Written?
    ensures GlyphBlocks(doc.glyphs, WrittenIds(doc), formatFloat).Ok?
    ensures RemoveLinesComments(WriteFnt(doc, source, formatFloat).lines)
         == CleanHeader + CutAll(GlyphBlocks(doc.glyphs, WrittenIds(doc), formatFloat).value) + CleanFooter(doc, formatFloat)
  {
    WrittenShown(doc, formatFloat, parseFloat);
    var ids := WrittenIds(doc);
    var body := GlyphBlocks(doc.glyphs, ids, formatFloat).value;
    var h := Header(source, |doc.glyphs|);
    var f := Footer(doc, formatFloat);
    var w := h + body + f;
    assert WriteFnt(doc, source, formatFloat) == Written(w);
    CutAllJoin(h + body, f);
    CutAllJoin(h, body);
    HeaderCleaned(source, |doc.glyphs|);
    FooterCleaned(doc, formatFloat, parseFloat);
    BodyCleaned(doc.glyphs, ids, formatFloat, parseFloat);
    NoOpenersJoin(CleanHeader, CutAll(body));
    NoOpenersJoin(CleanHeader + CutAll(body), CleanFooter(doc, formatFloat));
    OpenersCut(w);
    NoBlockCommentsIsMap(w);
  }

  /** Block `j` of the cleaned body is the cleaned block of the glyph under `ids[j]`. */
  lemma CleanBodyBlock(glyphs: map<int, Glyph<Float32>>, ids: seq<int>, formatFloat: Float32 -> string,
                       parseFloat: string -> Option<Float32>, j: nat)
    requires forall i :: 0 <= i < |ids| ==> ids[i] in glyphs && GlyphReadsBack(glyphs[ids[i]], formatFloat, parseFloat)
    requires GlyphBlocks(glyphs, ids, formatFloat).Ok? && j < |ids|
    ensures CutAll(GlyphBlocks(glyphs, ids, formatFloat).value)[18 * j .. 18 * j + 18] == CleanBlock(glyphs[ids[j]], formatFloat)
  {
    var body := GlyphBlocks(glyphs, ids, formatFloat).value;
    var g := glyphs[ids[j]];
    GlyphBlockAt(glyphs, ids, formatFloat, j);
    CutAllSlice(body, 18 * j, 18 * j + 18);
    CutGlyphLines(g, CharLabel(g.id).value, formatFloat, parseFloat);
  }

  /** A slice of the middle part of three joined texts. */
  lemma MiddleSlice<T>(a: seq<T>, b: seq<T>, c: seq<T>, i: nat, n: nat)
    requires i + n <= |b|
    ensures (a + b + c)[|a| + i .. |a| + i + n] == b[i .. i + n]
  {
  }

  /** The cleaned file holds the cleaned blocks from line 6, one per written id. */
  lemma CleanBlocksPlaced(doc: FontData, formatFloat: Float32 -> string, parseFloat: string -> Option<Float32>)
    requires RoundTrips(doc, formatFloat, parseFloat)
    ensures GlyphBlocks(doc.glyphs, WrittenIds(doc), formatFloat).Ok?
    ensures BlocksFrom6(CleanHeader + CutAll(GlyphBlocks(doc.glyphs, WrittenIds(doc), formatFloat).value) + CleanFooter(doc, formatFloat),
                        doc.glyphs, WrittenIds(doc), formatFloat)
  {
    WrittenShown(doc, formatFloat, parseFloat);
    var ids := WrittenIds(doc);
    var cut := CutAll(GlyphBlocks(doc.glyphs, ids, formatFloat).value);
    var lines := CleanHeader + cut + CleanFooter(doc, formatFloat);
    forall i | 0 <= i < |ids| ensures ids[i] in doc.glyphs && CleanBlockAt(lines, 6 + 18 * i, doc.glyphs[ids[i]], formatFloat) {
      CleanBodyBlock(doc.glyphs, ids, formatFloat, parseFloat, i);
      MiddleSlice(CleanHeader, cut, CleanFooter(doc, formatFloat), 18 * i, 18);
      CleanBlockRows(lines, 6 + 18 * i, doc.glyphs[ids[i]], formatFloat, parseFloat);
    }
  }

  /** Nothing is stored before the first block. */
  lemma StoredNone(glyphs: map<int, Glyph<Float32>>, ids: seq<int>)
    ensures Stored(glyphs, FirstIds(ids, 0)) == map[]
  {
    assert FirstIds(ids, 0) == [];
  }

  /** Once every id holding a glyph has been read, all glyphs are stored. */
  lemma StoredAll(glyphs: map<int, Glyph<Float32>>, ids: seq<int>)
    requires forall x :: x in glyphs ==> x in ids
    ensures Stored(glyphs, ids) == glyphs
  {
    var r := Stored(glyphs, ids);
    forall x ensures x in r <==> x in glyphs {
    }
    forall x | x in r ensures r[x] == glyphs[x] {
    }
  }

  /** The first, middle and last part of three joined texts. */
  lemma ThreeParts<T>(a: seq<T>, b: seq<T>, c: seq<T>)
    ensures (a + b + c)[..|a|] == a
    ensures (a + b + c)[|a| + |b| .. |a| + |b| + |c|] == c
  {
  }

  /** The shape of a cleaned file: header, one cleaned block per id, footer. */
  predicate CleanFile(lines: seq<string>, doc: FontData, ids: seq<int>, formatFloat: Float32 -> string) {
    && 6 + 18 * |ids| + 7 <= |lines|
    && lines[..6] == CleanHeader
    && BlocksFrom6(lines, doc.glyphs, ids, formatFloat)
    && lines[6 + 18 * |ids| .. 6 + 18 * |ids| + 7] == CleanFooter(doc, formatFloat)
  }

  /** Reading a cleaned file into a fresh font stores every block's glyph and the `fontinfo` values. */
  lemma ReadCleanFile(lines: seq<string>, doc: FontData, ids: seq<int>,
                      formatFloat: Float32 -> string, parseFloat: string -> Option<Float32>)
    requires CleanFile(lines, doc, ids, formatFloat) && ReadsBackAll(doc.glyphs, formatFloat, parseFloat)
    requires FloatReadsBack(doc.glyphScale, formatFloat, parseFloat) && Word(doc.name)
    ensures ReadLines(lines, 0, NewFontData(doc.maxGlyphs), parseFloat)
         == Ok(FontData(Stored(doc.glyphs, ids), doc.glyphScale, doc.name, doc.maxGlyphs))
  {
    var start := NewFontData(doc.maxGlyphs);
    var stored := start.(glyphs := Stored(doc.glyphs, ids));
    var f := 6 + 18 * |ids|;
    assert ReadLines(lines, 0, start, parseFloat) == ReadLines(lines, 6, start, parseFloat) by {
      ReadHeader(lines, start, parseFloat);
    }
    assert ReadLines(lines, 6, start, parseFloat) == ReadFromBlock(lines, doc.glyphs, ids, start, parseFloat, 0) by {
      StoredNone(doc.glyphs, ids);
      assert start.(glyphs := Stored(doc.glyphs, FirstIds(ids, 0))) == start;
    }
    assert ReadFromBlock(lines, doc.glyphs, ids, start, parseFloat, 0) == ReadFromBlock(lines, doc.glyphs, ids, start, parseFloat, |ids|) by {
      ReadBody(lines, doc.glyphs, ids, start, formatFloat, parseFloat, |ids|);
    }
    assert ReadFromBlock(lines, doc.glyphs, ids, start, parseFloat, |ids|) == ReadLines(lines, f, stored, parseFloat);
    assert ReadLines(lines, f, stored, parseFloat) == Ok(FontData(Stored(doc.glyphs, ids), doc.glyphScale, doc.name, doc.maxGlyphs)) by {
      ReadFooter(lines, f, stored, doc, formatFloat, parseFloat);
    }
  }

  /** The lines the reader scans when it reads what `write_fnt` wrote: header, body and footer with their comments removed. */
  function CleanedFile(doc: FontData, formatFloat: Float32 -> string): seq<string>
    requires GlyphBlocks(doc.glyphs, WrittenIds(doc), formatFloat).Ok?
  {
    CleanHeader + CutAll(GlyphBlocks(doc.glyphs, WrittenIds(doc), formatFloat).value) + CleanFooter(doc, formatFloat)
  }

  /** A font the format carries is written, and its file, comments removed, is the cleaned file. */
  lemma WrittenFileCleans(doc: FontData, source: string, formatFloat: Float32 -> string, parseFloat: string -> Option<Float32>)
    requires RoundTrips(doc, formatFloat, parseFloat)
    ensures WriteFnt(doc, source, formatFloat).Written? && GlyphBlocks(doc.glyphs, WrittenIds(doc), formatFloat).Ok?
    ensures RemoveLinesComments(WriteFnt(doc, source, formatFloat).lines) == CleanedFile(doc, formatFloat)
  {
    WrittenCleaned(doc, source, formatFloat, parseFloat);
  }

  /** The blocks of the cleaned file of a font the format carries sit one per written id, from line 6 on. */
  lemma CleanedFileBlocks(doc: FontData, formatFloat: Float32 -> string, parseFloat: string -> Option<Float32>)
    requires RoundTrips(doc, formatFloat, parseFloat)
    ensures GlyphBlocks(doc.glyphs, WrittenIds(doc), formatFloat).Ok?
    ensures BlocksFrom6(CleanedFile(doc, formatFloat), doc.glyphs, WrittenIds(doc), formatFloat)
  {
    WrittenShown(doc, formatFloat, parseFloat);
    CleanBlocksPlaced(doc, formatFloat, parseFloat);
  }

  /** The cleaned file starts with the cleaned header and has the cleaned footer after the last block. */
  lemma CleanedFileEnds(doc: FontData, formatFloat: Float32 -> string)
    requires GlyphBlocks(doc.glyphs, WrittenIds(doc), formatFloat).Ok?
    ensures 6 + 18 * |WrittenIds(doc)| + 7 <= |CleanedFile(doc, formatFloat)|
    ensures CleanedFile(doc, formatFloat)[..6] == CleanHeader
    ensures CleanedFile(doc, formatFloat)[6 + 18 * |WrittenIds(doc)| .. 6 + 18 * |WrittenIds(doc)| + 7] == CleanFooter(doc, formatFloat)
  {
    var ids := WrittenIds(doc);
    var cut := CutAll(GlyphBlocks(doc.glyphs, ids, formatFloat).value);
    CleanFileEnds(CleanedFile(doc, formatFloat), cut, |ids|, doc, formatFloat);
  }

  /** A header, `n` blocks and a footer: the header comes first and the footer after the blocks. */
  lemma CleanFileEnds(lines: seq<string>, cut: seq<string>, n: nat, doc: FontData, formatFloat: Float32 -> string)
    requires |cut| == 18 * n && lines == CleanHeader + cut + CleanFooter(doc, formatFloat)
    ensures 6 + 18 * n + 7 <= |lines| && lines[..6] == CleanHeader
    ensures lines[6 + 18 * n .. 6 + 18 * n + 7] == CleanFooter(doc, formatFloat)
  {
    ThreeParts(CleanHeader, cut, CleanFooter(doc, formatFloat));
  }

  /** Every id holding a glyph is written. */
  lemma AllWritten(doc: FontData, formatFloat: Float32 -> string, parseFloat: string -> Option<Float32>)
    requires RoundTrips(doc, formatFloat, parseFloat)
    ensures forall x :: x in doc.glyphs ==> x in WrittenIds(doc)
  {
    PresentIdsComplete(doc.glyphs, 0, doc.maxGlyphs);
  }

  /**
   * The round trip of the text format: `write_fnt` writes a font that the
   * format carries, and `read_fnt` of what it wrote, into a fresh font of the
   * same size, gives the font back.
   */
  lemma FntRoundTrip(doc: FontData, source: string, formatFloat: Float32 -> string, parseFloat: string -> Option<Float32>)
    requires RoundTrips(doc, formatFloat, parseFloat)
    requires '\n' !in source && '\r' !in source
    ensures WriteFnt(doc, source, formatFloat).Written?
    ensures ReadFnt(WriteFnt(doc, source, formatFloat).lines, NewFontData(doc.maxGlyphs), parseFloat) == Ok(doc)
  {
    WrittenFileCleans(doc, source, formatFloat, parseFloat);
    CleanedFileBlocks(doc, formatFloat, parseFloat);
    CleanedFileEnds(doc, formatFloat);
    var ids := WrittenIds(doc);
    var lines := CleanedFile(doc, formatFloat);
    ReadCleanFile(lines, doc, ids, formatFloat, parseFloat);
    AllWritten(doc, formatFloat, parseFloat);
    StoredAll(doc.glyphs, ids);
  }
}
