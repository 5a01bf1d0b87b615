/**
 * The text font reader (`read_fnt`): the file's lines, with comments removed,
 * are scanned for `char` blocks and the trailing `glyphScale` block; every
 * value is looked up by key with a bounded forward scan that stops at `}`.
 */
module FntRead {
  import opened Wrappers
  import opened PyStr
  import opened Bytes
  import opened Settings
  import opened FontDocument
  import opened Comments
  import opened FntFormat

  /**
   * Why `read_fnt` stopped: the scan ran past the last line (an IndexError),
   * a `}` came before the key (a SyntaxError), or the value is not an integer
   * or not a float (a ValueError).
   */
  datatype FntError = LinesExhausted(key: string) | MissingKey(key: string) | BadInt(key: string) | BadFloat(key: string)

  /** Lines `read_fnt` steps over after a `char` line: one per glyph attribute but the id. */
  const BlockStride: nat := |GlyphAttributes| - 1

  /** A glyph has fourteen attributes, so the reader steps thirteen lines past each `char` line. */
  lemma BlockStrideIs13()
    ensures |GlyphAttributes| == 14 && BlockStride == 13
  {
  }

  // ---------------------------------------------------------------------------
  // Key lookup
  // ---------------------------------------------------------------------------

  /** A stripped line holds `key`: it contains `key + " "` and starts with the key's first letter. */
  predicate KeyLine(line: string, key: string)
    requires |key| > 0
  {
    Contains(line, key + " ") && |line| > 0 && line[0] == key[0]
  }

  /** The line, stripped, holds `key`. */
  predicate HoldsKey(line: string, key: string)
    requires |key| > 0
  {
    KeyLine(Strip(line), key)
  }

  /** The line, stripped, closes the block: it contains `}`. */
  predicate Closes(line: string) {
    Contains(Strip(line), "}")
  }

  /** The lookup walks past `line`: it neither closes the block nor holds `key`. */
  predicate Passes(line: string, key: string)
    requires |key| > 0
  {
    !Closes(line) && !HoldsKey(line, key)
  }

  /** Every line in `[k, m)` is walked past. */
  predicate ClearBefore(lines: seq<string>, k: nat, m: nat, key: string)
    requires |key| > 0 && m <= |lines|
    decreases m - k
  {
    k >= m || (Passes(lines[k], key) && ClearBefore(lines, k + 1, m, key))
  }

  /**
   * The scan of `fnt_get_line_value` from line `k`: the index of the first line
   * that holds `key`, provided no line up to it closes the block. Running past
   * the last line and meeting a `}` first are told apart.
   */
  function FindKeyLine(lines: seq<string>, k: nat, key: string): (r: Result<nat, FntError>)
    requires |key| > 0 && k < |lines|
    ensures r.Ok? ==> k <= r.value < |lines|
    decreases |lines| - k
  {
    if Closes(lines[k]) then Err(MissingKey(key))
    else if HoldsKey(lines[k], key) then Ok(k)
    else if k + 1 >= |lines| then Err(LinesExhausted(key))
    else FindKeyLine(lines, k + 1, key)
  }

  /**
   * What the scan finds: a line that holds the key with every line before it
   * walked past; the lines running out with every line walked past; or a line
   * that closes the block with every line before it walked past.
   */
  lemma {:induction false} FindKeyLineSpec(lines: seq<string>, k: nat, key: string)
    requires |key| > 0 && k < |lines|
    ensures var r := FindKeyLine(lines, k, key);
      && (r.Ok? ==> !Closes(lines[r.value]) && HoldsKey(lines[r.value], key) && ClearBefore(lines, k, r.value, key))
      && (r == Err(LinesExhausted(key)) <==> ClearBefore(lines, k, |lines|, key))
      && (r.Err? && r.error != LinesExhausted(key) ==>
            r.error == MissingKey(key) && exists m :: k <= m < |lines| && Closes(lines[m]) && ClearBefore(lines, k, m, key))
    decreases |lines| - k
  {
    if Closes(lines[k]) || HoldsKey(lines[k], key) {
      assert ClearBefore(lines, k, k, key);
    } else if k + 1 < |lines| {
      FindKeyLineSpec(lines, k + 1, key);
      var r := FindKeyLine(lines, k + 1, key);
      if r.Ok? {
        assert ClearBefore(lines, k, r.value, key);
      } else if r.error != LinesExhausted(key) {
        var m :| k + 1 <= m < |lines| && Closes(lines[m]) && ClearBefore(lines, k + 1, m, key);
        assert ClearBefore(lines, k, m, key);
      }
    } else {
      assert ClearBefore(lines, k + 1, |lines|, key);
    }
  }

  /** The scan finds the first line holding `key` when no earlier line closes the block or holds it. */
  lemma {:induction false} FindKeyLineFirst(lines: seq<string>, k: nat, m: nat, key: string)
    requires |key| > 0 && k <= m < |lines|
    requires ClearBefore(lines, k, m, key) && !Closes(lines[m]) && HoldsKey(lines[m], key)
    ensures FindKeyLine(lines, k, key) == Ok(m)
    decreases m - k
  {
    if k < m {
      assert Passes(lines[k], key) && ClearBefore(lines, k + 1, m, key);
      FindKeyLineFirst(lines, k + 1, m, key);
    }
  }

  /** The scan reports the key missing when a line closes the block before any line holds it. */
  lemma {:induction false} FindKeyLineClosed(lines: seq<string>, k: nat, m: nat, key: string)
    requires |key| > 0 && k <= m < |lines|
    requires ClearBefore(lines, k, m, key) && Closes(lines[m])
    ensures FindKeyLine(lines, k, key) == Err(MissingKey(key))
    decreases m - k
  {
    if k < m {
      assert Passes(lines[k], key) && ClearBefore(lines, k + 1, m, key);
      FindKeyLineClosed(lines, k + 1, m, key);
    }
  }

  /** `fnt_get_line_value(key)` with the current line `i`: the last word of the line that holds the key. */
  function GetLineValue(lines: seq<string>, i: nat, key: string): (r: Result<string, FntError>)
    requires |key| > 0 && i < |lines|
  {
    var m :- FindKeyLine(lines, i, key);
    Ok(LastWord(Strip(lines[m])))
  }

  /**
   * What the lookup gives: the last word of the first line from `i` on that
   * holds `key`, when no line before it closes the block; an error otherwise,
   * telling the lines running out (every line from `i` on walked past) from
   * a `}` met first.
   */
  lemma GetLineValueSpec(lines: seq<string>, i: nat, key: string)
    requires |key| > 0 && i < |lines|
    ensures var r := GetLineValue(lines, i, key);
      && (forall m :: i <= m < |lines| && ClearBefore(lines, i, m, key) && !Closes(lines[m]) && HoldsKey(lines[m], key) ==>
            r == Ok(LastWord(Strip(lines[m]))))
      && (r.Ok? ==> (NoSpace(r.value) &&
            exists m :: (i <= m < |lines| && ClearBefore(lines, i, m, key) && !Closes(lines[m]) && HoldsKey(lines[m], key))))
      && (r == Err(LinesExhausted(key)) <==> ClearBefore(lines, i, |lines|, key))
      && (r.Err? ==> r.error == LinesExhausted(key) || r.error == MissingKey(key))
  {
    FindKeyLineSpec(lines, i, key);
    forall m | i <= m < |lines| && ClearBefore(lines, i, m, key) && !Closes(lines[m]) && HoldsKey(lines[m], key)
      ensures GetLineValue(lines, i, key) == Ok(LastWord(Strip(lines[m])))
    {
      FindKeyLineFirst(lines, i, m, key);
    }
  }

  /** `int(fnt_get_line_value(key))`. */
  function GetInt(lines: seq<string>, i: nat, key: string): (r: Result<int, FntError>)
    requires |key| > 0 && i < |lines|
  {
    var v :- GetLineValue(lines, i, key);
    match ParseInt(v)
    case Some(n) => Ok(n)
    case None => Err(BadInt(key))
  }

  /** `float(fnt_get_line_value(key))`, with Python's `float` given as `parseFloat`. */
  function GetFloat(lines: seq<string>, i: nat, key: string, parseFloat: string -> Option<Float32>): (r: Result<Float32, FntError>)
    requires |key| > 0 && i < |lines|
  {
    var v :- GetLineValue(lines, i, key);
    match parseFloat(v)
    case Some(f) => Ok(f)
    case None => Err(BadFloat(key))
  }

  // ---------------------------------------------------------------------------
  // Blocks and the main loop
  // ---------------------------------------------------------------------------

  /** The value under key `t` for the block at line `i`, converted as `read_fnt` converts that key. */
  function GetField(lines: seq<string>, i: nat, t: nat, parseFloat: string -> Option<Float32>): (r: Result<FieldValue, FntError>)
    requires i < |lines| && t < |FntKeys|
    ensures r.Ok? ==> OfKind(r.value, KeyKind(t))
  {
    KeysPlain();
    match KeyKind(t)
    case IntField =>
      var n :- GetInt(lines, i, FntKeys[t]);
      Ok(IntValue(n))
    case FloatField =>
      var f :- GetFloat(lines, i, FntKeys[t], parseFloat);
      Ok(FloatValue(f))
    case TextField =>
      var v :- GetLineValue(lines, i, FntKeys[t]);
      Ok(TextValue(v))
  }

  /** Key `u`'s value for the block at line `i`, as a function of `u`; no key past the last. */
  function Getter(lines: seq<string>, i: nat, parseFloat: string -> Option<Float32>): nat -> Result<FieldValue, FntError>
    requires i < |lines|
  {
    (u: nat) => if u < |FntKeys| then GetField(lines, i, u, parseFloat) else Err(MissingKey(""))
  }

  /** The values of keys `t ..` through `get`, one key at a time in key order; the first failure is the result. */
  function ReadEach(get: nat -> Result<FieldValue, FntError>, t: nat): (r: Result<seq<FieldValue>, FntError>)
    requires t <= |FntKeys|
    ensures r.Ok? ==> |r.value| == |FntKeys| - t
    decreases |FntKeys| - t
  {
    if t == |FntKeys| then Ok([])
    else
      var v :- get(t);
      var rest :- ReadEach(get, t + 1);
      Ok([v] + rest)
  }

  /**
   * The values under keys `t ..` for the block at line `i`, looked up and
   * converted one key at a time in key order; the first failure is the result.
   */
  function ReadFields(lines: seq<string>, i: nat, t: nat, parseFloat: string -> Option<Float32>): (r: Result<seq<FieldValue>, FntError>)
    requires i < |lines| && t <= |FntKeys|
  {
    ReadEach(Getter(lines, i, parseFloat), t)
  }

  /** Every value read is of its key's kind. */
  lemma {:induction false} ReadFieldsFit(lines: seq<string>, i: nat, t: nat, parseFloat: string -> Option<Float32>)
    requires i < |lines| && t <= |FntKeys| && ReadFields(lines, i, t, parseFloat).Ok?
    ensures KindsFrom(ReadFields(lines, i, t, parseFloat).value, t)
    decreases |FntKeys| - t
  {
    if t < |FntKeys| {
      assert Getter(lines, i, parseFloat)(t) == GetField(lines, i, t, parseFloat);
      var v := GetField(lines, i, t, parseFloat).value;
      var rest := ReadFields(lines, i, t + 1, parseFloat).value;
      assert ReadFields(lines, i, t, parseFloat).value == [v] + rest;
      assert KindsFrom(rest, t + 1) by {
        ReadFieldsFit(lines, i, t + 1, parseFloat);
      }
      KindsCons(v, rest, t);
    }
  }

  /** `vals` holds one value per key from `t` on, each of its key's kind. */
  predicate KindsFrom(vals: seq<FieldValue>, t: nat) {
    |vals| == |FntKeys| - t && forall u :: 0 <= u < |vals| ==> OfKind(vals[u], KeyKind(t + u))
  }

  /** A value of key `t`'s kind before the values of the keys after it. */
  lemma KindsCons(v: FieldValue, rest: seq<FieldValue>, t: nat)
    requires t < |FntKeys| && OfKind(v, KeyKind(t)) && KindsFrom(rest, t + 1)
    ensures KindsFrom([v] + rest, t)
  {
    var vals := [v] + rest;
    forall u | 0 <= u < |vals| ensures OfKind(vals[u], KeyKind(t + u)) {
      if u > 0 {
        assert vals[u] == rest[u - 1] && t + u == (t + 1) + (u - 1);
      }
    }
  }

  /** A successful read holds, at place `u - t`, the value key `u` gives. */
  lemma {:induction false} ReadEachAt(get: nat -> Result<FieldValue, FntError>, t: nat, u: nat)
    requires t <= u < |FntKeys| && ReadEach(get, t).Ok?
    ensures get(u) == Ok(ReadEach(get, t).value[u - t])
    decreases u - t
  {
    var vals := ReadEach(get, t).value;
    var rest := ReadEach(get, t + 1);
    assert get(t).Ok? && rest.Ok? && vals == [get(t).value] + rest.value;
    if u > t {
      ReadEachAt(get, t + 1, u);
      assert vals[u - t] == rest.value[u - (t + 1)];
    }
  }

  /** The read succeeds when every key from `t` on gives a value. */
  lemma {:induction false} ReadEachSucceeds(get: nat -> Result<FieldValue, FntError>, t: nat)
    requires t <= |FntKeys|
    requires forall u :: t <= u < |FntKeys| ==> get(u).Ok?
    ensures ReadEach(get, t).Ok?
    decreases |FntKeys| - t
  {
    if t < |FntKeys| {
      ReadEachSucceeds(get, t + 1);
    }
  }

  /** The read fails with the error of key `u` when `u` is the first key from `t` on that gives no value. */
  lemma {:induction false} ReadEachFails(get: nat -> Result<FieldValue, FntError>, t: nat, u: nat)
    requires t <= u < |FntKeys| && get(u).Err?
    requires forall w :: t <= w < u ==> get(w).Ok?
    ensures ReadEach(get, t) == Err(get(u).error)
    decreases u - t
  {
    if t < u {
      ReadEachFails(get, t + 1, u);
    }
  }

  /**
   * The glyph of the `char` block whose `char` line is `i`: the fourteen keys
   * `char`, `height`, ..., `shaderName` are looked up in that order, each from
   * line `i`, and the glyph's id is the value under `char`.
   */
  function ParseGlyphBlock(lines: seq<string>, i: nat, parseFloat: string -> Option<Float32>): (r: Result<Glyph<Float32>, FntError>)
    requires i < |lines|
  {
    var vals :- ReadFields(lines, i, 0, parseFloat);
    ReadFieldsFit(lines, i, 0, parseFloat);
    Ok(GlyphOf(vals))
  }

  /**
   * A block is read exactly when every one of its fourteen keys gives a value,
   * and the glyph then holds, under each key, the value that key gives (its id
   * is the value under `char`).
   */
  lemma ParseGlyphBlockReads(lines: seq<string>, i: nat, parseFloat: string -> Option<Float32>)
    requires i < |lines|
    ensures var r := ParseGlyphBlock(lines, i, parseFloat);
      && (r.Ok? <==> forall t :: 0 <= t < |FntKeys| ==> GetField(lines, i, t, parseFloat).Ok?)
      && (r.Ok? ==> forall t :: 0 <= t < |FntKeys| ==> GetField(lines, i, t, parseFloat) == Ok(GlyphField(r.value, t)))
  {
    var get := Getter(lines, i, parseFloat);
    if forall t :: 0 <= t < |FntKeys| ==> GetField(lines, i, t, parseFloat).Ok? {
      ParseGlyphBlockSucceeds(lines, i, parseFloat);
    }
    var vals := ReadFields(lines, i, 0, parseFloat);
    if vals.Ok? {
      ReadFieldsFit(lines, i, 0, parseFloat);
      FieldsOfGlyph(vals.value);
      var g := GlyphOf(vals.value);
      forall t | 0 <= t < |FntKeys| ensures GetField(lines, i, t, parseFloat) == Ok(GlyphField(g, t)) {
        ReadEachAt(get, 0, t);
        assert get(t) == GetField(lines, i, t, parseFloat);
        assert GlyphField(g, t) == GlyphFields(g)[t];
      }
    }
  }

  /** A block whose fourteen keys all give a value is read. */
  lemma ParseGlyphBlockSucceeds(lines: seq<string>, i: nat, parseFloat: string -> Option<Float32>)
    requires i < |lines|
    requires forall t :: 0 <= t < |FntKeys| ==> GetField(lines, i, t, parseFloat).Ok?
    ensures ParseGlyphBlock(lines, i, parseFloat).Ok?
  {
    var get := Getter(lines, i, parseFloat);
    forall u | 0 <= u < |FntKeys| ensures get(u).Ok? {
      assert get(u) == GetField(lines, i, u, parseFloat);
    }
    ReadEachSucceeds(get, 0);
  }

  /** A block that cannot be read fails with the error of the first key, in key order, that gives no value. */
  lemma ParseGlyphBlockFails(lines: seq<string>, i: nat, t: nat, parseFloat: string -> Option<Float32>)
    requires i < |lines| && t < |FntKeys| && GetField(lines, i, t, parseFloat).Err?
    requires forall u :: 0 <= u < t ==> GetField(lines, i, u, parseFloat).Ok?
    ensures ParseGlyphBlock(lines, i, parseFloat) == Err(GetField(lines, i, t, parseFloat).error)
  {
    var get := Getter(lines, i, parseFloat);
    forall w | 0 <= w < t ensures get(w).Ok? {
      assert get(w) == GetField(lines, i, w, parseFloat);
    }
    assert get(t) == GetField(lines, i, t, parseFloat);
    ReadEachFails(get, 0, t);
  }

  /**
   * The loop of `read_fnt` from line `i`: a line containing `char ` starts a
   * glyph block, stored under its id, and the scan resumes 13 lines further;
   * a line containing `glyphScale ` gives the scale and the name and ends the
   * scan; any other line is skipped.
   */
  function ReadLines(lines: seq<string>, i: nat, doc: FontData, parseFloat: string -> Option<Float32>): (r: Result<FontData, FntError>)
    decreases |lines| - i
  {
    if i >= |lines| then Ok(doc)
    else
      var line := Strip(lines[i]);
      if Contains(line, "char ") then
        var g :- ParseGlyphBlock(lines, i, parseFloat);
        ReadLines(lines, i + BlockStride, doc.(glyphs := doc.glyphs[g.id := g]), parseFloat)
      else if Contains(line, "glyphScale ") then
        var scale :- GetFloat(lines, i, "glyphScale", parseFloat);
        var name :- GetLineValue(lines, i, "name");
        Ok(doc.(glyphScale := scale, name := name))
      else ReadLines(lines, i + 1, doc, parseFloat)
  }

  /**
   * What a successful read does to the font it reads into: the slot count
   * stays, every glyph already there stays under its id, and every glyph read
   * from a block is stored under its own id (a later block for the same id
   * replaces an earlier one).
   */
  lemma {:induction false} ReadLinesMerges(lines: seq<string>, i: nat, doc: FontData, parseFloat: string -> Option<Float32>)
    requires ReadLines(lines, i, doc, parseFloat).Ok?
    ensures var r := ReadLines(lines, i, doc, parseFloat).value;
      && r.maxGlyphs == doc.maxGlyphs
      && doc.glyphs.Keys <= r.glyphs.Keys
      && forall x :: x in r.glyphs ==> (x in doc.glyphs && r.glyphs[x] == doc.glyphs[x]) || r.glyphs[x].id == x
    decreases |lines| - i
  {
    if i < |lines| {
      var line := Strip(lines[i]);
      if Contains(line, "char ") {
        var g := ParseGlyphBlock(lines, i, parseFloat).value;
        ReadLinesMerges(lines, i + BlockStride, doc.(glyphs := doc.glyphs[g.id := g]), parseFloat);
      } else if !Contains(line, "glyphScale ") {
        ReadLinesMerges(lines, i + 1, doc, parseFloat);
      }
    }
  }

  /**
   * Lines that neither start a glyph block nor hold the scale are stepped over:
   * reading from `i` is reading from `j` when every line in `[i, j)` is such a line.
   */
  lemma {:induction false} ReadLinesSkips(lines: seq<string>, i: nat, j: nat, doc: FontData, parseFloat: string -> Option<Float32>)
    requires i <= j <= |lines|
    requires forall k :: i <= k < j ==> !Contains(Strip(lines[k]), "char ") && !Contains(Strip(lines[k]), "glyphScale ")
    ensures ReadLines(lines, i, doc, parseFloat) == ReadLines(lines, j, doc, parseFloat)
    decreases j - i
  {
    if i < j {
      ReadLinesSkipsOne(lines, i, doc, parseFloat);
      ReadLinesSkips(lines, i + 1, j, doc, parseFloat);
    }
  }

  /** A line with neither marker is passed over. */
  lemma ReadLinesSkipsOne(lines: seq<string>, i: nat, doc: FontData, parseFloat: string -> Option<Float32>)
    requires i < |lines| && !Contains(Strip(lines[i]), "char ") && !Contains(Strip(lines[i]), "glyphScale ")
    ensures ReadLines(lines, i, doc, parseFloat) == ReadLines(lines, i + 1, doc, parseFloat)
  {
  }

  /**
   * `read_fnt`: the lines as read from the file, comments removed, scanned into
   * `doc`. An empty file leaves `doc` as it is; a successful read keeps the slot
   * count and every id already present, and every glyph it changes or adds is
   * stored under its own id.
   */
  function ReadFnt(fileLines: seq<string>, doc: FontData, parseFloat: string -> Option<Float32>): (r: Result<FontData, FntError>)
    ensures |fileLines| == 0 ==> r == Ok(doc)
    ensures r.Ok? ==> r.value.maxGlyphs == doc.maxGlyphs && doc.glyphs.Keys <= r.value.glyphs.Keys
    ensures r.Ok? ==> forall x :: x in r.value.glyphs ==>
      (x in doc.glyphs && r.value.glyphs[x] == doc.glyphs[x]) || r.value.glyphs[x].id == x
  {
    var r := ReadLines(RemoveLinesComments(fileLines), 0, doc, parseFloat);
    if r.Ok? then ReadLinesMerges(RemoveLinesComments(fileLines), 0, doc, parseFloat); r else r
  }
}
