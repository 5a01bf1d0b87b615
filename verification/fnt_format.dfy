/**
 * The line shapes of the text font format and the string facts both of its
 * directions rest on: an entry line is an indent, a key, one space, a value
 * and a newline; a value the reader can take back is one non-empty word with
 * no `}` and no comment opener.
 */
module FntFormat {
  import opened PyStr
  import opened Bytes
  import opened Settings
  import opened Comments

  /** The keys of a glyph block, in the order they are written: the id is written as `char`. */
  const FntKeys: seq<string> := ["char", "height", "top", "bottom", "pitch", "xSkip",
    "imageWidth", "imageHeight", "s", "t", "s2", "t2", "glyph", "shaderName"]

  /** Every glyph attribute has its key, and all but the id keep their attribute name. */
  lemma FntKeysFollowAttributes()
    ensures |FntKeys| == |GlyphAttributes| && FntKeys[1..] == GlyphAttributes[1..]
  {
  }

  /** How the reader converts the text under a key: `int(...)`, `float(...)`, or not at all. */
  datatype FieldKind = IntField | FloatField | TextField

  /** The kind of key `t`: the four coordinates are floats, the shader name is text, the rest are integers. */
  function KeyKind(t: nat): FieldKind {
    if 8 <= t < 12 then FloatField else if t == 13 then TextField else IntField
  }

  /** One attribute value of a glyph, as the reader converts it. */
  datatype FieldValue = IntValue(n: int) | FloatValue(f: Float32) | TextValue(text: string)

  predicate OfKind(v: FieldValue, k: FieldKind) {
    match k
    case IntField => v.IntValue?
    case FloatField => v.FloatValue?
    case TextField => v.TextValue?
  }

  /** The attribute of `g` stored under key `t` of `FntKeys`. */
  function GlyphField(g: Glyph<Float32>, t: nat): (r: FieldValue)
    requires t < |FntKeys|
    ensures OfKind(r, KeyKind(t))
  {
    match t
    case 0 => IntValue(g.id)
    case 1 => IntValue(g.height)
    case 2 => IntValue(g.top)
    case 3 => IntValue(g.bottom)
    case 4 => IntValue(g.pitch)
    case 5 => IntValue(g.xSkip)
    case 6 => IntValue(g.imageWidth)
    case 7 => IntValue(g.imageHeight)
    case 8 => FloatValue(g.s)
    case 9 => FloatValue(g.t)
    case 10 => FloatValue(g.s2)
    case 11 => FloatValue(g.t2)
    case 12 => IntValue(g.glyph)
    case _ => TextValue(g.shaderName)
  }

  /** The attributes of `g`, one per key. */
  function GlyphFields(g: Glyph<Float32>): (r: seq<FieldValue>)
    ensures |r| == |FntKeys|
    ensures forall t :: 0 <= t < |FntKeys| ==> r[t] == GlyphField(g, t)
  {
    seq(|FntKeys|, t requires 0 <= t < |FntKeys| => GlyphField(g, t))
  }

  /** One value per key, each of its key's kind. */
  predicate FitsKeys(vals: seq<FieldValue>) {
    |vals| == |FntKeys| && forall t :: 0 <= t < |vals| ==> OfKind(vals[t], KeyKind(t))
  }

  /** The glyph whose attributes are `vals`, in key order. */
  function GlyphOf(vals: seq<FieldValue>): Glyph<Float32>
    requires FitsKeys(vals)
  {
    assert OfKind(vals[0], IntField) && OfKind(vals[8], FloatField) && OfKind(vals[13], TextField);
    assert OfKind(vals[1], KeyKind(1)) && OfKind(vals[2], KeyKind(2)) && OfKind(vals[3], KeyKind(3));
    assert OfKind(vals[4], KeyKind(4)) && OfKind(vals[5], KeyKind(5)) && OfKind(vals[6], KeyKind(6));
    assert OfKind(vals[7], KeyKind(7)) && OfKind(vals[9], KeyKind(9)) && OfKind(vals[10], KeyKind(10));
    assert OfKind(vals[11], KeyKind(11)) && OfKind(vals[12], KeyKind(12));
    Glyph(vals[0].n, vals[1].n, vals[2].n, vals[3].n, vals[4].n, vals[5].n, vals[6].n, vals[7].n,
          vals[8].f, vals[9].f, vals[10].f, vals[11].f, vals[12].n, vals[13].text)
  }

  /** Taking a glyph apart into its attributes and putting them together again gives the glyph. */
  lemma GlyphOfFields(g: Glyph<Float32>)
    ensures FitsKeys(GlyphFields(g)) && GlyphOf(GlyphFields(g)) == g
  {
  }

  /** Putting values together into a glyph and taking it apart again gives the values back. */
  lemma FieldsOfGlyph(vals: seq<FieldValue>)
    requires FitsKeys(vals)
    ensures GlyphFields(GlyphOf(vals)) == vals
  {
    var g := GlyphOf(vals);
    forall t | 0 <= t < |FntKeys| ensures GlyphField(g, t) == vals[t] {
      assert OfKind(vals[t], KeyKind(t));
    }
  }

  /** The text written for a value: integers in decimal, floats through `formatFloat`, text as it is. */
  function ShowField(v: FieldValue, formatFloat: Float32 -> string): string {
    match v
    case IntValue(n) => IntToString(n)
    case FloatValue(f) => formatFloat(f)
    case TextValue(s) => s
  }

  /** One `key value` line: an indent, the key, a space, the value and a newline. */
  function Entry(indent: string, key: string, value: string): (r: string)
    ensures r == indent + (key + " " + value) + "\n"
  {
    indent + key + " " + value + "\n"
  }

  /** No line-comment opener and no block-comment opener anywhere in `s`. */
  predicate NoCommentStart(s: string) {
    forall j :: 0 <= j < |s| - 1 ==> !(s[j] == '/' && (s[j + 1] == '/' || s[j + 1] == '*'))
  }

  /**
   * A value the reader takes back unchanged: non-empty (`split()[-1]` needs a
   * word), free of whitespace (the last word is the whole value), of `}` (the
   * lookup would stop) and of comment openers (the stripper would cut it).
   */
  predicate Word(v: string) {
    |v| > 0 && NoSpace(v) && '}' !in v && NoCommentStart(v)
  }

  /**
   * A line holding key `a` also holds key `b` for the reader: `b` ends `a`
   * (so `b + " "` occurs in `a + " " + v`) and both start alike.
   */
  predicate Shadows(a: string, b: string) {
    0 < |b| <= |a| && a[0] == b[0] && a[|a| - |b|..] == b
  }

  /** No key of a glyph block is shadowed by an earlier one: `height` ends in `t` but starts with `h`. */
  lemma KeysShadowFree()
    ensures forall u, t :: 0 <= u < t < |FntKeys| ==> !Shadows(FntKeys[u], FntKeys[t])
  {
    KeyEndsAre();
    forall u, t | 0 <= u < t < |FntKeys| ensures !Shadows(FntKeys[u], FntKeys[t]) {
      if Shadows(FntKeys[u], FntKeys[t]) {
        ShadowsKeepEnds(FntKeys[u], FntKeys[t]);
        KeyEndsDistinct(u, t);
      }
    }
  }

  /** A text's first and last characters, as one number. */
  function Ends(k: string): int
    requires |k| > 0
  {
    k[0] as int * 0x1_0000 + k[|k| - 1] as int
  }

  /** A key that shadows another starts and ends with the same characters. */
  lemma ShadowsKeepEnds(a: string, b: string)
    requires Shadows(a, b)
    ensures Ends(a) == Ends(b)
  {
    assert a[|a| - 1] == a[|a| - |b|..][|b| - 1];
  }

  /** The `Ends` of each key of `FntKeys`, in order. */
  const KeyEnds: seq<int> := [
    'c' as int * 0x1_0000 + 'r' as int, 'h' as int * 0x1_0000 + 't' as int,
    't' as int * 0x1_0000 + 'p' as int, 'b' as int * 0x1_0000 + 'm' as int,
    'p' as int * 0x1_0000 + 'h' as int, 'x' as int * 0x1_0000 + 'p' as int,
    'i' as int * 0x1_0000 + 'h' as int, 'i' as int * 0x1_0000 + 't' as int,
    's' as int * 0x1_0000 + 's' as int, 't' as int * 0x1_0000 + 't' as int,
    's' as int * 0x1_0000 + '2' as int, 't' as int * 0x1_0000 + '2' as int,
    'g' as int * 0x1_0000 + 'h' as int, 's' as int * 0x1_0000 + 'e' as int]

  lemma KeyEndsAre()
    ensures |KeyEnds| == |FntKeys|
    ensures forall u :: 0 <= u < |FntKeys| ==> |FntKeys[u]| > 0 && Ends(FntKeys[u]) == KeyEnds[u]
  {
    forall u | 0 <= u < |FntKeys| ensures |FntKeys[u]| > 0 && Ends(FntKeys[u]) == KeyEnds[u] {
      if u == 0 { } else if u == 1 { } else if u == 2 { } else if u == 3 { } else if u == 4 { }
      else if u == 5 { } else if u == 6 { } else if u == 7 { } else if u == 8 { } else if u == 9 { }
      else if u == 10 { } else if u == 11 { } else if u == 12 { } else { }
    }
  }

  /** No two keys start and end alike. */
  lemma KeyEndsDistinct(u: nat, t: nat)
    requires u < t < |KeyEnds|
    ensures KeyEnds[u] != KeyEnds[t]
  {
  }

  /** A letter or a digit: what keys are made of. */
  predicate Plain(c: char) {
    'a' <= c <= 'z' || 'A' <= c <= 'Z' || '0' <= c <= '9'
  }

  /** A text of letters and digits has no whitespace, no slash and no brace. */
  lemma PlainText(s: string)
    requires forall c :: c in s ==> Plain(c)
    ensures NoSpace(s) && '/' !in s && '}' !in s
  {
    forall k | 0 <= k < |s| ensures !IsSpace(s[k]) {
      assert s[k] in s;
    }
  }

  /** Every key is a non-empty run of letters and digits. */
  lemma KeysPlain()
    ensures forall u :: 0 <= u < |FntKeys| ==> |FntKeys[u]| > 0 && NoSpace(FntKeys[u]) && '/' !in FntKeys[u] && '}' !in FntKeys[u]
  {
    forall u | 0 <= u < |FntKeys| ensures |FntKeys[u]| > 0 && NoSpace(FntKeys[u]) && '/' !in FntKeys[u] && '}' !in FntKeys[u] {
      assert forall c :: c in FntKeys[u] ==> Plain(c) by {
        if u == 0 { } else if u == 1 { } else if u == 2 { } else if u == 3 { } else if u == 4 { }
        else if u == 5 { } else if u == 6 { } else if u == 7 { } else if u == 8 { } else if u == 9 { }
        else if u == 10 { } else if u == 11 { } else if u == 12 { } else { }
      }
      PlainText(FntKeys[u]);
    }
  }

  /** A number written in decimal is a word the reader takes back. */
  lemma IntWord(n: int)
    ensures Word(IntToString(n))
  {
    var s := IntToString(n);
    assert '/' !in s && '}' !in s by {
      forall k | 0 <= k < |s| ensures s[k] != '/' && s[k] != '}' {
        assert IsDigit(s[k]) || s[k] == '-';
      }
    }
    NoSlashNoCommentStart(s);
  }

  // ---------------------------------------------------------------------------
  // Stripping
  // ---------------------------------------------------------------------------

  /** A line of whitespace strips to nothing. */
  lemma StripAllSpace(s: string)
    requires AllSpace(s)
    ensures Strip(s) == ""
  {
    TrimStartSpec(s);
  }

  /** A single visible character between whitespace strips to itself. */
  lemma StripOne(pre: string, c: char, post: string)
    requires AllSpace(pre) && AllSpace(post) && !IsSpace(c)
    ensures Strip(pre + [c] + post) == [c]
  {
    StripFramed(pre, [c], post);
  }

  /** An entry line strips to `key value`. */
  lemma EntryStrip(indent: string, key: string, v: string)
    requires AllSpace(indent) && |key| > 0 && NoSpace(key) && |v| > 0 && NoSpace(v)
    ensures Strip(Entry(indent, key, v)) == key + " " + v
  {
    var core := key + " " + v;
    assert core[0] == key[0] && core[|core| - 1] == v[|v| - 1];
    StripFramed(indent, core, "\n");
  }

  /**
   * In a stripped entry `k v`, the only space is the one after the key, so a
   * pattern `w + " "` can occur only where `w` ends the key.
   */
  lemma KeySuffix(k: string, v: string, w: string)
    requires NoSpace(k) && NoSpace(v) && NoSpace(w)
    requires Contains(k + " " + v, w + " ")
    ensures |w| <= |k| && k[|k| - |w|..] == w
  {
    var s := k + " " + v;
    var p := w + " ";
    FindSpec(s, p);
    var j := Find(s, p).value;
    assert s[j + |w|] == p[|w|] == ' ';
    assert j + |w| == |k|;
    forall i | 0 <= i < |w| ensures k[|k| - |w| + i] == w[i] {
      assert s[j..j + |p|][i] == p[i];
    }
  }

  /** A stripped entry whose key `w` does not end is not found by a lookup of `w`. */
  lemma EntryLacks(k: string, v: string, w: string)
    requires NoSpace(k) && NoSpace(v) && NoSpace(w)
    requires !(|w| <= |k| && k[|k| - |w|..] == w)
    ensures !Contains(k + " " + v, w + " ")
  {
    if Contains(k + " " + v, w + " ") {
      KeySuffix(k, v, w);
    }
  }

  /** A stripped entry holds its own key at its start. */
  lemma EntryHasKey(k: string, v: string)
    ensures Contains(k + " " + v, k + " ")
  {
    assert OccursAt(k + " " + v, k + " ", 0) by {
      assert (k + " " + v)[0..|k| + 1] == k + " ";
    }
  }

  // ---------------------------------------------------------------------------
  // Comments
  // ---------------------------------------------------------------------------

  /** Without a slash there is no comment opener. */
  lemma NoSlashNoCommentStart(s: string)
    requires '/' !in s
    ensures NoCommentStart(s)
  {
    forall j | 0 <= j < |s| - 1 ensures s[j] != '/' {
      assert s[j] in s;
    }
  }

  /** Two texts without comment openers, not joined at a `/` followed by `/` or `*`. */
  lemma NoCommentStartJoin(a: string, b: string)
    requires NoCommentStart(a) && NoCommentStart(b)
    requires |a| > 0 && |b| > 0 ==> !(a[|a| - 1] == '/' && (b[0] == '/' || b[0] == '*'))
    ensures NoCommentStart(a + b)
  {
    var s := a + b;
    forall j | 0 <= j < |s| - 1 ensures !(s[j] == '/' && (s[j + 1] == '/' || s[j + 1] == '*')) {
      if j + 1 < |a| {
        assert s[j] == a[j] && s[j + 1] == a[j + 1];
      } else if j >= |a| {
        assert s[j] == b[j - |a|] && s[j + 1] == b[j + 1 - |a|];
      }
    }
  }

  /** A text without comment openers contains neither opener as a substring. */
  lemma NoCommentStartAbsent(s: string)
    requires NoCommentStart(s)
    ensures !Contains(s, "//") && !Contains(s, "/*")
  {
    FindSpec(s, "//");
    FindSpec(s, "/*");
    forall j ensures !OccursAt(s, "//", j) && !OccursAt(s, "/*", j) {
      if 0 <= j < |s| - 1 {
        assert s[j..j + 2][0] == s[j] && s[j..j + 2][1] == s[j + 1];
      }
    }
  }

  /** A line without comment openers passes the stripper's line step unchanged and opens no block. */
  lemma PlainLineKept(line: string)
    requires NoCommentStart(line)
    ensures CutLineComment(line) == line && !Contains(CutLineComment(line), "/*")
  {
    NoCommentStartAbsent(line);
  }

  /** An entry line whose indent and key hold no slash and whose value opens no comment is kept. */
  lemma EntryKept(indent: string, key: string, v: string)
    requires '/' !in indent + key && NoCommentStart(v)
    ensures CutLineComment(Entry(indent, key, v)) == Entry(indent, key, v)
    ensures !Contains(CutLineComment(Entry(indent, key, v)), "/*")
  {
    var head := indent + key + " ";
    assert '/' !in head by {
      assert forall i :: 0 <= i < |head| ==> head[i] in indent + key || head[i] == ' ';
    }
    NoSlashNoCommentStart(head);
    NoSlashNoCommentStart("\n");
    NoCommentStartJoin(head, v);
    NoCommentStartJoin(head + v, "\n");
    assert Entry(indent, key, v) == head + v + "\n";
    PlainLineKept(Entry(indent, key, v));
  }

  /** A line whose first `//` follows a slash-free indent is cut to the indent and a newline. */
  lemma CommentLineCut(indent: string, rest: string)
    requires '/' !in indent
    ensures CutLineComment(indent + "//" + rest) == indent + "\n"
  {
    var s := indent + "//" + rest;
    var n := |indent|;
    assert OccursAt(s, "//", n) by {
      assert s[n..n + 2] == "//";
    }
    forall i | 0 <= i < n ensures !OccursAt(s, "//", i) {
      assert s[i] == indent[i] && indent[i] in indent;
      assert i + 2 <= |s| ==> s[i..i + 2][0] == s[i];
    }
    FindSpec(s, "//");
    assert Find(s, "//").value == n;
    assert s[..n] == indent;
  }
}
