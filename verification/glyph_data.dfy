/**
 * `FontImage.generate_glyphs_data`: after packing, every placed glyph becomes
 * a font glyph record. Its metrics come from the rendered bitmap and the font's
 * ascent; its texture coordinates are its rectangle on the atlas page divided
 * by the page size; its shader names the page's image file. The coordinates
 * are exact reals here, an idealisation of the source's binary floats.
 */
module GlyphData {
  import opened Wrappers
  import opened PyStr
  import opened Settings
  import opened Packer

  /** What stops the loop: `ord` of a text that is not one character, or a page of width or height 0. */
  datatype DataError = NotOneChar(ch: string) | ZeroDivision(index: int)

  /** The shader of the glyphs on atlas page `index`: `fonts/<base>_<index>.tga`. */
  function ShaderName(base: string, index: int): string {
    "fonts/" + base + "_" + IntToString(index) + ".tga"
  }

  /**
   * The record of glyph `q` placed on page `t`. It is made exactly when the
   * character is one code point and the page has an area, the character being
   * checked first; it then describes the bitmap and names the page's shader.
   */
  function Record(q: TtfGlyph, t: Texture, base: string): (r: Result<Glyph<real>, DataError>)
    ensures r.Ok? <==> Recordable(q, t)
    ensures r.Err? ==> r.error == (if |q.ch| != 1 then NotOneChar(q.ch) else ZeroDivision(t.textureIndex))
    ensures r.Ok? ==> Describes(r.value, q) && r.value.shaderName == ShaderName(base, t.textureIndex)
  {
    if |q.ch| != 1 then Err(NotOneChar(q.ch))
    else if t.width == 0 || t.height == 0 then Err(ZeroDivision(t.textureIndex))
    else
      var top := q.ascent + q.margin - q.bbox.top;
      var w := t.width as real;
      var h := t.height as real;
      Ok(Glyph(q.ch[0] as int, q.height, top, top - q.height, q.width, q.width - q.margin * 2 + 2,
        q.width, q.height,
        q.x as real / w, q.y as real / h, (q.x + q.width) as real / w, (q.y + q.height) as real / h,
        0, ShaderName(base, t.textureIndex)))
  }

  /** The records of the glyphs `qs` of page `t`, in order; the first failure stops the loop. */
  function PageRecords(qs: seq<TtfGlyph>, t: Texture, base: string): (r: Result<seq<Glyph<real>>, DataError>)
    ensures r.Ok? ==> |r.value| == |qs|
  {
    if |qs| == 0 then Ok([])
    else
      var g :- Record(qs[0], t, base);
      var rest :- PageRecords(qs[1..], t, base);
      Ok([g] + rest)
  }

  /** `self.glyphs` after `generate_glyphs_data(base)`: the records of all pages, page after page. */
  function GenerateGlyphsData(pages: seq<Texture>, base: string): (r: Result<seq<Glyph<real>>, DataError>)
    ensures r.Ok? ==> |r.value| == |Flatten(pages)|
  {
    if |pages| == 0 then Ok([])
    else
      var front :- GenerateGlyphsData(pages[..|pages| - 1], base);
      var last :- PageRecords(pages[|pages| - 1].ttfGlyphs, pages[|pages| - 1], base);
      Ok(front + last)
  }

  // ---------------------------------------------------------------------------
  // What a record says about its glyph
  // ---------------------------------------------------------------------------

  /**
   * The metrics of a record, read against the bitmap it came from: the cell is
   * as wide and as tall as the bitmap, its top sits `ascent + margin - bbox.top`
   * above the baseline and its bottom one bitmap height below that, the advance
   * drops the two margins and adds two pixels, and the id is the character's
   * code point.
   */
  predicate Describes(g: Glyph<real>, q: TtfGlyph) {
    && |q.ch| == 1 && g.id == q.ch[0] as int
    && g.pitch == g.imageWidth == q.width
    && g.height == g.imageHeight == g.top - g.bottom == q.height
    && g.top == q.ascent + q.margin - q.bbox.top
    && g.xSkip == q.width - 2 * q.margin + 2
    && g.glyph == 0
  }

  /** Scaled back by the page size, the texture rectangle of the record is the glyph's place on the page. */
  predicate Locates(g: Glyph<real>, q: TtfGlyph, t: Texture) {
    && g.s * t.width as real == q.x as real
    && g.t * t.height as real == q.y as real
    && (g.s2 - g.s) * t.width as real == q.width as real
    && (g.t2 - g.t) * t.height as real == q.height as real
  }

  /** A record can be made exactly when the character is one code point and the page has an area. */
  predicate Recordable(q: TtfGlyph, t: Texture) {
    |q.ch| == 1 && t.width != 0 && t.height != 0
  }

  /** A record's texture rectangle, scaled back by the page size, is the glyph's place on the page. */
  lemma RecordLocates(q: TtfGlyph, t: Texture, base: string)
    requires Recordable(q, t)
    ensures Locates(Record(q, t, base).value, q, t)
  {
  }

  /** A `TTFGlyph()` that was never given a character has no record: `ord('')` fails first. */
  lemma FreshGlyphUnrecordable(t: Texture, base: string)
    ensures Record(FreshTtfGlyph, t, base) == Err(NotOneChar(""))
  {
  }

  /** Two pages with different indices never share a shader name. */
  lemma ShaderNameInjective(base: string, i: int, j: int)
    requires ShaderName(base, i) == ShaderName(base, j)
    ensures i == j
  {
    var pre := "fonts/" + base + "_";
    var a := IntToString(i);
    var b := IntToString(j);
    assert ShaderName(base, i) == pre + (a + ".tga");
    assert ShaderName(base, j) == pre + (b + ".tga");
    assert a + ".tga" == ShaderName(base, i)[|pre|..];
    assert b + ".tga" == ShaderName(base, j)[|pre|..];
    assert a == (a + ".tga")[..|a|];
    assert b == (b + ".tga")[..|b|];
    IntRoundTrip(i);
    IntRoundTrip(j);
  }

  /** The glyph lies on its page, between the left and right edges and between the top and bottom. */
  predicate Inside(q: TtfGlyph, t: Texture) {
    0 <= q.x <= q.x + q.width <= t.width && 0 <= q.y <= q.y + q.height <= t.height
  }

  /** The texture rectangle is a sub-rectangle of the unit square. */
  predicate UnitRect(g: Glyph<real>) {
    0.0 <= g.s <= g.s2 <= 1.0 && 0.0 <= g.t <= g.t2 <= 1.0
  }

  lemma RatioOrder(a: real, b: real, w: real)
    requires w > 0.0 && a <= b
    ensures a / w <= b / w
  {
    assert b / w - a / w == (b - a) / w;
    assert (b - a) / w * w == b - a;
  }

  lemma RatioBounds(a: real, w: real)
    requires w > 0.0 && 0.0 <= a <= w
    ensures 0.0 <= a / w <= 1.0
  {
    RatioOrder(0.0, a, w);
    RatioOrder(a, w, w);
  }

  /** A glyph inside its page has texture coordinates in [0, 1], each lower edge below its upper one. */
  lemma InsideUnitRect(q: TtfGlyph, t: Texture, base: string)
    requires Record(q, t, base).Ok? && Inside(q, t)
    ensures UnitRect(Record(q, t, base).value)
  {
    var w := t.width as real;
    var h := t.height as real;
    RatioBounds(q.x as real, w);
    RatioBounds((q.x + q.width) as real, w);
    RatioOrder(q.x as real, (q.x + q.width) as real, w);
    RatioBounds(q.y as real, h);
    RatioBounds((q.y + q.height) as real, h);
    RatioOrder(q.y as real, (q.y + q.height) as real, h);
  }

  // ---------------------------------------------------------------------------
  // The whole atlas
  // ---------------------------------------------------------------------------

  predicate PageRecordable(t: Texture) {
    forall j :: 0 <= j < |t.ttfGlyphs| ==> Recordable(t.ttfGlyphs[j], t)
  }

  predicate AllRecordable(pages: seq<Texture>) {
    forall k :: 0 <= k < |pages| ==> PageRecordable(pages[k])
  }

  /** Each glyph's own page index is that of the page holding it. */
  predicate Tagged(pages: seq<Texture>) {
    forall k, j :: 0 <= k < |pages| && 0 <= j < |pages[k].ttfGlyphs| ==>
      pages[k].ttfGlyphs[j].textureIndex == pages[k].textureIndex
  }

  predicate AllInside(pages: seq<Texture>) {
    forall k, j :: 0 <= k < |pages| && 0 <= j < |pages[k].ttfGlyphs| ==> Inside(pages[k].ttfGlyphs[j], pages[k])
  }

  /** The records of one page, glyph by glyph. */
  lemma {:induction false} PageRecordsSpec(qs: seq<TtfGlyph>, t: Texture, base: string)
    ensures PageRecords(qs, t, base).Ok? <==> forall j :: 0 <= j < |qs| ==> Recordable(qs[j], t)
    ensures PageRecords(qs, t, base).Ok? ==>
      forall j :: 0 <= j < |qs| ==> Record(qs[j], t, base) == Ok(PageRecords(qs, t, base).value[j])
  {
    if |qs| > 0 {
      PageRecordsSpec(qs[1..], t, base);
      assert forall j :: 1 <= j < |qs| ==> qs[j] == qs[1..][j - 1];
    }
  }

  /** What a record promises about its glyph, in the order of `Flatten`. */
  predicate Promised(g: Glyph<real>, q: TtfGlyph, base: string, tagged: bool, inside: bool) {
    && Describes(g, q)
    && (tagged ==> g.shaderName == ShaderName(base, q.textureIndex))
    && (inside ==> UnitRect(g))
  }

  /** One page's records keep every promise. */
  lemma PagePromises(t: Texture, base: string, tagged: bool, inside: bool)
    requires PageRecords(t.ttfGlyphs, t, base).Ok?
    requires tagged ==> forall j :: 0 <= j < |t.ttfGlyphs| ==> t.ttfGlyphs[j].textureIndex == t.textureIndex
    requires inside ==> forall j :: 0 <= j < |t.ttfGlyphs| ==> Inside(t.ttfGlyphs[j], t)
    ensures var r := PageRecords(t.ttfGlyphs, t, base).value;
      forall j :: 0 <= j < |r| ==> Promised(r[j], t.ttfGlyphs[j], base, tagged, inside)
  {
    PageRecordsSpec(t.ttfGlyphs, t, base);
    var r := PageRecords(t.ttfGlyphs, t, base).value;
    forall j | 0 <= j < |r| ensures Promised(r[j], t.ttfGlyphs[j], base, tagged, inside) {
      if inside { InsideUnitRect(t.ttfGlyphs[j], t, base); }
    }
  }

  /** The records come out exactly when every glyph has one character and sits on a page with an area. */
  lemma {:induction false} GenerateOk(pages: seq<Texture>, base: string)
    ensures GenerateGlyphsData(pages, base).Ok? <==> AllRecordable(pages)
  {
    if |pages| > 0 {
      var front := pages[..|pages| - 1];
      var t := pages[|pages| - 1];
      GenerateOk(front, base);
      assert PageRecords(t.ttfGlyphs, t, base).Ok? <==> PageRecordable(t) by {
        PageRecordsSpec(t.ttfGlyphs, t, base);
      }
      assert AllRecordable(pages) <==> AllRecordable(front) && PageRecordable(t) by {
        assert pages == front + [t];
        AllRecordableSnoc(front, t);
      }
    }
  }

  lemma AllRecordableSnoc(front: seq<Texture>, t: Texture)
    ensures AllRecordable(front + [t]) <==> AllRecordable(front) && PageRecordable(t)
  {
    assert forall k :: 0 <= k < |front| ==> (front + [t])[k] == front[k];
    assert (front + [t])[|front|] == t;
  }

  /**
   * There is one record per glyph, in page order, each describing its glyph.
   * When glyphs carry their page's index, each record names that page's
   * shader; when they lie inside their pages, their texture rectangles lie in
   * the unit square.
   */
  lemma {:induction false} GeneratePromises(pages: seq<Texture>, base: string)
    requires GenerateGlyphsData(pages, base).Ok?
    ensures var r := GenerateGlyphsData(pages, base).value;
      forall i :: 0 <= i < |r| ==> Promised(r[i], Flatten(pages)[i], base, Tagged(pages), AllInside(pages))
  {
    if |pages| > 0 {
      var front := pages[..|pages| - 1];
      var t := pages[|pages| - 1];
      var a := GenerateGlyphsData(front, base).value;
      var b := PageRecords(t.ttfGlyphs, t, base).value;
      var r := GenerateGlyphsData(pages, base).value;
      assert r == a + b;
      assert Flatten(pages) == Flatten(front) + t.ttfGlyphs;
      var tagged := Tagged(pages);
      var inside := AllInside(pages);
      assert forall k :: 0 <= k < |front| ==> front[k] == pages[k];
      assert tagged ==> Tagged(front);
      assert inside ==> AllInside(front);
      GeneratePromises(front, base);
      PagePromises(t, base, tagged, inside);
      forall i | 0 <= i < |r| ensures Promised(r[i], Flatten(pages)[i], base, tagged, inside) {
        if i < |a| {
          assert Promised(a[i], Flatten(front)[i], base, Tagged(front), AllInside(front));
        } else {
          assert r[i] == b[i - |a|];
        }
      }
    }
  }

  /**
   * The packer's guarantees give both premises of `GeneratePromises`: on pages it
   * numbered, with a margin that is not negative and every glyph inside the
   * margins, glyphs carry their page's index and lie inside their page.
   */
  lemma PackedPagesInside(pages: seq<Texture>, p: PackParams)
    requires Numbered(pages, p) && AllInMargins(pages, p) && AllInBounds(pages, p) && p.margin >= 0
    requires forall k, j :: 0 <= k < |pages| && 0 <= j < |pages[k].ttfGlyphs| ==>
      pages[k].ttfGlyphs[j].width >= 0 && pages[k].ttfGlyphs[j].height >= 0
    ensures Tagged(pages) && AllInside(pages)
  {
    forall k, j | 0 <= k < |pages| && 0 <= j < |pages[k].ttfGlyphs|
      ensures pages[k].ttfGlyphs[j].textureIndex == pages[k].textureIndex
      ensures Inside(pages[k].ttfGlyphs[j], pages[k])
    {
      assert PageShape(pages[k], k, p);
      assert InMargins(pages[k].ttfGlyphs[j], p);
      assert InBounds(pages[k].ttfGlyphs[j], p);
    }
  }
}
