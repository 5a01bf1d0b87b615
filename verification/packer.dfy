/**
 * The shelf packer of `FontImage.pack_textures`: rendered glyphs are laid out
 * left to right in rows on fixed-size atlas pages, in input order. A glyph that
 * would cross the right margin starts a new row; one that would then cross the
 * bottom margin starts a new page. There is no capacity check: a glyph larger
 * than a page is placed anyway, and a page can be closed before anything was
 * put on it.
 */
module Packer {
  import opened PyStr
  import opened Settings

  /** The four keyword arguments of `pack_textures`. */
  datatype PackParams = PackParams(width: int, height: int, spacing: int, margin: int)

  /** `pack_textures()` with its defaults: 1024x1024 pages, 2 pixels apart, 16 from the edges. */
  const DefaultParams: PackParams := PackParams(1024, 1024, 2, 16)

  /** `current_x`, `current_y` and `max_row_height`. */
  datatype Cursor = Cursor(x: int, y: int, rowHeight: int)

  /** The closed pages (`self.textures`), the page being filled and the cursor on it. */
  datatype PackState = PackState(pages: seq<Texture>, current: Texture, cursor: Cursor)

  /** A new page: `Texture()` given its index and the page size, holding no glyph. */
  function Blank(index: int, p: PackParams): Texture {
    FreshTexture.(textureIndex := index, width := p.width, height := p.height)
  }

  function Start(p: PackParams): PackState {
    PackState([], Blank(0, p), Cursor(p.margin, p.margin, 0))
  }

  /**
   * A glyph that would cross the right margin starts a new row below the
   * tallest of the current one. Afterwards the glyph ends inside the right
   * margin or heads an empty row at the left margin, and rows never move up.
   */
  function Wrap(c: Cursor, g: TtfGlyph, p: PackParams): (r: Cursor)
    ensures r.x + g.width <= p.width - p.margin || (r.x == p.margin && r.rowHeight == 0)
    ensures c.rowHeight + p.spacing >= 0 ==> r.y >= c.y
  {
    if c.x + g.width > p.width - p.margin then Cursor(p.margin, c.y + c.rowHeight + p.spacing, 0)
    else c
  }

  /**
   * A glyph that would then cross the bottom margin closes the page, empty or
   * not, and opens the next. Afterwards the glyph ends above the bottom margin
   * or starts a fresh page at the margins; otherwise nothing changes.
   */
  function Turn(st: PackState, g: TtfGlyph, p: PackParams): (r: PackState)
    ensures r.cursor.y + g.height <= p.height - p.margin || r.cursor == Cursor(p.margin, p.margin, 0)
    ensures r == st || (r.pages == st.pages + [st.current] && |r.current.ttfGlyphs| == 0 &&
      r.current.textureIndex == st.current.textureIndex + 1 && r.cursor == Cursor(p.margin, p.margin, 0))
  {
    if st.cursor.y + g.height > p.height - p.margin then
      PackState(st.pages + [st.current], Blank(st.current.textureIndex + 1, p), Cursor(p.margin, p.margin, 0))
    else st
  }

  /**
   * The glyph goes at the cursor on the current page, after the glyphs already
   * there, and the cursor moves past it; the row is at least as tall as it.
   */
  function Put(st: PackState, g: TtfGlyph, p: PackParams): (r: PackState)
    ensures r.pages == st.pages && r.current.textureIndex == st.current.textureIndex
    ensures var n := |st.current.ttfGlyphs|;
      && |r.current.ttfGlyphs| == n + 1 && r.current.ttfGlyphs[..n] == st.current.ttfGlyphs
      && PlacedFrom(r.current.ttfGlyphs[n], g)
      && r.current.ttfGlyphs[n].x == st.cursor.x && r.current.ttfGlyphs[n].y == st.cursor.y
    ensures r.cursor.x == st.cursor.x + g.width + p.spacing && r.cursor.y == st.cursor.y
    ensures r.cursor.rowHeight >= st.cursor.rowHeight && r.cursor.rowHeight >= g.height
  {
    var c := st.cursor;
    var placed := g.(x := c.x, y := c.y, textureIndex := st.current.textureIndex);
    PackState(st.pages, st.current.(ttfGlyphs := st.current.ttfGlyphs + [placed]),
      Cursor(c.x + g.width + p.spacing, c.y, Max(c.rowHeight, g.height)))
  }

  /** One iteration of the loop over the glyphs. */
  function Step(st: PackState, g: TtfGlyph, p: PackParams): PackState {
    Put(Turn(st.(cursor := Wrap(st.cursor, g, p)), g, p), g, p)
  }

  /** The state after the loop has consumed `glyphs`. */
  function Run(glyphs: seq<TtfGlyph>, p: PackParams): PackState {
    if |glyphs| == 0 then Start(p)
    else Step(Run(glyphs[..|glyphs| - 1], p), glyphs[|glyphs| - 1], p)
  }

  /** The page being filled is kept only when something is on it. */
  function Finish(st: PackState): seq<Texture> {
    if |st.current.ttfGlyphs| > 0 then st.pages + [st.current] else st.pages
  }

  /** `self.textures` after `pack_textures`: no page for no glyph, and at least one page otherwise. */
  function Pack(glyphs: seq<TtfGlyph>, p: PackParams): (r: seq<Texture>)
    ensures |r| == 0 <==> |glyphs| == 0
  {
    Finish(Run(glyphs, p))
  }

  // ---------------------------------------------------------------------------
  // What the packer promises
  // ---------------------------------------------------------------------------

  /** The glyphs of the pages, page after page. */
  function Flatten(pages: seq<Texture>): seq<TtfGlyph> {
    if |pages| == 0 then [] else Flatten(pages[..|pages| - 1]) + pages[|pages| - 1].ttfGlyphs
  }

  /** `q` is `g` given a place: only the position and the page index may differ. */
  predicate PlacedFrom(q: TtfGlyph, g: TtfGlyph) {
    q == g.(x := q.x, y := q.y, textureIndex := q.textureIndex)
  }

  predicate PlacedAll(qs: seq<TtfGlyph>, gs: seq<TtfGlyph>) {
    |qs| == |gs| && forall i :: 0 <= i < |qs| ==> PlacedFrom(qs[i], gs[i])
  }

  /** Page `k` of the given size, and every glyph on it knows it is on page `k`. */
  predicate PageShape(t: Texture, k: int, p: PackParams) {
    && t.textureIndex == k && t.width == p.width && t.height == p.height
    && forall j :: 0 <= j < |t.ttfGlyphs| ==> t.ttfGlyphs[j].textureIndex == k
  }

  predicate Numbered(pages: seq<Texture>, p: PackParams) {
    forall k :: 0 <= k < |pages| ==> PageShape(pages[k], k, p)
  }

  predicate InMargins(q: TtfGlyph, p: PackParams) {
    q.x >= p.margin && q.y >= p.margin
  }

  predicate PageInMargins(t: Texture, p: PackParams) {
    forall j :: 0 <= j < |t.ttfGlyphs| ==> InMargins(t.ttfGlyphs[j], p)
  }

  predicate AllInMargins(pages: seq<Texture>, p: PackParams) {
    forall k :: 0 <= k < |pages| ==> PageInMargins(pages[k], p)
  }

  /** The glyph is no larger than the page inside its margins. */
  predicate Fits(g: TtfGlyph, p: PackParams) {
    g.width <= p.width - 2 * p.margin && g.height <= p.height - 2 * p.margin
  }

  predicate InBounds(q: TtfGlyph, p: PackParams) {
    q.x + q.width <= p.width - p.margin && q.y + q.height <= p.height - p.margin
  }

  predicate PageInBounds(t: Texture, p: PackParams) {
    forall j :: 0 <= j < |t.ttfGlyphs| ==> InBounds(t.ttfGlyphs[j], p)
  }

  predicate AllInBounds(pages: seq<Texture>, p: PackParams) {
    forall k :: 0 <= k < |pages| ==> PageInBounds(pages[k], p)
  }

  predicate NoEmptyPage(pages: seq<Texture>) {
    forall k :: 0 <= k < |pages| ==> |pages[k].ttfGlyphs| > 0
  }

  /** The rectangles `[x, x+width) x [y, y+height)` of two glyphs do not meet. */
  predicate Apart(a: TtfGlyph, b: TtfGlyph) {
    a.x + a.width <= b.x || b.x + b.width <= a.x || a.y + a.height <= b.y || b.y + b.height <= a.y
  }

  predicate PageApart(t: Texture) {
    forall i, j :: 0 <= i < j < |t.ttfGlyphs| ==> Apart(t.ttfGlyphs[i], t.ttfGlyphs[j])
  }

  predicate AllApart(pages: seq<Texture>) {
    forall k :: 0 <= k < |pages| ==> PageApart(pages[k])
  }

  /** No spacing goes backwards and no glyph has a negative width. */
  predicate Forward(glyphs: seq<TtfGlyph>, p: PackParams) {
    p.spacing >= 0 && forall i :: 0 <= i < |glyphs| ==> glyphs[i].width >= 0
  }

  predicate AllFit(glyphs: seq<TtfGlyph>, p: PackParams) {
    forall i :: 0 <= i < |glyphs| ==> Fits(glyphs[i], p)
  }

  // ---------------------------------------------------------------------------
  // Invariants of the loop
  // ---------------------------------------------------------------------------

  /** Every glyph of the current page is in an earlier row, or left of the cursor in its row. */
  predicate Behind(q: TtfGlyph, c: Cursor) {
    q.y + q.height <= c.y || (q.y == c.y && q.x + q.width <= c.x && q.height <= c.rowHeight)
  }

  predicate RowsBehind(t: Texture, c: Cursor) {
    forall j :: 0 <= j < |t.ttfGlyphs| ==> Behind(t.ttfGlyphs[j], c)
  }

  /** Holds in every state the loop reaches. */
  predicate Sound(st: PackState, p: PackParams) {
    && Numbered(st.pages, p) && PageShape(st.current, |st.pages|, p)
    && st.cursor.rowHeight >= 0
    && (st.current.ttfGlyphs == [] ==> st.cursor == Cursor(p.margin, p.margin, 0))
  }

  predicate MarginsKept(st: PackState, p: PackParams) {
    && st.cursor.x >= p.margin && st.cursor.y >= p.margin
    && AllInMargins(st.pages, p) && PageInMargins(st.current, p)
  }

  predicate BoundsKept(st: PackState, p: PackParams) {
    AllInBounds(st.pages, p) && PageInBounds(st.current, p) && NoEmptyPage(st.pages)
  }

  predicate ApartKept(st: PackState) {
    AllApart(st.pages) && PageApart(st.current) && RowsBehind(st.current, st.cursor)
  }

  lemma FlattenSnoc(pages: seq<Texture>, t: Texture)
    ensures Flatten(pages + [t]) == Flatten(pages) + t.ttfGlyphs
  {
    assert (pages + [t])[..|pages|] == pages;
  }

  /** A step keeps the page numbering and places exactly the glyph it is given, after all earlier ones. */
  lemma StepSound(st: PackState, g: TtfGlyph, p: PackParams)
    requires Sound(st, p)
    ensures Sound(Step(st, g, p), p)
    ensures var st' := Step(st, g, p);
      && |st'.current.ttfGlyphs| > 0
      && Flatten(st'.pages) + st'.current.ttfGlyphs[..|st'.current.ttfGlyphs| - 1]
         == Flatten(st.pages) + st.current.ttfGlyphs
      && PlacedFrom(st'.current.ttfGlyphs[|st'.current.ttfGlyphs| - 1], g)
  {
    var w := st.(cursor := Wrap(st.cursor, g, p));
    var t := Turn(w, g, p);
    if t != w {
      FlattenSnoc(st.pages, st.current);
      assert Numbered(t.pages, p) by {
        forall k | 0 <= k < |t.pages| ensures PageShape(t.pages[k], k, p) {
          if k < |st.pages| { assert t.pages[k] == st.pages[k]; }
        }
      }
    }
    var st' := Put(t, g, p);
    assert st'.current.ttfGlyphs[..|st'.current.ttfGlyphs| - 1] == t.current.ttfGlyphs;
  }

  /** With no backward spacing and no negative width, every glyph lands inside the top and left margins. */
  lemma StepMargins(st: PackState, g: TtfGlyph, p: PackParams)
    requires Sound(st, p) && MarginsKept(st, p) && p.spacing >= 0 && g.width >= 0
    ensures MarginsKept(Step(st, g, p), p)
  {
    var w := st.(cursor := Wrap(st.cursor, g, p));
    var t := Turn(w, g, p);
    if t != w {
      assert AllInMargins(t.pages, p) by {
        forall k | 0 <= k < |t.pages| ensures PageInMargins(t.pages[k], p) {
          if k < |st.pages| { assert t.pages[k] == st.pages[k]; }
        }
      }
    }
  }

  /** When the glyph fits a page, it lands inside all four margins, and only a non-empty page is closed. */
  lemma StepBounds(st: PackState, g: TtfGlyph, p: PackParams)
    requires Sound(st, p) && BoundsKept(st, p) && Fits(g, p)
    ensures BoundsKept(Step(st, g, p), p)
  {
    var w := st.(cursor := Wrap(st.cursor, g, p));
    var t := Turn(w, g, p);
    if t != w {
      assert |st.current.ttfGlyphs| > 0;
      assert AllInBounds(t.pages, p) && NoEmptyPage(t.pages) by {
        forall k | 0 <= k < |t.pages| ensures PageInBounds(t.pages[k], p) && |t.pages[k].ttfGlyphs| > 0 {
          if k < |st.pages| { assert t.pages[k] == st.pages[k]; }
        }
      }
    }
  }

  /** The glyph is placed at the cursor, so it meets none of the glyphs behind the cursor. */
  lemma PutApart(t: PackState, g: TtfGlyph, p: PackParams)
    requires PageApart(t.current) && RowsBehind(t.current, t.cursor) && t.cursor.rowHeight >= 0
    requires p.spacing >= 0 && g.width >= 0
    ensures ApartKept(Put(t, g, p).(pages := []))
  {
    var st' := Put(t, g, p);
    var qs := st'.current.ttfGlyphs;
    assert forall j :: 0 <= j < |qs| - 1 ==> qs[j] == t.current.ttfGlyphs[j];
    assert PageApart(st'.current) by {
      forall i, j | 0 <= i < j < |qs| ensures Apart(qs[i], qs[j]) {
        if j == |qs| - 1 { assert Behind(qs[i], t.cursor); }
      }
    }
    assert RowsBehind(st'.current, st'.cursor) by {
      forall j | 0 <= j < |qs| ensures Behind(qs[j], st'.cursor) {
        if j < |qs| - 1 { assert Behind(qs[j], t.cursor); }
      }
    }
  }

  /** With no backward spacing and no negative width, glyphs on one page never overlap. */
  lemma StepApart(st: PackState, g: TtfGlyph, p: PackParams)
    requires Sound(st, p) && ApartKept(st) && p.spacing >= 0 && g.width >= 0
    ensures ApartKept(Step(st, g, p))
  {
    var w := st.(cursor := Wrap(st.cursor, g, p));
    assert RowsBehind(w.current, w.cursor) by {
      forall j | 0 <= j < |w.current.ttfGlyphs| ensures Behind(w.current.ttfGlyphs[j], w.cursor) {
        assert Behind(st.current.ttfGlyphs[j], st.cursor);
      }
    }
    var t := Turn(w, g, p);
    if t != w {
      assert AllApart(t.pages) by {
        forall k | 0 <= k < |t.pages| ensures PageApart(t.pages[k]) {
          if k < |st.pages| { assert t.pages[k] == st.pages[k]; }
        }
      }
    }
    PutApart(t, g, p);
  }

  lemma PlacedSnoc(qs: seq<TtfGlyph>, gs: seq<TtfGlyph>, q: TtfGlyph, g: TtfGlyph)
    requires PlacedAll(qs, gs) && PlacedFrom(q, g)
    ensures PlacedAll(qs + [q], gs + [g])
  {
  }

  /** The closed pages keep every property the loop kept, and the last page is added only when non-empty. */
  lemma FinishKeeps(st: PackState, glyphs: seq<TtfGlyph>, p: PackParams)
    requires Sound(st, p) && PlacedAll(Flatten(st.pages) + st.current.ttfGlyphs, glyphs)
    ensures Numbered(Finish(st), p)
    ensures PlacedAll(Flatten(Finish(st)), glyphs)
    ensures MarginsKept(st, p) ==> AllInMargins(Finish(st), p)
    ensures BoundsKept(st, p) ==> AllInBounds(Finish(st), p) && NoEmptyPage(Finish(st))
    ensures ApartKept(st) ==> AllApart(Finish(st))
  {
    if |st.current.ttfGlyphs| > 0 {
      FlattenSnoc(st.pages, st.current);
      assert forall k :: 0 <= k < |st.pages| ==> Finish(st)[k] == st.pages[k];
    } else {
      assert Flatten(st.pages) + st.current.ttfGlyphs == Flatten(st.pages);
    }
  }

  /** Everything the loop keeps after consuming `glyphs[..i]` into `st`. */
  predicate Reached(st: PackState, glyphs: seq<TtfGlyph>, i: nat, p: PackParams)
    requires i <= |glyphs|
  {
    && st == Run(glyphs[..i], p)
    && Sound(st, p)
    && PlacedAll(Flatten(st.pages) + st.current.ttfGlyphs, glyphs[..i])
    && (Forward(glyphs, p) ==> MarginsKept(st, p) && ApartKept(st))
    && (AllFit(glyphs, p) ==> BoundsKept(st, p))
  }

  /** One more glyph consumed keeps everything the loop keeps. */
  lemma StepReached(st: PackState, glyphs: seq<TtfGlyph>, i: nat, p: PackParams)
    requires i < |glyphs| && Reached(st, glyphs, i, p)
    ensures Reached(Step(st, glyphs[i], p), glyphs, i + 1, p)
  {
    var g := glyphs[i];
    var st' := Step(st, g, p);
    assert glyphs[..i + 1] == glyphs[..i] + [g];
    assert st' == Run(glyphs[..i + 1], p) by {
      assert glyphs[..i + 1][..i] == glyphs[..i];
    }
    StepSound(st, g, p);
    assert PlacedAll(Flatten(st'.pages) + st'.current.ttfGlyphs, glyphs[..i + 1]) by {
      var n := |st'.current.ttfGlyphs|;
      assert Flatten(st'.pages) + st'.current.ttfGlyphs
        == (Flatten(st'.pages) + st'.current.ttfGlyphs[..n - 1]) + [st'.current.ttfGlyphs[n - 1]];
      PlacedSnoc(Flatten(st.pages) + st.current.ttfGlyphs, glyphs[..i], st'.current.ttfGlyphs[n - 1], g);
    }
    if Forward(glyphs, p) {
      StepMargins(st, g, p);
      StepApart(st, g, p);
    }
    if AllFit(glyphs, p) {
      StepBounds(st, g, p);
    }
  }

  /**
   * `pack_textures` as the loop of the source. Whatever the sizes: pages are
   * numbered 0, 1, 2, ..., all of the given size, every glyph is on exactly one
   * of them, in input order, and carries its page's index. With no backward
   * spacing and no negative width: glyphs lie right of and below the margins,
   * and never overlap on a page. When every glyph fits a page: they also lie
   * inside the right and bottom margins, and no page is empty.
   */
  method PackTextures(glyphs: seq<TtfGlyph>, p: PackParams) returns (pages: seq<Texture>)
    ensures pages == Pack(glyphs, p)
    ensures Numbered(pages, p)
    ensures PlacedAll(Flatten(pages), glyphs)
    ensures Forward(glyphs, p) ==> AllInMargins(pages, p) && AllApart(pages)
    ensures AllFit(glyphs, p) ==> AllInBounds(pages, p) && NoEmptyPage(pages)
  {
    var st := Start(p);
    var i := 0;
    assert glyphs[..0] == [];
    while i < |glyphs|
      invariant 0 <= i <= |glyphs|
      invariant Reached(st, glyphs, i, p)
    {
      StepReached(st, glyphs, i, p);
      st := Step(st, glyphs[i], p);
      i := i + 1;
    }
    assert glyphs[..i] == glyphs;
    FinishKeeps(st, glyphs, p);
    pages := Finish(st);
  }

  /**
   * No capacity error: a first glyph taller than a page inside its margins
   * closes page 0 with nothing on it and goes on page 1.
   */
  lemma TallGlyphLeavesEmptyPage(g: TtfGlyph, p: PackParams)
    requires 2 * p.margin + g.width <= p.width && 2 * p.margin + g.height > p.height
    ensures Pack([g], p) == [Blank(0, p), Texture(1, p.width, p.height, [g.(x := p.margin, y := p.margin, textureIndex := 1)])]
  {
    assert [g][..0] == [];
    assert Run([g], p) == Step(Start(p), g, p);
    var placed := g.(x := p.margin, y := p.margin, textureIndex := 1);
    assert Step(Start(p), g, p).current.ttfGlyphs == [] + [placed] == [placed];
  }

  /**
   * With the defaults (1024x1024 pages, 16-pixel margins), a single glyph no
   * larger than 992x992 lands on page 0 at the top-left margin, and that page
   * is the only one.
   */
  lemma DefaultSingleGlyph(g: TtfGlyph)
    requires Fits(g, DefaultParams)
    ensures Pack([g], DefaultParams) == [Texture(0, 1024, 1024, [g.(x := 16, y := 16, textureIndex := 0)])]
  {
    var p := DefaultParams;
    assert [g][..0] == [];
    assert Run([g], p) == Step(Start(p), g, p);
    var placed := g.(x := 16, y := 16, textureIndex := 0);
    assert Step(Start(p), g, p).current.ttfGlyphs == [] + [placed] == [placed];
  }
}
