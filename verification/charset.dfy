/**
 * `FontImage._get_available_characters`: the characters the converter offers
 * to render are every Latin-1 code point together with the code points the
 * font's format-4 character maps cover, from 0 up to and including the glyph
 * count, in code point order. Characters are represented by their code points.
 */
module Charset {
  import opened PyStr

  /** A subtable of the font's `cmap`: its format number and the code points it maps. */
  datatype CmapTable = CmapTable(format: int, codes: set<int>)

  /** Some format-4 table of `tables` maps `c`. */
  predicate Mapped(c: int, tables: seq<CmapTable>) {
    exists k :: 0 <= k < |tables| && tables[k].format == 4 && c in tables[k].codes
  }

  /** A character is offered when it is Latin-1, or mapped by a format-4 table and at most `maxGlyphs`. */
  predicate Available(c: int, tables: seq<CmapTable>, maxGlyphs: int) {
    0 <= c < 256 || (0 <= c <= maxGlyphs && Mapped(c, tables))
  }

  lemma MappedSnoc(c: int, tables: seq<CmapTable>, k: nat)
    requires k < |tables|
    ensures Mapped(c, tables[..k + 1]) <==> Mapped(c, tables[..k]) || (tables[k].format == 4 && c in tables[k].codes)
  {
    if Mapped(c, tables[..k + 1]) {
      var j :| 0 <= j < k + 1 && tables[..k + 1][j].format == 4 && c in tables[..k + 1][j].codes;
      if j < k { assert tables[..k][j] == tables[j]; }
    }
    if Mapped(c, tables[..k]) {
      var j :| 0 <= j < k && tables[..k][j].format == 4 && c in tables[..k][j].codes;
      assert tables[..k + 1][j] == tables[j];
    }
    if tables[k].format == 4 && c in tables[k].codes {
      assert tables[..k + 1][k] == tables[k];
    }
  }

  /** The set of offered characters, built the way the source builds it: Latin-1 first, then table by table. */
  method AvailableSet(tables: seq<CmapTable>, maxGlyphs: int) returns (avail: set<int>)
    ensures forall c :: c in avail <==> Available(c, tables, maxGlyphs)
  {
    avail := {};
    var i := 0;
    while i < 256
      invariant 0 <= i <= 256
      invariant forall c :: c in avail <==> 0 <= c < i
    {
      avail := avail + {i};
      i := i + 1;
    }
    var k := 0;
    while k < |tables|
      invariant 0 <= k <= |tables|
      invariant forall c :: c in avail <==> Available(c, tables[..k], maxGlyphs)
    {
      if tables[k].format == 4 {
        var keys := tables[k].codes;
        var seen: set<int> := {};
        while keys != {}
          invariant keys + seen == tables[k].codes && keys !! seen
          invariant forall c :: c in avail <==>
            Available(c, tables[..k], maxGlyphs) || (c in seen && 0 <= c <= maxGlyphs)
          decreases keys
        {
          var code :| code in keys;
          if 0 <= code <= maxGlyphs {
            avail := avail + {code};
          }
          keys := keys - {code};
          seen := seen + {code};
        }
      }
      forall c
        ensures Available(c, tables[..k + 1], maxGlyphs) <==>
          (Available(c, tables[..k], maxGlyphs) || (tables[k].format == 4 && c in tables[k].codes && 0 <= c <= maxGlyphs))
      {
        MappedSnoc(c, tables, k);
      }
      k := k + 1;
    }
    assert tables[..k] == tables;
  }

  /** `sorted(list(avail))` for a set of naturals below `bound`: each element once, in increasing order. */
  method SortedList(avail: set<int>, bound: nat) returns (r: seq<int>)
    requires forall c :: c in avail ==> 0 <= c < bound
    ensures Ascending(r)
    ensures forall c :: c in r <==> c in avail
  {
    r := [];
    var i := 0;
    while i < bound
      invariant 0 <= i <= bound
      invariant Ascending(r)
      invariant forall j :: 0 <= j < |r| ==> r[j] < i
      invariant forall c :: c in r <==> c in avail && c < i
    {
      if i in avail {
        r := r + [i];
      }
      i := i + 1;
    }
  }

  /**
   * `_get_available_characters()`: the offered characters in increasing code
   * point order, each once, and exactly the Latin-1 ones and the format-4
   * mapped ones up to and including `maxGlyphs`.
   */
  method GetAvailableCharacters(tables: seq<CmapTable>, maxGlyphs: int) returns (r: seq<int>)
    ensures Ascending(r)
    ensures forall c :: c in r <==> Available(c, tables, maxGlyphs)
  {
    var avail := AvailableSet(tables, maxGlyphs);
    r := SortedList(avail, Max(256, maxGlyphs + 1));
  }
}
