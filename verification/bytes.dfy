/**
 * Byte-level building blocks of the binary font format: little-endian signed
 * 32-bit integers (`int.to_bytes(4, 'little', signed=True)` and
 * `struct.unpack('<i')`), 4-byte floats kept as opaque bit patterns, the UTF-8
 * encoder used when writing names, the latin-1 decoder used when reading them,
 * and the fixed-width, NUL-padded string fields.
 */
module Bytes {
  import opened PyStr

  type byte = x: int | 0 <= x < 256

  const Int32Min: int := -0x8000_0000
  const Int32Max: int := 0x7FFF_FFFF
  const TwoTo32: int := 0x1_0000_0000

  predicate IsInt32(v: int) {
    Int32Min <= v <= Int32Max
  }

  // ---------------------------------------------------------------------------
  // Signed 32-bit little-endian integers
  // ---------------------------------------------------------------------------

  /** Two's-complement bytes of `v`, least significant first. Python raises
      OverflowError for values outside the int32 range; callers check IsInt32. */
  function Int32ToBytes(v: int): (r: seq<byte>)
    requires IsInt32(v)
    ensures |r| == 4
  {
    var u := if v < 0 then v + TwoTo32 else v;
    [u % 256, (u / 0x100) % 256, (u / 0x1_0000) % 256, (u / 0x100_0000) % 256]
  }

  /** The unsigned value of four little-endian bytes. */
  function LittleEndian32(b: seq<byte>): (u: int)
    requires |b| == 4
    ensures 0 <= u < TwoTo32
  {
    b[0] as int + 0x100 * (b[1] as int) + 0x1_0000 * (b[2] as int) + 0x100_0000 * (b[3] as int)
  }

  /** `struct.unpack('<i', b)[0]`. */
  function BytesToInt32(b: seq<byte>): (v: int)
    requires |b| == 4
    ensures IsInt32(v)
    ensures v >= 0 <==> b[3] < 0x80
  {
    var u := LittleEndian32(b);
    if u >= 0x8000_0000 then u - TwoTo32 else u
  }

  /** Splitting an unsigned 32-bit value into bytes and joining them again is the identity. */
  lemma {:induction false} LittleEndianSplit(u: int)
    requires 0 <= u < TwoTo32
    ensures LittleEndian32([u % 256, (u / 0x100) % 256, (u / 0x1_0000) % 256, (u / 0x100_0000) % 256]) == u
  {
    var b0, b1, b2, b3 := u % 256, (u / 0x100) % 256, (u / 0x1_0000) % 256, (u / 0x100_0000) % 256;
    assert u / 0x100 == (u / 0x1_0000) * 0x100 + b1;
    assert u / 0x1_0000 == (u / 0x100_0000) * 0x100 + b2;
    assert u / 0x100_0000 == b3;
    assert u == (u / 0x100) * 0x100 + b0;
  }

  /** Decoding what `to_bytes(4, 'little', signed=True)` wrote gives the value back. */
  lemma Int32RoundTrip(v: int)
    requires IsInt32(v)
    ensures BytesToInt32(Int32ToBytes(v)) == v
  {
    var u := if v < 0 then v + TwoTo32 else v;
    LittleEndianSplit(u);
  }

  /** Dividing `q * 256 + r` by 256 gives `q` back, with remainder `r`. */
  lemma DivMod256(q: int, r: int)
    requires 0 <= r < 256
    ensures (q * 256 + r) / 256 == q && (q * 256 + r) % 256 == r
  {
  }

  /** Re-encoding any four bytes read as an int32 reproduces them. */
  lemma {:induction false} Int32BytesRoundTrip(b: seq<byte>)
    requires |b| == 4
    ensures Int32ToBytes(BytesToInt32(b)) == b
  {
    var u := LittleEndian32(b);
    var u1 := b[1] as int + 0x100 * (b[2] as int) + 0x1_0000 * (b[3] as int);
    var u2 := b[2] as int + 0x100 * (b[3] as int);
    assert u == u1 * 256 + b[0];
    assert u1 == u2 * 256 + b[1];
    assert u2 == (b[3] as int) * 256 + b[2];
    DivMod256(u1, b[0]);
    DivMod256(u2, b[1]);
    DivMod256(b[3], b[2]);
    assert u / 0x100 == u1;
    assert u / 0x1_0000 == u1 / 0x100;
    assert u / 0x100_0000 == u2 / 0x100;
    assert (if BytesToInt32(b) < 0 then BytesToInt32(b) + TwoTo32 else BytesToInt32(b)) == u;
  }

  /** Zero is the only int32 whose encoding is four zero bytes. */
  lemma Int32ZeroBytes(v: int)
    requires IsInt32(v)
    ensures Int32ToBytes(v) == [0, 0, 0, 0] <==> v == 0
  {
    if Int32ToBytes(v) == [0, 0, 0, 0] {
      Int32RoundTrip(v);
      assert BytesToInt32([0, 0, 0, 0]) == 0;
    }
  }

  // ---------------------------------------------------------------------------
  // 4-byte floats, kept as their bit pattern
  // ---------------------------------------------------------------------------

  /** A binary32 value, represented by its four little-endian bytes. */
  datatype Float32 = Float32(b0: byte, b1: byte, b2: byte, b3: byte)

  /** +0.0 (all bits clear). */
  const FloatZero: Float32 := Float32(0, 0, 0, 0)

  /** 0.5, whose bit pattern is 0x3F000000. */
  const FloatHalf: Float32 := Float32(0, 0, 0, 0x3F)

  /** `struct.pack('<f', value)`. */
  function PackFloat32(f: Float32): (r: seq<byte>)
    ensures |r| == 4
  {
    [f.b0, f.b1, f.b2, f.b3]
  }

  /** `struct.unpack('<f', b)[0]`. */
  function UnpackFloat32(b: seq<byte>): Float32
    requires |b| == 4
  {
    Float32(b[0], b[1], b[2], b[3])
  }

  /**
   * Unpacking a packed float gives it back. This records the chosen
   * representation (a float is its own four bytes) rather than a fact about
   * binary32 arithmetic.
   */
  lemma FloatRoundTrip(f: Float32)
    ensures UnpackFloat32(PackFloat32(f)) == f
  {
  }

  /**
   * Packing the float unpacked from four bytes gives the bytes back; like the
   * lemma above, this holds by the choice of representation.
   */
  lemma FloatBytesRoundTrip(b: seq<byte>)
    requires |b| == 4
    ensures PackFloat32(UnpackFloat32(b)) == b
  {
  }

  // ---------------------------------------------------------------------------
  // Runs of fixed-width blocks
  // ---------------------------------------------------------------------------

  /** Blocks written one after the other. */
  function Concat(ws: seq<seq<byte>>): seq<byte> {
    if |ws| == 0 then [] else ws[0] + Concat(ws[1..])
  }

  predicate AllWidth(ws: seq<seq<byte>>, w: nat) {
    forall j :: 0 <= j < |ws| ==> |ws[j]| == w
  }

  predicate AllWords(ws: seq<seq<byte>>) {
    AllWidth(ws, 4)
  }

  lemma {:induction false} ConcatLength(ws: seq<seq<byte>>, w: nat)
    requires AllWidth(ws, w)
    ensures |Concat(ws)| == w * |ws|
    decreases |ws|
  {
    if |ws| > 0 {
      ConcatLength(ws[1..], w);
      assert w * |ws| == w + w * (|ws| - 1);
    }
  }

  /** Block `j` of a run of `w`-byte blocks sits at bytes `[w j, w j + w)`. */
  lemma {:induction false} ConcatBlock(ws: seq<seq<byte>>, w: nat, j: nat)
    requires AllWidth(ws, w) && j < |ws|
    ensures |Concat(ws)| == w * |ws|
    ensures w * j + w <= w * |ws|
    ensures Concat(ws)[w * j .. w * j + w] == ws[j]
    decreases |ws|
  {
    MulStep(w, j, |ws|);
    ConcatLength(ws, w);
    var rest := ws[1..];
    if j > 0 {
      ConcatBlock(rest, w, j - 1);
      assert w * j == w + w * (j - 1);
      assert ws[j] == rest[j - 1];
    }
  }

  lemma MulStep(w: nat, j: nat, n: nat)
    requires j < n
    ensures w * j + w <= w * n
  {
    assert w * j + w == w * (j + 1);
  }

  /** Word `j` of a run of 4-byte words sits at bytes `[4 j, 4 j + 4)`. */
  lemma ConcatWord(ws: seq<seq<byte>>, j: nat)
    requires AllWords(ws) && j < |ws|
    ensures |Concat(ws)| == 4 * |ws|
    ensures Concat(ws)[4 * j .. 4 * j + 4] == ws[j]
  {
    ConcatBlock(ws, 4, j);
  }

  lemma AllZeroAppend(a: seq<byte>, b: seq<byte>)
    ensures AllZero(a + b) <==> AllZero(a) && AllZero(b)
  {
    assert forall k :: 0 <= k < |a| ==> a[k] == (a + b)[k];
    assert forall k :: 0 <= k < |b| ==> b[k] == (a + b)[k + |a|];
  }

  lemma ZeroWord(w: seq<byte>)
    requires |w| == 4
    ensures AllZero(w) <==> w == [0, 0, 0, 0]
  {
  }

  /** Word `j` of a run, and what follows the run, are found in place behind it. */
  lemma WordsThenTail(ws: seq<seq<byte>>, tail: seq<byte>, j: nat)
    requires AllWords(ws) && j < |ws|
    ensures |Concat(ws)| == 4 * |ws|
    ensures (Concat(ws) + tail)[4 * j .. 4 * j + 4] == ws[j]
    ensures (Concat(ws) + tail)[4 * |ws|..] == tail
  {
    ConcatWord(ws, j);
    assert (Concat(ws) + tail)[4 * j .. 4 * j + 4] == Concat(ws)[4 * j .. 4 * j + 4];
  }

  /** A run of `w`-byte blocks equal to the first blocks of `b` is that prefix of `b`. */
  lemma {:induction false} ConcatOfBlocks(ws: seq<seq<byte>>, w: nat, b: seq<byte>)
    requires AllWidth(ws, w) && w * |ws| <= |b|
    requires forall j :: 0 <= j < |ws| ==> w * j + w <= |b| && ws[j] == b[w * j .. w * j + w]
    ensures Concat(ws) == b[..w * |ws|]
    decreases |ws|
  {
    if |ws| > 0 {
      var m := w * (|ws| - 1);
      assert w * |ws| == w + m;
      var rest := b[w..];
      BlocksShift(ws, w, b);
      ConcatOfBlocks(ws[1..], w, rest);
      assert ws[0] == b[0..w] by {
        assert w * 0 == 0;
      }
      assert b[..w + m] == b[0..w] + rest[..m];
    }
  }

  lemma BlocksShift(ws: seq<seq<byte>>, w: nat, b: seq<byte>)
    requires |ws| > 0 && w <= |b|
    requires forall j :: 0 <= j < |ws| ==> w * j + w <= |b| && ws[j] == b[w * j .. w * j + w]
    ensures forall j :: 0 <= j < |ws| - 1 ==> w * j + w <= |b[w..]| && ws[1..][j] == b[w..][w * j .. w * j + w]
  {
    var rest := b[w..];
    forall j | 0 <= j < |ws| - 1
      ensures w * j + w <= |rest| && ws[1..][j] == rest[w * j .. w * j + w]
    {
      assert ws[1..][j] == ws[j + 1];
      assert w * (j + 1) == w * j + w;
    }
  }

  /** A run of words equal to the first words of `b` is that prefix of `b`. */
  lemma ConcatOfSlices(ws: seq<seq<byte>>, b: seq<byte>)
    requires AllWords(ws) && 4 * |ws| <= |b|
    requires forall j :: 0 <= j < |ws| ==> ws[j] == b[4 * j .. 4 * j + 4]
    ensures Concat(ws) == b[..4 * |ws|]
  {
    ConcatOfBlocks(ws, 4, b);
  }

  /** A run of words is all zero exactly when every word is. */
  lemma {:induction false} ConcatZero(ws: seq<seq<byte>>)
    requires AllWords(ws)
    ensures AllZero(Concat(ws)) <==> forall j :: 0 <= j < |ws| ==> AllZero(ws[j])
    decreases |ws|
  {
    if |ws| > 0 {
      ConcatZero(ws[1..]);
      var rest := Concat(ws[1..]);
      assert Concat(ws) == ws[0] + rest;
      if AllZero(Concat(ws)) {
        assert AllZero(ws[0]) by {
          forall k | 0 <= k < |ws[0]| ensures ws[0][k] == 0 {
            assert ws[0][k] == Concat(ws)[k];
          }
        }
        assert AllZero(rest) by {
          forall k | 0 <= k < |rest| ensures rest[k] == 0 {
            assert rest[k] == Concat(ws)[k + |ws[0]|];
          }
        }
        forall j | 0 <= j < |ws| ensures AllZero(ws[j]) {
          if j > 0 {
            assert ws[j] == ws[1..][j - 1];
          }
        }
      } else if forall j :: 0 <= j < |ws| ==> AllZero(ws[j]) {
        assert forall j :: 0 <= j < |ws[1..]| ==> AllZero(ws[1..][j]);
      }
    }
  }

  // ---------------------------------------------------------------------------
  // Text encodings
  // ---------------------------------------------------------------------------

  /** The UTF-8 encoding of one Unicode scalar value. */
  function Utf8Char(c: char): (r: seq<byte>)
    ensures 1 <= |r| <= 4
    ensures |r| == 1 <==> c < 128 as char
    ensures c < 128 as char ==> r == [c as int]
  {
    var n := c as int;
    if n < 0x80 then [n]
    else if n < 0x800 then [0xC0 + n / 0x40, 0x80 + n % 0x40]
    else if n < 0x1_0000 then [0xE0 + n / 0x1000, 0x80 + (n / 0x40) % 0x40, 0x80 + n % 0x40]
    else [0xF0 + n / 0x4_0000, 0x80 + (n / 0x1000) % 0x40, 0x80 + (n / 0x40) % 0x40, 0x80 + n % 0x40]
  }

  /** `s.encode('utf-8')`. Never shorter than `s`; as long as `s` exactly when `s` is ASCII. */
  function EncodeUtf8(s: string): (r: seq<byte>)
    ensures |r| >= |s|
    ensures |r| == |s| <==> IsAscii(s)
    ensures IsAscii(s) ==> forall k :: 0 <= k < |s| ==> r[k] == s[k] as int
  {
    if |s| == 0 then []
    else
      var head := Utf8Char(s[0]);
      var tail := EncodeUtf8(s[1..]);
      assert IsAscii(s) <==> s[0] < 128 as char && IsAscii(s[1..]) by {
        if s[0] < 128 as char && IsAscii(s[1..]) {
          forall k | 0 <= k < |s| ensures s[k] < 128 as char {
            if k > 0 { assert s[k] == s[1..][k - 1]; }
          }
        }
      }
      head + tail
  }

  /** `bytes.decode('latin-1')`: every byte becomes the code point of the same value. */
  function Latin1(b: seq<byte>): (s: string)
    ensures |s| == |b|
    ensures forall k :: 0 <= k < |b| ==> s[k] as int == b[k]
  {
    seq(|b|, k requires 0 <= k < |b| => b[k] as char)
  }

  /** ASCII text survives a UTF-8 encode followed by a latin-1 decode. */
  lemma AsciiSurvivesLatin1(s: string)
    requires IsAscii(s)
    ensures Latin1(EncodeUtf8(s)) == s
  {
  }

  /** `bytes(n)`: n zero bytes. */
  function Zeros(n: nat): (r: seq<byte>)
    ensures |r| == n
    ensures forall k :: 0 <= k < n ==> r[k] == 0
  {
    seq(n, _ => 0)
  }

  predicate AllZero(b: seq<byte>) {
    forall k :: 0 <= k < |b| ==> b[k] == 0
  }

  /** `b.split(b'\x00', maxsplit=1)[0]`: the bytes before the first NUL. */
  function UntilNul(b: seq<byte>): (r: seq<byte>)
    ensures |r| <= |b| && r == b[..|r|]
    ensures forall k :: 0 <= k < |r| ==> r[k] != 0
    ensures |r| < |b| ==> b[|r|] == 0
  {
    if |b| == 0 || b[0] == 0 then [] else [b[0]] + UntilNul(b[1..])
  }

  /** The string counterpart of UntilNul: the characters before the first U+0000. */
  function TextUntilNul(s: string): (r: string)
    ensures |r| <= |s| && r == s[..|r|]
    ensures !HasNul(r)
    ensures |r| < |s| ==> s[|r|] == 0 as char
  {
    if |s| == 0 || s[0] == 0 as char then []
    else
      var rest := TextUntilNul(s[1..]);
      assert !HasNul(rest);
      [s[0]] + rest
  }

  /**
   * `dat_str_to_hex(string, byte_len)`: the string is cut or NUL-padded to
   * `width` CHARACTERS and then UTF-8 encoded, so the field is exactly `width`
   * bytes only when the kept characters are ASCII.
   */
  function EncodeFixed(s: string, width: nat): (r: seq<byte>)
    ensures |r| >= width
    ensures IsAscii(s) ==> |r| == width
  {
    if |s| > width then
      assert IsAscii(s) ==> IsAscii(s[..width]);
      EncodeUtf8(s[..width])
    else if |s| < width then EncodeUtf8(s) + Zeros(width - |s|)
    else EncodeUtf8(s)
  }

  /** Padding: the bytes after an ASCII text shorter than the field are all NUL. */
  lemma {:induction false} EncodeFixedLayout(s: string, width: nat)
    requires IsAscii(s)
    ensures forall k :: 0 <= k < width ==>
      EncodeFixed(s, width)[k] == (if k < |s| then s[k] as int else 0)
  {
    if |s| > width {
      assert IsAscii(s[..width]);
    }
  }

  /**
   * What a reader recovers from a fixed field written from ASCII text: the text
   * cut to the field width and then at its first U+0000.
   */
  lemma {:induction false} FixedFieldRoundTrip(s: string, width: nat)
    requires IsAscii(s)
    ensures Latin1(UntilNul(EncodeFixed(s, width))) == TextUntilNul(s[..Min(|s|, width)])
  {
    var e := EncodeFixed(s, width);
    var t := s[..Min(|s|, width)];
    EncodeFixedLayout(s, width);
    UntilNulAgree(e, t);
  }

  /**
   * Bytes that spell an ASCII text, followed by a NUL or by nothing, are cut
   * at the same place as the text.
   */
  lemma {:induction false} UntilNulAgree(e: seq<byte>, t: string)
    requires |t| <= |e|
    requires forall k :: 0 <= k < |t| ==> e[k] == t[k] as int
    requires |t| < |e| ==> e[|t|] == 0
    ensures Latin1(UntilNul(e)) == TextUntilNul(t)
    decreases |t|
  {
    if |t| > 0 && t[0] != 0 as char {
      assert e[0] != 0;
      UntilNulAgree(e[1..], t[1..]);
      var rest := UntilNul(e[1..]);
      assert UntilNul(e) == [e[0]] + rest;
      assert Latin1([e[0]] + rest) == [e[0] as char] + Latin1(rest);
    }
  }

  /** Every character of `s` a field of `width` keeps is U+0000. */
  predicate KeptAllNul(s: string, width: nat) {
    forall k :: 0 <= k < Min(|s|, width) ==> s[k] == 0 as char
  }

  /** The field is all NUL exactly when every kept character is U+0000. */
  lemma FixedFieldZero(s: string, width: nat)
    requires IsAscii(s)
    ensures AllZero(EncodeFixed(s, width)) <==> KeptAllNul(s, width)
  {
    EncodeFixedLayout(s, width);
  }

  /** Past its first NUL the field holds only NULs. */
  predicate NulPadded(f: seq<byte>) {
    f == UntilNul(f) + Zeros(|f| - |UntilNul(f)|)
  }

  /** An ASCII, NUL-padded field is written back byte for byte from the text read out of it. */
  lemma FixedFieldReencode(f: seq<byte>)
    requires forall k :: 0 <= k < |f| ==> f[k] < 128
    requires NulPadded(f)
    ensures IsAscii(Latin1(UntilNul(f)))
    ensures EncodeFixed(Latin1(UntilNul(f)), |f|) == f
  {
    var u := UntilNul(f);
    var s := Latin1(u);
    assert forall k :: 0 <= k < |u| ==> u[k] == f[k];
    assert IsAscii(s);
    var e := EncodeUtf8(s);
    assert e == u;
  }

  /** A NUL-free ASCII text that fits its field comes back unchanged. */
  lemma FixedFieldExact(s: string, width: nat)
    requires IsAscii(s) && !HasNul(s) && |s| <= width
    ensures Latin1(UntilNul(EncodeFixed(s, width))) == s
  {
    FixedFieldRoundTrip(s, width);
    assert s[..Min(|s|, width)] == s;
    NoNulIsWhole(s);
  }

  lemma {:induction false} NoNulIsWhole(s: string)
    requires !HasNul(s)
    ensures TextUntilNul(s) == s
  {
  }

  /**
   * Counting characters rather than bytes: a one-character non-ASCII name fills a
   * 32-byte field with 33 bytes, shifting every later byte of the file.
   */
  lemma NonAsciiWidens()
    ensures |EncodeFixed([0xE9 as char], 32)| == 33
  {
    assert Utf8Char(0xE9 as char) == [0xC3, 0xA9];
    assert EncodeUtf8([0xE9 as char]) == [0xC3, 0xA9];
  }
}
