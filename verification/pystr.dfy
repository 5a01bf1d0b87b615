/**
 * The Python string operations the converter relies on, each written out:
 * `in` (substring search), `split(sep, maxsplit=1)`, `strip()`, `split()[-1]`,
 * `replace(c, '')`, `str(int)`, `int(str)`, `format(n, '04X')`, and what
 * `sorted` promises of a list without duplicates.
 */
module PyStr {
  import opened Wrappers

  /** `c.isspace()` for the characters Python treats as whitespace. */
  predicate IsSpace(c: char) {
    var n := c as int;
    n == 0x20 || 0x09 <= n <= 0x0D || 0x1C <= n <= 0x1F || n == 0x85 || n == 0xA0 || n == 0x1680
    || 0x2000 <= n <= 0x200A || n == 0x2028 || n == 0x2029 || n == 0x202F || n == 0x205F || n == 0x3000
  }

  predicate IsAscii(s: string) {
    forall k :: 0 <= k < |s| ==> s[k] < 128 as char
  }

  predicate HasNul(s: string) {
    exists k :: 0 <= k < |s| && s[k] == 0 as char
  }

  predicate AllSpace(s: string) {
    forall k :: 0 <= k < |s| ==> IsSpace(s[k])
  }

  predicate NoSpace(s: string) {
    forall k :: 0 <= k < |s| ==> !IsSpace(s[k])
  }

  // ---------------------------------------------------------------------------
  // Substring search
  // ---------------------------------------------------------------------------

  predicate OccursAt(s: string, p: string, j: int) {
    0 <= j && j + |p| <= |s| && s[j..j + |p|] == p
  }

  /** The first position at or after `k` where `p` occurs in `s`. */
  function FindFrom(s: string, p: string, k: nat): (r: Option<nat>)
    ensures r.Some? ==> k <= r.value && r.value + |p| <= |s|
    decreases |s| - k
  {
    if k + |p| > |s| then None
    else if s[k..k + |p|] == p then Some(k)
    else FindFrom(s, p, k + 1)
  }

  /** The search from `k` finds the first occurrence at or after `k`, and fails only when there is none. */
  lemma {:induction false} FindFromSpec(s: string, p: string, k: nat)
    ensures var r := FindFrom(s, p, k);
      && (r.Some? ==> OccursAt(s, p, r.value) && forall j :: k <= j < r.value ==> !OccursAt(s, p, j))
      && (r.None? ==> forall j :: k <= j ==> !OccursAt(s, p, j))
    decreases |s| - k
  {
    if k + |p| <= |s| && s[k..k + |p|] != p {
      FindFromSpec(s, p, k + 1);
    }
  }

  /** `s.find(p)`, as an option. */
  function Find(s: string, p: string): (r: Option<nat>)
    ensures r.Some? ==> r.value + |p| <= |s|
  {
    FindFrom(s, p, 0)
  }

  /** `s.find(p)` is the first occurrence of `p`, and there is none exactly when it fails. */
  lemma FindSpec(s: string, p: string)
    ensures var r := Find(s, p);
      && (r.Some? ==> OccursAt(s, p, r.value) && forall j :: 0 <= j < r.value ==> !OccursAt(s, p, j))
      && (r.None? <==> forall j :: !OccursAt(s, p, j))
  {
    FindFromSpec(s, p, 0);
  }

  /** `p in s`. */
  predicate Contains(s: string, p: string) {
    Find(s, p).Some?
  }

  /** `s.split(p, maxsplit=1)[0]`, which is also `s.split(p)[0]`. */
  function Before(s: string, p: string): (r: string)
    ensures Contains(s, p) ==> r == s[..Find(s, p).value]
    ensures !Contains(s, p) ==> r == s
  {
    match Find(s, p)
    case Some(k) => s[..k]
    case None => s
  }

  /** `s.split(p, maxsplit=1)[-1]`. */
  function After(s: string, p: string): (r: string)
    ensures Contains(s, p) ==> r == s[Find(s, p).value + |p|..]
    ensures !Contains(s, p) ==> r == s
  {
    match Find(s, p)
    case Some(k) => s[k + |p|..]
    case None => s
  }

  /** An occurrence anywhere makes `p in s` hold. */
  lemma OccursContained(s: string, p: string, j: int)
    requires OccursAt(s, p, j)
    ensures Contains(s, p)
  {
    FindSpec(s, p);
  }

  /** Every occurrence of `p` needs each character of `p`; absent one, `p` is absent. */
  lemma MissingCharNotContained(s: string, p: string, c: char)
    requires c in p && c !in s
    ensures !Contains(s, p)
  {
    FindSpec(s, p);
  }

  /** A pattern found in a prefix of a text is found in the text, at the same place. */
  lemma OccursInLonger(s: string, t: string, p: string, j: int)
    requires OccursAt(s, p, j)
    ensures OccursAt(s + t, p, j)
  {
    assert (s + t)[j..j + |p|] == s[j..j + |p|];
  }

  /** What occurs in a slice of a text occurs in the text. */
  lemma ContainedInSlice(s: string, a: nat, b: nat, p: string)
    requires a <= b <= |s| && Contains(s[a..b], p)
    ensures Contains(s, p)
  {
    var t := s[a..b];
    FindSpec(t, p);
    var j := Find(t, p).value;
    assert t[j..j + |p|] == p;
    assert s[a + j..a + j + |p|] == t[j..j + |p|];
    assert OccursAt(s, p, a + j);
    OccursContained(s, p, a + j);
  }

  /** The text before the first occurrence of a non-empty pattern holds no occurrence of it. */
  lemma BeforeLacks(s: string, p: string)
    requires |p| > 0
    ensures !Contains(Before(s, p), p)
  {
    FindSpec(s, p);
    if Contains(s, p) {
      var t := s[..Find(s, p).value];
      FindSpec(t, p);
      if Contains(t, p) {
        var j := Find(t, p).value;
        assert s[j..j + |p|] == t[j..j + |p|];
        assert OccursAt(s, p, j);
      }
    }
  }

  /** A character the pattern does not use, appended to a text, creates no occurrence. */
  lemma AppendKeepsLack(u: string, c: char, p: string)
    requires |p| > 0 && c !in p && !Contains(u, p)
    ensures !Contains(u + [c], p)
  {
    FindSpec(u, p);
    FindSpec(u + [c], p);
    forall j ensures !OccursAt(u + [c], p, j) {
      if 0 <= j && j + |p| <= |u| {
        assert (u + [c])[j..j + |p|] == u[j..j + |p|];
        assert !OccursAt(u, p, j);
      } else if 0 <= j && j + |p| == |u| + 1 {
        assert (u + [c])[j..j + |p|][|p| - 1] == c;
        assert p[|p| - 1] in p;
      }
    }
  }

  // ---------------------------------------------------------------------------
  // strip / split
  // ---------------------------------------------------------------------------

  /** `s.lstrip()`: what follows the leading whitespace. */
  function TrimStart(s: string): (r: string)
    ensures |r| <= |s|
  {
    if |s| > 0 && IsSpace(s[0]) then TrimStart(s[1..]) else s
  }

  /** `TrimStart` keeps a suffix that does not start with whitespace, and everything it drops is whitespace. */
  lemma {:induction false} TrimStartSpec(s: string)
    ensures var r := TrimStart(s);
      && r == s[|s| - |r|..]
      && (|r| > 0 ==> !IsSpace(r[0]))
      && forall k :: 0 <= k < |s| - |r| ==> IsSpace(s[k])
    decreases |s|
  {
    if |s| > 0 && IsSpace(s[0]) {
      TrimStartSpec(s[1..]);
      forall k | 1 <= k < |s| - |TrimStart(s)| ensures IsSpace(s[k]) {
        assert s[k] == s[1..][k - 1];
      }
    }
  }

  /** `s.rstrip()`: what precedes the trailing whitespace. */
  function TrimEnd(s: string): (r: string)
    ensures |r| <= |s|
  {
    if |s| > 0 && IsSpace(s[|s| - 1]) then TrimEnd(s[..|s| - 1]) else s
  }

  /** `TrimEnd` keeps a prefix that does not end with whitespace, and everything it drops is whitespace. */
  lemma {:induction false} TrimEndSpec(s: string)
    ensures var r := TrimEnd(s);
      && r == s[..|r|]
      && (|r| > 0 ==> !IsSpace(r[|r| - 1]))
      && forall k :: |r| <= k < |s| ==> IsSpace(s[k])
    decreases |s|
  {
    if |s| > 0 && IsSpace(s[|s| - 1]) {
      TrimEndSpec(s[..|s| - 1]);
      forall k | |TrimEnd(s)| <= k < |s| - 1 ensures IsSpace(s[k]) {
        assert s[k] == s[..|s| - 1][k];
      }
    }
  }

  /** `s.strip()`: the text without leading and trailing whitespace. */
  function Strip(s: string): (r: string)
  {
    TrimEnd(TrimStart(s))
  }

  /**
   * `r` is the contiguous part `s[a..a + |r|]` of `s`, its ends are not
   * whitespace, and what lies on either side of it is all whitespace.
   */
  predicate Framed(s: string, a: int, r: string) {
    && 0 <= a && a + |r| <= |s| && r == s[a..a + |r|]
    && AllSpace(s[..a]) && AllSpace(s[a + |r|..])
    && (|r| > 0 ==> !IsSpace(r[0]) && !IsSpace(r[|r| - 1]))
  }

  /** Strip keeps the middle of the text and drops only whitespace around it. */
  lemma StripSpec(s: string)
    ensures Framed(s, |s| - |TrimStart(s)|, Strip(s))
  {
    var t := TrimStart(s);
    TrimStartSpec(s);
    TrimEndSpec(t);
    MiddleOf(s, t, TrimEnd(t));
  }

  /** `r` is a prefix of `t`, itself a suffix of `s`: `r` sits in `s` at `|s| - |t|`. */
  lemma MiddleOf(s: string, t: string, r: string)
    requires |t| <= |s| && t == s[|s| - |t|..] && |r| <= |t| && r == t[..|r|]
    requires forall k :: 0 <= k < |s| - |t| ==> IsSpace(s[k])
    requires forall k :: |r| <= k < |t| ==> IsSpace(t[k])
    requires |t| > 0 ==> !IsSpace(t[0])
    requires |r| > 0 ==> !IsSpace(r[|r| - 1])
    ensures Framed(s, |s| - |t|, r)
  {
    var a := |s| - |t|;
    assert s[a..a + |r|] == t[..|r|];
    assert s[a + |r|..] == t[|r|..];
    if |r| > 0 {
      assert r[0] == t[0];
    }
  }

  /** Text framed by whitespace strips to its core when the core starts and ends with non-whitespace. */
  lemma {:induction false} StripFramed(pre: string, core: string, post: string)
    requires forall k :: 0 <= k < |pre| ==> IsSpace(pre[k])
    requires forall k :: 0 <= k < |post| ==> IsSpace(post[k])
    requires |core| > 0 && !IsSpace(core[0]) && !IsSpace(core[|core| - 1])
    ensures Strip(pre + core + post) == core
  {
    TrimStartSkips(pre, core + post);
    assert pre + core + post == pre + (core + post);
    TrimEndSkips(core, post);
  }

  lemma {:induction false} TrimStartSkips(pre: string, rest: string)
    requires forall k :: 0 <= k < |pre| ==> IsSpace(pre[k])
    requires |rest| > 0 && !IsSpace(rest[0])
    ensures TrimStart(pre + rest) == rest
    decreases |pre|
  {
    if |pre| > 0 {
      assert (pre + rest)[1..] == pre[1..] + rest;
      TrimStartSkips(pre[1..], rest);
    }
  }

  lemma {:induction false} TrimEndSkips(core: string, post: string)
    requires forall k :: 0 <= k < |post| ==> IsSpace(post[k])
    requires |core| > 0 && !IsSpace(core[|core| - 1])
    ensures TrimEnd(core + post) == core
    decreases |post|
  {
    if |post| > 0 {
      assert (core + post)[..|core + post| - 1] == core + post[..|post| - 1];
      TrimEndSkips(core, post[..|post| - 1]);
    } else {
      assert core + post == core;
    }
  }

  /** The trailing run of non-whitespace characters. */
  function TrailingWord(s: string): (r: string)
    ensures |r| <= |s| && r == s[|s| - |r|..]
    ensures NoSpace(r)
    ensures |r| < |s| ==> IsSpace(s[|s| - |r| - 1])
  {
    if |s| > 0 && !IsSpace(s[|s| - 1]) then
      var r := TrailingWord(s[..|s| - 1]);
      r + [s[|s| - 1]]
    else []
  }

  /** `s.split()[-1]` for a text holding at least one word: its last whitespace-free word. */
  function LastWord(s: string): (r: string)
    ensures NoSpace(r)
  {
    TrailingWord(TrimEnd(s))
  }

  /** The last word of `k + " " + v` is `v` when `v` is a non-empty word. */
  lemma {:induction false} LastWordOfPair(k: string, v: string)
    requires |v| > 0 && NoSpace(v)
    ensures LastWord(k + " " + v) == v
  {
    var s := k + " " + v;
    assert TrimEnd(s) == s;
    TrailingWordOf(k + " ", v);
    assert s == (k + " ") + v;
  }

  lemma {:induction false} TrailingWordOf(pre: string, v: string)
    requires NoSpace(v)
    requires |pre| > 0 && IsSpace(pre[|pre| - 1])
    ensures TrailingWord(pre + v) == v
    decreases |v|
  {
    if |v| == 0 {
      assert pre + v == pre;
    } else {
      assert (pre + v)[..|pre + v| - 1] == pre + v[..|v| - 1];
      TrailingWordOf(pre, v[..|v| - 1]);
      assert v[..|v| - 1] + [v[|v| - 1]] == v;
    }
  }

  /** `s.replace(c, '')`. */
  function RemoveChar(s: string, c: char): (r: string)
    ensures |r| <= |s|
    ensures c !in r
    ensures c !in s ==> r == s
    ensures IsAscii(s) ==> IsAscii(r)
    ensures !HasNul(s) ==> !HasNul(r)
  {
    if |s| == 0 then []
    else (if s[0] == c then [] else [s[0]]) + RemoveChar(s[1..], c)
  }

  lemma {:induction false} RemoveCharAppend(a: string, b: string, c: char)
    ensures RemoveChar(a + b, c) == RemoveChar(a, c) + RemoveChar(b, c)
    decreases |a|
  {
    if |a| > 0 {
      var h := if a[0] == c then [] else [a[0]];
      calc {
        RemoveChar(a + b, c);
      == { assert (a + b)[0] == a[0]; assert (a + b)[1..] == a[1..] + b; }
        h + RemoveChar(a[1..] + b, c);
      == { RemoveCharAppend(a[1..], b, c); }
        h + (RemoveChar(a[1..], c) + RemoveChar(b, c));
      ==
        (h + RemoveChar(a[1..], c)) + RemoveChar(b, c);
      }
    } else {
      assert a + b == b;
    }
  }

  // ---------------------------------------------------------------------------
  // min / max
  // ---------------------------------------------------------------------------

  /** `min(a, b)`. */
  function Min(a: int, b: int): int {
    if a <= b then a else b
  }

  /** `max(a, b)`. */
  function Max(a: int, b: int): int {
    if a < b then b else a
  }

  // ---------------------------------------------------------------------------
  // Integers as text
  // ---------------------------------------------------------------------------

  predicate IsDigit(c: char) {
    '0' <= c <= '9'
  }

  function DigitChar(d: nat): (c: char)
    requires d < 10
    ensures IsDigit(c)
  {
    ('0' as int + d) as char
  }

  function DigitValue(c: char): nat
    requires IsDigit(c)
  {
    c as int - '0' as int
  }

  /** Decimal digits of a natural number, most significant first, no leading zero. */
  function NatToString(n: nat): (r: string)
    ensures |r| > 0
    ensures forall k :: 0 <= k < |r| ==> IsDigit(r[k])
    decreases n
  {
    if n < 10 then [DigitChar(n)] else NatToString(n / 10) + [DigitChar(n % 10)]
  }

  /** `str(n)`. */
  function IntToString(n: int): (r: string)
    ensures |r| > 0
    ensures forall k :: 0 <= k < |r| ==> IsDigit(r[k]) || r[k] == '-'
  {
    if n < 0 then "-" + NatToString(-n) else NatToString(n)
  }

  /** Folds decimal digits, with single underscores allowed between digits, into `acc`. */
  function DigitsFrom(t: string, acc: nat): Option<nat>
    decreases |t|
  {
    if |t| == 0 then Some(acc)
    else if IsDigit(t[0]) then DigitsFrom(t[1..], acc * 10 + DigitValue(t[0]))
    else if t[0] == '_' && |t| >= 2 && IsDigit(t[1]) then DigitsFrom(t[2..], acc * 10 + DigitValue(t[1]))
    else None
  }

  /** `int(t)` on ASCII text: surrounding whitespace, an optional sign, then digits
      (single `_` separators allowed between them); anything else is a ValueError. */
  function ParseInt(t: string): Option<int>
  {
    ParseSigned(Strip(t))
  }

  /** `int` on text already stripped: an optional sign, then digits. */
  function ParseSigned(u: string): Option<int>
  {
    var neg := |u| > 0 && u[0] == '-';
    var body := if |u| > 0 && (u[0] == '-' || u[0] == '+') then u[1..] else u;
    if |body| == 0 || !IsDigit(body[0]) then None
    else
      match DigitsFrom(body, 0)
      case Some(v) => Some(if neg then -(v as int) else v)
      case None => None
  }

  /** Position `k` holds a digit, or an underscore with a digit after it. */
  predicate GroupedAt(t: string, k: nat)
    requires k < |t|
  {
    IsDigit(t[k]) || (t[k] == '_' && k + 1 < |t| && IsDigit(t[k + 1]))
  }

  /** Every character is a digit or an underscore followed by a digit. */
  predicate Grouped(t: string) {
    forall k: nat :: k < |t| ==> GroupedAt(t, k)
  }

  /** The digit text `int` takes after the sign: a digit first, then digits with single underscores between them. */
  predicate DigitGroups(b: string) {
    |b| > 0 && IsDigit(b[0]) && Grouped(b)
  }

  /** Dropping a leading digit, or a leading underscore and the digit after it, keeps a text grouped. */
  lemma GroupedTail(t: string, n: nat)
    requires 0 < n <= 2 && n <= |t|
    requires n == 1 ==> IsDigit(t[0])
    requires n == 2 ==> t[0] == '_' && IsDigit(t[1])
    ensures Grouped(t) <==> Grouped(t[n..])
  {
    var s := t[n..];
    if Grouped(s) {
      forall k: nat | k < |t| ensures GroupedAt(t, k) {
        if k >= n {
          assert GroupedAt(s, k - n);
          assert t[k] == s[k - n];
          if k + 1 < |t| {
            assert t[k + 1] == s[k + 1 - n];
          }
        }
      }
    }
    if Grouped(t) {
      forall k: nat | k < |s| ensures GroupedAt(s, k) {
        assert GroupedAt(t, k + n);
        assert s[k] == t[k + n];
        if k + 1 < |s| {
          assert s[k + 1] == t[k + 1 + n];
        }
      }
    }
  }

  /** The digit fold succeeds exactly on grouped text. */
  lemma {:induction false} DigitsFromSome(t: string, acc: nat)
    ensures DigitsFrom(t, acc).Some? <==> Grouped(t)
    decreases |t|
  {
    if |t| > 0 {
      if IsDigit(t[0]) {
        DigitsFromSome(t[1..], acc * 10 + DigitValue(t[0]));
        GroupedTail(t, 1);
      } else if t[0] == '_' && |t| >= 2 && IsDigit(t[1]) {
        DigitsFromSome(t[2..], acc * 10 + DigitValue(t[1]));
        GroupedTail(t, 2);
      } else {
        assert !GroupedAt(t, 0);
      }
    }
  }

  /**
   * `int(t)` succeeds exactly when the stripped text is an optional sign and
   * then digit groups; a negative result needs a leading minus, and a leading
   * minus never gives a positive result.
   */
  lemma ParseIntSpec(t: string)
    ensures var u := Strip(t);
      var body := if |u| > 0 && (u[0] == '-' || u[0] == '+') then u[1..] else u;
      && (ParseInt(t).Some? <==> DigitGroups(body))
      && (ParseInt(t).Some? && ParseInt(t).value < 0 ==> u[0] == '-')
      && (ParseInt(t).Some? && u[0] == '-' ==> ParseInt(t).value <= 0)
  {
    var u := Strip(t);
    var body := if |u| > 0 && (u[0] == '-' || u[0] == '+') then u[1..] else u;
    DigitsFromSome(body, 0);
  }

  lemma {:induction false} DigitsFromAppend(a: string, d: char, acc: nat)
    requires forall k :: 0 <= k < |a| ==> IsDigit(a[k])
    requires IsDigit(d)
    ensures DigitsFrom(a, acc).Some?
    ensures DigitsFrom(a + [d], acc) == Some(DigitsFrom(a, acc).value * 10 + DigitValue(d))
    decreases |a|
  {
    if |a| == 0 {
      assert a + [d] == [d];
      assert DigitsFrom([d], acc) == DigitsFrom([], acc * 10 + DigitValue(d));
    } else {
      assert (a + [d])[1..] == a[1..] + [d];
      DigitsFromAppend(a[1..], d, acc * 10 + DigitValue(a[0]));
    }
  }

  lemma {:induction false} DigitsOfNat(n: nat)
    ensures DigitsFrom(NatToString(n), 0) == Some(n)
    decreases n
  {
    if n < 10 {
      assert DigitsFrom([DigitChar(n)], 0) == DigitsFrom([], DigitValue(DigitChar(n)));
    } else {
      DigitsOfNat(n / 10);
      DigitsFromAppend(NatToString(n / 10), DigitChar(n % 10), 0);
    }
  }

  /** `str(n)` has no surrounding whitespace to strip. */
  lemma IntStringStripped(n: int)
    ensures Strip(IntToString(n)) == IntToString(n)
  {
    var s := IntToString(n);
    StripFramed([], s, []);
    assert [] + s + [] == s;
  }

  /** `int(str(n)) == n`. */
  lemma IntRoundTrip(n: int)
    ensures ParseInt(IntToString(n)) == Some(n)
  {
    IntStringStripped(n);
    SignedRoundTrip(n);
  }

  lemma {:induction false} SignedRoundTrip(n: int)
    ensures ParseSigned(IntToString(n)) == Some(n)
  {
    var s := IntToString(n);
    if n < 0 {
      var m := NatToString(-n);
      DigitsOfNat(-n);
      assert s[1..] == m;
      assert IsDigit(m[0]);
    } else {
      DigitsOfNat(n);
      assert IsDigit(s[0]);
    }
  }

  // ---------------------------------------------------------------------------
  // Hexadecimal
  // ---------------------------------------------------------------------------

  function HexChar(d: nat): char
    requires d < 16
  {
    if d < 10 then DigitChar(d) else ('A' as int + (d - 10)) as char
  }

  /** Upper-case hexadecimal digits of `n`, no leading zero. */
  function NatToHex(n: nat): (r: string)
    ensures |r| > 0
    decreases n
  {
    if n < 16 then [HexChar(n)] else NatToHex(n / 16) + [HexChar(n % 16)]
  }

  /** `format(n, '04X')` for `n >= 0`: upper-case hex, zero-padded to at least four digits. */
  function Hex4(n: nat): (r: string)
    ensures |r| >= 4
  {
    var h := NatToHex(n);
    if |h| < 4 then seq(4 - |h|, _ => '0') + h else h
  }

  /** Strictly increasing: what `sorted` gives for distinct integers. */
  predicate Ascending(xs: seq<int>) {
    forall i, j :: 0 <= i < j < |xs| ==> xs[i] < xs[j]
  }
}
