/**
 * The two encodings the script relies on implicitly: UTF-16 code units (what
 * JavaScript strings are made of, and what `Array.prototype.sort` compares)
 * and UTF-8 (what `encodeURIComponent` percent-encodes and what the HMAC
 * hashes). A Dafny `char` is a Unicode scalar value, so a string here can
 * never hold a lone surrogate.
 */
module Unicode {

  import opened Wrappers

  type Byte = b: int | 0 <= b < 256

  // ---------------------------------------------------------------------
  // UTF-16 and the code-unit order of keys
  // ---------------------------------------------------------------------

  /** The UTF-16 code units of one character. */
  function CharUnits(c: char): (u: seq<int>)
    ensures 1 <= |u| <= 2
    ensures |u| == 1 <==> c as int < 0x10000
    ensures IsSurrogate(u[0]) <==> |u| == 2
    ensures |u| == 2 ==> 0xD800 <= u[0] < 0xDC00 && 0xDC00 <= u[1] < 0xE000
  {
    var n := c as int;
    if n < 0x10000 then [n]
    else [0xD800 + (n - 0x10000) / 0x400, 0xDC00 + (n - 0x10000) % 0x400]
  }

  predicate IsSurrogate(u: int) { 0xD800 <= u < 0xE000 }

  /** The UTF-16 code units of a string. */
  function Utf16(s: string): (u: seq<int>)
    ensures |u| >= |s|
  {
    if s == [] then [] else CharUnits(s[0]) + Utf16(s[1..])
  }

  /** Lexicographic order on code-unit sequences; a proper prefix comes first. */
  predicate UnitsLess(a: seq<int>, b: seq<int>)
  {
    if a == [] then b != []
    else if b == [] then false
    else if a[0] != b[0] then a[0] < b[0]
    else UnitsLess(a[1..], b[1..])
  }

  /**
   * The order `Array.prototype.sort` uses when no comparator is given: the
   * keys' UTF-16 code-unit sequences, compared lexicographically.
   */
  predicate KeyLess(a: string, b: string)
  {
    UnitsLess(Utf16(a), Utf16(b))
  }

  lemma {:induction false} UnitsLessIrreflexive(a: seq<int>)
    ensures !UnitsLess(a, a)
  {
    if a != [] {
      UnitsLessIrreflexive(a[1..]);
    }
  }

  lemma {:induction false} UnitsLessTransitive(a: seq<int>, b: seq<int>, c: seq<int>)
    requires UnitsLess(a, b) && UnitsLess(b, c)
    ensures UnitsLess(a, c)
  {
    if a != [] && b != [] && c != [] && a[0] == b[0] == c[0] {
      UnitsLessTransitive(a[1..], b[1..], c[1..]);
    }
  }

  lemma {:induction false} UnitsLessTotal(a: seq<int>, b: seq<int>)
    requires a != b
    ensures UnitsLess(a, b) || UnitsLess(b, a)
  {
    if a != [] && b != [] && a[0] == b[0] {
      assert a == [a[0]] + a[1..] && b == [b[0]] + b[1..];
      UnitsLessTotal(a[1..], b[1..]);
    }
  }

  /** One character's code units determine the character. */
  lemma CharUnitsInjective(c: char, d: char)
    requires CharUnits(c) == CharUnits(d)
    ensures c == d
  {
    var n, m := c as int, d as int;
    if n >= 0x10000 {
      assert (n - 0x10000) == (n - 0x10000) / 0x400 * 0x400 + (n - 0x10000) % 0x400;
      assert (m - 0x10000) == (m - 0x10000) / 0x400 * 0x400 + (m - 0x10000) % 0x400;
    }
  }

  /** UTF-16 is a prefix code: distinct strings have distinct code units. */
  lemma {:induction false} Utf16Injective(s: string, t: string)
    requires Utf16(s) == Utf16(t)
    ensures s == t
  {
    if s != [] && t != [] {
      var u, v := CharUnits(s[0]), CharUnits(t[0]);
      assert Utf16(s) == u + Utf16(s[1..]);
      assert Utf16(t) == v + Utf16(t[1..]);
      assert u[0] == Utf16(s)[0] == v[0];
      assert |u| == |v|;
      assert u == Utf16(s)[..|u|] == v;
      CharUnitsInjective(s[0], t[0]);
      assert Utf16(s[1..]) == Utf16(s)[|u|..] == Utf16(t[1..]);
      Utf16Injective(s[1..], t[1..]);
      assert s == [s[0]] + s[1..] && t == [t[0]] + t[1..];
    }
  }

  /** KeyLess is a strict total order on strings. */
  lemma KeyLessIrreflexive(a: string)
    ensures !KeyLess(a, a)
  {
    UnitsLessIrreflexive(Utf16(a));
  }

  lemma KeyLessTransitive(a: string, b: string, c: string)
    requires KeyLess(a, b) && KeyLess(b, c)
    ensures KeyLess(a, c)
  {
    UnitsLessTransitive(Utf16(a), Utf16(b), Utf16(c));
  }

  lemma KeyLessTotal(a: string, b: string)
    requires a != b
    ensures KeyLess(a, b) || KeyLess(b, a)
  {
    if Utf16(a) == Utf16(b) {
      Utf16Injective(a, b);
    }
    UnitsLessTotal(Utf16(a), Utf16(b));
  }

  lemma KeyLessAsymmetric(a: string, b: string)
    requires KeyLess(a, b)
    ensures !KeyLess(b, a)
  {
    if KeyLess(b, a) {
      KeyLessTransitive(a, b, a);
      KeyLessIrreflexive(a);
    }
  }

  lemma {:induction false} Utf16Append(s: string, t: string)
    ensures Utf16(s + t) == Utf16(s) + Utf16(t)
  {
    if s != [] {
      Utf16Append(s[1..], t);
      var st := s + t;
      assert st[0] == s[0] && st[1..] == s[1..] + t;
      assert Utf16(st) == CharUnits(s[0]) + Utf16(s[1..] + t);
    } else {
      assert s + t == t;
    }
  }

  lemma {:induction false} UnitsLessAfter(p: seq<int>, x: seq<int>, y: seq<int>)
    requires x != [] && y != [] && x[0] < y[0]
    ensures UnitsLess(p + x, p + y)
  {
    if p != [] {
      UnitsLessAfter(p[1..], x, y);
      assert (p + x)[1..] == p[1..] + x && (p + y)[1..] == p[1..] + y;
    }
  }

  /**
   * Two keys that agree up to position i and differ there by characters
   * of the Basic Multilingual Plane are ordered by those characters.
   */
  lemma KeyLessAt(a: string, b: string, i: nat)
    requires i < |a| && i < |b| && a[..i] == b[..i]
    requires a[i] < b[i] && b[i] as int < 0x10000
    ensures KeyLess(a, b)
  {
    assert a == a[..i] + a[i..] && b == b[..i] + b[i..];
    Utf16Append(a[..i], a[i..]);
    Utf16Append(b[..i], b[i..]);
    assert Utf16(a[i..])[0] == a[i] as int;
    assert Utf16(b[i..])[0] == b[i] as int;
    UnitsLessAfter(Utf16(a[..i]), Utf16(a[i..]), Utf16(b[i..]));
  }

  // ---------------------------------------------------------------------
  // UTF-8
  // ---------------------------------------------------------------------

  predicate IsContinuation(b: Byte) { 0x80 <= b < 0xC0 }

  /** The UTF-8 bytes of one character: its bits taken six at a time. */
  function Utf8Char(c: char): (b: seq<Byte>)
    ensures 1 <= |b| <= 4
    ensures |b| == 1 <==> c as int < 0x80
    ensures forall k | 1 <= k < |b| :: IsContinuation(b[k])
  {
    var n := c as int;
    var n1, r0 := n / 64, n % 64;
    var n2, r1 := n1 / 64, n1 % 64;
    var n3, r2 := n2 / 64, n2 % 64;
    if n < 0x80 then [n]
    else if n < 0x800 then [0xC0 + n1, 0x80 + r0]
    else if n < 0x10000 then [0xE0 + n2, 0x80 + r1, 0x80 + r0]
    else [0xF0 + n3, 0x80 + r2, 0x80 + r1, 0x80 + r0]
  }

  /** The UTF-8 bytes of a string. */
  function Utf8(s: string): (b: seq<Byte>)
    ensures |b| >= |s|
  {
    if s == [] then [] else Utf8Char(s[0]) + Utf8(s[1..])
  }

  /**
   * The length of the UTF-8 sequence a lead byte announces: its number of
   * leading one bits, 1 for an ASCII byte, and 0 when the byte cannot start
   * a sequence (a continuation byte, or five or more leading ones).
   */
  function SequenceLength(lead: Byte): (n: nat)
    ensures n <= 4
  {
    if lead < 0x80 then 1
    else if lead < 0xC0 then 0
    else if lead < 0xE0 then 2
    else if lead < 0xF0 then 3
    else if lead < 0xF8 then 4
    else 0
  }

  /** The code point a sequence spells: the lead byte's payload, then six bits per continuation byte. */
  function SequenceValue(p: seq<int>): int
    requires 1 <= |p| <= 4
  {
    if |p| == 1 then p[0]
    else SequenceValue(p[..|p| - 1]) * 64 + (p[|p| - 1] - 0x80)
  }

  /** The sequence with the lead byte's length marker removed. */
  function LeadPayload(b: seq<Byte>): (p: seq<int>)
    requires 1 <= |b| <= 4 && SequenceLength(b[0]) == |b|
    ensures |p| == |b| && p[1..] == b[1..]
  {
    var base := if |b| == 1 then 0 else if |b| == 2 then 0xC0 else if |b| == 3 then 0xE0 else 0xF0;
    var rest: seq<int> := b[1..];
    [b[0] as int - base] + rest
  }

  /** The smallest code point a sequence of `len` bytes may carry (shorter forms are overlong). */
  function LeastForLength(len: nat): int
  {
    if len <= 1 then 0 else if len == 2 then 0x80 else if len == 3 then 0x800 else 0x10000
  }

  /**
   * Decodes one complete UTF-8 sequence, refusing continuation bytes out of
   * range, overlong forms, surrogates and code points above U+10FFFF.
   */
  function DecodeSequence(b: seq<Byte>): (r: Option<char>)
    requires 1 <= |b| <= 4 && SequenceLength(b[0]) == |b|
    ensures r.Some? ==> Utf8Char(r.value) == b
  {
    if exists k | 1 <= k < |b| :: !IsContinuation(b[k]) then None
    else
      var n := SequenceValue(LeadPayload(b));
      if n < LeastForLength(|b|) || IsSurrogate(n) || n >= 0x110000 then None
      else
        DecodedBytes(b, n);
        Some(n as char)
  }

  lemma Div64(n: int, q: int, r: int)
    requires n == q * 64 + r && 0 <= r < 64
    ensures n / 64 == q && n % 64 == r
  {
  }

  lemma DecodedBytes(b: seq<Byte>, n: int)
    requires 1 <= |b| <= 4 && SequenceLength(b[0]) == |b|
    requires forall k | 1 <= k < |b| :: IsContinuation(b[k])
    requires n == SequenceValue(LeadPayload(b))
    requires LeastForLength(|b|) <= n < 0x110000 && !IsSurrogate(n)
    ensures Utf8Char(n as char) == b
  {
    var p := LeadPayload(b);
    if |b| == 2 {
      Div64(n, p[0], p[1] - 0x80);
    } else if |b| == 3 {
      assert p[..2][..1] == [p[0]];
      var m := p[0] * 64 + (p[1] - 0x80);
      assert SequenceValue(p[..2]) == m;
      Div64(n, m, p[2] - 0x80);
      Div64(m, p[0], p[1] - 0x80);
    } else if |b| == 4 {
      assert p[..3][..2][..1] == [p[0]];
      assert p[..3][..2] == p[..2];
      var m2 := p[0] * 64 + (p[1] - 0x80);
      var m := m2 * 64 + (p[2] - 0x80);
      assert SequenceValue(p[..2]) == m2;
      assert SequenceValue(p[..3]) == m;
      Div64(n, m, p[3] - 0x80);
      Div64(m, m2, p[2] - 0x80);
      Div64(m2, p[0], p[1] - 0x80);
    }
  }

  /** Every character's encoding announces its own length and decodes back to that character. */
  lemma Utf8CharRoundTrip(c: char)
    ensures SequenceLength(Utf8Char(c)[0]) == |Utf8Char(c)|
    ensures DecodeSequence(Utf8Char(c)) == Some(c)
  {
    var b := Utf8Char(c);
    var n := c as int;
    var p := LeadPayload(b);
    var n1, n2 := n / 64, n / 64 / 64;
    if |b| == 2 {
      assert SequenceValue(p) == p[0] * 64 + (p[1] - 0x80);
    } else if |b| == 3 {
      assert p[..2][..1] == [p[0]];
      assert SequenceValue(p[..2]) == p[0] * 64 + (p[1] - 0x80) == n1;
    } else if |b| == 4 {
      assert p[..3][..2][..1] == [p[0]];
      assert p[..3][..2] == p[..2];
      assert SequenceValue(p[..2]) == p[0] * 64 + (p[1] - 0x80) == n2;
      assert SequenceValue(p[..3]) == n2 * 64 + (p[2] - 0x80) == n1;
    }
    assert SequenceValue(p) == n;
  }
}
