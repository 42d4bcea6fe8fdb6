/**
 * `encodeURIComponent` and its inverse `decodeURIComponent`, following the
 * Encode and Decode operations of ECMA-262 (section 19.2.6): characters of
 * the unreserved set are copied, every other character is written as the
 * percent-encoded triplets (section 2.1 of RFC 3986, upper-case hex) of its
 * UTF-8 bytes.
 */
module UriComponent {

  import opened Wrappers
  import opened Unicode

  /** The characters `encodeURIComponent` leaves alone: letters, digits and `-_.!~*'()`. */
  predicate IsUnreserved(c: char)
  {
    || 'A' <= c <= 'Z' || 'a' <= c <= 'z' || '0' <= c <= '9'
    || c == '-' || c == '_' || c == '.' || c == '!' || c == '~'
    || c == '*' || c == '\'' || c == '(' || c == ')'
  }

  /** The upper-case hex digit of a value below 16. */
  function UpperHexDigit(d: nat): (c: char)
    requires d < 16
    ensures IsUpperHex(c) && HexValue(c) == d
  {
    if d < 10 then ('0' as int + d) as char else ('A' as int + d - 10) as char
  }

  predicate IsUpperHex(c: char) { '0' <= c <= '9' || 'A' <= c <= 'F' }

  predicate IsHex(c: char) { '0' <= c <= '9' || 'A' <= c <= 'F' || 'a' <= c <= 'f' }

  function HexValue(c: char): (v: int)
    requires IsHex(c)
    ensures 0 <= v < 16
  {
    if '0' <= c <= '9' then c as int - '0' as int
    else if 'A' <= c <= 'F' then c as int - 'A' as int + 10
    else c as int - 'a' as int + 10
  }

  /** The triplet `%HH` of one byte. */
  function Triplet(b: Byte): (t: string)
    ensures |t| == 3 && t[0] == '%' && IsUpperHex(t[1]) && IsUpperHex(t[2])
    ensures HexValue(t[1]) * 16 + HexValue(t[2]) == b
  {
    ['%', UpperHexDigit(b / 16), UpperHexDigit(b % 16)]
  }

  function Triplets(bs: seq<Byte>): (t: string)
    ensures |t| == 3 * |bs|
  {
    if bs == [] then [] else Triplet(bs[0]) + Triplets(bs[1..])
  }

  function EncodeChar(c: char): string
  {
    if IsUnreserved(c) then [c] else Triplets(Utf8Char(c))
  }

  /** `encodeURIComponent(s)`. */
  function Encode(s: string): string
  {
    if s == [] then [] else EncodeChar(s[0]) + Encode(s[1..])
  }

  /**
   * The shape of every output of Encode: unreserved characters and triplets
   * with two upper-case hex digits, nothing else.
   */
  predicate WellEncoded(r: string)
    decreases |r|
  {
    if r == [] then true
    else if r[0] == '%' then |r| >= 3 && IsUpperHex(r[1]) && IsUpperHex(r[2]) && WellEncoded(r[3..])
    else IsUnreserved(r[0]) && WellEncoded(r[1..])
  }

  // ---------------------------------------------------------------------
  // decodeURIComponent
  // ---------------------------------------------------------------------

  /** The byte a `%HH` triplet at position i spells, if there is one. */
  function ByteAt(s: string, i: nat): Option<Byte>
  {
    if i + 3 <= |s| && s[i] == '%' && IsHex(s[i + 1]) && IsHex(s[i + 2])
    then Some(HexValue(s[i + 1]) * 16 + HexValue(s[i + 2]))
    else None
  }

  /** The bytes of n consecutive triplets at the start of s. */
  function ReadBytes(s: string, n: nat): (r: Option<seq<Byte>>)
    ensures r.Some? ==> |r.value| == n && 3 * n <= |s|
  {
    if n == 0 then Some([])
    else match ByteAt(s, 0)
      case None => None
      case Some(b) =>
        match ReadBytes(s[3..], n - 1)
        case None => None
        case Some(bs) => Some([b] + bs)
  }

  /**
   * `decodeURIComponent(s)`: None where the built-in throws URIError (a `%`
   * not followed by two hex digits, a byte that cannot lead a sequence, a
   * truncated sequence, or bytes that are not the UTF-8 form of a scalar value).
   */
  function Decode(s: string): Option<string>
    decreases |s|
  {
    if s == [] then Some([])
    else if s[0] != '%' then
      match Decode(s[1..])
      case None => None
      case Some(t) => Some([s[0]] + t)
    else
      match ByteAt(s, 0)
      case None => None
      case Some(lead) =>
        var n := SequenceLength(lead);
        if n == 0 then None
        else match ReadBytes(s, n)
          case None => None
          case Some(bs) =>
            match DecodeSequence(bs)
            case None => None
            case Some(c) =>
              match Decode(s[3 * n..])
              case None => None
              case Some(t) => Some([c] + t)
  }

  // ---------------------------------------------------------------------
  // Properties
  // ---------------------------------------------------------------------

  lemma {:induction false} TripletsWellEncoded(bs: seq<Byte>, rest: string)
    requires WellEncoded(rest)
    ensures WellEncoded(Triplets(bs) + rest)
  {
    if bs != [] {
      TripletsWellEncoded(bs[1..], rest);
      var r := Triplets(bs) + rest;
      assert r == Triplet(bs[0]) + (Triplets(bs[1..]) + rest);
      assert r[0] == '%' && IsUpperHex(r[1]) && IsUpperHex(r[2]);
      assert r[3..] == Triplets(bs[1..]) + rest;
    } else {
      assert Triplets(bs) + rest == rest;
    }
  }

  /** encodeURIComponent's output consists of unreserved characters and upper-case triplets. */
  lemma {:induction false} EncodeWellEncoded(s: string)
    ensures WellEncoded(Encode(s))
  {
    if s != [] {
      EncodeWellEncoded(s[1..]);
      if IsUnreserved(s[0]) {
        assert (Encode(s))[1..] == Encode(s[1..]);
      } else {
        TripletsWellEncoded(Utf8Char(s[0]), Encode(s[1..]));
      }
    }
  }

  /** A well-encoded string holds only unreserved characters, `%` and upper-case hex digits. */
  lemma {:induction false} WellEncodedChars(r: string)
    requires WellEncoded(r)
    ensures forall k | 0 <= k < |r| :: IsUnreserved(r[k]) || r[k] == '%' || IsUpperHex(r[k])
  {
    if r != [] {
      var m := if r[0] == '%' then 3 else 1;
      WellEncodedChars(r[m..]);
      forall k | m <= k < |r| ensures IsUnreserved(r[k]) || r[k] == '%' || IsUpperHex(r[k]) {
        assert r[k] == r[m..][k - m];
      }
    }
  }

  /** The encoded form of a value never holds the separators `&` and `=`. */
  lemma EncodeHasNoSeparators(s: string)
    ensures '&' !in Encode(s) && '=' !in Encode(s)
  {
    EncodeWellEncoded(s);
    WellEncodedChars(Encode(s));
  }

  /** Characters outside the unreserved set never survive encoding: Encode(s) == s exactly when all of s is unreserved. */
  lemma {:induction false} EncodeIdentity(s: string)
    ensures Encode(s) == s <==> forall k | 0 <= k < |s| :: IsUnreserved(s[k])
  {
    if s != [] {
      EncodeIdentity(s[1..]);
      EncodeLength(s[1..]);
      if IsUnreserved(s[0]) {
        assert Encode(s) == [s[0]] + Encode(s[1..]);
        assert s == [s[0]] + s[1..];
        if Encode(s) == s { assert Encode(s[1..]) == s[1..]; }
      } else {
        var bs := Utf8Char(s[0]);
        assert Encode(s)[0] == Triplets(bs)[0] == Triplet(bs[0])[0] == '%';
      }
    }
  }

  lemma {:induction false} EncodeLength(s: string)
    ensures |Encode(s)| >= |s|
  {
    if s != [] { EncodeLength(s[1..]); }
  }

  lemma {:induction false} ReadTriplets(bs: seq<Byte>, rest: string)
    ensures ReadBytes(Triplets(bs) + rest, |bs|) == Some(bs)
  {
    if bs != [] {
      var s := Triplets(bs) + rest;
      assert s[3..] == Triplets(bs[1..]) + rest;
      assert s[..3] == Triplet(bs[0]);
      ReadTriplets(bs[1..], rest);
      assert [bs[0]] + bs[1..] == bs;
    }
  }

  lemma DecodeEncodedChar(c: char, rest: string)
    ensures Decode(EncodeChar(c) + rest) ==
      match Decode(rest) case None => None case Some(t) => Some([c] + t)
  {
    var s := EncodeChar(c) + rest;
    if IsUnreserved(c) {
      assert s[1..] == rest;
    } else {
      var bs := Utf8Char(c);
      Utf8CharRoundTrip(c);
      ReadTriplets(bs, rest);
      assert s[..3] == Triplet(bs[0]);
      assert s[3 * |bs|..] == rest;
    }
  }

  /** decodeURIComponent(encodeURIComponent(s)) == s for every string. */
  lemma {:induction false} DecodeEncode(s: string)
    ensures Decode(Encode(s)) == Some(s)
  {
    if s != [] {
      DecodeEncode(s[1..]);
      DecodeEncodedChar(s[0], Encode(s[1..]));
      assert [s[0]] + s[1..] == s;
    }
  }
}
