/**
 * `createSignedRequest`: adds the current time in seconds to a field
 * object, serialises it canonically (keys sorted, values percent-encoded,
 * `k=v` pairs joined by `&`), and signs the result with HMAC-SHA1 under a
 * fixed secret, rendered as upper-case hex.
 */
module Signer {

  import opened Wrappers
  import opened Unicode
  import opened UriComponent
  import opened JsObject
  import opened KeySort
  import opened Text

  // ---------------------------------------------------------------------
  // The keyed hash, a collaborator
  // ---------------------------------------------------------------------

  /** The length of an HMAC-SHA1 digest in bytes. */
  const DigestLength: nat := 20

  type Digest = d: seq<Byte> | |d| == DigestLength witness seq(20, _ => 0 as Byte)

  /**
   * HMAC-SHA1 (RFC 2104 over the SHA-1 of FIPS 180-4): from key bytes and
   * message bytes to a 20-byte digest. Node's `crypto` computes it; the model
   * takes it as a parameter and assumes nothing about it beyond its length.
   */
  type HmacSha1 = (seq<Byte>, seq<Byte>) -> Digest

  /** The shared secret the checkcode is keyed with. */
  const Secret: string := "mys3cr3t"

  // ---------------------------------------------------------------------
  // The timestamp
  // ---------------------------------------------------------------------

  /** `Math.floor(nowMs / 1e3)`: the clock in whole seconds, rounded down. */
  function Timestamp(nowMs: int): (t: int)
    ensures t * 1000 <= nowMs < t * 1000 + 1000
  {
    nowMs / 1000
  }

  function DigitChar(d: nat): (c: char)
    requires d < 10
    ensures '0' <= c <= '9'
  {
    ('0' as int + d) as char
  }

  /** The decimal digits of a natural number, without leading zeros. */
  function NatDigits(n: nat): (s: string)
    ensures |s| >= 1
    ensures forall k | 0 <= k < |s| :: '0' <= s[k] <= '9'
    ensures |s| > 1 ==> s[0] != '0'
  {
    if n < 10 then [DigitChar(n)] else NatDigits(n / 10) + [DigitChar(n % 10)]
  }

  /** `n.toString()` for an integer n. */
  function Decimal(n: int): string
  {
    if n < 0 then "-" + NatDigits(-n) else NatDigits(n)
  }

  /** The value of a string of decimal digits. */
  function DigitsValue(s: string): int
    requires forall k | 0 <= k < |s| :: '0' <= s[k] <= '9'
  {
    if s == [] then 0 else DigitsValue(s[..|s| - 1]) * 10 + (s[|s| - 1] as int - '0' as int)
  }

  /** Reads an optionally negative decimal integer back. */
  function ParseDecimal(s: string): Option<int>
  {
    if s != [] && s[0] == '-' then
      var d := s[1..];
      if d != [] && forall k | 0 <= k < |d| :: '0' <= d[k] <= '9' then Some(-DigitsValue(d)) else None
    else if s != [] && forall k | 0 <= k < |s| :: '0' <= s[k] <= '9' then Some(DigitsValue(s))
    else None
  }

  lemma {:induction false} NatDigitsValue(n: nat)
    ensures DigitsValue(NatDigits(n)) == n
  {
    if n >= 10 {
      NatDigitsValue(n / 10);
      var s := NatDigits(n);
      assert s[..|s| - 1] == NatDigits(n / 10);
    }
  }

  /** The timestamp's text reads back as the timestamp. */
  lemma DecimalRoundTrip(n: int)
    ensures ParseDecimal(Decimal(n)) == Some(n)
  {
    var s := Decimal(n);
    if n < 0 {
      var d := NatDigits(-n);
      NatDigitsValue(-n);
      assert s[0] == '-' && s[1..] == d;
      assert ParseDecimal(s) == Some(-DigitsValue(d));
    } else {
      NatDigitsValue(n);
      assert s[0] != '-';
      assert ParseDecimal(s) == Some(DigitsValue(s));
    }
  }

  /** Digits and `-` are unreserved, so the timestamp is sent as it is. */
  lemma DecimalUnencoded(n: int)
    ensures Encode(Decimal(n)) == Decimal(n)
  {
    var s := Decimal(n);
    forall k | 0 <= k < |s| ensures IsUnreserved(s[k]) {
      if n < 0 && k > 0 {
        assert s[k] == NatDigits(-n)[k - 1];
      }
    }
    EncodeIdentity(s);
  }

  // ---------------------------------------------------------------------
  // Canonical serialisation and its inverse
  // ---------------------------------------------------------------------

  /** A key and its value as `String(value)`, before encoding. */
  type Entry = (string, string)

  /** The entries of object o for the keys ks, in that order. */
  function Entries(o: Object, ks: seq<string>): (es: seq<Entry>)
    ensures |es| == |ks|
    ensures forall j | 0 <= j < |ks| :: es[j] == (ks[j], ToStr(Get(o, ks[j])))
  {
    if ks == [] then [] else [(ks[0], ToStr(Get(o, ks[0])))] + Entries(o, ks[1..])
  }

  /** One `key=encodeURIComponent(value)` piece. */
  function Piece(e: Entry): string
  {
    e.0 + "=" + Encode(e.1)
  }

  function Pieces(es: seq<Entry>): (ps: seq<string>)
    ensures |ps| == |es|
    ensures forall j | 0 <= j < |es| :: ps[j] == Piece(es[j])
  {
    if es == [] then [] else [Piece(es[0])] + Pieces(es[1..])
  }

  /** The pieces joined with `&`. */
  function Serialize(es: seq<Entry>): string
  {
    Join(Pieces(es), '&')
  }

  /** The sorted keys of an object: `Object.keys(o).sort()`. */
  function SortedKeys(o: Object): (ks: seq<string>)
    requires DistinctKeys(o)
    ensures StrictlySorted(ks)
    ensures forall k :: k in ks <==> k in KeySet(o)
  {
    KeysDistinct(o);
    var ks := Sort(Keys(o));
    forall k ensures k in ks <==> k in KeySet(o) {
      assert k in ks <==> k in multiset(Keys(o));
      KeysMembers(o, k);
    }
    ks
  }

  lemma {:induction false} KeysMembers(o: Object, k: string)
    ensures k in Keys(o) <==> k in KeySet(o)
  {
    if o != [] {
      KeysMembers(o[1..], k);
      assert Keys(o) == [o[0].key] + Keys(o[1..]);
    }
  }

  lemma {:induction false} KeysDistinct(o: Object)
    requires DistinctKeys(o)
    ensures Distinct(Keys(o))
  {
    if o != [] {
      KeysDistinct(o[1..]);
      KeysMembers(o[1..], o[0].key);
      var ks := Keys(o);
      assert ks == [o[0].key] + Keys(o[1..]);
      forall i, j | 0 <= i < j < |ks| ensures ks[i] != ks[j] {
        assert ks[j] == Keys(o[1..])[j - 1];
        if i > 0 { assert ks[i] == Keys(o[1..])[i - 1]; }
      }
    }
  }

  /** The canonical string of an object: its entries in sorted key order, serialised. */
  function CanonicalString(o: Object): string
    requires DistinctKeys(o)
  {
    Serialize(Entries(o, SortedKeys(o)))
  }

  /** Splits a piece at its first `=` and percent-decodes what follows. */
  function ParsePiece(p: string): Option<Entry>
  {
    var i := IndexOf(p, '=');
    if i == |p| then None
    else match Decode(p[i + 1..])
      case None => None
      case Some(v) => Some((p[..i], v))
  }

  function ParsePieces(ps: seq<string>): Option<seq<Entry>>
  {
    if ps == [] then Some([])
    else match ParsePiece(ps[0])
      case None => None
      case Some(e) =>
        match ParsePieces(ps[1..])
        case None => None
        case Some(es) => Some([e] + es)
  }

  /** Splits on `&`, then each piece on its first `=`, then decodes the values. */
  function ParseQuery(s: string): Option<seq<Entry>>
  {
    ParsePieces(Split(s, '&'))
  }

  /** A key the serialisation can carry: keys are not encoded, so they must not hold a separator. */
  predicate PlainKey(k: string)
  {
    '&' !in k && '=' !in k
  }

  lemma ParsePieceOf(e: Entry)
    requires PlainKey(e.0)
    ensures ParsePiece(Piece(e)) == Some(e)
  {
    var p := Piece(e);
    assert p == e.0 + ['='] + Encode(e.1);
    IndexOfAfter(e.0, '=', Encode(e.1));
    assert p[|e.0| + 1..] == Encode(e.1);
    assert p[..|e.0|] == e.0;
    DecodeEncode(e.1);
  }

  lemma {:induction false} ParsePiecesOf(es: seq<Entry>)
    requires forall j | 0 <= j < |es| :: PlainKey(es[j].0)
    ensures ParsePieces(Pieces(es)) == Some(es)
  {
    if es != [] {
      ParsePieceOf(es[0]);
      ParsePiecesOf(es[1..]);
      assert Pieces(es)[1..] == Pieces(es[1..]);
      assert [es[0]] + es[1..] == es;
    }
  }

  /**
   * The serialisation round trip: splitting on `&`, then on the first `=`,
   * then percent-decoding, gives back every entry in order.
   */
  lemma SerializeRoundTrip(es: seq<Entry>)
    requires |es| >= 1
    requires forall j | 0 <= j < |es| :: PlainKey(es[j].0)
    ensures ParseQuery(Serialize(es)) == Some(es)
  {
    var ps := Pieces(es);
    forall j | 0 <= j < |ps| ensures '&' !in ps[j] {
      EncodeHasNoSeparators(es[j].1);
      assert ps[j] == es[j].0 + "=" + Encode(es[j].1);
    }
    SplitJoin(ps, '&');
    ParsePiecesOf(es);
  }

  /** The key/value map a list of entries denotes (a later entry wins). */
  function EntriesToMap(es: seq<Entry>): map<string, string>
  {
    if es == [] then map[] else EntriesToMap(es[..|es| - 1])[es[|es| - 1].0 := es[|es| - 1].1]
  }

  /** The map `String(o[k])` for every own key k of o. */
  function RenderedMap(o: Object): (m: map<string, string>)
  {
    map k | k in KeySet(o) :: ToStr(Get(o, k))
  }

  lemma {:induction false} EntriesMapAt(o: Object, ks: seq<string>, k: string)
    ensures k in EntriesToMap(Entries(o, ks)) <==> k in ks
    ensures k in ks ==> EntriesToMap(Entries(o, ks))[k] == ToStr(Get(o, k))
  {
    if ks != [] {
      var n := |ks| - 1;
      EntriesMapAt(o, ks[..n], k);
      assert Entries(o, ks)[..n] == Entries(o, ks[..n]);
      assert ks == ks[..n] + [ks[n]];
    }
  }

  // ---------------------------------------------------------------------
  // The checkcode
  // ---------------------------------------------------------------------

  /** The lower-case hex digit of a value below 16, as Node's `digest("hex")` writes it. */
  function LowerHexDigit(d: nat): (c: char)
    requires d < 16
    ensures IsHex(c) && HexValue(c) == d
    ensures '0' <= c <= '9' || 'a' <= c <= 'f'
  {
    if d < 10 then ('0' as int + d) as char else ('a' as int + d - 10) as char
  }

  /** `digest("hex")`: two lower-case hex digits per byte. */
  function Hex(bs: seq<Byte>): (s: string)
    ensures |s| == 2 * |bs|
  {
    if bs == [] then [] else [LowerHexDigit(bs[0] / 16), LowerHexDigit(bs[0] % 16)] + Hex(bs[1..])
  }

  /** `toUpperCase()` on the letters `a`-`z`, the only letters a hex string holds. */
  function UpperCase(s: string): (r: string)
    ensures |r| == |s|
  {
    if s == [] then []
    else
      var c := s[0];
      [if 'a' <= c <= 'z' then (c as int - 32) as char else c] + UpperCase(s[1..])
  }

  /** The checkcode: the digest in upper-case hex. */
  function Checkcode(digest: Digest): string
  {
    UpperCase(Hex(digest))
  }

  /** Reads a hex string two digits at a time. */
  function HexDecode(s: string): Option<seq<Byte>>
  {
    if s == [] then Some([])
    else if |s| < 2 || !IsHex(s[0]) || !IsHex(s[1]) then None
    else match HexDecode(s[2..])
      case None => None
      case Some(bs) => Some([HexValue(s[0]) * 16 + HexValue(s[1])] + bs)
  }

  lemma {:induction false} UpperHexRoundTrip(bs: seq<Byte>)
    ensures forall k | 0 <= k < |UpperCase(Hex(bs))| :: IsUpperHex(UpperCase(Hex(bs))[k])
    ensures HexDecode(UpperCase(Hex(bs))) == Some(bs)
  {
    if bs != [] {
      UpperHexRoundTrip(bs[1..]);
      var h := Hex(bs);
      assert h == [h[0], h[1]] + Hex(bs[1..]);
      assert UpperCase(h) == [UpperCase(h)[0], UpperCase(h)[1]] + UpperCase(Hex(bs[1..])) by {
        assert h[2..] == Hex(bs[1..]);
        assert UpperCase(h)[2..] == UpperCase(h[2..]) by {
          assert UpperCase(h)[1..] == UpperCase(h[1..]);
          assert UpperCase(h[1..])[1..] == UpperCase(h[1..][1..]);
          assert h[1..][1..] == h[2..];
        }
      }
      assert [bs[0]] + bs[1..] == bs;
    }
  }

  /** The checkcode is 40 upper-case hex digits that spell out the digest. */
  lemma CheckcodeHex(digest: Digest)
    ensures |Checkcode(digest)| == 2 * DigestLength == 40
    ensures forall k | 0 <= k < |Checkcode(digest)| :: IsUpperHex(Checkcode(digest)[k])
    ensures HexDecode(Checkcode(digest)) == Some(digest)
  {
    UpperHexRoundTrip(digest);
  }

  // ---------------------------------------------------------------------
  // createSignedRequest
  // ---------------------------------------------------------------------

  datatype SignedRequest = SignedRequest(payload: string, checkcode: string, fullPayload: string, timestamp: int)

  /** `{ ...t, timestamp: e.toString() }`. */
  function WithTimestamp(t: Object, e: int): (i: Object)
    requires DistinctKeys(t)
    ensures DistinctKeys(i)
    ensures KeySet(i) == KeySet(t) + {"timestamp"}
    ensures Get(i, "timestamp") == Str(Decimal(e))
    ensures forall k | k != "timestamp" :: Get(i, k) == Get(t, k)
  {
    Set(t, "timestamp", Str(Decimal(e)))
  }

  /**
   * `createSignedRequest(t)` at clock reading nowMs (milliseconds), with the
   * HMAC-SHA1 primitive `hmac`. The digest is taken over the UTF-8 bytes of
   * the canonical string, keyed with the UTF-8 bytes of the secret.
   */
  function CreateSignedRequest(t: Object, nowMs: int, hmac: HmacSha1): (r: SignedRequest)
    requires DistinctKeys(t)
    ensures r.timestamp * 1000 <= nowMs < r.timestamp * 1000 + 1000
    ensures r.payload == CanonicalString(WithTimestamp(t, r.timestamp))
    ensures HexDecode(r.checkcode) == Some(hmac(Utf8(Secret), Utf8(r.payload)))
    ensures |r.checkcode| == 40
    ensures forall k | 0 <= k < |r.checkcode| :: IsUpperHex(r.checkcode[k])
    ensures r.fullPayload == r.payload + "&checkcode=" + r.checkcode
  {
    var e := Timestamp(nowMs);
    var i := WithTimestamp(t, e);
    var n := CanonicalString(i);
    var digest := hmac(Utf8(Secret), Utf8(n));
    var h := Checkcode(digest);
    CheckcodeHex(digest);
    SignedRequest(n, h, n + "&checkcode=" + h, e)
  }

  // ---------------------------------------------------------------------
  // Properties of the signed request
  // ---------------------------------------------------------------------

  /**
   * The timestamp key is always there, carries the decimal clock in seconds
   * (overriding any `timestamp` the input had), and every other key keeps its value.
   */
  lemma TimestampField(t: Object, nowMs: int)
    requires DistinctKeys(t)
    ensures var m := RenderedMap(WithTimestamp(t, Timestamp(nowMs)));
      && m.Keys == KeySet(t) + {"timestamp"}
      && m["timestamp"] == Decimal(nowMs / 1000)
      && ParseDecimal(m["timestamp"]) == Some(Timestamp(nowMs))
      && forall k | k in KeySet(t) && k != "timestamp" :: m[k] == ToStr(Get(t, k))
  {
    DecimalRoundTrip(Timestamp(nowMs));
  }

  /**
   * Reading a canonical string back (split on `&`, then on the first `=`,
   * then percent-decode) gives its entries in order, and they denote the
   * object's key/value map.
   */
  lemma CanonicalRoundTrip(o: Object)
    requires DistinctKeys(o) && KeySet(o) != {}
    requires forall k | k in KeySet(o) :: PlainKey(k)
    ensures ParseQuery(CanonicalString(o)) == Some(Entries(o, SortedKeys(o)))
    ensures EntriesToMap(Entries(o, SortedKeys(o))) == RenderedMap(o)
    ensures |Entries(o, SortedKeys(o))| >= 1
    ensures forall j | 0 <= j < |SortedKeys(o)| :: PlainKey(Entries(o, SortedKeys(o))[j].0)
  {
    var ks := SortedKeys(o);
    CanonicalParses(o, ks);
    CanonicalMap(o, ks);
  }

  lemma CanonicalParses(o: Object, ks: seq<string>)
    requires |ks| >= 1
    requires forall k | k in ks :: PlainKey(k)
    ensures ParseQuery(Serialize(Entries(o, ks))) == Some(Entries(o, ks))
    ensures forall j | 0 <= j < |ks| :: PlainKey(Entries(o, ks)[j].0)
  {
    var es := Entries(o, ks);
    forall j | 0 <= j < |es| ensures PlainKey(es[j].0) {
      assert es[j].0 == ks[j];
    }
    SerializeRoundTrip(es);
  }

  lemma CanonicalMap(o: Object, ks: seq<string>)
    requires forall k :: k in ks <==> k in KeySet(o)
    ensures EntriesToMap(Entries(o, ks)) == RenderedMap(o)
  {
    var m, r := EntriesToMap(Entries(o, ks)), RenderedMap(o);
    forall k ensures (k in m <==> k in r) && (k in m ==> m[k] == r[k]) {
      EntriesMapAt(o, ks, k);
    }
    assert m == r;
  }

  /**
   * The signed payload reads back as every key once, in ascending code-unit
   * order, and recovers the key/value map that was signed.
   */
  lemma SignedPayloadRoundTrip(t: Object, nowMs: int, hmac: HmacSha1)
    requires DistinctKeys(t)
    requires forall k | k in KeySet(t) :: PlainKey(k)
    ensures ParseQuery(CreateSignedRequest(t, nowMs, hmac).payload).Some?
    ensures var es := ParseQuery(CreateSignedRequest(t, nowMs, hmac).payload).value;
      && (forall a, b | 0 <= a < b < |es| :: KeyLess(es[a].0, es[b].0))
      && EntriesToMap(es) == RenderedMap(WithTimestamp(t, Timestamp(nowMs)))
  {
    var i := WithTimestamp(t, Timestamp(nowMs));
    CanonicalRoundTrip(i);
  }

  /**
   * The full payload is the canonical string with one more pair,
   * `checkcode=<checkcode>`, appended; it reads back the same way.
   */
  lemma FullPayloadRoundTrip(t: Object, nowMs: int, hmac: HmacSha1)
    requires DistinctKeys(t)
    requires forall k | k in KeySet(t) :: PlainKey(k)
    ensures var r := CreateSignedRequest(t, nowMs, hmac);
      && ParseQuery(r.payload).Some?
      && ParseQuery(r.fullPayload) == Some(ParseQuery(r.payload).value + [("checkcode", r.checkcode)])
  {
    var r := CreateSignedRequest(t, nowMs, hmac);
    var es := SignedEntries(t, nowMs, hmac);
    var h := r.checkcode;
    assert r.fullPayload == Serialize(es) + "&checkcode=" + h;
    assert ParseQuery(Serialize(es) + "&checkcode=" + h) == Some(es + [("checkcode", h)]) by {
      CheckcodeAppended(es, h);
    }
  }

  /** The entries the signed payload serialises, and what is known of them. */
  lemma SignedEntries(t: Object, nowMs: int, hmac: HmacSha1) returns (es: seq<Entry>)
    requires DistinctKeys(t)
    requires forall k | k in KeySet(t) :: PlainKey(k)
    ensures var r := CreateSignedRequest(t, nowMs, hmac);
      && |es| >= 1
      && r.payload == Serialize(es)
      && ParseQuery(r.payload) == Some(es)
      && (forall j | 0 <= j < |es| :: PlainKey(es[j].0))
      && (forall c | c in r.checkcode :: IsUnreserved(c))
  {
    var r := CreateSignedRequest(t, nowMs, hmac);
    var i := WithTimestamp(t, Timestamp(nowMs));
    PlainKeysWithTimestamp(t, Timestamp(nowMs));
    CanonicalRoundTrip(i);
    es := Entries(i, SortedKeys(i));
    UpperHexUnreserved(r.checkcode);
  }

  lemma PlainKeysWithTimestamp(t: Object, e: int)
    requires DistinctKeys(t)
    requires forall k | k in KeySet(t) :: PlainKey(k)
    ensures forall k | k in KeySet(WithTimestamp(t, e)) :: PlainKey(k)
  {
    assert PlainKey("timestamp");
  }

  lemma UpperHexUnreserved(h: string)
    requires forall k | 0 <= k < |h| :: IsUpperHex(h[k])
    ensures forall c | c in h :: IsUnreserved(c)
  {
    forall c | c in h ensures IsUnreserved(c) {
      var k :| 0 <= k < |h| && h[k] == c;
    }
  }

  /** Appending the pair `checkcode=v`, whose value is already unreserved text. */
  lemma CheckcodeAppended(es: seq<Entry>, v: string)
    requires |es| >= 1
    requires forall j | 0 <= j < |es| :: PlainKey(es[j].0)
    requires forall c | c in v :: IsUnreserved(c)
    ensures ParseQuery(Serialize(es) + "&checkcode=" + v) == Some(es + [("checkcode", v)])
  {
    SerializeCheckcode(es, v);
    var es' := es + [("checkcode", v)];
    assert PlainKey("checkcode");
    forall j | 0 <= j < |es'| ensures PlainKey(es'[j].0) {
      if j < |es| { assert es'[j] == es[j]; }
    }
    SerializeRoundTrip(es');
  }

  lemma SerializeCheckcode(es: seq<Entry>, v: string)
    requires |es| >= 1
    requires forall c | c in v :: IsUnreserved(c)
    ensures Serialize(es) + "&checkcode=" + v == Serialize(es + [("checkcode", v)])
  {
    var e := ("checkcode", v);
    var ps := Pieces(es);
    var p := Piece(e);
    var n := Join(ps, '&');
    assert p == "checkcode=" + v by {
      EncodeIdentity(v);
    }
    assert Pieces(es + [e]) == ps + [p] by {
      assert Pieces(es + [e])[..|es|] == ps;
    }
    assert Join(ps + [p], '&') == n + ['&'] + p by {
      JoinAppend(ps, p, '&');
    }
    assert n + "&checkcode=" + v == n + ['&'] + p;
  }

  /**
   * Only the key/value content of the input matters: two objects with the
   * same keys and values, inserted in any order, give the same signed request.
   */
  lemma InsertionOrderIrrelevant(t1: Object, t2: Object, nowMs: int, hmac: HmacSha1)
    requires DistinctKeys(t1) && DistinctKeys(t2)
    requires KeySet(t1) == KeySet(t2)
    requires forall k | k in KeySet(t1) :: Get(t1, k) == Get(t2, k)
    ensures CreateSignedRequest(t1, nowMs, hmac) == CreateSignedRequest(t2, nowMs, hmac)
  {
    var e := Timestamp(nowMs);
    var i1, i2 := WithTimestamp(t1, e), WithTimestamp(t2, e);
    assert CanonicalString(i1) == CanonicalString(i2) by {
      CanonicalDependsOnContent(i1, i2);
    }
  }

  /** The canonical string depends only on the object's keys and values, not on their order. */
  lemma CanonicalDependsOnContent(o1: Object, o2: Object)
    requires DistinctKeys(o1) && DistinctKeys(o2)
    requires KeySet(o1) == KeySet(o2)
    requires forall k | k in KeySet(o1) :: Get(o1, k) == Get(o2, k)
    ensures CanonicalString(o1) == CanonicalString(o2)
  {
    var ks1, ks2 := SortedKeys(o1), SortedKeys(o2);
    SortedUnique(ks1, ks2);
    assert Entries(o1, ks1) == Entries(o2, ks2);
  }
}
