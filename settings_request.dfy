/**
 * The tokens step of the script: the six hidden fields scraped from the
 * tokens page go, as one object, into the signer. A field the scrape did
 * not find is `undefined` in that object and is signed as the text
 * `undefined`; nothing rejects an incomplete scrape.
 */
module SettingsRequest {

  import opened Wrappers
  import opened Unicode
  import opened UriComponent
  import opened JsObject
  import opened KeySort
  import opened Text
  import opened Signer
  import opened FieldScraper

  /** The six field names, in the order of the object literal handed to the signer. */
  const FieldNames: seq<string> := [AccessToken, ApiUser, Language, OpenId, OperateId, UserId]

  /** The keys of the signed payload, in the order they appear in it. */
  const SignedOrder: seq<string> := [AccessToken, ApiUser, Language, OpenId, OperateId, TimestampKey, UserId]

  const AccessToken: string := "access_token"
  const ApiUser: string := "apiuser"
  const Language: string := "language"
  const OpenId: string := "openId"
  const OperateId: string := "operateId"
  const UserId: string := "userId"
  const TimestampKey: string := "timestamp"

  /** One scraped field: the value found, or `undefined`. */
  function Field(html: string, name: string): (v: JsValue)
    ensures v.Str? <==> Extract(html, name).Some?
    ensures v.Str? ==> v.s == Extract(html, name).value
  {
    match Extract(html, name)
    case Some(s) => Str(s)
    case None => Undefined
  }

  /** The object `{ n1: Field(n1), n2: Field(n2), … }` for the names ns, in that order. */
  function Fields(html: string, ns: seq<string>): (o: Object)
    ensures |o| == |ns|
    ensures forall i | 0 <= i < |ns| :: o[i] == Property(ns[i], Field(html, ns[i]))
  {
    if ns == [] then [] else [Property(ns[0], Field(html, ns[0]))] + Fields(html, ns[1..])
  }

  lemma {:induction false} FieldsKeySet(html: string, ns: seq<string>, k: string)
    ensures k in KeySet(Fields(html, ns)) <==> k in ns
  {
    if ns != [] {
      FieldsKeySet(html, ns[1..], k);
      assert Fields(html, ns)[1..] == Fields(html, ns[1..]);
      assert ns == [ns[0]] + ns[1..];
    }
  }

  lemma {:induction false} FieldsDistinct(html: string, ns: seq<string>)
    requires Distinct(ns)
    ensures DistinctKeys(Fields(html, ns))
  {
    if ns != [] {
      var o := Fields(html, ns);
      assert o[1..] == Fields(html, ns[1..]);
      assert Distinct(ns[1..]) by {
        forall i, j | 0 <= i < j < |ns[1..]| ensures ns[1..][i] != ns[1..][j] {
          assert ns[1..][i] == ns[i + 1] && ns[1..][j] == ns[j + 1];
        }
      }
      FieldsDistinct(html, ns[1..]);
      FieldsKeySet(html, ns[1..], ns[0]);
    }
  }

  lemma {:induction false} FieldsGet(html: string, ns: seq<string>, k: string)
    requires k in ns
    ensures Get(Fields(html, ns), k) == Field(html, k)
  {
    if ns[0] != k {
      assert Fields(html, ns)[1..] == Fields(html, ns[1..]);
      assert k in ns[1..] by {
        var j :| 0 <= j < |ns| && ns[j] == k;
        assert ns[1..][j - 1] == k;
      }
      FieldsGet(html, ns[1..], k);
    }
  }

  lemma AccessTokenApiuser()
    ensures KeyLess(AccessToken, ApiUser)
  {
    assert AccessToken[..1] == ApiUser[..1];
    KeyLessAt(AccessToken, ApiUser, 1);
  }

  lemma ApiuserLanguage()
    ensures KeyLess(ApiUser, Language)
  {
    KeyLessAt(ApiUser, Language, 0);
  }

  lemma LanguageOpenId()
    ensures KeyLess(Language, OpenId)
  {
    KeyLessAt(Language, OpenId, 0);
  }

  lemma OpenIdOperateId()
    ensures KeyLess(OpenId, OperateId)
  {
    assert OpenId[..3] == OperateId[..3];
    KeyLessAt(OpenId, OperateId, 3);
  }

  lemma OperateIdTimestamp()
    ensures KeyLess(OperateId, TimestampKey)
  {
    KeyLessAt(OperateId, TimestampKey, 0);
  }

  lemma TimestampUserId()
    ensures KeyLess(TimestampKey, UserId)
  {
    KeyLessAt(TimestampKey, UserId, 0);
  }

  lemma OperateIdUserId()
    ensures KeyLess(OperateId, UserId)
  {
    KeyLessAt(OperateId, UserId, 0);
  }

  lemma Sorted6(a: string, b: string, c: string, d: string, e: string, f: string)
    requires KeyLess(a, b) && KeyLess(b, c) && KeyLess(c, d) && KeyLess(d, e) && KeyLess(e, f)
    ensures StrictlySorted([a, b, c, d, e, f])
  {
    ChainSorted([a, b, c, d, e, f]);
  }

  lemma Sorted7(a: string, b: string, c: string, d: string, e: string, f: string, g: string)
    requires KeyLess(a, b) && KeyLess(b, c) && KeyLess(c, d) && KeyLess(d, e) && KeyLess(e, f) && KeyLess(f, g)
    ensures StrictlySorted([a, b, c, d, e, f, g])
  {
    ChainSorted([a, b, c, d, e, f, g]);
  }

  lemma FieldNamesSorted()
    ensures StrictlySorted(FieldNames)
  {
    AccessTokenApiuser(); ApiuserLanguage(); LanguageOpenId(); OpenIdOperateId(); OperateIdUserId();
    Sorted6(AccessToken, ApiUser, Language, OpenId, OperateId, UserId);
  }

  lemma SignedOrderSorted()
    ensures StrictlySorted(SignedOrder)
  {
    AccessTokenApiuser(); ApiuserLanguage(); LanguageOpenId(); OpenIdOperateId();
    OperateIdTimestamp(); TimestampUserId();
    Sorted7(AccessToken, ApiUser, Language, OpenId, OperateId, TimestampKey, UserId);
  }

  /** A strictly sorted list holds no key twice. */
  lemma SortedDistinct(ks: seq<string>)
    requires StrictlySorted(ks)
    ensures Distinct(ks)
  {
    forall i, j | 0 <= i < j < |ks| ensures ks[i] != ks[j] {
      if ks[i] == ks[j] {
        KeyLessIrreflexive(ks[i]);
      }
    }
  }

  /** `{ access_token, apiuser, language, openId, operateId, userId }` built from the tokens page. */
  function ScrapedFields(html: string): (o: Object)
    ensures DistinctKeys(o)
    ensures forall k :: k in KeySet(o) <==> k in FieldNames
    ensures forall k | k in FieldNames :: Get(o, k) == Field(html, k)
  {
    FieldNamesSorted();
    SortedDistinct(FieldNames);
    FieldsDistinct(html, FieldNames);
    forall k ensures k in KeySet(Fields(html, FieldNames)) <==> k in FieldNames {
      FieldsKeySet(html, FieldNames, k);
    }
    forall k | k in FieldNames ensures Get(Fields(html, FieldNames), k) == Field(html, k) {
      FieldsGet(html, FieldNames, k);
    }
    Fields(html, FieldNames)
  }

  /** `createSignedRequest({ access_token, … })` on the tokens page at clock reading nowMs. */
  function SignSettings(html: string, nowMs: int, hmac: HmacSha1): SignedRequest
  {
    CreateSignedRequest(ScrapedFields(html), nowMs, hmac)
  }

  /** The object signed at the tokens step has exactly the keys of SignedOrder, sorted into that order. */
  lemma SettingsKeys(html: string, e: int)
    ensures SortedKeys(WithTimestamp(ScrapedFields(html), e)) == SignedOrder
  {
    var o := ScrapedFields(html);
    var ks := SortedKeys(WithTimestamp(o, e));
    forall k ensures k in ks <==> k in SignedOrder {
      SignedOrderMembers(k);
    }
    OnlySignedOrder(ks);
  }

  lemma SignedOrderMembers(k: string)
    ensures k in SignedOrder <==> k in FieldNames || k == "timestamp"
  {
  }

  /** The only strictly sorted list of the keys of SignedOrder is SignedOrder. */
  lemma OnlySignedOrder(ks: seq<string>)
    requires StrictlySorted(ks)
    requires forall k :: k in ks <==> k in SignedOrder
    ensures ks == SignedOrder
  {
    SignedOrderSorted();
    SortedUnique(ks, SignedOrder);
  }

  /** The text a field is signed as: its value, or `undefined`. */
  function FieldText(html: string, name: string): (s: string)
    ensures Extract(html, name).Some? ==> s == Extract(html, name).value
    ensures Extract(html, name).None? ==> s == "undefined"
  {
    ToStr(Field(html, name))
  }

  /**
   * The canonical string of the tokens step always has seven `&`-separated
   * pairs, keyed in the order of SignedOrder; each field's pair carries its
   * percent-encoded text (`undefined` when the scrape found nothing), and
   * the sixth carries the decimal timestamp.
   */
  lemma FixedShape(html: string, nowMs: int, hmac: HmacSha1)
    ensures var r := SignSettings(html, nowMs, hmac);
      var ps := Split(r.payload, '&');
      && |ps| == 7
      && ps[5] == TimestampKey + "=" + Decimal(r.timestamp)
      && (forall j | 0 <= j < 7 && j != 5 :: ps[j] == SignedOrder[j] + "=" + Encode(FieldText(html, SignedOrder[j])))
      && (forall j | 0 <= j < 7 && j != 5 && Extract(html, SignedOrder[j]).None? :: ps[j] == SignedOrder[j] + "=undefined")
  {
    var r := SignSettings(html, nowMs, hmac);
    var w := WithTimestamp(ScrapedFields(html), r.timestamp);
    SettingsKeys(html, r.timestamp);
    var es := Entries(w, SignedOrder);
    assert r.payload == Serialize(es);
    SettingsEntries(html, r.timestamp);
    SignedOrderPlain();
    SerializedPieces(es);
    SettingsPieces(html, r.timestamp);
    forall j | 0 <= j < 7 && j != 5 && Extract(html, SignedOrder[j]).None?
      ensures Pieces(es)[j] == SignedOrder[j] + "=undefined"
    {
      MissingPiece(html, SignedOrder[j]);
    }
  }

  /** The pieces of the tokens step's canonical string. */
  lemma SettingsPieces(html: string, e: int)
    ensures var ps := Pieces(Entries(WithTimestamp(ScrapedFields(html), e), SignedOrder));
      && |ps| == 7
      && ps[5] == TimestampKey + "=" + Decimal(e)
      && forall j | 0 <= j < 7 && j != 5 :: ps[j] == SignedOrder[j] + "=" + Encode(FieldText(html, SignedOrder[j]))
  {
    TimestampPiece(html, e);
    forall j | 0 <= j < 7 && j != 5
      ensures Pieces(Entries(WithTimestamp(ScrapedFields(html), e), SignedOrder))[j]
        == SignedOrder[j] + "=" + Encode(FieldText(html, SignedOrder[j]))
    {
      FieldPiece(html, e, j);
    }
  }

  lemma TimestampPiece(html: string, e: int)
    ensures var ps := Pieces(Entries(WithTimestamp(ScrapedFields(html), e), SignedOrder));
      |ps| == 7 && ps[5] == TimestampKey + "=" + Decimal(e)
  {
    var es := Entries(WithTimestamp(ScrapedFields(html), e), SignedOrder);
    assert es[5] == (TimestampKey, Decimal(e)) by {
      SettingsEntries(html, e);
    }
    DecimalUnencoded(e);
    PieceOfPlain(es[5]);
  }

  /** A pair whose value encoding leaves unchanged is written verbatim. */
  lemma PieceOfPlain(e: Entry)
    requires Encode(e.1) == e.1
    ensures Piece(e) == e.0 + "=" + e.1
  {
  }

  lemma FieldPiece(html: string, e: int, j: nat)
    requires j < 7 && j != 5
    ensures Pieces(Entries(WithTimestamp(ScrapedFields(html), e), SignedOrder))[j]
      == SignedOrder[j] + "=" + Encode(FieldText(html, SignedOrder[j]))
  {
    var es := Entries(WithTimestamp(ScrapedFields(html), e), SignedOrder);
    assert es[j] == (SignedOrder[j], FieldText(html, SignedOrder[j])) by {
      SettingsEntries(html, e);
    }
  }

  /** A field the scrape did not find is signed as `key=undefined`. */
  lemma MissingPiece(html: string, k: string)
    requires Extract(html, k).None?
    ensures k + "=" + Encode(FieldText(html, k)) == k + "=undefined"
  {
    EncodeIdentity("undefined");
  }

  /** The entries signed at the tokens step, in key order. */
  lemma SettingsEntries(html: string, e: int)
    ensures var es := Entries(WithTimestamp(ScrapedFields(html), e), SignedOrder);
      && |es| == 7
      && es[5] == ("timestamp", Decimal(e))
      && forall j | 0 <= j < 7 && j != 5 :: es[j] == (SignedOrder[j], FieldText(html, SignedOrder[j]))
  {
    forall j | 0 <= j < 7 && j != 5 ensures SignedOrder[j] in FieldNames && SignedOrder[j] != "timestamp" {
    }
  }

  /** Splitting serialised entries on `&` gives one `key=value` piece per entry. */
  lemma SerializedPieces(es: seq<Entry>)
    requires |es| >= 1
    requires forall j | 0 <= j < |es| :: '&' !in es[j].0
    ensures Split(Serialize(es), '&') == Pieces(es)
  {
    var ps := Pieces(es);
    forall j | 0 <= j < |ps| ensures '&' !in ps[j] {
      EncodeHasNoSeparators(es[j].1);
      assert ps[j] == es[j].0 + "=" + Encode(es[j].1);
    }
    SplitJoin(ps, '&');
  }

  lemma SignedOrderPlain()
    ensures forall j | 0 <= j < 7 :: '&' !in SignedOrder[j]
  {
  }
}
