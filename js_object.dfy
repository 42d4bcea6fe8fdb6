/**
 * The plain JavaScript objects the signer works on: own string-keyed
 * properties in insertion order, each key at most once.
 */
module JsObject {

  import opened Wrappers

  /** The values the script puts into the signed object: a string, or `undefined` where a scrape found nothing. */
  datatype JsValue = Str(s: string) | Undefined

  /** `String(v)`: what `encodeURIComponent` converts its argument to first. */
  function ToStr(v: JsValue): (r: string)
    ensures v.Str? ==> r == v.s
    ensures v.Undefined? ==> r == "undefined"
  {
    match v
    case Str(s) => s
    case Undefined => "undefined"
  }

  datatype Property = Property(key: string, value: JsValue)

  /** An object as a list of own properties in insertion order. */
  type Object = seq<Property>

  /** The set of the object's own keys. */
  function KeySet(o: Object): set<string>
  {
    if o == [] then {} else {o[0].key} + KeySet(o[1..])
  }

  /** No key occurs twice, as in every JavaScript object. */
  predicate DistinctKeys(o: Object)
  {
    o == [] || (o[0].key !in KeySet(o[1..]) && DistinctKeys(o[1..]))
  }

  /**
   * `Object.keys(o)`. (JavaScript lists array-index keys such as "7" first;
   * the only use of this list is to sort it, whose result does not depend on
   * the order, see KeySort.SortedUnique.)
   */
  function Keys(o: Object): (ks: seq<string>)
    ensures |ks| == |o|
    ensures forall i | 0 <= i < |o| :: ks[i] == o[i].key
  {
    if o == [] then [] else [o[0].key] + Keys(o[1..])
  }

  /** `o[k]`: the value of property k, `undefined` when o has no such property. */
  function Get(o: Object, k: string): (v: JsValue)
    ensures k !in KeySet(o) ==> v == Undefined
  {
    if o == [] then Undefined
    else if o[0].key == k then o[0].value
    else Get(o[1..], k)
  }

  /**
   * `{ ...o, [k]: v }`: a copy of o in which property k has value v; an
   * existing k keeps its place, a new k is added last.
   */
  function Set(o: Object, k: string, v: JsValue): (r: Object)
    requires DistinctKeys(o)
    ensures DistinctKeys(r)
    ensures KeySet(r) == KeySet(o) + {k}
    ensures Get(r, k) == v
    ensures forall k' | k' != k :: Get(r, k') == Get(o, k')
    ensures k in KeySet(o) ==> |r| == |o| && forall i | 0 <= i < |o| :: r[i].key == o[i].key
    ensures k !in KeySet(o) ==> r == o + [Property(k, v)]
  {
    if o == [] then [Property(k, v)]
    else if o[0].key == k then [Property(k, v)] + o[1..]
    else [o[0]] + Set(o[1..], k, v)
  }
}
