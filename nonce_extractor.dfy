/**
 * The nonce extraction from the login page, in its two stages:
 *
 *   1. `/<input[^>]*name=["']?nonce["']?[^>]*value=["']?([^"'>]*)["']?/i`
 *      on the page, keeping the whole matched text (the element fragment),
 *      or the empty string when nothing matches;
 *   2. `/<input[^>]*name=["']nonce["'][^>]*value=["']([^"']+)["']/` on that
 *      fragment, keeping its capture.
 *
 * Each stage is a scanner that follows the regular expression's
 * backtracking order literally: the leftmost start, the longest `[^>]*`
 * before `name=` first, then the longest `[^>]*` before `value=`.
 */
module NonceExtractor {

  import opened Wrappers

  /** Which of the two expressions is being run. */
  datatype Mode =
    | Tolerant  // stage 1: case-insensitive, optional quotes
    | Strict    // stage 2: case-sensitive, quotes required

  predicate IsQuote(c: char)
  {
    c == '"' || c == '\''
  }

  /**
   * ASCII lower-casing. Under the `i` flag without `u`, a character matches
   * a pattern letter when both upper-case to the same code unit, and no
   * character outside ASCII upper-cases to an ASCII one; for the pattern's
   * letters this is exactly ASCII case-insensitivity.
   */
  function Lower(c: char): (d: char)
    ensures 'A' <= c <= 'Z' ==> d as int == c as int + 32
    ensures !('A' <= c <= 'Z') ==> d == c
  {
    if 'A' <= c <= 'Z' then (c as int + 32) as char else c
  }

  /** The character as the mode compares it with a (lower-case) pattern literal. */
  function Fold(m: Mode, c: char): char
  {
    if m == Tolerant then Lower(c) else c
  }

  /** The pattern literal lit matches h at position i. */
  predicate LitAt(m: Mode, h: string, i: nat, lit: string)
  {
    i + |lit| <= |h| && forall k | 0 <= k < |lit| :: Fold(m, h[i + k]) == lit[k]
  }

  /**
   * What the case-insensitive stage accepts for a lower-case pattern
   * literal: each character is the literal's own, or, where the literal has
   * a letter, that letter's ASCII capital.
   */
  lemma TolerantLitAt(h: string, i: nat, lit: string)
    requires forall k | 0 <= k < |lit| :: !('A' <= lit[k] <= 'Z')
    ensures LitAt(Tolerant, h, i, lit) <==>
      i + |lit| <= |h| &&
      forall k | 0 <= k < |lit| :: h[i + k] == lit[k] || ('a' <= lit[k] <= 'z' && h[i + k] as int == lit[k] as int - 32)
  {
    if i + |lit| <= |h| {
      forall k | 0 <= k < |lit|
        ensures Fold(Tolerant, h[i + k]) == lit[k] <==>
          h[i + k] == lit[k] || ('a' <= lit[k] <= 'z' && h[i + k] as int == lit[k] as int - 32)
      {
        var c := h[i + k];
        if 'A' <= c <= 'Z' {
          assert Fold(Tolerant, c) as int == c as int + 32;
        }
      }
    }
  }

  /** The case-sensitive stage accepts a pattern literal only verbatim. */
  lemma StrictLitAt(h: string, i: nat, lit: string)
    ensures LitAt(Strict, h, i, lit) <==> i + |lit| <= |h| && h[i..i + |lit|] == lit
  {
    if i + |lit| <= |h| && h[i..i + |lit|] == lit {
      forall k | 0 <= k < |lit| ensures Fold(Strict, h[i + k]) == lit[k] {
        assert h[i + k] == h[i..i + |lit|][k];
      }
    }
    if LitAt(Strict, h, i, lit) {
      assert h[i..i + |lit|] == lit by {
        forall k | 0 <= k < |lit| ensures h[i..i + |lit|][k] == lit[k] {
          assert Fold(Strict, h[i + k]) == lit[k];
        }
      }
    }
  }

  /** No `>` in h[i..j]. */
  predicate NoGt(h: string, i: nat, j: nat)
    requires j <= |h|
  {
    forall k | i <= k < j :: h[k] != '>'
  }

  /** Where a `[^>]*` run starting at i ends: the first `>` at or after i, or the end. */
  function GtFrom(h: string, i: nat): (g: nat)
    requires i <= |h|
    ensures i <= g <= |h| && NoGt(h, i, g)
    ensures g == |h| || h[g] == '>'
    decreases |h| - i
  {
    if i < |h| && h[i] != '>' then GtFrom(h, i + 1) else i
  }

  /** A `[^>]*` run from i can end at j exactly when h[i..j] holds no `>`. */
  lemma GtFromBound(h: string, i: nat, j: nat)
    requires i <= j <= |h|
    ensures j <= GtFrom(h, i) <==> NoGt(h, i, j)
  {
    var g := GtFrom(h, i);
    if NoGt(h, i, j) && g < |h| {
      assert h[g] == '>';
    }
  }

  /** The characters the value capture accepts: `[^"'>]` in stage 1, `[^"']` in stage 2. */
  predicate ValueChar(m: Mode, c: char)
  {
    !IsQuote(c) && (m == Strict || c != '>')
  }

  /** The end of the longest run of value characters starting at i. */
  function RunEnd(m: Mode, h: string, i: nat): (j: nat)
    requires i <= |h|
    ensures i <= j <= |h|
    ensures forall k | i <= k < j :: ValueChar(m, h[k])
    ensures j == |h| || !ValueChar(m, h[j])
    decreases |h| - i
  {
    if i < |h| && ValueChar(m, h[i]) then RunEnd(m, h, i + 1) else i
  }

  /**
   * The part from `name=` to `nonce` (stage 1: `name=["']?nonce`; the
   * optional quote after `nonce` is absorbed by the `[^>]*` that follows,
   * since `value=` cannot start at a quote) or to the closing quote
   * (stage 2: `name=["']nonce["']`), tried at a. The result is where the
   * second `[^>]*` starts.
   */
  function Head(m: Mode, h: string, a: nat): (r: Option<nat>)
    ensures r.Some? ==> a + 10 <= r.value <= |h| && NoGt(h, a, r.value)
  {
    if !LitAt(m, h, a, "name=") then None
    else
      assert forall k | a <= k < a + 5 :: h[k] != '>' by {
        forall k | a <= k < a + 5 ensures h[k] != '>' {
          assert Fold(m, h[a + (k - a)]) == "name="[k - a];
        }
      }
      if m == Tolerant then
        var n := if a + 5 < |h| && IsQuote(h[a + 5]) then a + 6 else a + 5;
        if LitAt(m, h, n, "nonce") then
          assert forall k | n <= k < n + 5 :: h[k] != '>' by {
            forall k | n <= k < n + 5 ensures h[k] != '>' {
              assert Fold(m, h[n + (k - n)]) == "nonce"[k - n];
            }
          }
          Some(n + 5)
        else None
      else if a + 12 <= |h| && IsQuote(h[a + 5]) && LitAt(m, h, a + 6, "nonce") && IsQuote(h[a + 11]) then
        assert forall k | a + 6 <= k < a + 11 :: h[k] != '>' by {
          forall k | a + 6 <= k < a + 11 ensures h[k] != '>' {
            assert Fold(m, h[a + 6 + (k - a - 6)]) == "nonce"[k - a - 6];
          }
        }
        Some(a + 12)
      else None
  }

  /** Where a match of one expression ends, and where its capture lies. */
  datatype Hit = Hit(valueStart: nat, valueEnd: nat, end: nat)

  /** The capture lies inside the match and holds value characters only; in stage 2 it is non-empty. */
  predicate GoodHit(m: Mode, h: string, hit: Hit)
  {
    && hit.valueStart <= hit.valueEnd <= hit.end <= |h|
    && (forall k | hit.valueStart <= k < hit.valueEnd :: ValueChar(m, h[k]))
    && (m == Strict ==> hit.valueStart < hit.valueEnd)
  }

  /**
   * The part from `value=` to the end of the expression, tried at b
   * (stage 1: `value=["']?([^"'>]*)["']?`, which cannot fail once `value=`
   * matched; stage 2: `value=["']([^"']+)["']`, where only the longest run
   * can be followed by a quote).
   */
  function Tail(m: Mode, h: string, b: nat): (r: Option<Hit>)
    ensures r.Some? ==> b + 6 <= r.value.valueStart <= r.value.valueEnd <= r.value.end <= |h|
    ensures r.Some? ==> forall k | r.value.valueStart <= k < r.value.valueEnd :: ValueChar(m, h[k])
    ensures r.Some? && m == Tolerant ==> NoGt(h, b, r.value.end)
    ensures r.Some? && m == Strict ==>
      && r.value.valueStart == b + 7 && IsQuote(h[b + 6])
      && r.value.valueStart < r.value.valueEnd < |h|
      && IsQuote(h[r.value.valueEnd]) && r.value.end == r.value.valueEnd + 1
  {
    if !LitAt(m, h, b, "value=") then None
    else
      assert forall k | b <= k < b + 6 :: h[k] != '>' by {
        forall k | b <= k < b + 6 ensures h[k] != '>' {
          assert Fold(m, h[b + (k - b)]) == "value="[k - b];
        }
      }
      if m == Tolerant then
        var c := b + 6;
        var d := if c < |h| && IsQuote(h[c]) then c + 1 else c;
        var e := RunEnd(m, h, d);
        var f := if e < |h| && IsQuote(h[e]) then e + 1 else e;
        Some(Hit(d, e, f))
      else if b + 6 < |h| && IsQuote(h[b + 6]) then
        var e := RunEnd(m, h, b + 7);
        if e == b + 7 || e == |h| then None else Some(Hit(b + 7, e, e + 1))
      else None
  }

  /** The second `[^>]*` tried longest first: the last b in [p, top] where the tail matches. */
  function LastValue(m: Mode, h: string, p: nat, top: nat): (r: Option<Hit>)
    requires p <= top <= |h|
    ensures r.Some? ==> p + 6 <= r.value.valueStart && GoodHit(m, h, r.value)
    decreases top - p
  {
    if Tail(m, h, top).Some? then Tail(m, h, top)
    else if top == p then None
    else LastValue(m, h, p, top - 1)
  }

  /** Everything from `name=` on, tried at a. */
  function NameHit(m: Mode, h: string, a: nat): (r: Option<Hit>)
    requires a <= |h|
    ensures r.Some? ==> a + 16 <= r.value.valueStart && GoodHit(m, h, r.value)
  {
    match Head(m, h, a)
    case None => None
    case Some(p) => LastValue(m, h, p, GtFrom(h, p))
  }

  /** The first `[^>]*` tried longest first: the last a in [lo, top] from which the rest matches. */
  function LastName(m: Mode, h: string, lo: nat, top: nat): (r: Option<Hit>)
    requires lo <= top <= |h|
    ensures r.Some? ==> lo + 16 <= r.value.valueStart && GoodHit(m, h, r.value)
    decreases top - lo
  {
    if NameHit(m, h, top).Some? then NameHit(m, h, top)
    else if top == lo then None
    else LastName(m, h, lo, top - 1)
  }

  /** The whole expression tried at start s. */
  function MatchAt(m: Mode, h: string, s: nat): (r: Option<Hit>)
    requires s <= |h|
    ensures r.Some? ==> s + 22 <= r.value.valueStart && GoodHit(m, h, r.value)
  {
    if !LitAt(m, h, s, "<input") then None
    else LastName(m, h, s + 6, GtFrom(h, s + 6))
  }

  /** The expression tried at every start: MatchAt, and no match past the end. */
  function Matcher(m: Mode, h: string): nat -> Option<Hit>
  {
    (q: nat) => if q <= |h| then MatchAt(m, h, q) else None
  }

  /** The leftmost q in [s, n] where f reports a hit, and that hit. */
  function FirstFrom(f: nat -> Option<Hit>, n: nat, s: nat): (r: Option<(nat, Hit)>)
    requires s <= n
    ensures r.Some? ==> s <= r.value.0 <= n && f(r.value.0) == Some(r.value.1)
    decreases n - s
  {
    match f(s)
    case Some(hit) => Some((s, hit))
    case None => if s == n then None else FirstFrom(f, n, s + 1)
  }

  /** The leftmost start at or after s where the expression matches. */
  function FirstMatch(m: Mode, h: string, s: nat): (r: Option<(nat, Hit)>)
    requires s <= |h|
    ensures r.Some? ==> s <= r.value.0 <= |h| && MatchAt(m, h, r.value.0) == Some(r.value.1)
  {
    var r := FirstFrom(Matcher(m, h), |h|, s);
    assert r.Some? ==> Matcher(m, h)(r.value.0) == MatchAt(m, h, r.value.0);
    r
  }

  /** Stage 1: the matched text `match[0]` of the first expression. */
  function Stage1(h: string): Option<string>
  {
    match FirstMatch(Tolerant, h, 0)
    case None => None
    case Some((s, hit)) => Some(h[s..hit.end])
  }

  /** Stage 2: the capture `match[1]` of the second expression. */
  function Stage2(el: string): (r: Option<string>)
    ensures r.Some? ==> r.value != [] && forall c | c in r.value :: !IsQuote(c)
  {
    match FirstMatch(Strict, el, 0)
    case None => None
    case Some((_, hit)) => Some(el[hit.valueStart..hit.valueEnd])
  }

  /** `extractNonceFromHtml`: stage 2 on stage 1's fragment, or on `''` when stage 1 finds nothing. */
  function ExtractNonce(html: string): (r: Option<string>)
    ensures r.Some? ==> r.value != [] && forall c | c in r.value :: !IsQuote(c)
  {
    Stage2(Stage1(html).GetOr(""))
  }

  // ---------------------------------------------------------------------
  // The matches the expressions describe, stated directly
  // ---------------------------------------------------------------------

  /**
   * At s: `<input`, a `>`-free run up to a, the `name=`…`nonce` part at a
   * ending at p, a `>`-free run from p up to b, and the `value=` part at b.
   */
  predicate Occurrence(m: Mode, h: string, s: nat, a: nat, b: nat)
  {
    && s + 6 <= a <= |h|
    && LitAt(m, h, s, "<input")
    && NoGt(h, s + 6, a)
    && Head(m, h, a).Some?
    && Head(m, h, a).value <= b <= |h|
    && NoGt(h, Head(m, h, a).value, b)
    && Tail(m, h, b).Some?
  }

  lemma {:induction false} LastValueFound(m: Mode, h: string, p: nat, top: nat) returns (b: nat)
    requires p <= top <= |h| && LastValue(m, h, p, top).Some?
    ensures p <= b <= top && Tail(m, h, b) == LastValue(m, h, p, top)
    ensures forall b' | b < b' <= top :: Tail(m, h, b').None?
    decreases top - p
  {
    if Tail(m, h, top).Some? {
      b := top;
    } else {
      b := LastValueFound(m, h, p, top - 1);
    }
  }

  lemma {:induction false} LastValueReaches(m: Mode, h: string, p: nat, top: nat, b: nat)
    requires p <= b <= top <= |h| && Tail(m, h, b).Some?
    ensures LastValue(m, h, p, top).Some?
    decreases top - p
  {
    if Tail(m, h, top).None? {
      LastValueReaches(m, h, p, top - 1, b);
    }
  }

  lemma {:induction false} LastNameFound(m: Mode, h: string, lo: nat, top: nat) returns (a: nat)
    requires lo <= top <= |h| && LastName(m, h, lo, top).Some?
    ensures lo <= a <= top && NameHit(m, h, a) == LastName(m, h, lo, top)
    ensures forall a' | a < a' <= top :: NameHit(m, h, a').None?
    decreases top - lo
  {
    if NameHit(m, h, top).Some? {
      a := top;
    } else {
      a := LastNameFound(m, h, lo, top - 1);
    }
  }

  lemma {:induction false} LastNameReaches(m: Mode, h: string, lo: nat, top: nat, a: nat)
    requires lo <= a <= top <= |h| && NameHit(m, h, a).Some?
    ensures LastName(m, h, lo, top).Some?
    decreases top - lo
  {
    if top > a && NameHit(m, h, top).None? {
      LastNameReaches(m, h, lo, top - 1, a);
      assert LastName(m, h, lo, top) == LastName(m, h, lo, top - 1);
    }
  }

  /** An occurrence makes the rest of the expression match from its a. */
  lemma NameHitOf(m: Mode, h: string, s: nat, a: nat, b: nat)
    requires Occurrence(m, h, s, a, b)
    ensures NameHit(m, h, a).Some?
  {
    var p := Head(m, h, a).value;
    GtFromBound(h, p, b);
    LastValueReaches(m, h, p, GtFrom(h, p), b);
  }

  /**
   * What MatchAt finds is an occurrence, and of all occurrences at s it has
   * the last a and, for that a, the last b: the backtracking order.
   */
  lemma MatchAtSound(m: Mode, h: string, s: nat) returns (a: nat, b: nat)
    requires s <= |h| && MatchAt(m, h, s).Some?
    ensures Occurrence(m, h, s, a, b) && MatchAt(m, h, s) == Tail(m, h, b)
    ensures forall a': nat, b': nat | Occurrence(m, h, s, a', b') :: a' < a || (a' == a && b' <= b)
  {
    var g := GtFrom(h, s + 6);
    a := LastNameFound(m, h, s + 6, g);
    var p := Head(m, h, a).value;
    var top := GtFrom(h, p);
    b := LastValueFound(m, h, p, top);
    GtFromBound(h, s + 6, a);
    GtFromBound(h, p, b);
    forall a': nat, b': nat | Occurrence(m, h, s, a', b') ensures a' < a || (a' == a && b' <= b) {
      assert a' <= a by {
        GtFromBound(h, s + 6, a');
        NameHitOf(m, h, s, a', b');
      }
      if a' == a {
        GtFromBound(h, p, b');
      }
    }
  }

  /** Every occurrence at s makes the expression match at s. */
  lemma MatchAtComplete(m: Mode, h: string, s: nat, a: nat, b: nat)
    requires Occurrence(m, h, s, a, b)
    ensures MatchAt(m, h, s).Some?
  {
    NameHitOf(m, h, s, a, b);
    GtFromBound(h, s + 6, a);
    LastNameReaches(m, h, s + 6, GtFrom(h, s + 6), a);
  }

  lemma {:induction false} FirstFromLeftmost(f: nat -> Option<Hit>, n: nat, s: nat)
    requires s <= n && FirstFrom(f, n, s).Some?
    ensures forall q | s <= q < FirstFrom(f, n, s).value.0 :: f(q).None?
    decreases n - s
  {
    if f(s).None? {
      FirstFromLeftmost(f, n, s + 1);
    }
  }

  lemma {:induction false} FirstFromNone(f: nat -> Option<Hit>, n: nat, s: nat)
    requires s <= n
    ensures FirstFrom(f, n, s).None? <==> forall q | s <= q <= n :: f(q).None?
    decreases n - s
  {
    if s < n {
      FirstFromNone(f, n, s + 1);
    }
  }

  /** Nothing matches before the first match. */
  lemma FirstMatchLeftmost(m: Mode, h: string, s: nat)
    requires s <= |h| && FirstMatch(m, h, s).Some?
    ensures forall q | s <= q < FirstMatch(m, h, s).value.0 :: MatchAt(m, h, q).None?
  {
    var f := Matcher(m, h);
    FirstFromLeftmost(f, |h|, s);
    forall q | s <= q < FirstMatch(m, h, s).value.0 ensures MatchAt(m, h, q).None? {
      assert f(q).None?;
    }
  }

  /** The search fails exactly when the expression matches at no start. */
  lemma FirstMatchNone(m: Mode, h: string, s: nat)
    requires s <= |h|
    ensures FirstMatch(m, h, s).None? <==> forall q | s <= q <= |h| :: MatchAt(m, h, q).None?
  {
    var f := Matcher(m, h);
    FirstFromNone(f, |h|, s);
    forall q | s <= q <= |h| ensures f(q) == MatchAt(m, h, q) {
    }
  }

  /**
   * The first match of either expression is an occurrence at the leftmost
   * start that has one, chosen in backtracking order there.
   */
  lemma FirstMatchSound(m: Mode, h: string) returns (s: nat, a: nat, b: nat)
    requires FirstMatch(m, h, 0).Some?
    ensures s == FirstMatch(m, h, 0).value.0
    ensures Occurrence(m, h, s, a, b) && Tail(m, h, b) == Some(FirstMatch(m, h, 0).value.1)
    ensures forall s': nat, a': nat, b': nat | s' < s :: !Occurrence(m, h, s', a', b')
    ensures forall a': nat, b': nat | Occurrence(m, h, s, a', b') :: a' < a || (a' == a && b' <= b)
  {
    s := FirstMatch(m, h, 0).value.0;
    a, b := MatchAtSound(m, h, s);
    FirstMatchLeftmost(m, h, 0);
    forall s': nat, a': nat, b': nat | s' < s ensures !Occurrence(m, h, s', a', b') {
      if Occurrence(m, h, s', a', b') {
        MatchAtComplete(m, h, s', a', b');
      }
    }
  }

  /** Either expression fails exactly when the text holds no occurrence. */
  lemma FirstMatchAbsent(m: Mode, h: string)
    ensures FirstMatch(m, h, 0).None? <==> forall s: nat, a: nat, b: nat :: !Occurrence(m, h, s, a, b)
  {
    FirstMatchNone(m, h, 0);
    if FirstMatch(m, h, 0).None? {
      forall s: nat, a: nat, b: nat ensures !Occurrence(m, h, s, a, b) {
        if Occurrence(m, h, s, a, b) {
          MatchAtComplete(m, h, s, a, b);
        }
      }
    } else {
      var s, a, b := FirstMatchSound(m, h);
    }
  }

  // ---------------------------------------------------------------------
  // The two stages
  // ---------------------------------------------------------------------

  /** A stage-1 match is `>`-free from `<input` to its end. */
  lemma TolerantSpanNoGt(h: string, s: nat, a: nat, b: nat)
    requires Occurrence(Tolerant, h, s, a, b)
    ensures NoGt(h, s, Tail(Tolerant, h, b).value.end)
  {
    var p := Head(Tolerant, h, a).value;
    var e := Tail(Tolerant, h, b).value.end;
    forall k | s <= k < e ensures h[k] != '>' {
      if k < s + 6 {
        assert Fold(Tolerant, h[s + (k - s)]) == "<input"[k - s];
      }
    }
  }

  /**
   * Stage 1 yields the text of the leftmost occurrence of the first
   * expression, taken in backtracking order, and that text holds no `>`.
   */
  lemma Stage1Found(h: string) returns (s: nat, a: nat, b: nat)
    requires Stage1(h).Some?
    ensures Occurrence(Tolerant, h, s, a, b)
    ensures Stage1(h).value == h[s..Tail(Tolerant, h, b).value.end]
    ensures forall s': nat, a': nat, b': nat | s' < s :: !Occurrence(Tolerant, h, s', a', b')
    ensures forall a': nat, b': nat | Occurrence(Tolerant, h, s, a', b') :: a' < a || (a' == a && b' <= b)
    ensures '>' !in Stage1(h).value
  {
    s, a, b := FirstMatchSound(Tolerant, h);
    TolerantSpanNoGt(h, s, a, b);
  }

  /** Stage 1 finds nothing exactly when the page holds no occurrence of the first expression. */
  lemma Stage1Absent(h: string)
    ensures Stage1(h).None? <==> forall s: nat, a: nat, b: nat :: !Occurrence(Tolerant, h, s, a, b)
  {
    FirstMatchAbsent(Tolerant, h);
  }

  /**
   * The nonce site in the strict form stage 2 demands: at s `<input`; at a
   * `name=`, a quote, `nonce`, a quote; at b, after that, `value=`, a quote,
   * the non-empty quote-free value v, and a closing quote.
   */
  predicate NonceSite(h: string, s: nat, a: nat, b: nat, v: string)
  {
    && b + 7 + |v| < |h|
    && s + 6 <= a && a + 12 <= b
    && h[s..s + 6] == "<input"
    && h[a..a + 5] == "name=" && IsQuote(h[a + 5]) && h[a + 6..a + 11] == "nonce" && IsQuote(h[a + 11])
    && h[b..b + 6] == "value=" && IsQuote(h[b + 6])
    && h[b + 7..b + 7 + |v|] == v && IsQuote(h[b + 7 + |v|])
    && v != [] && (forall c | c in v :: !IsQuote(c))
  }

  lemma LitSlice(h: string, i: nat, lit: string)
    requires LitAt(Strict, h, i, lit)
    ensures h[i..i + |lit|] == lit
  {
    assert forall k | 0 <= k < |lit| :: h[i + k] == lit[k];
  }

  /** A stage-2 match is a nonce site, with the capture as its value. */
  lemma Stage2Found(el: string) returns (s: nat, a: nat, b: nat)
    requires Stage2(el).Some?
    ensures Occurrence(Strict, el, s, a, b)
    ensures NonceSite(el, s, a, b, Stage2(el).value)
    ensures forall s': nat, a': nat, b': nat | s' < s :: !Occurrence(Strict, el, s', a', b')
  {
    s, a, b := FirstMatchSound(Strict, el);
    assert Stage2(el).value == el[b + 7..Tail(Strict, el, b).value.valueEnd];
    StrictOccurrenceSite(el, s, a, b);
  }

  /** A stage-2 occurrence, read as slices of the text. */
  lemma StrictOccurrenceSite(el: string, s: nat, a: nat, b: nat)
    requires Occurrence(Strict, el, s, a, b)
    ensures NonceSite(el, s, a, b, el[b + 7..Tail(Strict, el, b).value.valueEnd])
  {
    LitSlice(el, s, "<input");
    StrictHeadSlices(el, a);
    StrictTailSlices(el, b);
  }

  lemma StrictHeadSlices(el: string, a: nat)
    requires Head(Strict, el, a).Some?
    ensures Head(Strict, el, a).value == a + 12 <= |el|
    ensures el[a..a + 5] == "name=" && IsQuote(el[a + 5]) && el[a + 6..a + 11] == "nonce" && IsQuote(el[a + 11])
  {
    LitSlice(el, a, "name=");
    LitSlice(el, a + 6, "nonce");
  }

  lemma StrictTailSlices(el: string, b: nat)
    requires Tail(Strict, el, b).Some?
    ensures var hit := Tail(Strict, el, b).value;
      && b + 7 < hit.valueEnd < |el|
      && el[b..b + 6] == "value=" && IsQuote(el[b + 6]) && IsQuote(el[hit.valueEnd])
      && forall c | c in el[b + 7..hit.valueEnd] :: !IsQuote(c)
  {
    LitSlice(el, b, "value=");
    var hit := Tail(Strict, el, b).value;
    forall c | c in el[b + 7..hit.valueEnd] ensures !IsQuote(c) {
      var k :| b + 7 <= k < hit.valueEnd && el[k] == c;
      assert ValueChar(Strict, el[k]);
    }
  }

  lemma SliceOfSlice(h: string, x: nat, y: nat, i: nat, j: nat)
    requires x <= y <= |h| && i <= j <= y - x
    ensures h[x..y][i..j] == h[x + i..x + j]
  {
    assert forall k | 0 <= k < j - i :: h[x..y][i..j][k] == h[x + i..x + j][k];
  }

  lemma Stage2Site(el: string) returns (s: nat, a: nat, b: nat)
    requires Stage2(el).Some?
    ensures NonceSite(el, s, a, b, Stage2(el).value)
  {
    s, a, b := Stage2Found(el);
  }

  /** A nonce site inside a slice of the page is a nonce site of the page. */
  lemma NonceSiteShift(h: string, x: nat, y: nat, s: nat, a: nat, b: nat, v: string) returns (s': nat, a': nat, b': nat)
    requires x <= y <= |h| && NonceSite(h[x..y], s, a, b, v)
    ensures s' == x + s && a' == x + a && b' == x + b
    ensures NonceSite(h, s', a', b', v)
  {
    s', a', b' := x + s, x + a, x + b;
    SliceOfSlice(h, x, y, s, s + 6);
    SliceOfSlice(h, x, y, a, a + 5);
    SliceOfSlice(h, x, y, a + 6, a + 11);
    SliceOfSlice(h, x, y, b, b + 6);
    SliceOfSlice(h, x, y, b + 7, b + 7 + |v|);
  }

  /** Stage 1's fragment as a slice of the page. */
  lemma Stage1Fragment(h: string) returns (x: nat, y: nat)
    requires Stage1(h).Some?
    ensures x <= y <= |h| && Stage1(h) == Some(h[x..y]) && NoGt(h, x, y)
  {
    var s, a, b := Stage1Found(h);
    x, y := s, Tail(Tolerant, h, b).value.end;
    assert forall k | x <= k < y :: h[k] == h[x..y][k - x];
  }

  /**
   * A nonce comes from a nonce site of the page that lies inside stage 1's
   * fragment h[x..y]: `name=` with the quoted `nonce` comes before `value=`
   * with the quoted value, and the whole span holds no `>`.
   */
  lemma ExtractNonceSite(h: string) returns (x: nat, y: nat, s: nat, a: nat, b: nat)
    requires ExtractNonce(h).Some?
    ensures x <= y <= |h| && Stage1(h) == Some(h[x..y]) && NoGt(h, x, y)
    ensures NonceSite(h, s, a, b, ExtractNonce(h).value)
    ensures x <= s && b + 8 + |ExtractNonce(h).value| <= y
  {
    var v := ExtractNonce(h).value;
    if Stage1(h).None? {
      var s0, a0, b0 := Stage2Site("");
      assert false;
    }
    x, y := Stage1Fragment(h);
    var s2, a2, b2 := Stage2Site(h[x..y]);
    s, a, b := NonceSiteShift(h, x, y, s2, a2, b2, v);
  }

  /** Without a nonce site anywhere in the page there is no nonce. */
  lemma ExtractNonceAbsent(h: string)
    requires forall s: nat, a: nat, b: nat, v: string :: !NonceSite(h, s, a, b, v)
    ensures ExtractNonce(h).None?
  {
    if ExtractNonce(h).Some? {
      var x, y, s, a, b := ExtractNonceSite(h);
    }
  }

  /** A lower-case pattern literal present verbatim matches in either mode. */
  lemma LitOfSlice(m: Mode, h: string, i: nat, lit: string)
    requires i + |lit| <= |h| && h[i..i + |lit|] == lit
    requires forall c | c in lit :: !('A' <= c <= 'Z')
    ensures LitAt(m, h, i, lit)
  {
    forall k | 0 <= k < |lit| ensures Fold(m, h[i + k]) == lit[k] {
      assert h[i + k] == h[i..i + |lit|][k] == lit[k];
      assert lit[k] in lit;
    }
  }

  /** The part of the example page before its first `>`: `<input name=nonce value=x`. */
  const UnquotedInput: string := "<input" + " " + "name=" + "nonce" + " " + "value=" + "x"

  /** The example page `<input name=nonce value=x><input name='nonce' value='y'>`. */
  const TwoInputs: string :=
    UnquotedInput + ">" + "<input" + " " + "name=" + "'" + "nonce" + "'" + " " + "value=" + "'" + "y" + "'" + ">"

  /** The second element of the example is a nonce site. */
  lemma TwoInputsSite()
    ensures NonceSite(TwoInputs, 26, 33, 46, "y")
  {
    var h := TwoInputs;
    assert h[26..32] == "<input" && h[33..38] == "name=" && h[39..44] == "nonce";
    assert h[46..52] == "value=" && h[53..54] == "y";
    assert h[38] == '\'' && h[44] == '\'' && h[52] == '\'' && h[54] == '\'';
    assert forall c | c in "y" :: c == 'y';
  }

  /** The first element of the example is an occurrence of the first expression. */
  lemma TwoInputsFirst()
    ensures Occurrence(Tolerant, TwoInputs, 0, 7, 18)
  {
    var h := TwoInputs;
    assert h[6] == ' ' && h[12] == 'n' && h[17] == ' ';
    TwoInputsLiterals();
    assert Head(Tolerant, h, 7) == Some(17);
  }

  lemma TwoInputsLiterals()
    ensures LitAt(Tolerant, TwoInputs, 0, "<input") && LitAt(Tolerant, TwoInputs, 7, "name=")
    ensures LitAt(Tolerant, TwoInputs, 12, "nonce") && LitAt(Tolerant, TwoInputs, 18, "value=")
  {
    var h := TwoInputs;
    assert h[0..6] == "<input" && h[7..12] == "name=" && h[12..17] == "nonce" && h[18..24] == "value=";
    LitOfSlice(Tolerant, h, 0, "<input");
    LitOfSlice(Tolerant, h, 7, "name=");
    LitOfSlice(Tolerant, h, 12, "nonce");
    LitOfSlice(Tolerant, h, 18, "value=");
  }

  /** Stage 1 on the example stops inside its first element, before any quote. */
  lemma TwoInputsStage1()
    ensures Stage1(TwoInputs).Some?
    ensures var el := Stage1(TwoInputs).value; |el| <= 25 && el == UnquotedInput[..|el|]
  {
    var h := TwoInputs;
    TwoInputsPrefix();
    TwoInputsFirst();
    var y := Stage1FromStart(h, 7, 18);
    assert y <= 25 by {
      assert h[25] == '>';
    }
    PrefixOfPrefix(h, UnquotedInput, y);
  }

  lemma TwoInputsPrefix()
    ensures |UnquotedInput| == 25 && TwoInputs[..25] == UnquotedInput && TwoInputs[25] == '>'
  {
  }

  /** When the first expression matches at the very start, stage 1's fragment is a `>`-free prefix. */
  lemma Stage1FromStart(h: string, a: nat, b: nat) returns (y: nat)
    requires Occurrence(Tolerant, h, 0, a, b)
    ensures y <= |h| && Stage1(h) == Some(h[..y]) && NoGt(h, 0, y)
  {
    MatchAtComplete(Tolerant, h, 0, a, b);
    var s1, a1, b1 := Stage1Found(h);
    assert s1 == 0;
    y := Tail(Tolerant, h, b1).value.end;
    TolerantSpanNoGt(h, s1, a1, b1);
  }

  lemma PrefixOfPrefix(h: string, u: string, y: nat)
    requires y <= |u| <= |h| && h[..|u|] == u
    ensures h[..y] == u[..y]
  {
    assert forall k | 0 <= k < y :: h[..y][k] == h[..|u|][k];
  }

  /** The unquoted first element holds no quote. */
  lemma UnquotedInputQuoteFree()
    ensures forall k | 0 <= k < |UnquotedInput| :: !IsQuote(UnquotedInput[k])
  {
  }

  /** Stage 2 never matches a text without quotes. */
  lemma Stage2NeedsQuote(el: string)
    requires forall k | 0 <= k < |el| :: !IsQuote(el[k])
    ensures Stage2(el).None?
  {
    if Stage2(el).Some? {
      var s, a, b := Stage2Site(el);
    }
  }

  /** The example page yields no nonce. */
  lemma TwoInputsNoNonce()
    ensures ExtractNonce(TwoInputs).None?
  {
    TwoInputsStage1();
    var el := Stage1(TwoInputs).value;
    UnquotedInputQuoteFree();
    assert forall k | 0 <= k < |el| :: !IsQuote(el[k]) by {
      forall k | 0 <= k < |el| ensures !IsQuote(el[k]) {
        assert el[k] == UnquotedInput[k];
      }
    }
    Stage2NeedsQuote(el);
  }

  /**
   * Only the first candidate counts: stage 1 picks the unquoted first
   * element, stage 2 rejects it, and the quoted second element is never
   * looked at although it is a nonce site.
   */
  lemma FirstCandidateDecides()
    ensures NonceSite(TwoInputs, 26, 33, 46, "y")
    ensures ExtractNonce(TwoInputs).None?
  {
    TwoInputsSite();
    TwoInputsNoNonce();
  }
}
