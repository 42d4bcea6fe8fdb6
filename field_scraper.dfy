/**
 * The hidden-field scrape of the tokens page: for a field name NAME, the
 * first capture of the regular expression `id="NAME"\s+value="([^"]+)"`,
 * or nothing when it does not match.
 */
module FieldScraper {

  import opened Wrappers

  /**
   * The characters JavaScript's `\s` matches: the WhiteSpace and
   * LineTerminator code points of ECMA-262 (tab, line feed, vertical tab,
   * form feed, carriage return, space, no-break space, the other space
   * separators, the line and paragraph separators, and the byte order mark).
   */
  predicate IsSpace(c: char)
  {
    || c == '\t' || c == '\n' || c == '\U{000B}' || c == '\U{000C}' || c == '\r' || c == ' '
    || c == '\U{00A0}' || c == '\U{1680}' || ('\U{2000}' <= c <= '\U{200A}')
    || c == '\U{2028}' || c == '\U{2029}' || c == '\U{202F}' || c == '\U{205F}'
    || c == '\U{3000}' || c == '\U{FEFF}'
  }

  /** s holds p at position i. */
  predicate StartsAt(s: string, i: nat, p: string)
  {
    i + |p| <= |s| && s[i..i + |p|] == p
  }

  /** The end of the run of whitespace that starts at i. */
  function SkipSpace(s: string, i: nat): (j: nat)
    requires i <= |s|
    ensures i <= j <= |s|
    ensures forall m | i <= m < j :: IsSpace(s[m])
    ensures j == |s| || !IsSpace(s[j])
    decreases |s| - i
  {
    if i < |s| && IsSpace(s[i]) then SkipSpace(s, i + 1) else i
  }

  /** The end of the run of characters other than `"` that starts at i. */
  function SkipUnquoted(s: string, i: nat): (j: nat)
    requires i <= |s|
    ensures i <= j <= |s|
    ensures forall m | i <= m < j :: s[m] != '"'
    ensures j == |s| || s[j] == '"'
    decreases |s| - i
  {
    if i < |s| && s[i] != '"' then SkipUnquoted(s, i + 1) else i
  }

  /** The literal text the expression starts with: `id="NAME"`. */
  function Opening(name: string): string
  {
    "id=\"" + name + "\""
  }

  const ValueOpening: string := "value=\""

  /**
   * The expression tried at position i. Both quantified parts are greedy
   * and only a maximal run can be followed by what comes next (`value`
   * does not start with whitespace, and only `"` may follow `[^"]+`), so
   * backtracking never finds another match at the same position.
   */
  function MatchAt(html: string, name: string, i: nat): (r: Option<string>)
    requires i <= |html|
    ensures r.Some? ==> r.value != [] && '"' !in r.value
  {
    var o := Opening(name);
    if !StartsAt(html, i, o) then None
    else
      var w := i + |o|;
      var j := SkipSpace(html, w);
      if j == w || !StartsAt(html, j, ValueOpening) then None
      else
        var v := j + |ValueOpening|;
        var e := SkipUnquoted(html, v);
        if e == v || e == |html| then None
        else
          assert forall c | c in html[v..e] :: c != '"';
          Some(html[v..e])
  }

  /** The leftmost match at or after position i. */
  function ExtractFrom(html: string, name: string, i: nat): Option<string>
    requires i <= |html|
    decreases |html| - i
  {
    match MatchAt(html, name, i)
    case Some(v) => Some(v)
    case None => if i == |html| then None else ExtractFrom(html, name, i + 1)
  }

  /** `html.match(/id="NAME"\s+value="([^"]+)"/)?.[1]`. */
  function Extract(html: string, name: string): (r: Option<string>)
    ensures r.Some? ==> r.value != [] && '"' !in r.value
  {
    ExtractOk(html, name, 0);
    ExtractFrom(html, name, 0)
  }

  lemma {:induction false} ExtractOk(html: string, name: string, i: nat)
    requires i <= |html|
    ensures var r := ExtractFrom(html, name, i); r.Some? ==> r.value != [] && '"' !in r.value
    decreases |html| - i
  {
    if MatchAt(html, name, i).None? && i < |html| {
      ExtractOk(html, name, i + 1);
    }
  }

  // ---------------------------------------------------------------------
  // The occurrence the expression describes, stated directly
  // ---------------------------------------------------------------------

  /**
   * At position i: `id="NAME"`, then k >= 1 whitespace characters, then
   * `value="`, then the non-empty, quote-free v, then `"`.
   */
  predicate Occurrence(html: string, name: string, i: nat, k: nat, v: string)
  {
    var o := Opening(name);
    var j := i + |o| + k;
    var e := j + |ValueOpening| + |v|;
    && e < |html|
    && html[i..i + |o|] == o
    && k >= 1 && (forall m | i + |o| <= m < j :: IsSpace(html[m]))
    && html[j..j + |ValueOpening|] == ValueOpening
    && html[j + |ValueOpening|..e] == v
    && v != [] && '"' !in v
    && html[e] == '"'
  }

  /** What MatchAt finds is an occurrence. */
  lemma MatchAtSound(html: string, name: string, i: nat) returns (k: nat)
    requires i <= |html| && MatchAt(html, name, i).Some?
    ensures Occurrence(html, name, i, k, MatchAt(html, name, i).value)
  {
    var o := Opening(name);
    var w := i + |o|;
    k := SkipSpace(html, w) - w;
  }

  /** Every occurrence is what MatchAt finds at its position. */
  lemma MatchAtComplete(html: string, name: string, i: nat, k: nat, v: string)
    requires Occurrence(html, name, i, k, v)
    ensures MatchAt(html, name, i) == Some(v)
  {
    var o := Opening(name);
    var w := i + |o|;
    var j := w + k;
    assert !IsSpace(html[j]) by {
      assert html[j] == ValueOpening[0];
    }
    assert StartsAt(html, i, o);
    SkipSpaceTo(html, w, j);
    var b := j + |ValueOpening|;
    var e := b + |v|;
    forall m | b <= m < e ensures html[m] != '"' {
      assert html[m] == v[m - b];
    }
    SkipUnquotedTo(html, b, e);
  }

  lemma {:induction false} SkipSpaceTo(s: string, i: nat, j: nat)
    requires i <= j < |s|
    requires forall m | i <= m < j :: IsSpace(s[m])
    requires !IsSpace(s[j])
    ensures SkipSpace(s, i) == j
    decreases j - i
  {
    if i < j { SkipSpaceTo(s, i + 1, j); }
  }

  lemma {:induction false} SkipUnquotedTo(s: string, i: nat, j: nat)
    requires i <= j < |s|
    requires forall m | i <= m < j :: s[m] != '"'
    requires s[j] == '"'
    ensures SkipUnquoted(s, i) == j
    decreases j - i
  {
    if i < j { SkipUnquotedTo(s, i + 1, j); }
  }

  /** The occurrence at a position is unique: the run of whitespace and the value are determined. */
  lemma OccurrenceUnique(html: string, name: string, i: nat, k: nat, v: string, k': nat, v': string)
    requires Occurrence(html, name, i, k, v) && Occurrence(html, name, i, k', v')
    ensures k == k' && v == v'
  {
    MatchAtComplete(html, name, i, k, v);
    MatchAtComplete(html, name, i, k', v');
    var k0 := MatchAtSound(html, name, i);
    var w := i + |Opening(name)|;
    SkipSpaceTo(html, w, w + k);
    SkipSpaceTo(html, w, w + k');
  }

  // ---------------------------------------------------------------------
  // Leftmost match
  // ---------------------------------------------------------------------

  lemma {:induction false} ExtractFromLeftmost(html: string, name: string, i: nat) returns (p: nat)
    requires i <= |html| && ExtractFrom(html, name, i).Some?
    ensures i <= p <= |html|
    ensures MatchAt(html, name, p) == ExtractFrom(html, name, i)
    ensures forall q | i <= q < p :: MatchAt(html, name, q).None?
    decreases |html| - i
  {
    if MatchAt(html, name, i).Some? {
      p := i;
    } else {
      p := ExtractFromLeftmost(html, name, i + 1);
    }
  }

  lemma {:induction false} ExtractFromNone(html: string, name: string, i: nat)
    requires i <= |html|
    ensures ExtractFrom(html, name, i).None? <==> forall q | i <= q <= |html| :: MatchAt(html, name, q).None?
    decreases |html| - i
  {
    if i < |html| {
      ExtractFromNone(html, name, i + 1);
    }
  }

  /**
   * A found value comes from an occurrence, and no occurrence starts
   * earlier: the result is the leftmost match.
   */
  lemma ExtractLeftmost(html: string, name: string) returns (i: nat, k: nat)
    requires Extract(html, name).Some?
    ensures Occurrence(html, name, i, k, Extract(html, name).value)
    ensures forall j: nat, k': nat, v' | j < i :: !Occurrence(html, name, j, k', v')
  {
    i := ExtractFromLeftmost(html, name, 0);
    k := MatchAtSound(html, name, i);
    forall j: nat, k': nat, v' | j < i ensures !Occurrence(html, name, j, k', v') {
      if Occurrence(html, name, j, k', v') {
        MatchAtComplete(html, name, j, k', v');
      }
    }
  }

  /** Nothing is found exactly when the page holds no occurrence at all. */
  lemma ExtractAbsent(html: string, name: string)
    ensures Extract(html, name).None? <==> forall i: nat, k: nat, v :: !Occurrence(html, name, i, k, v)
  {
    ExtractFromNone(html, name, 0);
    if Extract(html, name).None? {
      forall i: nat, k: nat, v ensures !Occurrence(html, name, i, k, v) {
        if Occurrence(html, name, i, k, v) {
          MatchAtComplete(html, name, i, k, v);
        }
      }
    } else {
      var i, k := ExtractLeftmost(html, name);
    }
  }
}
