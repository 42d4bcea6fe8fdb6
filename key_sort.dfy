/**
 * `Array.prototype.sort()` without a comparator, applied to the distinct
 * keys of an object: the keys in ascending UTF-16 code-unit order.
 */
module KeySort {

  import opened Unicode

  predicate Distinct(ks: seq<string>)
  {
    forall i, j | 0 <= i < j < |ks| :: ks[i] != ks[j]
  }

  /** Every key comes before every later one: ascending, and no key twice. */
  predicate StrictlySorted(ks: seq<string>)
  {
    forall i, j | 0 <= i < j < |ks| :: KeyLess(ks[i], ks[j])
  }

  /** Ascending neighbours make a strictly sorted list. */
  lemma {:induction false} ChainSorted(ks: seq<string>)
    requires forall i | 0 <= i < |ks| - 1 :: KeyLess(ks[i], ks[i + 1])
    ensures StrictlySorted(ks)
  {
    if |ks| > 1 {
      ChainSorted(ks[1..]);
      forall j | 1 <= j < |ks| ensures KeyLess(ks[0], ks[j]) {
        if j > 1 {
          assert KeyLess(ks[1..][0], ks[1..][j - 1]);
          KeyLessTransitive(ks[0], ks[1], ks[j]);
        }
      }
      forall i, j | 0 <= i < j < |ks| ensures KeyLess(ks[i], ks[j]) {
        if i > 0 {
          assert KeyLess(ks[1..][i - 1], ks[1..][j - 1]);
        }
      }
    }
  }

  /** Places k among the sorted keys ks. */
  function Insert(k: string, ks: seq<string>): (r: seq<string>)
    requires StrictlySorted(ks) && k !in ks
    ensures StrictlySorted(r)
    ensures multiset(r) == multiset(ks) + multiset{k}
  {
    if ks == [] then [k]
    else if KeyLess(k, ks[0]) then
      forall j | 0 <= j < |ks| ensures KeyLess(k, ks[j]) {
        if j > 0 { KeyLessTransitive(k, ks[0], ks[j]); }
      }
      [k] + ks
    else
      KeyLessTotal(k, ks[0]);
      var rest := Insert(k, ks[1..]);
      assert ks == [ks[0]] + ks[1..];
      forall j | 0 <= j < |rest| ensures KeyLess(ks[0], rest[j]) {
        assert rest[j] in multiset(rest);
        if rest[j] != k {
          assert rest[j] in ks[1..];
        }
      }
      [ks[0]] + rest
  }

  /** The keys sorted: the same keys, in strictly ascending order. */
  function Sort(ks: seq<string>): (r: seq<string>)
    requires Distinct(ks)
    ensures StrictlySorted(r)
    ensures multiset(r) == multiset(ks)
  {
    if ks == [] then []
    else
      assert ks == [ks[0]] + ks[1..];
      assert Distinct(ks[1..]) by {
        forall i, j | 0 <= i < j < |ks[1..]| ensures ks[1..][i] != ks[1..][j] {
          assert ks[1..][i] == ks[i + 1] && ks[1..][j] == ks[j + 1];
        }
      }
      var rest := Sort(ks[1..]);
      assert ks[0] !in ks[1..] by {
        forall j | 0 <= j < |ks[1..]| ensures ks[1..][j] != ks[0] {
          assert ks[1..][j] == ks[j + 1];
        }
      }
      assert ks[0] !in multiset(rest);
      Insert(ks[0], rest)
  }

  /**
   * The order of the input does not matter: two strictly sorted lists of
   * the same keys are the same list.
   */
  lemma {:induction false} SortedUnique(a: seq<string>, b: seq<string>)
    requires StrictlySorted(a) && StrictlySorted(b)
    requires forall x :: x in a <==> x in b
    ensures a == b
  {
    assert a == [] <==> b == [] by {
      if a != [] { assert a[0] in b; }
      if b != [] { assert b[0] in a; }
    }
    if a != [] && b != [] {
      assert a[0] in b && b[0] in a;
      var i :| 0 <= i < |b| && b[i] == a[0];
      var j :| 0 <= j < |a| && a[j] == b[0];
      if a[0] != b[0] {
        KeyLessAsymmetric(a[0], a[j]);
        assert false;
      }
      KeyLessIrreflexive(a[0]);
      forall x ensures x in a[1..] ==> x in b[1..] {
        if x in a[1..] {
          var k :| 0 <= k < |a[1..]| && a[1..][k] == x;
          assert KeyLess(a[0], a[k + 1]);
          KeyLessIrreflexive(x);
          assert a[k + 1] in a;
          var m :| 0 <= m < |b| && b[m] == x;
          assert b[1..][m - 1] == x;
        }
      }
      forall x ensures x in b[1..] ==> x in a[1..] {
        if x in b[1..] {
          var k :| 0 <= k < |b[1..]| && b[1..][k] == x;
          assert KeyLess(b[0], b[k + 1]);
          KeyLessIrreflexive(x);
          assert b[k + 1] in b;
          var m :| 0 <= m < |a| && a[m] == x;
          assert a[1..][m - 1] == x;
        }
      }
      SortedUnique(a[1..], b[1..]);
      assert a == [a[0]] + a[1..] && b == [b[0]] + b[1..];
    }
  }

  /** Sorting two arrangements of the same keys gives the same list. */
  lemma SortPermutationInvariant(ks: seq<string>, ls: seq<string>)
    requires Distinct(ks) && Distinct(ls)
    requires forall x :: x in ks <==> x in ls
    ensures Sort(ks) == Sort(ls)
  {
    var s, t := Sort(ks), Sort(ls);
    forall x ensures x in s <==> x in t {
      calc {
        x in s;
        x in multiset(s);
        x in multiset(ks);
        x in ks;
        x in ls;
        x in multiset(ls);
        x in multiset(t);
        x in t;
      }
    }
    SortedUnique(s, t);
  }
}
