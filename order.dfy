/**
 Python's order on strings (code point by code point, a proper prefix first)
 and the order in which the rewriter visits a table's needles:
 `reversed(OrderedDict(sorted(needles.items())))`, that is, descending.
 */
module Order {

  /** `a < b` on Python strings. */
  predicate StrLt(a: string, b: string)
    decreases |a|
  {
    if a == [] then b != []
    else b != [] && (a[0] < b[0] || (a[0] == b[0] && StrLt(a[1..], b[1..])))
  }

  lemma {:induction false} StrLtIrreflexive(a: string)
    ensures !StrLt(a, a)
  {
    if a != [] { StrLtIrreflexive(a[1..]); }
  }

  lemma {:induction false} StrLtTransitive(a: string, b: string, c: string)
    requires StrLt(a, b) && StrLt(b, c)
    ensures StrLt(a, c)
    decreases |a|
  {
    if a != [] && a[0] == b[0] && b[0] == c[0] {
      StrLtTransitive(a[1..], b[1..], c[1..]);
    }
  }

  lemma {:induction false} StrLtTotal(a: string, b: string)
    ensures a == b || StrLt(a, b) || StrLt(b, a)
    decreases |a|
  {
    if a != [] && b != [] && a[0] == b[0] {
      StrLtTotal(a[1..], b[1..]);
      if a[1..] == b[1..] {
        assert a == [a[0]] + a[1..] && b == [b[0]] + b[1..];
      }
    }
  }

  lemma StrLtAsymmetric(a: string, b: string)
    requires StrLt(a, b)
    ensures !StrLt(b, a)
  {
    if StrLt(b, a) {
      StrLtTransitive(a, b, a);
      StrLtIrreflexive(a);
    }
  }

  /** A proper prefix sorts before the string it is a prefix of. */
  lemma {:induction false} ProperPrefixLess(n: string, k: nat)
    requires k < |n|
    ensures StrLt(n[..k], n)
  {
    if k > 0 {
      assert n[..k][1..] == n[1..][..k - 1];
      ProperPrefixLess(n[1..], k - 1);
    }
  }

  /** `m` is the largest element of `ks`. */
  predicate IsMaxIn(m: string, ks: set<string>) {
    m in ks && forall k :: k in ks ==> k == m || StrLt(k, m)
  }

  lemma {:induction false} MaxExists(ks: set<string>)
    requires ks != {}
    ensures exists m :: IsMaxIn(m, ks)
    decreases |ks|
  {
    var x :| x in ks;
    if ks == {x} {
      assert IsMaxIn(x, ks);
    } else {
      MaxExists(ks - {x});
      var m :| IsMaxIn(m, ks - {x});
      StrLtTotal(x, m);
      if StrLt(m, x) {
        forall k | k in ks
          ensures k == x || StrLt(k, x)
        {
          if k != x && k != m { StrLtTransitive(k, m, x); }
        }
        assert IsMaxIn(x, ks);
      } else {
        assert IsMaxIn(m, ks);
      }
    }
  }

  lemma MaxUnique(ks: set<string>)
    ensures forall m1, m2 :: IsMaxIn(m1, ks) && IsMaxIn(m2, ks) ==> m1 == m2
  {
    forall m1, m2 | IsMaxIn(m1, ks) && IsMaxIn(m2, ks)
      ensures m1 == m2
    {
      if m1 != m2 {
        assert StrLt(m1, m2) && StrLt(m2, m1);
        StrLtAsymmetric(m1, m2);
      }
    }
  }

  /** The largest key of a non-empty key set. */
  function MaxKey(ks: set<string>): (m: string)
    requires ks != {}
    ensures IsMaxIn(m, ks)
  {
    MaxExists(ks);
    MaxUnique(ks);
    var m :| m in ks && IsMaxIn(m, ks);
    m
  }

  /** Strictly descending, so in particular without repetition. */
  predicate SortedDesc(xs: seq<string>) {
    forall i, j :: 0 <= i < j < |xs| ==> StrLt(xs[j], xs[i])
  }

  /** The keys of a table in the order the rewriter tries them: descending. */
  function DescKeys(ks: set<string>): (r: seq<string>)
    ensures SortedDesc(r)
    ensures forall k :: k in r <==> k in ks
    ensures |r| == |ks|
    decreases |ks|
  {
    if ks == {} then []
    else
      var m := MaxKey(ks);
      var rest := DescKeys(ks - {m});
      assert forall j :: 0 <= j < |rest| ==> rest[j] in ks - {m};
      [m] + rest
  }

  /** Descending order visits every needle before any of its proper prefixes. */
  lemma PrefixVisitedLater(order: seq<string>, i: nat, j: nat)
    requires SortedDesc(order) && i < |order| && j < |order|
    requires |order[j]| < |order[i]| && order[j] == order[i][..|order[j]|]
    ensures i < j
  {
    ProperPrefixLess(order[i], |order[j]|);
    if j < i {
      StrLtAsymmetric(order[j], order[i]);
    }
  }
}
