/** A fixed listing of a set of property names. `Object.keys` of a parsed
    document lists each own key once, and a document that has not changed
    lists in the same order every time; this module fixes one such order
    (ascending by code point) so that `list()`, `items()`, `values()` and
    `entries()` can all be stated against the same listing. */
module Enumeration {

  /** `a` comes no later than `b`, comparing code point by code point, with
      a prefix first. */
  predicate Below(a: string, b: string)
    decreases |a|
  {
    |a| == 0 || (|b| > 0 && (a[0] < b[0] || (a[0] == b[0] && Below(a[1..], b[1..]))))
  }

  lemma {:induction false} BelowReflexive(a: string)
    ensures Below(a, a)
    decreases |a|
  {
    if |a| > 0 {
      BelowReflexive(a[1..]);
    }
  }

  lemma {:induction false} BelowTotal(a: string, b: string)
    ensures Below(a, b) || Below(b, a)
    decreases |a|
  {
    if |a| > 0 && |b| > 0 && a[0] == b[0] {
      BelowTotal(a[1..], b[1..]);
    }
  }

  lemma {:induction false} BelowAntisymmetric(a: string, b: string)
    requires Below(a, b) && Below(b, a)
    ensures a == b
    decreases |a|
  {
    if |a| > 0 {
      BelowAntisymmetric(a[1..], b[1..]);
      assert a == [a[0]] + a[1..] && b == [b[0]] + b[1..];
    }
  }

  lemma {:induction false} BelowTransitive(a: string, b: string, c: string)
    requires Below(a, b) && Below(b, c)
    ensures Below(a, c)
    decreases |a|
  {
    if |a| > 0 && a[0] == b[0] && b[0] == c[0] {
      BelowTransitive(a[1..], b[1..], c[1..]);
    }
  }

  /** Every non-empty set of names has a first one. */
  lemma {:induction false} LeastExists(s: set<string>)
    requires s != {}
    ensures exists m :: m in s && forall k :: k in s ==> Below(m, k)
    decreases |s|
  {
    var x :| x in s;
    if s == {x} {
      BelowReflexive(x);
      assert forall k :: k in s ==> Below(x, k);
    } else {
      LeastExists(s - {x});
      var m :| m in s - {x} && forall k :: k in s - {x} ==> Below(m, k);
      BelowTotal(m, x);
      if Below(m, x) {
        assert forall k :: k in s ==> Below(m, k);
      } else {
        forall k | k in s ensures Below(x, k) {
          if k == x {
            BelowReflexive(x);
          } else {
            BelowTransitive(x, m, k);
          }
        }
      }
    }
  }

  /** Two names of a set that each come no later than the other are one. */
  lemma LeastUnique(s: set<string>)
    ensures forall a, b :: a in s && b in s && Below(a, b) && Below(b, a) ==> a == b
  {
    forall a, b | a in s && b in s && Below(a, b) && Below(b, a) ensures a == b {
      BelowAntisymmetric(a, b);
    }
  }

  /** The first name of a non-empty set. */
  function Least(s: set<string>): (m: string)
    requires s != {}
    ensures m in s && forall k :: k in s ==> Below(m, k)
  {
    LeastExists(s);
    LeastUnique(s);
    var m :| m in s && forall k :: k in s ==> Below(m, k); m
  }

  /** The names of `s`, each exactly once, first name first. */
  function Enumerate(s: set<string>): (ks: seq<string>)
    ensures forall i, j :: 0 <= i < j < |ks| ==> ks[i] != ks[j]
    ensures forall k :: k in s <==> k in ks
    ensures |ks| == |s|
    ensures forall i, j :: 0 <= i < j < |ks| ==> Below(ks[i], ks[j])
    decreases |s|
  {
    if s == {} then []
    else
      var m := Least(s);
      [m] + Enumerate(s - {m})
  }
}
