/** The order of the names in a directory: `String`'s `Ord`, which compares
    names character by character and puts a proper prefix first. */
module NameOrder {

  /** `a` sorts strictly before `b`. */
  predicate Below(a: string, b: string)
    decreases |a|
  {
    b != [] && (a == [] || a[0] < b[0] || (a[0] == b[0] && Below(a[1..], b[1..])))
  }

  lemma {:induction false} BelowIrreflexive(a: string)
    ensures !Below(a, a)
    decreases |a|
  {
    if a != [] {
      BelowIrreflexive(a[1..]);
    }
  }

  lemma {:induction false} BelowTransitive(a: string, b: string, c: string)
    requires Below(a, b) && Below(b, c)
    ensures Below(a, c)
    decreases |a|
  {
    if a != [] && a[0] == b[0] && b[0] == c[0] {
      BelowTransitive(a[1..], b[1..], c[1..]);
    }
  }

  /** Two different names are ordered one way or the other. */
  lemma {:induction false} BelowTotal(a: string, b: string)
    requires a != b
    ensures Below(a, b) || Below(b, a)
    decreases |a|
  {
    if a != [] && b != [] && a[0] == b[0] {
      assert a == [a[0]] + a[1..] && b == [b[0]] + b[1..];
      BelowTotal(a[1..], b[1..]);
    }
  }

  /** `k` is the name of `s` that sorts before all the others. */
  predicate IsFirst(s: set<string>, k: string)
  {
    k in s && forall j :: j in s && j != k ==> Below(k, j)
  }

  lemma FirstNameExists(s: set<string>)
    requires s != {}
    ensures exists k :: IsFirst(s, k)
    decreases s
  {
    var x :| x in s;
    if s == {x} {
      assert IsFirst(s, x);
    } else {
      FirstNameExists(s - {x});
      var k :| IsFirst(s - {x}, k);
      if Below(x, k) {
        forall j | j in s && j != x
          ensures Below(x, j)
        {
          if j != k {
            BelowTransitive(x, k, j);
          }
        }
        assert IsFirst(s, x);
      } else {
        BelowTotal(x, k);
        assert IsFirst(s, k);
      }
    }
  }

  /** At most one name of a set sorts before all the others. */
  lemma FirstNameUnique(s: set<string>)
    ensures forall k1, k2 :: IsFirst(s, k1) && IsFirst(s, k2) ==> k1 == k2
  {
    forall k1, k2 | IsFirst(s, k1) && IsFirst(s, k2)
      ensures k1 == k2
    {
      if k1 != k2 {
        BelowTransitive(k1, k2, k1);
        BelowIrreflexive(k1);
      }
    }
  }

  /** The name of a non-empty set that sorts before all the others. */
  function FirstName(s: set<string>): (k: string)
    requires s != {}
    ensures k in s && forall j :: j in s && j != k ==> Below(k, j)
  {
    FirstNameExists(s);
    FirstNameUnique(s);
    var k :| IsFirst(s, k);
    k
  }

  /** The names of a set in ascending order: the order in which the keys of
      a `BTreeMap<String, _>` are visited. */
  function SortedNames(s: set<string>): (ns: seq<string>)
    ensures forall n :: n in ns <==> n in s
    ensures forall i, j :: 0 <= i < j < |ns| ==> Below(ns[i], ns[j])
    decreases s
  {
    if s == {} then []
    else
      var k := FirstName(s);
      [k] + SortedNames(s - {k})
  }
}
