/**
 * The order the history list is sorted by. Dates are compared as strings,
 * character by character; on canonical `YYYY-MM-DD` dates this is the
 * calendar order.
 */
module DateOrder {

  /** `a` sorts strictly before `b`: lexicographic order on characters, a proper prefix first. */
  predicate Precedes(a: string, b: string)
    decreases |a|
  {
    if b == [] then false
    else if a == [] then true
    else if a[0] != b[0] then a[0] < b[0]
    else Precedes(a[1..], b[1..])
  }

  lemma {:induction false} PrecedesIrreflexive(a: string)
    ensures !Precedes(a, a)
    decreases |a|
  {
    if a != [] {
      PrecedesIrreflexive(a[1..]);
    }
  }

  lemma {:induction false} PrecedesAsymmetric(a: string, b: string)
    ensures Precedes(a, b) ==> !Precedes(b, a)
    decreases |a|
  {
    if a != [] && b != [] && a[0] == b[0] {
      PrecedesAsymmetric(a[1..], b[1..]);
    }
  }

  lemma {:induction false} PrecedesTransitive(a: string, b: string, c: string)
    requires Precedes(a, b) && Precedes(b, c)
    ensures Precedes(a, c)
    decreases |a|
  {
    if a != [] && a[0] == b[0] && b[0] == c[0] {
      PrecedesTransitive(a[1..], b[1..], c[1..]);
    }
  }

  lemma {:induction false} PrecedesTotal(a: string, b: string)
    requires a != b
    ensures Precedes(a, b) || Precedes(b, a)
    decreases |a|
  {
    if a != [] && b != [] && a[0] == b[0] {
      assert a == [a[0]] + a[1..] && b == [b[0]] + b[1..];
      PrecedesTotal(a[1..], b[1..]);
    }
  }

  /** `k` is the newest date of `keys`: every other date precedes it. */
  predicate IsNewest(k: string, keys: set<string>) {
    k in keys && forall d :: d in keys && d != k ==> Precedes(d, k)
  }

  lemma {:induction false} NewestExists(keys: set<string>)
    requires keys != {}
    ensures exists k :: IsNewest(k, keys)
    decreases |keys|
  {
    var x :| x in keys;
    if keys == {x} {
      assert IsNewest(x, keys);
    } else {
      var rest := keys - {x};
      NewestExists(rest);
      var k :| IsNewest(k, rest);
      if Precedes(x, k) {
        assert IsNewest(k, keys);
      } else {
        PrecedesTotal(x, k);
        forall d | d in keys && d != x
          ensures Precedes(d, x)
        {
          if d != k {
            PrecedesTransitive(d, k, x);
          }
        }
        assert IsNewest(x, keys);
      }
    }
  }

  lemma NewestUnique(k: string, k': string, keys: set<string>)
    requires IsNewest(k, keys) && IsNewest(k', keys)
    ensures k == k'
  {
    if k != k' {
      PrecedesAsymmetric(k, k');
    }
  }

  /** The newest date among `keys`; the first entry of the history list. */
  function Newest(keys: set<string>): (k: string)
    requires keys != {}
    ensures k in keys
    ensures forall d :: d in keys && d != k ==> Precedes(d, k)
  {
    NewestExists(keys);
    NewestUniqueAll(keys);
    var k :| k in keys && IsNewest(k, keys); k
  }

  lemma NewestUniqueAll(keys: set<string>)
    ensures forall k, k' :: IsNewest(k, keys) && IsNewest(k', keys) ==> k == k'
  {
    forall k, k' | IsNewest(k, keys) && IsNewest(k', keys)
      ensures k == k'
    {
      NewestUnique(k, k', keys);
    }
  }
}
