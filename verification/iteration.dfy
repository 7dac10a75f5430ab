/** Walking a hash set or the keys of a hash map: every element once, in an order nobody may rely on. */
module Iteration {
  ghost function SetOf<T>(s: seq<T>): set<T> {
    set x | x in s
  }

  ghost predicate Distinct<T>(s: seq<T>) {
    forall j, k :: 0 <= j < k < |s| ==> s[j] != s[k]
  }

  method Elements<T(==)>(s: set<T>) returns (r: seq<T>)
    ensures Distinct(r) && SetOf(r) == s
  {
    r := [];
    var todo := s;
    while todo != {}
      invariant Distinct(r) && SetOf(r) == s - todo && todo <= s
      decreases todo
    {
      var x :| x in todo;
      todo := todo - {x};
      assert x !in SetOf(r);
      assert SetOf(r + [x]) == SetOf(r) + {x};
      r := r + [x];
    }
  }

  lemma PrefixGrows<T>(s: seq<T>, k: nat)
    requires k < |s|
    ensures SetOf(s[..k + 1]) == SetOf(s[..k]) + {s[k]}
    ensures Distinct(s) ==> s[k] !in s[..k]
  {
    assert s[..k + 1] == s[..k] + [s[k]];
  }

  lemma WholePrefix<T>(s: seq<T>)
    ensures s[..|s|] == s && SetOf(s[..0]) == {}
  {
  }

  lemma DistinctAppend<T>(a: seq<T>, b: seq<T>)
    requires Distinct(a) && Distinct(b) && SetOf(a) !! SetOf(b)
    ensures Distinct(a + b) && SetOf(a + b) == SetOf(a) + SetOf(b)
  {
    forall j, k | 0 <= j < k < |a + b| ensures (a + b)[j] != (a + b)[k] {
      if j < |a| <= k {
        assert a[j] in SetOf(a) && b[k - |a|] in SetOf(b);
      }
    }
  }

  // ----- Extensionality ---------------------------------------------------------

  lemma SameSet<T>(a: set<T>, b: set<T>)
    requires forall x :: x in a <==> x in b
    ensures a == b
  {
  }

  lemma SameMap<K, V>(a: map<K, V>, b: map<K, V>)
    requires a.Keys == b.Keys && forall k :: k in a ==> a[k] == b[k]
    ensures a == b
  {
  }

  lemma Inhabitant<T>(s: set<T>) returns (x: T)
    requires s != {}
    ensures x in s
  {
    x :| x in s;
  }

  lemma Disjoint<T>(a: set<T>, b: set<T>)
    requires forall x :: x in a ==> x !in b
    ensures a !! b
  {
  }
}
