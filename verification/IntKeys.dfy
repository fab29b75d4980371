/** Extensionality of integer-keyed sets and maps, and the sorted sequence of a set of integers. */
module IntKeys {
  lemma SetEq(x: set<int>, y: set<int>)
    requires forall a :: a in x <==> a in y
    ensures x == y
  {
    var p, q := set a | a in x && a >= 0, set a | a in x && a < 0;
    var p', q' := set a | a in y && a >= 0, set a | a in y && a < 0;
    assert x == p + q;
    assert y == p' + q';
    assert p == p';
    assert q == q';
  }

  lemma Nonempty(x: set<int>)
    requires x != {}
    ensures exists a :: a in x
  {
    assert x == (set a | a in x && a >= 0) + (set a | a in x && a < 0);
  }

  lemma MapEq<V>(x: map<int, V>, y: map<int, V>)
    requires forall a :: a in x <==> a in y
    requires forall a | a in x :: x[a] == y[a]
    ensures x == y
  {
    assert x == (map a | a in x && a >= 0 :: x[a]) + (map a | a in x && a < 0 :: x[a]);
    assert y == (map a | a in y && a >= 0 :: y[a]) + (map a | a in y && a < 0 :: y[a]);
  }

  predicate StrictlySorted(s: seq<int>) {
    forall i, j | 0 <= i < j < |s| :: s[i] < s[j]
  }

  ghost predicate IsMinimum(m: int, keys: set<int>) {
    m in keys && forall x | x in keys :: m <= x
  }

  lemma {:induction false} HasMinimum(keys: set<int>)
    requires keys != {}
    ensures exists m :: IsMinimum(m, keys)
  {
    Nonempty(keys);
    var a :| a in keys;
    var rest := keys - {a};
    if rest == {} {
      assert IsMinimum(a, keys) by {
        forall x | x in keys ensures a <= x {
          assert x == a || x in rest;
        }
      }
    } else {
      HasMinimum(rest);
      var m :| IsMinimum(m, rest);
      var least := if m < a then m else a;
      assert IsMinimum(least, keys) by {
        forall x | x in keys ensures least <= x {
          assert x == a || x in rest;
        }
      }
    }
  }

  /** sorted(keys). */
  ghost function SortedKeys(keys: set<int>): (s: seq<int>)
    ensures StrictlySorted(s) && (forall x :: x in s <==> x in keys) && |s| == |keys|
  {
    if keys == {} then []
    else
      HasMinimum(keys);
      var m :| IsMinimum(m, keys);
      [m] + SortedKeys(keys - {m})
  }

  /** A strictly sorted sequence is determined by its elements. */
  lemma {:induction false} SortedUnique(a: seq<int>, b: seq<int>)
    requires StrictlySorted(a) && StrictlySorted(b)
    requires forall x :: x in a <==> x in b
    ensures a == b
  {
    if b == [] {
      if a != [] {
        FirstMember(a);
      }
    } else {
      FirstMember(b);
      FirstMember(a);
      SortedHead(a, b);
      var ta, tb := a[1..], b[1..];
      forall x ensures x in ta <==> x in tb {
        TailMembers(a, x);
        TailMembers(b, x);
      }
      SortedUnique(ta, tb);
      assert a == [a[0]] + ta && b == [b[0]] + tb;
    }
  }

  lemma FirstMember(a: seq<int>)
    requires a != []
    ensures a[0] in a
  {
  }

  lemma SortedHead(a: seq<int>, b: seq<int>)
    requires a != [] && b != [] && StrictlySorted(a) && StrictlySorted(b)
    requires a[0] in b && b[0] in a
    ensures a[0] == b[0]
  {
  }

  lemma TailMembers(a: seq<int>, x: int)
    requires a != [] && StrictlySorted(a)
    ensures x in a[1..] <==> x in a && x != a[0]
  {
    if x in a && x != a[0] {
      var i :| 0 <= i < |a| && a[i] == x;
      assert a[1..][i - 1] == x;
    }
  }

  lemma SortedConcat(a: seq<int>, b: seq<int>)
    requires StrictlySorted(a) && StrictlySorted(b)
    requires forall x, y | x in a && y in b :: x < y
    ensures StrictlySorted(a + b)
  {
    var s := a + b;
    forall i, j | 0 <= i < j < |s| ensures s[i] < s[j] {
      if i < |a| && j >= |a| {
        assert s[i] in a && s[j] in b;
      }
    }
  }

  /** The sorted keys of two sets, one wholly below the other. */
  lemma SortedUnion(low: set<int>, high: set<int>)
    requires forall x, y | x in low && y in high :: x < y
    ensures SortedKeys(low + high) == SortedKeys(low) + SortedKeys(high)
  {
    hide SortedKeys;
    var a, b := SortedKeys(low), SortedKeys(high);
    SortedConcat(a, b);
    SortedUnique(SortedKeys(low + high), a + b);
  }
}
