/**
 * Python's ordering of `str` values (code point by code point, a proper
 * prefix first) and `sorted` over a set of registry keys.
 */
module Order {

  /** Python's `a < b` on strings. */
  predicate Below(a: string, b: string)
    decreases |a|
  {
    b != [] && (a == [] || a[0] < b[0] || (a[0] == b[0] && Below(a[1..], b[1..])))
  }

  lemma {:induction false} BelowIrreflexive(a: string)
    ensures !Below(a, a)
    decreases |a|
  {
    if a != [] {
      BelowIrreflexive(a[1..]);
    }
  }

  lemma {:induction false} BelowTransitive(a: string, b: string, c: string)
    requires Below(a, b) && Below(b, c)
    ensures Below(a, c)
    decreases |a|
  {
    if a != [] && a[0] == b[0] && b[0] == c[0] {
      BelowTransitive(a[1..], b[1..], c[1..]);
    }
  }

  /** Any two distinct strings are ordered one way or the other. */
  lemma {:induction false} BelowTotal(a: string, b: string)
    requires a != b
    ensures Below(a, b) || Below(b, a)
    decreases |a|
  {
    if a != [] && b != [] && a[0] == b[0] {
      assert a == [a[0]] + a[1..] && b == [b[0]] + b[1..];
      BelowTotal(a[1..], b[1..]);
    }
  }

  lemma BelowAsymmetric(a: string, b: string)
    requires Below(a, b)
    ensures !Below(b, a)
  {
    if Below(b, a) {
      BelowTransitive(a, b, a);
      BelowIrreflexive(a);
    }
  }

  /** Strictly increasing under `Below`. */
  predicate StrictlySorted(s: seq<string>) {
    forall i, j :: 0 <= i < j < |s| ==> Below(s[i], s[j])
  }

  /** `s` enumerates `keys` in increasing order: the result of `sorted(keys)`. */
  predicate IsSortedListing(s: seq<string>, keys: set<string>) {
    && StrictlySorted(s)
    && (forall x :: x in s ==> x in keys)
    && (forall x :: x in keys ==> x in s)
  }

  /** A least element of a non-empty set of strings. */
  method Least(keys: set<string>) returns (m: string)
    requires keys != {}
    ensures m in keys && forall x :: x in keys && x != m ==> Below(m, x)
  {
    m :| m in keys;
    var todo := keys - {m};
    while todo != {}
      invariant todo <= keys && m in keys
      invariant forall x :: x in keys - todo && x != m ==> Below(m, x)
      decreases todo
    {
      var x :| x in todo;
      if Below(x, m) {
        forall y | y in keys - todo && y != x ensures Below(x, y) {
          if y != m {
            BelowTransitive(x, m, y);
          }
        }
        m := x;
      } else if x != m {
        BelowTotal(x, m);
      }
      todo := todo - {x};
    }
  }

  /** `sorted(keys)`: repeatedly takes the least remaining key. */
  method SortKeys(keys: set<string>) returns (s: seq<string>)
    ensures IsSortedListing(s, keys)
  {
    s := [];
    var rest := keys;
    while rest != {}
      invariant rest <= keys
      invariant StrictlySorted(s)
      invariant forall x :: x in s <==> x in keys - rest
      invariant forall i, x :: 0 <= i < |s| && x in rest ==> Below(s[i], x)
      decreases rest
    {
      var m := Least(rest);
      s := s + [m];
      rest := rest - {m};
    }
  }

  /** Two increasing enumerations of the same set are equal: `sorted` has one answer. */
  lemma {:induction false} SortedListingUnique(s: seq<string>, t: seq<string>, keys: set<string>)
    requires IsSortedListing(s, keys) && IsSortedListing(t, keys)
    ensures s == t
    decreases |s|
  {
    assert s != [] ==> s[0] in t;
    assert t != [] ==> t[0] in s;
    if s != [] && t != [] {
      assert s[0] in keys && t[0] in keys;
      var i :| 0 <= i < |t| && t[i] == s[0];
      var j :| 0 <= j < |s| && s[j] == t[0];
      if i != 0 && j != 0 {
        BelowAsymmetric(s[0], t[0]);
        assert false;
      }
      var rest := keys - {s[0]};
      SortedTail(s, keys);
      SortedTail(t, keys);
      SortedListingUnique(s[1..], t[1..], rest);
      assert s == [s[0]] + s[1..] && t == [t[0]] + t[1..];
    }
  }

  /** The tail of an increasing enumeration enumerates the rest of the set. */
  lemma SortedTail(s: seq<string>, keys: set<string>)
    requires s != [] && IsSortedListing(s, keys)
    ensures IsSortedListing(s[1..], keys - {s[0]})
  {
    var tail := s[1..];
    forall x | x in keys - {s[0]} ensures x in tail {
      var i :| 0 <= i < |s| && s[i] == x;
      assert tail[i - 1] == x;
    }
    forall x | x in tail ensures x in keys - {s[0]} {
      var i :| 0 <= i < |tail| && tail[i] == x;
      assert s[i + 1] == x;
      BelowIrreflexive(x);
    }
  }

  /** The unique increasing enumeration of `keys` (what `sorted(keys)` returns). */
  ghost function SortedListing(keys: set<string>): (s: seq<string>)
    ensures IsSortedListing(s, keys)
    decreases keys
  {
    if keys == {} then []
    else
      LeastExists(keys);
      var m :| m in keys && forall x :: x in keys && x != m ==> Below(m, x);
      var rest := SortedListing(keys - {m});
      PrependLeast(m, rest, keys);
      [m] + rest
  }

  lemma PrependLeast(m: string, rest: seq<string>, keys: set<string>)
    requires m in keys && forall x :: x in keys && x != m ==> Below(m, x)
    requires IsSortedListing(rest, keys - {m})
    ensures IsSortedListing([m] + rest, keys)
  {
    var s := [m] + rest;
    forall i, j | 0 <= i < j < |s| ensures Below(s[i], s[j]) {
      if i == 0 {
        assert s[j] == rest[j - 1];
        assert rest[j - 1] in keys - {m};
      } else {
        assert s[i] == rest[i - 1] && s[j] == rest[j - 1];
      }
    }
    forall x ensures x in s <==> x in keys {
      assert x in s <==> x == m || x in rest;
    }
  }

  /** Every non-empty finite set of strings has a least element. */
  lemma {:induction false} LeastExists(keys: set<string>)
    requires keys != {}
    ensures exists m :: m in keys && forall x :: x in keys && x != m ==> Below(m, x)
    decreases keys
  {
    var y :| y in keys;
    var rest := keys - {y};
    if rest == {} {
      assert forall x :: x in keys && x != y ==> x in rest;
    } else {
      LeastExists(rest);
      var m :| m in rest && forall x :: x in rest && x != m ==> Below(m, x);
      if Below(y, m) {
        forall x | x in keys && x != y ensures Below(y, x) {
          if x != m {
            BelowTransitive(y, m, x);
          }
        }
      } else {
        BelowTotal(y, m);
        assert forall x :: x in keys && x != m ==> Below(m, x);
      }
    }
  }
}
