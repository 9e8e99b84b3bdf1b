/**
 * The array and object helpers the service and the page use: `sort` with
 * a key and a direction (standing for both `sort()` and the
 * `localeCompare` comparator), `reverse`, the sum of a quantity over a set
 * of keys, and the greatest string of a set.
 */
module Collections {
  import opened Wrappers
  import opened JsString

  /** `a` sorts strictly before `b` in the given direction. */
  predicate Precedes(a: string, b: string, descending: bool) {
    if descending then Below(b, a) else Below(a, b)
  }

  lemma PrecedesTransitive(a: string, b: string, c: string, descending: bool)
    requires Precedes(a, b, descending) && Precedes(b, c, descending)
    ensures Precedes(a, c, descending)
  {
    if descending { BelowTransitive(c, b, a); } else { BelowTransitive(a, b, c); }
  }

  lemma PrecedesTotal(a: string, b: string, descending: bool)
    ensures a == b || Precedes(a, b, descending) || Precedes(b, a, descending)
  {
    BelowTotal(a, b);
  }

  lemma PrecedesAsymmetric(a: string, b: string, descending: bool)
    requires Precedes(a, b, descending)
    ensures !Precedes(b, a, descending)
  {
    if descending { BelowAsymmetric(b, a); } else { BelowAsymmetric(a, b); }
  }

  lemma PrecedesIrreflexive(a: string, descending: bool)
    ensures !Precedes(a, a, descending)
  {
    BelowIrreflexive(a);
  }

  /** No element sorts strictly before an element placed ahead of it. */
  ghost predicate Ordered<T>(s: seq<T>, key: T -> string, descending: bool) {
    forall i, j :: 0 <= i < j < |s| ==> !Precedes(key(s[j]), key(s[i]), descending)
  }

  /** Every element sorts strictly before each element placed after it. */
  ghost predicate StrictlyOrdered<T>(s: seq<T>, key: T -> string, descending: bool) {
    forall i, j :: 0 <= i < j < |s| ==> Precedes(key(s[i]), key(s[j]), descending)
  }

  ghost predicate DistinctKeys<T>(s: seq<T>, key: T -> string) {
    forall i, j :: 0 <= i < j < |s| ==> key(s[i]) != key(s[j])
  }

  /** Inserts `x` ahead of the first element that does not sort strictly before it. */
  function Insert<T>(x: T, s: seq<T>, key: T -> string, descending: bool): (r: seq<T>)
    ensures multiset(r) == multiset(s) + multiset{x}
  {
    if |s| == 0 then [x]
    else if Precedes(key(s[0]), key(x), descending) then
      assert s == [s[0]] + s[1..];
      [s[0]] + Insert(x, s[1..], key, descending)
    else [x] + s
  }

  lemma {:induction false} InsertOrdered<T>(x: T, s: seq<T>, key: T -> string, descending: bool)
    requires Ordered(s, key, descending)
    ensures Ordered(Insert(x, s, key, descending), key, descending)
  {
    if |s| > 0 {
      if Precedes(key(s[0]), key(x), descending) {
        var t := Insert(x, s[1..], key, descending);
        InsertOrdered(x, s[1..], key, descending);
        InsertMembers(x, s, t);
        InsertAheadOrdered(s, t, x, key, descending);
      } else {
        InsertFrontOrdered(x, s, key, descending);
      }
    }
  }

  lemma InsertMembers<T>(x: T, s: seq<T>, t: seq<T>)
    requires |s| > 0 && multiset(t) == multiset(s[1..]) + multiset{x}
    ensures forall y :: y in t ==> y in s[1..] || y == x
  {
    forall y | y in t ensures y in s[1..] || y == x {
      assert y in multiset(t);
    }
  }

  lemma {:induction false} InsertDistinct<T>(x: T, s: seq<T>, key: T -> string, descending: bool)
    requires DistinctKeys(s, key) && forall y :: y in s ==> key(y) != key(x)
    ensures DistinctKeys(Insert(x, s, key, descending), key)
  {
    if |s| > 0 {
      var r := Insert(x, s, key, descending);
      if Precedes(key(s[0]), key(x), descending) {
        var t := Insert(x, s[1..], key, descending);
        assert DistinctKeys(s[1..], key) by {
          forall i, j | 0 <= i < j < |s[1..]| ensures key(s[1..][i]) != key(s[1..][j]) {
            assert s[1..][i] == s[i + 1] && s[1..][j] == s[j + 1];
          }
        }
        InsertDistinct(x, s[1..], key, descending);
        InsertMembers(x, s, t);
        forall i, j | 0 <= i < j < |r| ensures key(r[i]) != key(r[j]) {
          if i == 0 {
            assert r[j] in t;
            if r[j] != x {
              var m :| 0 <= m < |s[1..]| && s[1..][m] == r[j];
              assert s[m + 1] == r[j];
            }
          } else {
            assert r[i] == t[i - 1] && r[j] == t[j - 1];
          }
        }
      } else {
        forall i, j | 0 <= i < j < |r| ensures key(r[i]) != key(r[j]) {
          if i == 0 {
            assert r[j] == s[j - 1];
          } else {
            assert r[i] == s[i - 1] && r[j] == s[j - 1];
          }
        }
      }
    }
  }

  lemma InsertAheadOrdered<T>(s: seq<T>, t: seq<T>, x: T, key: T -> string, descending: bool)
    requires |s| > 0 && Precedes(key(s[0]), key(x), descending)
    requires forall y :: y in t ==> y in s[1..] || y == x
    requires Ordered(s, key, descending) ==> Ordered(t, key, descending)
    ensures Ordered(s, key, descending) ==> Ordered([s[0]] + t, key, descending)
  {
    if Ordered(s, key, descending) {
      var r := [s[0]] + t;
      forall i, j | 0 <= i < j < |r| ensures !Precedes(key(r[j]), key(r[i]), descending) {
        if i == 0 {
          assert r[j] in t;
          if r[j] == x {
            PrecedesAsymmetric(key(s[0]), key(x), descending);
          } else {
            var m :| 0 <= m < |s[1..]| && s[1..][m] == r[j];
            assert s[m + 1] == r[j];
          }
        } else {
          assert r[i] == t[i - 1] && r[j] == t[j - 1];
        }
      }
    }
  }

  lemma InsertFrontOrdered<T>(x: T, s: seq<T>, key: T -> string, descending: bool)
    requires |s| > 0 && !Precedes(key(s[0]), key(x), descending)
    ensures Ordered(s, key, descending) ==> Ordered([x] + s, key, descending)
  {
    if Ordered(s, key, descending) {
      var r := [x] + s;
      forall i, j | 0 <= i < j < |r| ensures !Precedes(key(r[j]), key(r[i]), descending) {
        if i == 0 {
          var y := r[j];
          assert y == s[j - 1];
          if Precedes(key(y), key(x), descending) {
            PrecedesTotal(key(x), key(s[0]), descending);
            if key(x) == key(s[0]) {
            } else if j - 1 > 0 {
              PrecedesTransitive(key(y), key(x), key(s[0]), descending);
            }
          }
        } else {
          assert r[i] == s[i - 1] && r[j] == s[j - 1];
        }
      }
    }
  }

  /**
   * `xs.sort(compare)` where `compare` orders by `key` in the given
   * direction. The order of elements with equal keys is not stated; for
   * distinct keys the result is strictly ordered.
   */
  function SortBy<T>(xs: seq<T>, key: T -> string, descending: bool): (r: seq<T>)
    ensures multiset(r) == multiset(xs)
    ensures Ordered(r, key, descending)
    ensures DistinctKeys(xs, key) ==> StrictlyOrdered(r, key, descending)
  {
    if |xs| == 0 then []
    else
      var t := SortBy(xs[1..], key, descending);
      assert xs == [xs[0]] + xs[1..];
      var r := Insert(xs[0], t, key, descending);
      InsertOrdered(xs[0], t, key, descending);
      assert DistinctKeys(xs, key) ==> StrictlyOrdered(r, key, descending) by {
        if DistinctKeys(xs, key) {
          assert DistinctKeys(xs[1..], key) by {
            forall i, j | 0 <= i < j < |xs[1..]| ensures key(xs[1..][i]) != key(xs[1..][j]) {
              assert xs[1..][i] == xs[i + 1] && xs[1..][j] == xs[j + 1];
            }
          }
          forall y | y in t ensures key(y) != key(xs[0]) {
            assert y in multiset(xs[1..]);
            var m :| 0 <= m < |xs[1..]| && xs[1..][m] == y;
            assert xs[m + 1] == y;
          }
          InsertDistinct(xs[0], t, key, descending);
          OrderedDistinctIsStrict(r, key, descending);
        }
      }
      r
  }

  lemma OrderedDistinctIsStrict<T>(s: seq<T>, key: T -> string, descending: bool)
    requires Ordered(s, key, descending) && DistinctKeys(s, key)
    ensures StrictlyOrdered(s, key, descending)
  {
    forall i, j | 0 <= i < j < |s| ensures Precedes(key(s[i]), key(s[j]), descending) {
      PrecedesTotal(key(s[i]), key(s[j]), descending);
    }
  }

  /** Appending an element whose key is new keeps the keys distinct. */
  lemma AppendDistinct<T>(s: seq<T>, x: T, key: T -> string)
    requires DistinctKeys(s, key) && forall y :: y in s ==> key(y) != key(x)
    ensures DistinctKeys(s + [x], key)
  {
    var t := s + [x];
    forall i, j | 0 <= i < j < |t| ensures key(t[i]) != key(t[j]) {
      assert t[i] == s[i];
      if j < |s| {
        assert t[j] == s[j];
      } else {
        assert s[i] in s;
      }
    }
  }

  /** A sequence without members is empty. */
  lemma NoMembers<T>(b: seq<T>)
    requires forall x :: x !in b
    ensures b == []
  {
    if |b| > 0 {
      FirstIsMember(b);
      assert false;
    }
  }

  lemma FirstIsMember<T>(b: seq<T>)
    requires |b| > 0
    ensures b[0] in b
  {
  }

  /** Two strictly ordered sequences with the same elements are the same sequence. */
  lemma {:induction false} StrictlyOrderedUnique<T>(a: seq<T>, b: seq<T>, key: T -> string, descending: bool)
    requires StrictlyOrdered(a, key, descending) && StrictlyOrdered(b, key, descending)
    requires forall x :: x in a <==> x in b
    ensures a == b
    decreases |a|
  {
    if |a| == 0 {
      assert a == [];
      NoMembers(b);
    } else {
      assert a[0] in b;
      var j :| 0 <= j < |b| && b[j] == a[0];
      assert b[0] in a;
      var i :| 0 <= i < |a| && a[i] == b[0];
      if j > 0 && i > 0 {
        PrecedesAsymmetric(key(b[0]), key(b[j]), descending);
      } else if j > 0 {
        PrecedesIrreflexive(key(b[0]), descending);
      }
      forall x ensures x in a[1..] <==> x in b[1..] {
        if x in a[1..] {
          var k :| 1 <= k < |a| && a[k] == x;
          PrecedesIrreflexive(key(a[0]), descending);
          assert x in b;
        }
        if x in b[1..] {
          var k :| 1 <= k < |b| && b[k] == x;
          PrecedesIrreflexive(key(b[0]), descending);
          assert x in a;
        }
      }
      assert StrictlyOrdered(a[1..], key, descending) by {
        forall p, q | 0 <= p < q < |a[1..]| ensures Precedes(key(a[1..][p]), key(a[1..][q]), descending) {
          assert a[1..][p] == a[p + 1] && a[1..][q] == a[q + 1];
        }
      }
      assert StrictlyOrdered(b[1..], key, descending) by {
        forall p, q | 0 <= p < q < |b[1..]| ensures Precedes(key(b[1..][p]), key(b[1..][q]), descending) {
          assert b[1..][p] == b[p + 1] && b[1..][q] == b[q + 1];
        }
      }
      StrictlyOrderedUnique(a[1..], b[1..], key, descending);
      assert a == [a[0]] + a[1..] && b == [b[0]] + b[1..];
    }
  }

  /** `s.reverse()`. */
  function Reverse<T>(s: seq<T>): (r: seq<T>)
    ensures |r| == |s|
    ensures forall i :: 0 <= i < |s| ==> r[i] == s[|s| - 1 - i]
  {
    if |s| == 0 then [] else Reverse(s[1..]) + [s[0]]
  }

  /** A strictly ordered list holds every element once. */
  lemma DistinctOrdered<T>(s: seq<T>, key: T -> string, descending: bool)
    requires StrictlyOrdered(s, key, descending)
    ensures forall i, j :: 0 <= i < j < |s| ==> s[i] != s[j]
  {
    forall i, j | 0 <= i < j < |s| ensures s[i] != s[j] {
      PrecedesIrreflexive(key(s[i]), descending);
    }
  }

  /** The place of the first occurrence of `x` in `s`. */
  function IndexIn<T(==)>(s: seq<T>, x: T): (r: Option<nat>)
    ensures r.Some? ==> r.value < |s| && s[r.value] == x && x !in s[..r.value]
    ensures r.None? ==> x !in s
  {
    if |s| == 0 then None
    else if s[0] == x then Some(0)
    else match IndexIn(s[1..], x)
      case None => None
      case Some(k) =>
        assert s[..k + 1] == [s[0]] + s[1..][..k];
        Some(k + 1)
  }

  lemma ReverseMembers<T>(s: seq<T>)
    ensures forall x :: x in Reverse(s) <==> x in s
  {
    var r := Reverse(s);
    forall x ensures x in r <==> x in s {
      if x in r {
        var i :| 0 <= i < |r| && r[i] == x;
        assert s[|s| - 1 - i] == x;
      }
      if x in s {
        var i :| 0 <= i < |s| && s[i] == x;
        assert r[|s| - 1 - i] == x;
      }
    }
  }

  /** Reversing an ascending order gives the descending one. */
  lemma ReverseStrictlyOrdered<T>(s: seq<T>, key: T -> string)
    requires StrictlyOrdered(s, key, false)
    ensures StrictlyOrdered(Reverse(s), key, true)
  {
    var r := Reverse(s);
    forall i, j | 0 <= i < j < |r| ensures Precedes(key(r[i]), key(r[j]), true) {
      assert r[i] == s[|s| - 1 - i] && r[j] == s[|s| - 1 - j];
    }
  }

  /** The sum of `f` over a finite set. */
  ghost function SumOver<T>(s: set<T>, f: T -> nat): nat
    decreases s
  {
    if s == {} then 0 else var x :| x in s; f(x) + SumOver(s - {x}, f)
  }

  /** Any element can be taken out of the sum first. */
  lemma {:induction false} SumOverRemove<T>(s: set<T>, f: T -> nat, y: T)
    requires y in s
    ensures SumOver(s, f) == f(y) + SumOver(s - {y}, f)
    decreases s
  {
    var x :| x in s && SumOver(s, f) == f(x) + SumOver(s - {x}, f);
    if x != y {
      SumOverRemove(s - {x}, f, y);
      SumOverRemove(s - {y}, f, x);
      assert s - {x} - {y} == s - {y} - {x};
    }
  }

  /** Functions that agree on the set have the same sum over it. */
  lemma {:induction false} SumOverCongruent<T>(s: set<T>, f: T -> nat, g: T -> nat)
    requires forall x :: x in s ==> f(x) == g(x)
    ensures SumOver(s, f) == SumOver(s, g)
    decreases s
  {
    if s != {} {
      var x :| x in s && SumOver(s, f) == f(x) + SumOver(s - {x}, f);
      SumOverRemove(s, g, x);
      SumOverCongruent(s - {x}, f, g);
    }
  }

  /** `m` is the greatest string of `s` in the default order. */
  ghost predicate IsGreatest(m: string, s: set<string>) {
    m in s && forall y :: y in s && y != m ==> Below(y, m)
  }

  function Itself(s: string): string {
    s
  }

  /** The names of a list, as a set. */
  function Elements(s: seq<string>): set<string> {
    set y | y in s
  }

  lemma ElementsSnoc(s: seq<string>, x: string)
    ensures Elements(s + [x]) == Elements(s) + {x}
  {
    forall y ensures y in s + [x] <==> y in s || y == x {
    }
  }

  lemma {:induction false} DistinctCount(s: seq<string>)
    requires DistinctKeys(s, Itself)
    ensures |Elements(s)| == |s|
  {
    if |s| > 0 {
      var init := s[..|s| - 1];
      var x := s[|s| - 1];
      assert s == init + [x];
      assert DistinctKeys(init, Itself) by {
        forall i, j | 0 <= i < j < |init| ensures Itself(init[i]) != Itself(init[j]) {
          assert init[i] == s[i] && init[j] == s[j];
        }
      }
      DistinctCount(init);
      ElementsSnoc(init, x);
      assert x !in Elements(init) by {
        forall i | 0 <= i < |init| ensures init[i] != x {
          assert Itself(s[i]) != Itself(s[|s| - 1]);
        }
      }
    }
  }

  /** The last element of the ascending sort of distinct names is the greatest of them. */
  lemma LastIsGreatest(dates: seq<string>, sorted: seq<string>)
    requires |sorted| > 0 && multiset(sorted) == multiset(dates)
    requires StrictlyOrdered(sorted, Itself, false)
    ensures IsGreatest(sorted[|sorted| - 1], Elements(dates))
  {
    var m := sorted[|sorted| - 1];
    assert m in multiset(dates);
    forall y | y in dates && y != m ensures Below(y, m) {
      assert y in multiset(sorted);
      var i :| 0 <= i < |sorted| && sorted[i] == y;
      assert Precedes(Itself(sorted[i]), Itself(sorted[|sorted| - 1]), false);
    }
  }

  /** A set has at most one greatest element. */
  lemma GreatestUnique(m: string, n: string, s: set<string>)
    requires IsGreatest(m, s) && IsGreatest(n, s)
    ensures m == n
  {
    if m != n {
      BelowAsymmetric(n, m);
    }
  }

  /** Adding the next element of a list of distinct elements to the sum over its prefix. */
  lemma SumOverPrefix(s: seq<string>, k: nat, f: string -> nat)
    requires k < |s| && DistinctKeys(s, Itself)
    ensures SumOver(Elements(s[..k + 1]), f) == SumOver(Elements(s[..k]), f) + f(s[k])
  {
    assert s[..k + 1] == s[..k] + [s[k]];
    ElementsSnoc(s[..k], s[k]);
    assert s[k] !in Elements(s[..k]) by {
      forall i | 0 <= i < k ensures s[i] != s[k] {
        assert Itself(s[i]) != Itself(s[k]);
      }
    }
    SumOverRemove(Elements(s[..k + 1]), f, s[k]);
    assert Elements(s[..k + 1]) - {s[k]} == Elements(s[..k]);
  }

  /** The length of each list of a mapping, as a function; 0 off the mapping. */
  function LengthsIn<T>(m: map<string, seq<T>>): string -> nat {
    d => if d in m then |m[d]| else 0
  }

  /** `Object.keys(m)`: every key once, in an order of the object's own. */
  method ObjectKeys<V>(m: map<string, V>) returns (keys: seq<string>)
    ensures Elements(keys) == m.Keys && DistinctKeys(keys, Itself)
  {
    var remaining := m.Keys;
    keys := [];
    while remaining != {}
      invariant remaining <= m.Keys
      invariant Elements(keys) == m.Keys - remaining
      invariant DistinctKeys(keys, Itself)
      decreases |remaining|
    {
      var k :| k in remaining;
      AppendDistinct(keys, k, Itself);
      ElementsSnoc(keys, k);
      keys := keys + [k];
      remaining := remaining - {k};
    }
  }
}
