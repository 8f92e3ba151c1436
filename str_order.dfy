/**
 * Python's ordering of `str` values (lexicographic by code point, a proper
 * prefix first), `sorted(set(...))`, and the stable descending
 * `list.sort(key=..., reverse=True)`.
 */
module StrOrder {

  /** `a < b` on Python strings. */
  predicate Less(a: string, b: string)
    decreases |a|
  {
    if a == [] then b != []
    else if b == [] then false
    else if a[0] != b[0] then a[0] < b[0]
    else Less(a[1..], b[1..])
  }

  lemma {:induction false} LessIrreflexive(a: string)
    ensures !Less(a, a)
    decreases |a|
  {
    if a != [] {
      LessIrreflexive(a[1..]);
    }
  }

  lemma {:induction false} LessAsymmetric(a: string, b: string)
    ensures !(Less(a, b) && Less(b, a))
    decreases |a|
  {
    if a != [] && b != [] && a[0] == b[0] {
      LessAsymmetric(a[1..], b[1..]);
    }
  }

  lemma {:induction false} LessTransitive(a: string, b: string, c: string)
    requires Less(a, b) && Less(b, c)
    ensures Less(a, c)
    decreases |a|
  {
    if a != [] && a[0] == b[0] && b[0] == c[0] {
      LessTransitive(a[1..], b[1..], c[1..]);
    }
  }

  lemma {:induction false} LessTotal(a: string, b: string)
    ensures a == b || Less(a, b) || Less(b, a)
    decreases |a|
  {
    if a != [] && b != [] && a[0] == b[0] {
      LessTotal(a[1..], b[1..]);
      if a[1..] == b[1..] {
        assert a == [a[0]] + a[1..] && b == [b[0]] + b[1..];
      }
    }
  }

  // ---------------------------------------------------------------------------
  // sorted(set(...))
  // ---------------------------------------------------------------------------

  predicate StrictlyAscending(s: seq<string>) {
    forall i, j :: 0 <= i < j < |s| ==> Less(s[i], s[j])
  }

  /** Puts `x` into its place in a strictly ascending sequence that lacks it. */
  function Insert(x: string, s: seq<string>): (r: seq<string>)
    requires StrictlyAscending(s) && x !in s
    ensures StrictlyAscending(r)
    ensures forall y :: y in r <==> y == x || y in s
    ensures |r| == |s| + 1
    decreases |s|
  {
    if s == [] then [x]
    else if Less(x, s[0]) then
      assert forall j :: 0 < j < |s| ==> Less(x, s[j]) by {
        forall j | 0 < j < |s| ensures Less(x, s[j]) {
          LessTransitive(x, s[0], s[j]);
        }
      }
      [x] + s
    else
      LessTotal(x, s[0]);
      var t := Insert(x, s[1..]);
      assert forall y :: y in t ==> Less(s[0], y) by {
        forall y | y in t ensures Less(s[0], y) {
          if y != x {
            var j :| 1 <= j < |s| && s[j] == y;
          }
        }
      }
      [s[0]] + t
  }

  /** `sorted(keys)` for a set of keys: every key once, in ascending order. */
  method SortedFromSet(keys: set<string>) returns (r: seq<string>)
    ensures StrictlyAscending(r)
    ensures forall y :: y in r <==> y in keys
    ensures |r| == |keys|
  {
    r := [];
    var rest := keys;
    while rest != {}
      invariant rest <= keys
      invariant StrictlyAscending(r)
      invariant forall y :: y in r <==> y in keys && y !in rest
      invariant |r| + |rest| == |keys|
      decreases |rest|
    {
      var x :| x in rest;
      r := Insert(x, r);
      rest := rest - {x};
    }
  }

  lemma HasHead(b: seq<string>)
    requires b != []
    ensures b[0] in b
  {
  }

  /** A strictly ascending sequence is determined by its elements. */
  lemma {:induction false} AscendingUnique(a: seq<string>, b: seq<string>)
    requires StrictlyAscending(a) && StrictlyAscending(b)
    requires forall y :: y in a <==> y in b
    ensures a == b
    decreases |a|
  {
    if a == [] {
      if b != [] {
        HasHead(b);
        assert false;
      }
    } else {
      assert a[0] in b;
      assert b != [];
      assert b[0] in b;
      if a[0] != b[0] {
        var i :| 0 <= i < |a| && a[i] == b[0];
        var j :| 0 <= j < |b| && b[j] == a[0];
        assert Less(b[0], a[0]);
        assert Less(a[0], b[0]);
        LessAsymmetric(a[0], b[0]);
      }
      forall y ensures y in a[1..] <==> y in b[1..] {
        if y in a[1..] {
          var i :| 1 <= i < |a| && a[i] == y;
          assert Less(a[0], y);
          LessIrreflexive(y);
          assert y in b;
        }
        if y in b[1..] {
          var i :| 1 <= i < |b| && b[i] == y;
          assert Less(b[0], y);
          LessIrreflexive(y);
          assert y in a;
        }
      }
      AscendingUnique(a[1..], b[1..]);
      assert a == [a[0]] + a[1..] && b == [b[0]] + b[1..];
    }
  }

  // ---------------------------------------------------------------------------
  // Stable descending sort by a string key.
  // ---------------------------------------------------------------------------

  /** `key(x) >= key(y)`. */
  predicate AtLeast(a: string, b: string) { a == b || Less(b, a) }

  predicate Descending<T>(s: seq<T>, key: T -> string) {
    forall i, j :: 0 <= i < j < |s| ==> AtLeast(key(s[i]), key(s[j]))
  }

  /**
   * Puts `x` after every element whose key is at least `x`'s: the step of a
   * stable descending insertion sort.
   */
  function InsertDesc<T>(s: seq<T>, x: T, key: T -> string): seq<T>
    decreases |s|
  {
    if s == [] || Less(key(s[0]), key(x)) then [x] + s
    else [s[0]] + InsertDesc(s[1..], x, key)
  }

  /** `sorted(xs, key=key, reverse=True)`, which is stable. */
  function SortDesc<T>(xs: seq<T>, key: T -> string): seq<T>
    decreases |xs|
  {
    if xs == [] then [] else InsertDesc(SortDesc(xs[..|xs| - 1], key), xs[|xs| - 1], key)
  }

  lemma DescendingTail<T>(s: seq<T>, key: T -> string)
    requires Descending(s, key) && s != []
    ensures Descending(s[1..], key)
  {
    forall i, j | 0 <= i < j < |s[1..]| ensures AtLeast(key(s[1..][i]), key(s[1..][j])) {
      assert s[1..][i] == s[i + 1] && s[1..][j] == s[j + 1];
    }
  }

  lemma {:induction false} InsertDescMultiset<T>(s: seq<T>, x: T, key: T -> string)
    ensures multiset(InsertDesc(s, x, key)) == multiset(s) + multiset{x}
    decreases |s|
  {
    if s != [] && !Less(key(s[0]), key(x)) {
      InsertDescMultiset(s[1..], x, key);
      assert s == [s[0]] + s[1..];
    }
  }

  lemma {:induction false} InsertDescFacts<T>(s: seq<T>, x: T, key: T -> string)
    requires Descending(s, key)
    ensures Descending(InsertDesc(s, x, key), key)
    ensures multiset(InsertDesc(s, x, key)) == multiset(s) + multiset{x}
    decreases |s|
  {
    InsertDescMultiset(s, x, key);
    var r := InsertDesc(s, x, key);
    if s == [] {
    } else if Less(key(s[0]), key(x)) {
      assert r == [x] + s;
      forall i, j | 0 <= i < j < |r| ensures AtLeast(key(r[i]), key(r[j])) {
        if i == 0 {
          if j > 1 {
            assert AtLeast(key(s[0]), key(s[j - 1]));
            if key(s[0]) != key(s[j - 1]) {
              LessTransitive(key(s[j - 1]), key(s[0]), key(x));
            }
          }
        } else {
          assert r[i] == s[i - 1] && r[j] == s[j - 1];
        }
      }
    } else {
      DescendingTail(s, key);
      InsertDescFacts(s[1..], x, key);
      var t := InsertDesc(s[1..], x, key);
      assert r == [s[0]] + t;
      HeadBounds(s, x, key, t);
      forall i, j | 0 <= i < j < |r| ensures AtLeast(key(r[i]), key(r[j])) {
        if i == 0 {
          assert r[j] == t[j - 1];
        } else {
          assert r[i] == t[i - 1] && r[j] == t[j - 1];
        }
      }
    }
  }

  /** The head of a descending `s` that `x` does not beat bounds every element of the insertion into the tail. */
  lemma HeadBounds<T>(s: seq<T>, x: T, key: T -> string, t: seq<T>)
    requires Descending(s, key) && s != [] && !Less(key(s[0]), key(x))
    requires multiset(t) == multiset(s[1..]) + multiset{x}
    ensures forall j :: 0 <= j < |t| ==> AtLeast(key(s[0]), key(t[j]))
  {
    LessTotal(key(s[0]), key(x));
    forall j | 0 <= j < |t| ensures AtLeast(key(s[0]), key(t[j])) {
      assert t[j] in multiset(t);
      if t[j] != x {
        assert t[j] in multiset(s[1..]);
        var k :| 0 <= k < |s[1..]| && s[1..][k] == t[j];
        assert s[k + 1] == t[j];
      }
    }
  }

  /** The sort yields a descending permutation of its input. */
  lemma {:induction false} SortDescFacts<T>(xs: seq<T>, key: T -> string)
    ensures Descending(SortDesc(xs, key), key)
    ensures multiset(SortDesc(xs, key)) == multiset(xs)
    ensures |SortDesc(xs, key)| == |xs|
    decreases |xs|
  {
    if xs != [] {
      var init := xs[..|xs| - 1];
      SortDescFacts(init, key);
      InsertDescFacts(SortDesc(init, key), xs[|xs| - 1], key);
      assert xs == init + [xs[|xs| - 1]];
      assert |multiset(SortDesc(xs, key))| == |multiset(xs)|;
    }
  }

  /** A prefix of a descending list is descending and takes nothing the list does not hold. */
  lemma DescendingPrefix<T>(s: seq<T>, n: nat, key: T -> string)
    requires Descending(s, key) && n <= |s|
    ensures Descending(s[..n], key)
    ensures multiset(s[..n]) <= multiset(s)
  {
    assert s == s[..n] + s[n..];
  }

  /** The elements of `s` whose key is `k`, in order. */
  function WithKey<T>(s: seq<T>, key: T -> string, k: string): seq<T>
    decreases |s|
  {
    if s == [] then []
    else (if key(s[0]) == k then [s[0]] else []) + WithKey(s[1..], key, k)
  }

  lemma {:induction false} WithKeyAppend<T>(a: seq<T>, b: seq<T>, key: T -> string, k: string)
    ensures WithKey(a + b, key, k) == WithKey(a, key, k) + WithKey(b, key, k)
    decreases |a|
  {
    if a == [] {
      assert a + b == b;
    } else {
      var ab := a + b;
      assert ab[0] == a[0];
      assert ab[1..] == a[1..] + b;
      var h := if key(a[0]) == k then [a[0]] else [];
      assert WithKey(ab, key, k) == h + WithKey(a[1..] + b, key, k);
      WithKeyAppend(a[1..], b, key, k);
      assert WithKey(a, key, k) == h + WithKey(a[1..], key, k);
    }
  }

  /** In a descending sequence whose head key is below `k`, no element has key `k`. */
  lemma {:induction false} WithKeyBelow<T>(s: seq<T>, key: T -> string, k: string)
    requires Descending(s, key)
    requires s != [] && Less(key(s[0]), k)
    ensures WithKey(s, key, k) == []
    decreases |s|
  {
    LessAsymmetric(key(s[0]), k);
    if |s| > 1 {
      assert AtLeast(key(s[0]), key(s[1]));
      if key(s[1]) != key(s[0]) {
        LessTransitive(key(s[1]), key(s[0]), k);
      }
      DescendingTail(s, key);
      WithKeyBelow(s[1..], key, k);
    }
  }

  lemma {:induction false} InsertDescStable<T>(s: seq<T>, x: T, key: T -> string, k: string)
    requires Descending(s, key)
    ensures WithKey(InsertDesc(s, x, key), key, k) == WithKey(s, key, k) + WithKey([x], key, k)
    decreases |s|
  {
    var hx := if key(x) == k then [x] else [];
    assert WithKey([x], key, k) == hx by {
      assert [x][1..] == [];
    }
    if s == [] {
    } else if Less(key(s[0]), key(x)) {
      assert ([x] + s)[1..] == s;
      assert WithKey([x] + s, key, k) == hx + WithKey(s, key, k);
      if key(x) == k {
        WithKeyBelow(s, key, k);
      }
    } else {
      var t := InsertDesc(s[1..], x, key);
      var h := if key(s[0]) == k then [s[0]] else [];
      DescendingTail(s, key);
      InsertDescStable(s[1..], x, key, k);
      assert ([s[0]] + t)[1..] == t;
      assert WithKey([s[0]] + t, key, k) == h + WithKey(t, key, k);
      assert WithKey(s, key, k) == h + WithKey(s[1..], key, k);
    }
  }

  /** Stability: elements with equal keys keep their input order. */
  lemma {:induction false} SortDescStable<T>(xs: seq<T>, key: T -> string, k: string)
    ensures WithKey(SortDesc(xs, key), key, k) == WithKey(xs, key, k)
    decreases |xs|
  {
    if xs != [] {
      var init := xs[..|xs| - 1];
      SortDescStable(init, key, k);
      SortDescFacts(init, key);
      InsertDescStable(SortDesc(init, key), xs[|xs| - 1], key, k);
      assert xs == init + [xs[|xs| - 1]];
      WithKeyAppend(init, [xs[|xs| - 1]], key, k);
    }
  }
}
