/**
 Go's ordering of strings (`<` on `string`, used by `sort.Strings` and by the
 `less` function handed to `sort.Slice`) and a sort that stands for both.
 Go compares strings byte by byte; here strings are `seq<char>` and the
 comparison is character by character, which agrees with Go on the ASCII
 names Kubernetes allows for namespaces.
 */
module Order {

  /** `a < b` in Go: lexicographic, a proper prefix comes first. */
  predicate Below(a: string, b: string)
    decreases |a|
  {
    |b| > 0 && (|a| == 0 || a[0] < b[0] || (a[0] == b[0] && Below(a[1..], b[1..])))
  }

  predicate LessEq(a: string, b: string)
  {
    a == b || Below(a, b)
  }

  lemma {:induction false} BelowIrreflexive(a: string)
    ensures !Below(a, a)
    decreases |a|
  {
    if |a| > 0 {
      BelowIrreflexive(a[1..]);
    }
  }

  lemma {:induction false} BelowTransitive(a: string, b: string, c: string)
    requires Below(a, b) && Below(b, c)
    ensures Below(a, c)
    decreases |a|
  {
    if |a| > 0 && a[0] == b[0] && b[0] == c[0] {
      BelowTransitive(a[1..], b[1..], c[1..]);
    }
  }

  lemma {:induction false} BelowTotal(a: string, b: string)
    requires a != b
    ensures Below(a, b) || Below(b, a)
    decreases |a|
  {
    if |a| > 0 && |b| > 0 && a[0] == b[0] {
      assert a == [a[0]] + a[1..] && b == [b[0]] + b[1..];
      BelowTotal(a[1..], b[1..]);
    }
  }

  lemma BelowAsymmetric(a: string, b: string)
    requires Below(a, b)
    ensures !Below(b, a)
  {
    if Below(b, a) {
      BelowTransitive(a, b, a);
      BelowIrreflexive(a);
    }
  }

  /** The key by which `sort.Strings` orders: the string itself. */
  function Identity(s: string): string
  {
    s
  }

  predicate SortedBy<T>(s: seq<T>, key: T -> string)
  {
    forall i, j :: 0 <= i < j < |s| ==> LessEq(key(s[i]), key(s[j]))
  }

  predicate StrictlySortedBy<T>(s: seq<T>, key: T -> string)
  {
    forall i, j :: 0 <= i < j < |s| ==> Below(key(s[i]), key(s[j]))
  }

  predicate KeysDistinct<T>(s: seq<T>, key: T -> string)
  {
    forall i, j :: 0 <= i < j < |s| ==> key(s[i]) != key(s[j])
  }

  /** Inserts `x` into a sorted sequence before the first element it does not follow. */
  function InsertBy<T(==)>(x: T, s: seq<T>, key: T -> string): (r: seq<T>)
    ensures multiset(r) == multiset(s) + multiset{x}
    decreases |s|
  {
    if s == [] then [x]
    else if LessEq(key(x), key(s[0])) then [x] + s
    else
      assert s == [s[0]] + s[1..];
      [s[0]] + InsertBy(x, s[1..], key)
  }

  /** The elements of an insertion: the inserted one and those of the sequence. */
  lemma InsertByElements<T>(x: T, s: seq<T>, key: T -> string, r: seq<T>)
    requires r == InsertBy(x, s, key)
    ensures forall y :: y in r <==> y == x || y in s
  {
    forall y ensures y in r <==> y == x || y in s {
      assert y in r <==> y in multiset(r);
      assert y in s <==> y in multiset(s);
    }
  }

  lemma {:induction false} InsertBySorted<T>(x: T, s: seq<T>, key: T -> string)
    requires SortedBy(s, key)
    ensures SortedBy(InsertBy(x, s, key), key)
    decreases |s|
  {
    if s == [] {
    } else if LessEq(key(x), key(s[0])) {
      LessEqBelowAll(key(x), s, key);
      ConsSorted(x, s, key);
    } else {
      BelowTotal(key(x), key(s[0]));
      assert Below(key(s[0]), key(x));
      var rest := InsertBy(x, s[1..], key);
      assert InsertBy(x, s, key) == [s[0]] + rest;
      InsertBySorted(x, s[1..], key);
      var tail := s[1..];
      HeadBelowAll(s, tail, rest, x, key);
      ConsSorted(s[0], rest, key);
    }
  }

  /** Inserting an element whose key is new into a strictly sorted sequence keeps it strictly sorted. */
  lemma {:induction false} InsertByStrictlySorted<T>(x: T, s: seq<T>, key: T -> string)
    requires StrictlySortedBy(s, key)
    requires forall y :: y in s ==> key(y) != key(x)
    ensures StrictlySortedBy(InsertBy(x, s, key), key)
    decreases |s|
  {
    if s == [] {
    } else if LessEq(key(x), key(s[0])) {
      assert s[0] in s;
      assert Below(key(x), key(s[0]));
      LessEqBelowAll(key(x), s, key);
      ConsStrictlySorted(x, s, key);
    } else {
      BelowTotal(key(x), key(s[0]));
      assert Below(key(s[0]), key(x));
      var rest := InsertBy(x, s[1..], key);
      assert InsertBy(x, s, key) == [s[0]] + rest;
      assert forall y :: y in s[1..] ==> y in s;
      InsertByStrictlySorted(x, s[1..], key);
      var tail := s[1..];
      HeadBelowAll(s, tail, rest, x, key);
      ConsStrictlySorted(s[0], rest, key);
    }
  }

  lemma ConsSorted<T>(h: T, s: seq<T>, key: T -> string)
    requires SortedBy(s, key)
    requires forall j :: 0 <= j < |s| ==> LessEq(key(h), key(s[j]))
    ensures SortedBy([h] + s, key)
  {
    var r := [h] + s;
    forall i, j | 0 <= i < j < |r| ensures LessEq(key(r[i]), key(r[j])) {
      assert r[j] == s[j - 1];
      if i > 0 {
        assert r[i] == s[i - 1];
      }
    }
  }

  lemma ConsStrictlySorted<T>(h: T, s: seq<T>, key: T -> string)
    requires StrictlySortedBy(s, key)
    requires forall j :: 0 <= j < |s| ==> Below(key(h), key(s[j]))
    ensures StrictlySortedBy([h] + s, key)
  {
    var r := [h] + s;
    forall i, j | 0 <= i < j < |r| ensures Below(key(r[i]), key(r[j])) {
      assert r[j] == s[j - 1];
      if i > 0 {
        assert r[i] == s[i - 1];
      }
    }
  }

  /** `k` precedes the head of a sorted sequence, hence every element of it. */
  lemma LessEqBelowAll<T>(k: string, s: seq<T>, key: T -> string)
    requires SortedBy(s, key) && |s| > 0 && LessEq(k, key(s[0]))
    ensures forall j :: 0 <= j < |s| ==> LessEq(k, key(s[j]))
    ensures Below(k, key(s[0])) ==> forall j :: 0 <= j < |s| ==> Below(k, key(s[j]))
  {
    forall j | 0 <= j < |s| ensures LessEq(k, key(s[j])) && (Below(k, key(s[0])) ==> Below(k, key(s[j]))) {
      if j > 0 && key(s[0]) != key(s[j]) && k != key(s[0]) {
        BelowTransitive(k, key(s[0]), key(s[j]));
      }
    }
  }

  /**
   The head of a sorted `s` comes before `x` and every other element of `s`,
   so it comes before every element of `x` inserted into the tail of `s`.
   */
  lemma HeadBelowAll<T>(s: seq<T>, tail: seq<T>, rest: seq<T>, x: T, key: T -> string)
    requires |s| > 0 && tail == s[1..] && SortedBy(s, key) && Below(key(s[0]), key(x))
    requires rest == InsertBy(x, tail, key)
    ensures forall j :: 0 <= j < |rest| ==> LessEq(key(s[0]), key(rest[j]))
    ensures StrictlySortedBy(s, key) ==> forall j :: 0 <= j < |rest| ==> Below(key(s[0]), key(rest[j]))
  {
    InsertByElements(x, tail, key, rest);
    forall j | 0 <= j < |rest|
      ensures LessEq(key(s[0]), key(rest[j]))
      ensures StrictlySortedBy(s, key) ==> Below(key(s[0]), key(rest[j]))
    {
      assert rest[j] in rest;
      if rest[j] != x {
        var i :| 0 <= i < |tail| && tail[i] == rest[j];
        assert s[i + 1] == rest[j];
      }
    }
  }

  /** Insertion sort: the single sort that stands for `sort.Strings` and `sort.Slice`. */
  function SortBy<T(==)>(s: seq<T>, key: T -> string): (r: seq<T>)
    ensures multiset(r) == multiset(s)
    decreases |s|
  {
    if s == [] then []
    else
      assert s == [s[0]] + s[1..];
      InsertBy(s[0], SortBy(s[1..], key), key)
  }

  /** The sort orders by the key, strictly so when no two elements share a key. */
  lemma {:induction false} SortBySorted<T>(s: seq<T>, key: T -> string)
    ensures SortedBy(SortBy(s, key), key)
    ensures KeysDistinct(s, key) ==> StrictlySortedBy(SortBy(s, key), key)
    decreases |s|
  {
    if s != [] {
      var rest := SortBy(s[1..], key);
      SortBySorted(s[1..], key);
      InsertBySorted(s[0], rest, key);
      if KeysDistinct(s, key) {
        assert KeysDistinct(s[1..], key);
        forall y | y in rest ensures key(y) != key(s[0]) {
          assert y in multiset(s[1..]);
          var i :| 0 <= i < |s[1..]| && s[1..][i] == y;
          assert s[i + 1] == y;
        }
        InsertByStrictlySorted(s[0], rest, key);
      }
    }
  }

  /**
   A sequence strictly sorted by a key is determined by its elements: whatever
   order the elements arrived in and whichever sort algorithm ran, the sorted
   result is the same.
   */
  lemma {:induction false} SortedByIsUnique<T>(a: seq<T>, b: seq<T>, key: T -> string)
    requires StrictlySortedBy(a, key) && StrictlySortedBy(b, key)
    requires forall x :: x in a <==> x in b
    ensures a == b
    decreases |a|
  {
    if |a| > 0 {
      assert a[0] in b;
    }
    if |b| > 0 {
      assert b[0] in a;
    }
    if |a| > 0 && |b| > 0 {
      var j :| 0 <= j < |b| && b[j] == a[0];
      var i :| 0 <= i < |a| && a[i] == b[0];
      if i > 0 {
        if j > 0 {
          BelowAsymmetric(key(b[0]), key(b[j]));
        } else {
          BelowIrreflexive(key(a[0]));
        }
        assert false;
      }
      forall x ensures x in a[1..] <==> x in b[1..] {
        if x in a[1..] {
          var k :| 0 <= k < |a[1..]| && a[1..][k] == x;
          assert a[k + 1] == x;
          if x == b[0] {
            BelowIrreflexive(key(a[0]));
          }
          assert x in b;
          var m :| 0 <= m < |b| && b[m] == x;
          assert m != 0;
          assert b[1..][m - 1] == x;
        }
        if x in b[1..] {
          var k :| 0 <= k < |b[1..]| && b[1..][k] == x;
          assert b[k + 1] == x;
          if x == a[0] {
            BelowIrreflexive(key(b[0]));
          }
          assert x in a;
          var m :| 0 <= m < |a| && a[m] == x;
          assert m != 0;
          assert a[1..][m - 1] == x;
        }
      }
      SortedByIsUnique(a[1..], b[1..], key);
      assert a == [a[0]] + a[1..] && b == [b[0]] + b[1..];
    }
  }
}
