/**
 * Go's string order, and sorting as the arrangement it produces: any sorted permutation,
 * which is unique because the order is total.
 */
module Ordering {
  import opened Basics

  /** `a <= b` in Go: code point order, a proper prefix first. */
  predicate StrLe(a: string, b: string)
  {
    a == "" || (b != "" && (a[0] < b[0] || (a[0] == b[0] && StrLe(a[1..], b[1..]))))
  }

  predicate StrLt(a: string, b: string) { a != b && StrLe(a, b) }

  lemma {:induction false} StrLeTotal(a: string, b: string)
    ensures StrLe(a, b) || StrLe(b, a)
    ensures StrLe(a, b) && StrLe(b, a) ==> a == b
  {
    if a != "" && b != "" {
      StrLeTotal(a[1..], b[1..]);
      if a[0] == b[0] && a[1..] == b[1..] { assert a == [a[0]] + a[1..] && b == [b[0]] + b[1..]; }
    }
  }

  lemma {:induction false} StrLeTransitive(a: string, b: string, c: string)
    requires StrLe(a, b) && StrLe(b, c)
    ensures StrLe(a, c)
  {
    if a != "" && a[0] == b[0] == c[0] { StrLeTransitive(a[1..], b[1..], c[1..]); }
  }

  /** The first place where two texts differ decides; a proper beginning comes first. */
  lemma {:induction false} StrLeMeans(front: string, a: string, b: string)
    ensures StrLe(front, front + b)
    ensures a != "" && b != "" && a[0] < b[0] ==> StrLe(front + a, front + b) && !StrLe(front + b, front + a)
  {
    if front == "" {
      assert front + a == a && front + b == b;
    } else {
      StrLeMeans(front[1..], a, b);
      assert (front + a)[1..] == front[1..] + a && (front + b)[1..] == front[1..] + b;
    }
  }

  /** The first field that differs decides. */
  lemma KeyLeMeans(x: string, y: string, a: seq<string>, b: seq<string>)
    ensures x != y ==> (KeyLe([x] + a, [y] + b) <==> StrLe(x, y))
    ensures KeyLe([x] + a, [x] + b) <==> KeyLe(a, b)
  {
    assert ([x] + a)[1..] == a && ([x] + b)[1..] == b && ([y] + b)[1..] == b;
  }

  /** Comparison field by field, as the sort callbacks write it. */
  predicate KeyLe(a: seq<string>, b: seq<string>)
  {
    a == [] || (b != [] && (if a[0] != b[0] then StrLt(a[0], b[0]) else KeyLe(a[1..], b[1..])))
  }

  lemma {:induction false} KeyLeTotal(a: seq<string>, b: seq<string>)
    ensures KeyLe(a, b) || KeyLe(b, a)
    ensures KeyLe(a, b) && KeyLe(b, a) ==> a == b
  {
    if a != [] && b != [] {
      StrLeTotal(a[0], b[0]);
      KeyLeTotal(a[1..], b[1..]);
      if a[0] == b[0] && a[1..] == b[1..] { assert a == [a[0]] + a[1..] && b == [b[0]] + b[1..]; }
    }
  }

  lemma {:induction false} KeyLeTransitive(a: seq<string>, b: seq<string>, c: seq<string>)
    requires KeyLe(a, b) && KeyLe(b, c)
    ensures KeyLe(a, c)
  {
    if a != [] {
      if a[0] == b[0] == c[0] {
        KeyLeTransitive(a[1..], b[1..], c[1..]);
      } else {
        StrLeTotal(a[0], b[0]);
        StrLeTotal(b[0], c[0]);
        StrLeTransitive(a[0], b[0], c[0]);
      }
    }
  }

  /** Sequences of keyed values. The key determines the value, so equal keys are equal elements. */
  ghost predicate Sorted<T>(s: seq<T>, key: T -> seq<string>)
  {
    forall i, j :: 0 <= i < j < |s| ==> KeyLe(key(s[i]), key(s[j]))
  }

  ghost predicate Injective<T(!new)>(key: T -> seq<string>)
  {
    forall a, b :: key(a) == key(b) ==> a == b
  }

  lemma SortedHead<T(!new)>(a: seq<T>, b: seq<T>, key: T -> seq<string>)
    requires Injective(key)
    requires Sorted(a, key) && Sorted(b, key) && multiset(a) == multiset(b) && a != []
    ensures b != [] && a[0] == b[0]
  {
    hide KeyLe;
    assert a[0] in multiset(b);
    assert |a| == |multiset(a)| && |b| == |multiset(b)|;
    assert b[0] in multiset(a);
    var j :| 0 <= j < |b| && b[j] == a[0];
    var i :| 0 <= i < |a| && a[i] == b[0];
    KeyLeTotal(key(a[0]), key(b[0]));
    assert i > 0 ==> KeyLe(key(a[0]), key(a[i]));
    assert j > 0 ==> KeyLe(key(b[0]), key(b[j]));
  }

  /** A sorted arrangement of given elements is unique. */
  lemma {:induction false} SortedUnique<T(!new)>(a: seq<T>, b: seq<T>, key: T -> seq<string>)
    requires Injective(key)
    requires Sorted(a, key) && Sorted(b, key) && multiset(a) == multiset(b)
    ensures a == b
  {
    hide KeyLe;
    assert |a| == |multiset(a)| && |b| == |multiset(b)|;
    if a != [] {
      SortedHead(a, b, key);
      SortedTail(a, key);
      SortedTail(b, key);
      hide Sorted;
      SortedUnique(a[1..], b[1..], key);
      assert a == [a[0]] + a[1..] && b == [b[0]] + b[1..];
    }
  }

  lemma SortedTail<T>(s: seq<T>, key: T -> seq<string>)
    requires s != [] && Sorted(s, key)
    ensures Sorted(s[1..], key) && multiset(s[1..]) == multiset(s) - multiset{s[0]}
  {
    hide KeyLe;
    assert s == [s[0]] + s[1..];
  }

  /** `sort.Slice` with the field-by-field comparison. */
  method SortSlice<T>(s: seq<T>, key: T -> seq<string>) returns (r: seq<T>)
    ensures Sorted(r, key) && multiset(r) == multiset(s)
  {
    r := [];
    for n := 0 to |s|
      invariant Sorted(r, key) && multiset(r) == multiset(s[..n])
    {
      assert s[..n + 1] == s[..n] + [s[n]];
      r := Insert(r, s[n], key);
    }
    assert s[..|s|] == s;
  }

  method Insert<T>(s: seq<T>, x: T, key: T -> seq<string>) returns (r: seq<T>)
    requires Sorted(s, key)
    ensures Sorted(r, key) && multiset(r) == multiset(s) + multiset{x}
  {
    hide KeyLe;
    var k := |s|;
    while k > 0 && !KeyLe(key(s[k - 1]), key(x))
      invariant 0 <= k <= |s|
      invariant forall i :: k <= i < |s| ==> KeyLe(key(x), key(s[i]))
    {
      KeyLeTotal(key(s[k - 1]), key(x));
      k := k - 1;
    }
    r := s[..k] + [x] + s[k..];
    InsertedAt(s, x, k, key);
  }

  lemma InsertedAt<T>(s: seq<T>, x: T, k: nat, key: T -> seq<string>)
    requires Sorted(s, key) && k <= |s| && (k > 0 ==> KeyLe(key(s[k - 1]), key(x)))
    requires forall i :: k <= i < |s| ==> KeyLe(key(x), key(s[i]))
    ensures var r := s[..k] + [x] + s[k..]; Sorted(r, key) && multiset(r) == multiset(s) + multiset{x}
  {
    hide KeyLe, Sorted;
    assert s == s[..k] + s[k..];
    BelowInserted(s, x, k, key);
    InsertedSorted(s, x, k, key);
  }

  lemma BelowInserted<T>(s: seq<T>, x: T, k: nat, key: T -> seq<string>)
    requires Sorted(s, key) && k <= |s| && (k > 0 ==> KeyLe(key(s[k - 1]), key(x)))
    ensures forall i :: 0 <= i < k ==> KeyLe(key(s[i]), key(x))
  {
    hide KeyLe;
    forall i | 0 <= i < k ensures KeyLe(key(s[i]), key(x)) {
      if i < k - 1 { KeyLeTransitive(key(s[i]), key(s[k - 1]), key(x)); }
    }
  }

  lemma InsertedSorted<T>(s: seq<T>, x: T, k: nat, key: T -> seq<string>)
    requires Sorted(s, key) && k <= |s|
    requires forall i :: 0 <= i < k ==> KeyLe(key(s[i]), key(x))
    requires forall i :: k <= i < |s| ==> KeyLe(key(x), key(s[i]))
    ensures Sorted(s[..k] + [x] + s[k..], key)
  {
    hide KeyLe;
  }

  /** A rearrangement has the same elements, without new repetitions. */
  lemma SameElements<T(!new)>(a: seq<T>, b: seq<T>)
    requires multiset(a) == multiset(b)
    ensures forall x :: x in a <==> x in b
    ensures Distinct(a) ==> Distinct(b)
  {
    forall x ensures x in a <==> x in b { assert x in multiset(a) <==> x in multiset(b); }
    if Distinct(a) {
      DistinctCounts(a);
      forall i, j | 0 <= i < j < |b| ensures b[i] != b[j] {
        if b[i] == b[j] { RepeatCounts(b, i, j); }
      }
    }
  }

  lemma RepeatCounts<T>(b: seq<T>, i: nat, j: nat)
    requires i < j < |b| && b[i] == b[j]
    ensures multiset(b)[b[i]] >= 2
  {
    assert b == b[..j] + [b[j]] + b[j + 1..];
    assert b[i] == b[..j][i];
    assert b[i] in multiset(b[..j]);
  }

  lemma {:induction false} DistinctCounts<T(!new)>(a: seq<T>)
    requires Distinct(a)
    ensures forall x :: multiset(a)[x] <= 1
  {
    if a != [] {
      var init, last := a[..|a| - 1], a[|a| - 1];
      assert a == init + [last];
      DistinctCounts(init);
      assert last !in init;
      assert last !in multiset(init);
    }
  }
}
