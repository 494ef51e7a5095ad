/** Names in byte order, as the Go standard library sorts them. */
module Lex {
  /** Lexical order; UTF-8 compares bytewise in the order of its code points. */
  predicate LessEq(a: string, b: string) {
    if a == [] then true
    else if b == [] then false
    else if a[0] == b[0] then LessEq(a[1..], b[1..])
    else a[0] < b[0]
  }

  lemma {:induction false} Total(a: string, b: string)
    ensures LessEq(a, b) || LessEq(b, a)
  {
    if a != [] && b != [] && a[0] == b[0] {
      Total(a[1..], b[1..]);
    }
  }

  lemma {:induction false} Antisymmetric(a: string, b: string)
    requires LessEq(a, b) && LessEq(b, a)
    ensures a == b
  {
    if a != [] {
      Antisymmetric(a[1..], b[1..]);
      assert a == [a[0]] + a[1..] && b == [b[0]] + b[1..];
    }
  }

  lemma {:induction false} Transitive(a: string, b: string, c: string)
    requires LessEq(a, b) && LessEq(b, c)
    ensures LessEq(a, c)
  {
    if a != [] && a[0] == b[0] == c[0] {
      Transitive(a[1..], b[1..], c[1..]);
    }
  }

  /** The order is lexical: a prefix comes first, and otherwise the first difference decides. */
  lemma {:induction false} LexicalOrder(a: string, b: string)
    ensures LessEq(a, b) <==>
            a <= b || exists k | 0 <= k < |a| && k < |b| :: a[..k] == b[..k] && a[k] < b[k]
  {
    if a != [] && b != [] {
      if a[0] == b[0] {
        LexicalOrder(a[1..], b[1..]);
        if k :| 0 <= k < |a[1..]| && k < |b[1..]| && a[1..][..k] == b[1..][..k] && a[1..][k] < b[1..][k] {
          assert a[..k + 1] == [a[0]] + a[1..][..k] && b[..k + 1] == [b[0]] + b[1..][..k];
        }
        if k :| 0 <= k < |a| && k < |b| && a[..k] == b[..k] && a[k] < b[k] {
          assert a[1..][..k - 1] == a[..k][1..] && b[1..][..k - 1] == b[..k][1..];
          assert a[1..][k - 1] < b[1..][k - 1];
        }
        assert a <= b <==> a[1..] <= b[1..] by {
          assert a == [a[0]] + a[1..] && b == [b[0]] + b[1..];
        }
      } else if a[0] < b[0] {
        assert a[..0] == b[..0];
      } else {
        assert forall k | 0 < k < |a| && k < |b| :: a[..k][0] != b[..k][0];
      }
    }
  }

  predicate Ordered(names: seq<string>) {
    forall i, j | 0 <= i < j < |names| :: LessEq(names[i], names[j])
  }

  ghost predicate Distinct<T>(xs: seq<T>) {
    forall i, j | 0 <= i < j < |xs| :: xs[i] != xs[j]
  }

  function Elements<T(==)>(xs: seq<T>): set<T> {
    set x | x in xs
  }

  lemma ConsOrdered(x: string, sorted: seq<string>)
    requires Ordered(sorted) && forall y | y in sorted :: LessEq(x, y)
    ensures Ordered([x] + sorted)
  {
  }

  /** The least name of a sorted list, put before the rest with another name inserted. */
  lemma HeadBeforeInserted(sorted: seq<string>, name: string, rest: seq<string>)
    requires sorted != [] && Ordered(sorted) && !LessEq(name, sorted[0])
    requires Ordered(rest) && multiset(rest) == multiset(sorted[1..]) + multiset{name}
    ensures Ordered([sorted[0]] + rest)
  {
    Total(name, sorted[0]);
    forall y | y in rest
      ensures LessEq(sorted[0], y)
    {
      assert y in multiset(rest);
      assert y == name || y in sorted[1..];
    }
    ConsOrdered(sorted[0], rest);
  }

  lemma HeadBeforeAll(name: string, sorted: seq<string>)
    requires sorted != [] && Ordered(sorted) && LessEq(name, sorted[0])
    ensures Ordered([name] + sorted)
  {
    forall y | y in sorted
      ensures LessEq(name, y)
    {
      var j :| 0 <= j < |sorted| && sorted[j] == y;
      if j > 0 {
        Transitive(name, sorted[0], y);
      }
    }
    ConsOrdered(name, sorted);
  }

  function Insert(name: string, sorted: seq<string>): (r: seq<string>)
    requires Ordered(sorted)
    ensures Ordered(r)
    ensures multiset(r) == multiset(sorted) + multiset{name}
  {
    if sorted == [] then [name]
    else if LessEq(name, sorted[0]) then
      HeadBeforeAll(name, sorted);
      [name] + sorted
    else
      var rest := Insert(name, sorted[1..]);
      HeadBeforeInserted(sorted, name, rest);
      assert sorted == [sorted[0]] + sorted[1..];
      [sorted[0]] + rest
  }

  /** `sort.Strings` and `sort.Slice` by name. */
  function Sort(names: seq<string>): (r: seq<string>)
    ensures Ordered(r)
    ensures multiset(r) == multiset(names)
  {
    if names == [] then []
    else
      assert names == [names[0]] + names[1..];
      Insert(names[0], Sort(names[1..]))
  }

  lemma HeadIsLeast(a: seq<string>, x: string)
    requires Ordered(a) && x in multiset(a)
    ensures LessEq(a[0], x)
  {
    var i :| 0 <= i < |a| && a[i] == x;
    Total(x, x);
  }

  lemma HeadOff(a: seq<string>)
    requires a != []
    ensures multiset(a[1..]) == multiset(a) - multiset{a[0]}
  {
    assert a == [a[0]] + a[1..];
  }

  /** A sorted list is determined by its elements, so any sorting algorithm gives this one. */
  lemma {:induction false} SortedIsUnique(a: seq<string>, b: seq<string>)
    requires Ordered(a) && Ordered(b) && multiset(a) == multiset(b)
    ensures a == b
  {
    assert |multiset(a)| == |a| && |multiset(b)| == |b|;
    if a != [] {
      assert a[0] in multiset(b) && b[0] in multiset(a);
      HeadIsLeast(a, b[0]);
      HeadIsLeast(b, a[0]);
      Antisymmetric(a[0], b[0]);
      HeadOff(a);
      HeadOff(b);
      SortedIsUnique(a[1..], b[1..]);
      assert a == [a[0]] + a[1..] && b == [b[0]] + b[1..];
    }
  }

  lemma DistinctSnoc<T>(xs: seq<T>, x: T)
    ensures Elements(xs + [x]) == Elements(xs) + {x}
    ensures Distinct(xs) && x !in Elements(xs) ==> Distinct(xs + [x])
  {
  }

  /** Without repetitions, as many elements as the list is long. */
  lemma {:induction false} DistinctCount<T>(xs: seq<T>)
    requires Distinct(xs)
    ensures |Elements(xs)| == |xs|
  {
    if xs != [] {
      var front, last := xs[..|xs| - 1], xs[|xs| - 1];
      DistinctCount(front);
      assert Elements(xs) == Elements(front) + {last};
    }
  }

  lemma {:induction false} DistinctMultiset<T>(xs: seq<T>)
    requires Distinct(xs)
    ensures multiset(xs) == multiset(Elements(xs))
  {
    if xs != [] {
      var front, last := xs[..|xs| - 1], xs[|xs| - 1];
      DistinctMultiset(front);
      assert xs == front + [last];
      assert Elements(xs) == Elements(front) + {last};
    }
  }

  lemma SameElements(a: seq<string>, b: seq<string>)
    requires multiset(a) == multiset(b) && Distinct(b)
    ensures Elements(a) == Elements(b) && Distinct(a)
  {
    forall x ensures x in a <==> x in b {
      assert x in a <==> x in multiset(a);
      assert x in b <==> x in multiset(b);
    }
    DistinctMultiset(b);
    forall i, j | 0 <= i < j < |a| ensures a[i] != a[j] {
      Repeated(a, i, j);
    }
  }

  lemma Repeated<T>(a: seq<T>, i: nat, j: nat)
    requires i < j < |a|
    ensures a[i] == a[j] ==> multiset(a)[a[i]] >= 2
  {
    assert a == a[..i] + [a[i]] + a[i + 1..j] + [a[j]] + a[j + 1..];
  }
}
