/** Byte-string order, stable sorting, and what makes a sorted listing unique. */
module Sorting {
  import opened Base

  ghost predicate TotalOrder<T(!new)>(le: (T, T) -> bool) {
    && (forall a, b :: le(a, b) || le(b, a))
    && (forall a, b, c :: le(a, b) && le(b, c) ==> le(a, c))
  }

  ghost predicate Sorted<T>(le: (T, T) -> bool, xs: seq<T>) {
    forall i, j :: 0 <= i < j < |xs| ==> le(xs[i], xs[j])
  }

  function Insert<T>(le: (T, T) -> bool, x: T, xs: seq<T>): (r: seq<T>)
    ensures multiset(r) == multiset(xs) + multiset{x}
  {
    if xs == [] || le(x, xs[0]) then
      assert multiset([x] + xs) == multiset{x} + multiset(xs);
      [x] + xs
    else
      assert xs == [xs[0]] + xs[1..];
      [xs[0]] + Insert(le, x, xs[1..])
  }

  /** A stable sort: equal elements keep their order. */
  function Sort<T>(le: (T, T) -> bool, xs: seq<T>): (r: seq<T>)
    ensures multiset(r) == multiset(xs)
  {
    if xs == [] then []
    else
      assert xs == [xs[0]] + xs[1..];
      Insert(le, xs[0], Sort(le, xs[1..]))
  }

  lemma SameMembers<T>(xs: seq<T>, ys: seq<T>)
    requires multiset(xs) == multiset(ys)
    ensures |xs| == |ys| && forall x :: x in xs <==> x in ys
  {
    assert |multiset(xs)| == |multiset(ys)|;
    forall x ensures x in xs <==> x in ys {
      assert x in xs <==> x in multiset(xs);
      assert x in ys <==> x in multiset(ys);
    }
  }

  lemma {:induction false} InsertSorts<T(!new)>(le: (T, T) -> bool, x: T, xs: seq<T>)
    requires TotalOrder(le) && Sorted(le, xs)
    ensures Sorted(le, Insert(le, x, xs))
  {
    if xs != [] && !le(x, xs[0]) {
      var rest := Insert(le, x, xs[1..]);
      InsertSorts(le, x, xs[1..]);
      assert forall y :: y in rest ==> y in multiset(rest);
      forall j | 0 <= j < |rest| ensures le(xs[0], rest[j]) {
        assert rest[j] in multiset(rest);
        if rest[j] != x {
          assert rest[j] in xs[1..];
        }
      }
    }
  }

  lemma {:induction false} SortSorts<T(!new)>(le: (T, T) -> bool, xs: seq<T>)
    requires TotalOrder(le)
    ensures Sorted(le, Sort(le, xs))
  {
    if xs != [] {
      SortSorts(le, xs[1..]);
      InsertSorts(le, xs[0], Sort(le, xs[1..]));
    }
  }

  lemma LeastFirst<T>(le: (T, T) -> bool, xs: seq<T>, y: T)
    requires Sorted(le, xs) && y in multiset(xs)
    ensures y == xs[0] || le(xs[0], y)
    ensures Sorted(le, xs[1..])
  {
    assert y in xs;
  }

  lemma TailMembers<T>(xs: seq<T>)
    requires xs != []
    ensures xs == [xs[0]] + xs[1..]
    ensures xs[0] in multiset(xs) && multiset(xs[1..]) == multiset(xs) - multiset{xs[0]}
  {
    assert xs == [xs[0]] + xs[1..];
  }

  /** Different elements of the collection are never tied. */
  ghost predicate NoTies<T>(le: (T, T) -> bool, members: multiset<T>) {
    forall a, b :: a in members && b in members && le(a, b) && le(b, a) ==> a == b
  }

  /** Without ties one collection has only one sorted listing. */
  lemma {:induction false} SortedIsUnique<T(!new)>(le: (T, T) -> bool, xs: seq<T>, ys: seq<T>)
    requires Sorted(le, xs) && Sorted(le, ys) && multiset(xs) == multiset(ys)
    requires NoTies(le, multiset(xs))
    ensures xs == ys
  {
    SameMembers(xs, ys);
    if xs != [] {
      hide Sorted;
      TailMembers(xs);
      TailMembers(ys);
      LeastFirst(le, xs, ys[0]);
      LeastFirst(le, ys, xs[0]);
      SortedIsUnique(le, xs[1..], ys[1..]);
    }
  }

  // ---- The order of byte strings ----

  predicate TextLeq(a: seq<byte>, b: seq<byte>) {
    a == [] || (b != [] && (a[0] < b[0] || (a[0] == b[0] && TextLeq(a[1..], b[1..]))))
  }

  lemma {:induction false} TextLeqTotal(a: seq<byte>, b: seq<byte>)
    ensures TextLeq(a, b) || TextLeq(b, a)
  {
    if a != [] && b != [] && a[0] == b[0] {
      TextLeqTotal(a[1..], b[1..]);
    }
  }

  lemma {:induction false} TextLeqTransitive(a: seq<byte>, b: seq<byte>, c: seq<byte>)
    requires TextLeq(a, b) && TextLeq(b, c)
    ensures TextLeq(a, c)
  {
    if a != [] && a[0] == b[0] && b[0] == c[0] {
      TextLeqTransitive(a[1..], b[1..], c[1..]);
    }
  }

  lemma {:induction false} TextLeqAntisymmetric(a: seq<byte>, b: seq<byte>)
    requires TextLeq(a, b) && TextLeq(b, a)
    ensures a == b
  {
    if a != [] {
      TextLeqAntisymmetric(a[1..], b[1..]);
      assert a == [a[0]] + a[1..] && b == [b[0]] + b[1..];
    }
  }

  /** The first byte in which two texts differ decides, and a text comes before its continuations. */
  ghost predicate TextLess(a: seq<byte>, b: seq<byte>) {
    exists k: nat ::
      && k <= |a| && k < |b| && a[..k] == b[..k]
      && (k == |a| || a[k] < b[k])
  }

  lemma NothingLess(a: seq<byte>)
    ensures !TextLess(a, a)
  {
  }

  lemma {:induction false} TextLeqIsLess(a: seq<byte>, b: seq<byte>)
    ensures TextLeq(a, b) <==> a == b || TextLess(a, b)
  {
    if a == [] {
      if b != [] {
        assert a[..0] == b[..0];
      }
    } else if b != [] {
      if a[0] == b[0] {
        TextLeqIsLess(a[1..], b[1..]);
        LessInTails(a, b);
        assert a == [a[0]] + a[1..] && b == [b[0]] + b[1..];
      } else if a[0] < b[0] {
        assert a[..0] == b[..0];
      } else {
        forall k: nat | k <= |a| && k < |b| && a[..k] == b[..k] ensures k == 0 {
          if k > 0 {
            SameHead(a, b, k);
          }
        }
      }
    }
  }

  lemma SameHead(a: seq<byte>, b: seq<byte>, k: nat)
    requires 0 < k <= |a| && k <= |b| && a[..k] == b[..k]
    ensures a[0] == b[0]
  {
    assert a[..k][0] == b[..k][0];
  }

  lemma LessInTails(a: seq<byte>, b: seq<byte>)
    requires a != [] && b != [] && a[0] == b[0]
    ensures TextLess(a[1..], b[1..]) <==> TextLess(a, b)
  {
    if k: nat :| k <= |a| && k < |b| && a[..k] == b[..k] && (k == |a| || a[k] < b[k]) {
      var n := k - 1;
      assert a[1..][..n] == a[..k][1..] && b[1..][..n] == b[..k][1..];
    }
    var x, y := a[1..], b[1..];
    if n: nat :| n <= |x| && n < |y| && x[..n] == y[..n] && (n == |x| || x[n] < y[n]) {
      var k := n + 1;
      assert a[..k] == [a[0]] + x[..n] && b[..k] == [b[0]] + y[..n];
    }
  }

  // ---- The order of lists of byte strings ----

  predicate NamesLeq(a: seq<seq<byte>>, b: seq<seq<byte>>) {
    a == [] || (b != [] && if a[0] != b[0] then TextLeq(a[0], b[0]) else NamesLeq(a[1..], b[1..]))
  }

  /** Lists of one length are ordered by the first text in which they differ. */
  lemma {:induction false} NamesLeqAt(a: seq<seq<byte>>, b: seq<seq<byte>>, k: nat)
    requires |a| == |b| && k < |a| && a[k] != b[k] && forall i :: 0 <= i < k ==> a[i] == b[i]
    ensures NamesLeq(a, b) <==> TextLess(a[k], b[k])
    decreases k
  {
    hide TextLeq, TextLess;
    if k == 0 {
      TextLeqIsLess(a[0], b[0]);
    } else {
      NamesLeqAt(a[1..], b[1..], k - 1);
    }
  }

  lemma {:induction false} NamesLeqTotal(a: seq<seq<byte>>, b: seq<seq<byte>>)
    ensures NamesLeq(a, b) || NamesLeq(b, a)
  {
    if a != [] && b != [] {
      if a[0] != b[0] {
        TextLeqTotal(a[0], b[0]);
      } else {
        NamesLeqTotal(a[1..], b[1..]);
      }
    }
  }

  lemma {:induction false} NamesLeqTransitive(a: seq<seq<byte>>, b: seq<seq<byte>>, c: seq<seq<byte>>)
    requires NamesLeq(a, b) && NamesLeq(b, c)
    ensures NamesLeq(a, c)
  {
    if a != [] {
      if a[0] == b[0] && b[0] == c[0] {
        NamesLeqTransitive(a[1..], b[1..], c[1..]);
      } else if a[0] != b[0] && b[0] != c[0] {
        TextLeqTransitive(a[0], b[0], c[0]);
        if a[0] == c[0] {
          TextLeqAntisymmetric(a[0], b[0]);
        }
      }
    }
  }

  lemma {:induction false} NamesLeqAntisymmetric(a: seq<seq<byte>>, b: seq<seq<byte>>)
    requires NamesLeq(a, b) && NamesLeq(b, a)
    ensures a == b
  {
    if a != [] {
      if a[0] != b[0] {
        TextLeqAntisymmetric(a[0], b[0]);
      } else {
        NamesLeqAntisymmetric(a[1..], b[1..]);
        assert a == [a[0]] + a[1..] && b == [b[0]] + b[1..];
      }
    }
  }
}
