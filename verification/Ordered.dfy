/** Listing a finite set in a strict order, as an ordered set or map iterates. */
module Ordered {

  ghost predicate StrictOrder<T(!new)>(less: (T, T) -> bool) {
    && (forall a :: !less(a, a))
    && (forall a, b, c :: less(a, b) && less(b, c) ==> less(a, c))
    && (forall a, b :: a != b ==> less(a, b) || less(b, a))
  }

  // ----- Sequences in dictionary order -----

  predicate Lexical<T(==)>(less: (T, T) -> bool, a: seq<T>, b: seq<T>)
    decreases |a|
  {
    b != [] && (a == [] || less(a[0], b[0]) || (a[0] == b[0] && Lexical(less, a[1..], b[1..])))
  }

  function LexicalOrder<T(==)>(less: (T, T) -> bool): (seq<T>, seq<T>) -> bool {
    (a: seq<T>, b: seq<T>) => Lexical(less, a, b)
  }

  lemma {:induction false} LexicalIrreflexive<T(!new)>(less: (T, T) -> bool, a: seq<T>)
    requires StrictOrder(less)
    ensures !Lexical(less, a, a)
    decreases |a|
  {
    if a != [] {
      LexicalIrreflexive(less, a[1..]);
    }
  }

  lemma {:induction false} LexicalTransitive<T(!new)>(less: (T, T) -> bool, a: seq<T>, b: seq<T>, c: seq<T>)
    requires StrictOrder(less) && Lexical(less, a, b) && Lexical(less, b, c)
    ensures Lexical(less, a, c)
    decreases |a|
  {
    if a != [] && a[0] == b[0] == c[0] {
      LexicalTransitive(less, a[1..], b[1..], c[1..]);
    }
  }

  lemma {:induction false} LexicalTotal<T(!new)>(less: (T, T) -> bool, a: seq<T>, b: seq<T>)
    requires StrictOrder(less) && a != b
    ensures Lexical(less, a, b) || Lexical(less, b, a)
    decreases |a|
  {
    if a != [] && b != [] && a[0] == b[0] {
      assert a == [a[0]] + a[1..] && b == [b[0]] + b[1..];
      LexicalTotal(less, a[1..], b[1..]);
    }
  }

  lemma LexicalIsOrder<T(!new)>(less: (T, T) -> bool)
    requires StrictOrder(less)
    ensures StrictOrder(LexicalOrder(less))
  {
    var order := LexicalOrder(less);
    forall a ensures !order(a, a) {
      LexicalIrreflexive(less, a);
    }
    forall a, b, c | order(a, b) && order(b, c) ensures order(a, c) {
      LexicalTransitive(less, a, b, c);
    }
    forall a, b | a != b ensures order(a, b) || order(b, a) {
      LexicalTotal(less, a, b);
    }
  }

  // ----- The one listing of a set -----

  ghost predicate Ascending<T>(s: seq<T>, less: (T, T) -> bool) {
    forall i, j :: 0 <= i < j < |s| ==> less(s[i], s[j])
  }

  /** `s` lists `items` in order. */
  ghost predicate Orders<T(!new)>(s: seq<T>, items: set<T>, less: (T, T) -> bool) {
    Ascending(s, less) && forall x :: x in s <==> x in items
  }

  lemma SameFirst<T(!new)>(s: seq<T>, t: seq<T>, items: set<T>, less: (T, T) -> bool)
    requires StrictOrder(less) && Orders(s, items, less) && Orders(t, items, less) && s != []
    ensures t != [] && s[0] == t[0]
  {
    assert s[0] in t && t[0] in s;
  }

  lemma TailOrders<T(!new)>(s: seq<T>, items: set<T>, less: (T, T) -> bool)
    requires StrictOrder(less) && Orders(s, items, less) && s != []
    ensures Orders(s[1..], items - {s[0]}, less)
  {
    assert s == [s[0]] + s[1..];
    assert s[0] !in s[1..];
  }

  lemma {:induction false} OneOrder<T(!new)>(s: seq<T>, t: seq<T>, items: set<T>, less: (T, T) -> bool)
    requires StrictOrder(less) && Orders(s, items, less) && Orders(t, items, less)
    ensures s == t
    decreases |s|
  {
    if s == [] {
      if t != [] {
        SameFirst(t, s, items, less);
      }
    } else {
      SameFirst(s, t, items, less);
      TailOrders(s, items, less);
      TailOrders(t, items, less);
      OneOrder(s[1..], t[1..], items - {s[0]}, less);
      assert s == [s[0]] + s[1..] && t == [t[0]] + t[1..];
    }
  }

  /** Every nonempty set has a least element. */
  method Least<T(==,!new)>(items: set<T>, less: (T, T) -> bool) returns (least: T)
    requires StrictOrder(less) && items != {}
    ensures least in items && forall x :: x in items && x != least ==> less(least, x)
  {
    least :| least in items;
    var rest := items - {least};
    while rest != {}
      invariant rest <= items && least in items
      invariant forall x :: x in items && x !in rest && x != least ==> less(least, x)
      decreases rest
    {
      var x :| x in rest;
      if less(x, least) {
        least := x;
      }
      rest := rest - {x};
    }
  }

  lemma ExtendOrder<T(!new)>(done: seq<T>, rest: set<T>, items: set<T>, x: T, less: (T, T) -> bool)
    requires Orders(done, items - rest, less) && rest <= items && x in rest
    requires forall y :: y in done ==> less(y, x)
    ensures Orders(done + [x], items - (rest - {x}), less)
  {
  }

  /** The iteration of an ordered set. */
  method List<T(==,!new)>(items: set<T>, less: (T, T) -> bool) returns (s: seq<T>)
    requires StrictOrder(less)
    ensures Orders(s, items, less)
  {
    s := [];
    var rest := items;
    while rest != {}
      invariant rest <= items && Orders(s, items - rest, less)
      invariant forall x, y :: x in s && y in rest ==> less(x, y)
      decreases rest
    {
      var x := Least(rest, less);
      ExtendOrder(s, rest, items, x, less);
      s, rest := s + [x], rest - {x};
    }
  }

  lemma {:induction false} LeastExists<T(!new)>(items: set<T>, less: (T, T) -> bool) returns (least: T)
    requires StrictOrder(less) && items != {}
    ensures least in items && forall x :: x in items && x != least ==> less(least, x)
    decreases |items|
  {
    least :| least in items;
    var rest := items - {least};
    if rest != {} {
      var other := LeastExists(rest, less);
      least := if less(other, least) then other else least;
    }
  }

  lemma {:induction false} OrderExists<T(!new)>(items: set<T>, less: (T, T) -> bool)
    requires StrictOrder(less)
    ensures exists s :: Orders(s, items, less)
    decreases |items|
  {
    if items == {} {
      var none: seq<T> := [];
      assert Orders(none, items, less);
    } else {
      var least := LeastExists(items, less);
      OrderExists(items - {least}, less);
      var rest :| Orders(rest, items - {least}, less);
      var s := [least] + rest;
      assert forall i :: 0 < i < |s| ==> s[i] == rest[i - 1] && s[i] in rest;
      assert Orders(s, items, less);
    }
  }

  /** The listing of `items` in order, of which there is exactly one. */
  ghost function InOrder<T(!new)>(items: set<T>, less: (T, T) -> bool): (s: seq<T>)
    requires StrictOrder(less)
    ensures Orders(s, items, less)
  {
    OrderExists(items, less);
    var s :| Orders(s, items, less);
    s
  }

  lemma ListIsInOrder<T(!new)>(s: seq<T>, items: set<T>, less: (T, T) -> bool)
    requires StrictOrder(less) && Orders(s, items, less)
    ensures s == InOrder(items, less)
  {
    OneOrder(s, InOrder(items, less), items, less);
  }
}
