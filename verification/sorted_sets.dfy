/** Sets kept as ascending lists without repetition. */
module SortedSets {
  import opened Sorting

  ghost predicate Ascends<T>(lt: (T, T) -> bool, xs: seq<T>) {
    forall i, j :: 0 <= i < j < |xs| ==> lt(xs[i], xs[j])
  }

  function AsEntries<T>(xs: seq<T>): (es: seq<Entry<T, ()>>)
    ensures |es| == |xs| && forall i :: 0 <= i < |xs| ==> es[i].key == xs[i]
  {
    seq(|xs|, i requires 0 <= i < |xs| => Entry(xs[i], ()))
  }

  function KeysOnly<T>(es: seq<Entry<T, ()>>): (xs: seq<T>)
    ensures |es| == |xs| && forall i :: 0 <= i < |xs| ==> es[i].key == xs[i]
  {
    seq(|es|, i requires 0 <= i < |es| => es[i].key)
  }

  /** `std::sort` and then `std::unique`. */
  function SortUnique<T(==)>(lt: (T, T) -> bool, xs: seq<T>): seq<T> {
    KeysOnly(Collapse(lt, AsEntries(xs)))
  }

  lemma {:induction false} KeyMember<T>(es: seq<Entry<T, ()>>, x: T)
    ensures x in LastWins(es) <==> exists i :: 0 <= i < |es| && es[i].key == x
  {
    if x in LastWins(es) {
      var i := KeysOf(es, x);
    } else {
      forall i | 0 <= i < |es|
        ensures es[i].key != x
      {
        KeyPresent(es, i);
      }
    }
  }

  /** Sorting and removing repetitions keeps the members and leaves them ascending. */
  lemma SortUniqueMeaning<T(!new)>(lt: (T, T) -> bool, xs: seq<T>)
    requires StrictTotal(lt)
    ensures Ascends(lt, SortUnique(lt, xs))
    ensures forall x :: x in SortUnique(lt, xs) <==> x in xs
  {
    hide Collapse, LastWins;
    var es, c := AsEntries(xs), Collapse(lt, AsEntries(xs));
    CollapseMeaning(lt, es);
    forall x
      ensures x in SortUnique(lt, xs) <==> x in xs
    {
      KeyMember(es, x);
      KeyMember(c, x);
      assert x in xs <==> exists i :: 0 <= i < |es| && es[i].key == x;
      assert x in KeysOnly(c) <==> exists i :: 0 <= i < |c| && c[i].key == x;
    }
  }

  /** Members determine an ascending list. */
  lemma {:induction false} AscendsUnique<T(!new)>(lt: (T, T) -> bool, xs: seq<T>, ys: seq<T>)
    requires StrictTotal(lt) && Ascends(lt, xs) && Ascends(lt, ys)
    requires forall x :: x in xs <==> x in ys
    ensures xs == ys
  {
    hide LastWins;
    var a, b := AsEntries(xs), AsEntries(ys);
    forall x
      ensures x in LastWins(a) <==> x in LastWins(b)
    {
      KeyMember(a, x);
      KeyMember(b, x);
      assert x in xs <==> exists i :: 0 <= i < |a| && a[i].key == x;
      assert x in ys <==> exists i :: 0 <= i < |b| && b[i].key == x;
    }
    forall x | x in LastWins(a)
      ensures LastWins(a)[x] == LastWins(b)[x]
    {
      assert LastWins(a)[x] == () == LastWins(b)[x];
    }
    AscendingUnique(lt, a, b);
    assert KeysOnly(a) == xs && KeysOnly(b) == ys;
  }

  // ---- Identifiers -----------------------------------------------------------

  predicate Below(a: nat, b: nat) {
    a < b
  }

  lemma BelowStrictTotal()
    ensures StrictTotal(Below)
  {
  }

  /** `std::set_intersection`. */
  function Intersection(a: seq<nat>, b: seq<nat>): seq<nat>
    decreases |a| + |b|
  {
    if a == [] || b == [] then []
    else if a[0] < b[0] then Intersection(a[1..], b)
    else if b[0] < a[0] then Intersection(a, b[1..])
    else [a[0]] + Intersection(a[1..], b[1..])
  }

  /** `std::set_difference`. */
  function Difference(a: seq<nat>, b: seq<nat>): seq<nat>
    decreases |a| + |b|
  {
    if a == [] then []
    else if b == [] then a
    else if a[0] < b[0] then [a[0]] + Difference(a[1..], b)
    else if b[0] < a[0] then Difference(a, b[1..])
    else Difference(a[1..], b[1..])
  }

  lemma AscendsTail(a: seq<nat>)
    requires Ascends(Below, a) && a != []
    ensures Ascends(Below, a[1..]) && forall x :: x in a[1..] ==> a[0] < x
    ensures forall x :: x in a <==> x == a[0] || x in a[1..]
  {
    assert a == [a[0]] + a[1..];
    forall x | x in a[1..]
      ensures a[0] < x
    {
      var i :| 0 <= i < |a[1..]| && a[1..][i] == x;
      assert Below(a[0], a[i + 1]);
    }
  }

  lemma AscendsCons(x: nat, a: seq<nat>)
    requires Ascends(Below, a) && forall y :: y in a ==> x < y
    ensures Ascends(Below, [x] + a)
  {
    var r := [x] + a;
    forall i, j | 0 <= i < j < |r|
      ensures Below(r[i], r[j])
    {
      assert r[j] in a;
    }
  }

  lemma {:induction false} IntersectionMeaning(a: seq<nat>, b: seq<nat>)
    requires Ascends(Below, a) && Ascends(Below, b)
    ensures Ascends(Below, Intersection(a, b))
    ensures forall x :: x in Intersection(a, b) <==> x in a && x in b
    decreases |a| + |b|
  {
    if a != [] && b != [] {
      AscendsTail(a);
      AscendsTail(b);
      if a[0] < b[0] {
        IntersectionMeaning(a[1..], b);
      } else if b[0] < a[0] {
        IntersectionMeaning(a, b[1..]);
      } else {
        IntersectionMeaning(a[1..], b[1..]);
        AscendsCons(a[0], Intersection(a[1..], b[1..]));
      }
    }
  }

  lemma {:induction false} DifferenceMeaning(a: seq<nat>, b: seq<nat>)
    requires Ascends(Below, a) && Ascends(Below, b)
    ensures Ascends(Below, Difference(a, b))
    ensures forall x :: x in Difference(a, b) <==> x in a && x !in b
    decreases |a| + |b|
  {
    if a != [] && b != [] {
      AscendsTail(a);
      AscendsTail(b);
      if a[0] < b[0] {
        DifferenceMeaning(a[1..], b);
        AscendsCons(a[0], Difference(a[1..], b));
      } else if b[0] < a[0] {
        DifferenceMeaning(a, b[1..]);
      } else {
        DifferenceMeaning(a[1..], b[1..]);
      }
    }
  }
}
