/** Stable sorting by key and collapsing runs of equal keys to their last element. */
module Sorting {
  datatype Entry<K, V> = Entry(key: K, val: V)

  ghost predicate StrictTotal<K(!new)>(lt: (K, K) -> bool) {
    && (forall a :: !lt(a, a))
    && (forall a, b, c :: lt(a, b) && lt(b, c) ==> lt(a, c))
    && (forall a, b :: lt(a, b) || a == b || lt(b, a))
  }

  ghost predicate Sorted<K, V>(lt: (K, K) -> bool, xs: seq<Entry<K, V>>) {
    forall i, j :: 0 <= i < j < |xs| ==> !lt(xs[j].key, xs[i].key)
  }

  ghost predicate Ascending<K, V>(lt: (K, K) -> bool, xs: seq<Entry<K, V>>) {
    forall i, j :: 0 <= i < j < |xs| ==> lt(xs[i].key, xs[j].key)
  }

  /** Places `x` after every entry whose key is not greater. */
  function Insert<K, V>(lt: (K, K) -> bool, xs: seq<Entry<K, V>>, x: Entry<K, V>): (r: seq<Entry<K, V>>)
    ensures |r| == |xs| + 1
  {
    if xs == [] || !lt(x.key, xs[|xs| - 1].key) then xs + [x]
    else Insert(lt, xs[..|xs| - 1], x) + [xs[|xs| - 1]]
  }

  /** `std::stable_sort` by key: entries enter in order, each behind its equals. */
  function StableSort<K, V>(lt: (K, K) -> bool, xs: seq<Entry<K, V>>): (r: seq<Entry<K, V>>)
    ensures |r| == |xs|
  {
    if xs == [] then [] else Insert(lt, StableSort(lt, xs[..|xs| - 1]), xs[|xs| - 1])
  }

  /** The last entry of every run of equal keys. */
  function KeepLast<K(==), V>(xs: seq<Entry<K, V>>): (r: seq<Entry<K, V>>)
    ensures |r| <= |xs|
  {
    if xs == [] then []
    else if |xs| >= 2 && xs[0].key == xs[1].key then KeepLast(xs[1..])
    else [xs[0]] + KeepLast(xs[1..])
  }

  /** Each key with the value of its last occurrence. */
  function LastWins<K, V>(xs: seq<Entry<K, V>>): map<K, V> {
    if xs == [] then map[] else LastWins(xs[..|xs| - 1])[xs[|xs| - 1].key := xs[|xs| - 1].val]
  }

  // ---- Sorting ---------------------------------------------------------------

  lemma {:induction false} InsertMember<K, V>(lt: (K, K) -> bool, xs: seq<Entry<K, V>>, x: Entry<K, V>)
    ensures multiset(Insert(lt, xs, x)) == multiset(xs) + multiset{x}
  {
    if xs != [] {
      assert xs == xs[..|xs| - 1] + [xs[|xs| - 1]];
      InsertMember(lt, xs[..|xs| - 1], x);
    }
  }

  lemma SortedSnoc<K(!new), V>(lt: (K, K) -> bool, xs: seq<Entry<K, V>>, x: Entry<K, V>)
    requires Sorted(lt, xs) && forall i :: 0 <= i < |xs| ==> !lt(x.key, xs[i].key)
    ensures Sorted(lt, xs + [x])
  {
  }

  /** In a sorted list no key is above the last one. */
  lemma LastIsTop<K(!new), V>(lt: (K, K) -> bool, xs: seq<Entry<K, V>>, k: K)
    requires StrictTotal(lt) && Sorted(lt, xs) && xs != [] && !lt(k, xs[|xs| - 1].key)
    ensures forall i :: 0 <= i < |xs| ==> !lt(k, xs[i].key)
  {
    forall i | 0 <= i < |xs|
      ensures !lt(k, xs[i].key)
    {
      if i < |xs| - 1 {
        assert !lt(xs[|xs| - 1].key, xs[i].key);
      }
    }
  }

  lemma {:induction false} InsertSorted<K(!new), V>(lt: (K, K) -> bool, xs: seq<Entry<K, V>>, x: Entry<K, V>)
    requires StrictTotal(lt) && Sorted(lt, xs)
    ensures Sorted(lt, Insert(lt, xs, x))
  {
    if xs == [] || !lt(x.key, xs[|xs| - 1].key) {
      if xs != [] {
        LastIsTop(lt, xs, x.key);
      }
      SortedSnoc(lt, xs, x);
    } else {
      var init, last := xs[..|xs| - 1], xs[|xs| - 1];
      var r := Insert(lt, init, x);
      InsertSorted(lt, init, x);
      forall i | 0 <= i < |r|
        ensures !lt(last.key, r[i].key)
      {
        InsertedMember(lt, init, x, i);
      }
      SortedSnoc(lt, r, last);
    }
  }

  lemma InsertedMember<K(!new), V>(lt: (K, K) -> bool, xs: seq<Entry<K, V>>, x: Entry<K, V>, i: nat)
    requires i < |Insert(lt, xs, x)|
    ensures Insert(lt, xs, x)[i] == x || Insert(lt, xs, x)[i] in xs
  {
    InsertMember(lt, xs, x);
    assert Insert(lt, xs, x)[i] in multiset(xs) + multiset{x};
  }

  lemma {:induction false} StableSortSorted<K(!new), V>(lt: (K, K) -> bool, xs: seq<Entry<K, V>>)
    requires StrictTotal(lt)
    ensures Sorted(lt, StableSort(lt, xs))
    ensures multiset(StableSort(lt, xs)) == multiset(xs)
  {
    if xs != [] {
      var init, x := xs[..|xs| - 1], xs[|xs| - 1];
      assert xs == init + [x];
      StableSortSorted(lt, init);
      InsertSorted(lt, StableSort(lt, init), x);
      InsertMember(lt, StableSort(lt, init), x);
    }
  }

  // ---- Last occurrence wins --------------------------------------------------

  lemma LastWinsSnoc<K, V>(xs: seq<Entry<K, V>>, x: Entry<K, V>)
    ensures LastWins(xs + [x]) == LastWins(xs)[x.key := x.val]
  {
    assert (xs + [x])[..|xs|] == xs;
  }

  /** A list means the value at the last place of each key. */
  lemma {:induction false} LastWinsMeaning<K, V>(xs: seq<Entry<K, V>>, i: nat)
    requires i < |xs| && forall j :: i < j < |xs| ==> xs[j].key != xs[i].key
    ensures xs[i].key in LastWins(xs) && LastWins(xs)[xs[i].key] == xs[i].val
    decreases |xs|
  {
    if i < |xs| - 1 {
      assert forall j :: i < j < |xs| - 1 ==> xs[..|xs| - 1][j] == xs[j];
      LastWinsMeaning(xs[..|xs| - 1], i);
    }
  }

  lemma {:induction false} LastWinsConcat<K, V>(xs: seq<Entry<K, V>>, ys: seq<Entry<K, V>>)
    ensures LastWins(xs + ys) == LastWins(xs) + LastWins(ys)
    decreases |ys|
  {
    if ys == [] {
      assert xs + ys == xs;
    } else {
      var init, y := ys[..|ys| - 1], ys[|ys| - 1];
      assert xs + ys == (xs + init) + [y];
      LastWinsConcat(xs, init);
      LastWinsSnoc(xs + init, y);
    }
  }

  lemma {:induction false} LastWinsInsert<K(!new), V>(lt: (K, K) -> bool, xs: seq<Entry<K, V>>, x: Entry<K, V>)
    requires StrictTotal(lt)
    ensures LastWins(Insert(lt, xs, x)) == LastWins(xs)[x.key := x.val]
  {
    if xs == [] || !lt(x.key, xs[|xs| - 1].key) {
      LastWinsSnoc(xs, x);
    } else {
      var init, last := xs[..|xs| - 1], xs[|xs| - 1];
      LastWinsInsert(lt, init, x);
      LastWinsSnoc(Insert(lt, init, x), last);
      assert x.key != last.key;
    }
  }

  /** Stable sorting does not change which value is last for a key. */
  lemma {:induction false} StableSortLastWins<K(!new), V>(lt: (K, K) -> bool, xs: seq<Entry<K, V>>)
    requires StrictTotal(lt)
    ensures LastWins(StableSort(lt, xs)) == LastWins(xs)
  {
    if xs != [] {
      StableSortLastWins(lt, xs[..|xs| - 1]);
      LastWinsInsert(lt, StableSort(lt, xs[..|xs| - 1]), xs[|xs| - 1]);
    }
  }

  lemma LastWinsCons<K, V>(x: Entry<K, V>, xs: seq<Entry<K, V>>)
    ensures LastWins([x] + xs) == map[x.key := x.val] + LastWins(xs)
  {
    LastWinsConcat([x], xs);
    assert [x][..0] == [];
  }

  /** Collapsing keeps the meaning and leaves keys strictly ascending. */
  lemma {:induction false} KeepLastMeaning<K(!new), V>(lt: (K, K) -> bool, xs: seq<Entry<K, V>>)
    requires StrictTotal(lt) && Sorted(lt, xs)
    ensures Ascending(lt, KeepLast(xs))
    ensures LastWins(KeepLast(xs)) == LastWins(xs)
    ensures xs != [] ==> KeepLast(xs) != [] && KeepLast(xs)[0].key == xs[0].key
    decreases |xs|
  {
    if xs != [] {
      var x, rest := xs[0], xs[1..];
      assert xs == [x] + rest;
      KeepLastMeaning(lt, rest);
      LastWinsCons(x, rest);
      if rest != [] && x.key == rest[0].key {
        KeyPresent(rest, 0);
      } else {
        LastWinsCons(x, KeepLast(rest));
        AscendingCons(lt, x, KeepLast(rest));
      }
    }
  }

  lemma {:induction false} KeyPresent<K, V>(xs: seq<Entry<K, V>>, i: nat)
    requires i < |xs|
    ensures xs[i].key in LastWins(xs)
  {
    if i < |xs| - 1 {
      KeyPresent(xs[..|xs| - 1], i);
    }
  }

  lemma AscendingCons<K(!new), V>(lt: (K, K) -> bool, x: Entry<K, V>, ys: seq<Entry<K, V>>)
    requires StrictTotal(lt) && Ascending(lt, ys)
    requires ys != [] ==> lt(x.key, ys[0].key)
    ensures Ascending(lt, [x] + ys)
  {
    var r := [x] + ys;
    forall i, j | 0 <= i < j < |r|
      ensures lt(r[i].key, r[j].key)
    {
      if i == 0 && j > 1 {
        assert lt(ys[0].key, ys[j - 1].key);
      }
    }
  }

  /** The whole collapse: sort stably, keep the last of each run. */
  function Collapse<K(==), V>(lt: (K, K) -> bool, xs: seq<Entry<K, V>>): seq<Entry<K, V>> {
    KeepLast(StableSort(lt, xs))
  }

  lemma CollapseMeaning<K(!new), V>(lt: (K, K) -> bool, xs: seq<Entry<K, V>>)
    requires StrictTotal(lt)
    ensures Ascending(lt, Collapse(lt, xs))
    ensures LastWins(Collapse(lt, xs)) == LastWins(xs)
  {
    hide KeepLast, StableSort, LastWins;
    StableSortSorted(lt, xs);
    StableSortLastWins(lt, xs);
    KeepLastMeaning(lt, StableSort(lt, xs));
  }

  // ---- Ascending sequences are determined by their meaning -------------------

  lemma {:induction false} AscendingLookup<K(!new), V>(lt: (K, K) -> bool, xs: seq<Entry<K, V>>, i: nat)
    requires StrictTotal(lt) && Ascending(lt, xs) && i < |xs|
    ensures xs[i].key in LastWins(xs) && LastWins(xs)[xs[i].key] == xs[i].val
  {
    if i < |xs| - 1 {
      AscendingLookup(lt, xs[..|xs| - 1], i);
    }
  }

  lemma {:induction false} KeysOf<K, V>(xs: seq<Entry<K, V>>, k: K) returns (i: nat)
    requires k in LastWins(xs)
    ensures i < |xs| && xs[i].key == k
  {
    if xs[|xs| - 1].key == k {
      i := |xs| - 1;
    } else {
      i := KeysOf(xs[..|xs| - 1], k);
    }
  }

  lemma {:induction false} AbsentKey<K, V>(xs: seq<Entry<K, V>>, k: K)
    requires forall i :: 0 <= i < |xs| ==> xs[i].key != k
    ensures k !in LastWins(xs)
  {
    if xs != [] {
      AbsentKey(xs[..|xs| - 1], k);
    }
  }

  lemma {:induction false} AscendingUnique<K(!new), V>(lt: (K, K) -> bool, xs: seq<Entry<K, V>>, ys: seq<Entry<K, V>>)
    requires StrictTotal(lt) && Ascending(lt, xs) && Ascending(lt, ys)
    requires LastWins(xs) == LastWins(ys)
    ensures xs == ys
    decreases |xs|
  {
    if xs == [] {
      if ys != [] {
        KeyPresent(ys, 0);
      }
    } else {
      KeyPresent(xs, |xs| - 1);
      var x, y := xs[|xs| - 1], ys[|ys| - 1];
      LastKeyAtMost(lt, xs, ys);
      LastKeyAtMost(lt, ys, xs);
      assert x.key == y.key;
      AscendingLookup(lt, xs, |xs| - 1);
      AscendingLookup(lt, ys, |ys| - 1);
      WithoutLast(lt, xs);
      WithoutLast(lt, ys);
      AscendingUnique(lt, xs[..|xs| - 1], ys[..|ys| - 1]);
      assert xs == xs[..|xs| - 1] + [x] && ys == ys[..|ys| - 1] + [y];
    }
  }

  lemma LastKeyAtMost<K(!new), V>(lt: (K, K) -> bool, xs: seq<Entry<K, V>>, ys: seq<Entry<K, V>>)
    requires StrictTotal(lt) && Ascending(lt, ys)
    requires LastWins(xs) == LastWins(ys) && xs != []
    ensures ys != [] && !lt(ys[|ys| - 1].key, xs[|xs| - 1].key)
  {
    KeyPresent(xs, |xs| - 1);
    var j := KeysOf(ys, xs[|xs| - 1].key);
    if j < |ys| - 1 {
      assert lt(ys[j].key, ys[|ys| - 1].key);
    }
  }

  lemma WithoutLast<K(!new), V>(lt: (K, K) -> bool, xs: seq<Entry<K, V>>)
    requires StrictTotal(lt) && Ascending(lt, xs) && xs != []
    ensures LastWins(xs[..|xs| - 1]) == LastWins(xs) - {xs[|xs| - 1].key}
  {
    AbsentKey(xs[..|xs| - 1], xs[|xs| - 1].key);
  }

  /** Collapsing what is already ascending changes nothing. */
  lemma CollapseIdempotent<K(!new), V>(lt: (K, K) -> bool, xs: seq<Entry<K, V>>)
    requires StrictTotal(lt) && Ascending(lt, xs)
    ensures Collapse(lt, xs) == xs
  {
    CollapseMeaning(lt, xs);
    AscendingUnique(lt, Collapse(lt, xs), xs);
  }

  // ---- The source's loops ----------------------------------------------------

  /** The deduplication loop: an entry is skipped when its successor has the same key. */
  method SkipRepeated<K(==), V>(xs: seq<Entry<K, V>>) returns (out: seq<Entry<K, V>>)
    ensures out == KeepLast(xs)
  {
    out := [];
    for i := 0 to |xs|
      invariant out + KeepLast(xs[i..]) == KeepLast(xs)
    {
      var rest := xs[i..];
      assert rest[1..] == xs[i + 1..];
      if i + 1 < |xs| && xs[i].key == xs[i + 1].key {
        continue;
      }
      out := out + [xs[i]];
    }
  }

  lemma {:induction false} SkipRun<K, V>(xs: seq<Entry<K, V>>, i: nat, j: nat)
    requires i <= j < |xs| && forall k :: i <= k <= j ==> xs[k].key == xs[i].key
    ensures KeepLast(xs[i..]) == KeepLast(xs[j..])
    decreases j - i
  {
    if i < j {
      assert xs[i..][1..] == xs[i + 1..];
      SkipRun(xs, i + 1, j);
    }
  }

  /** The other form of the same loop: find the end of each run and keep what is there. */
  method KeepRunEnds<K(==), V>(xs: seq<Entry<K, V>>) returns (out: seq<Entry<K, V>>)
    ensures out == KeepLast(xs)
  {
    out := [];
    var i := 0;
    while i < |xs|
      invariant i <= |xs| && out + KeepLast(xs[i..]) == KeepLast(xs)
    {
      var j := i;
      while j + 1 < |xs| && xs[j + 1].key == xs[i].key
        invariant i <= j < |xs| && forall k :: i <= k <= j ==> xs[k].key == xs[i].key
      {
        j := j + 1;
      }
      SkipRun(xs, i, j);
      assert xs[j..][1..] == xs[j + 1..];
      out := out + [xs[j]];
      i := j + 1;
    }
  }
}
