/** Label sets and matchers. Strings are byte strings compared byte by byte. */
module LabelSets {
  import opened Words
  import opened Wrappers
  import opened Sorting

  type Str = seq<byte>

  /** `std::string` order: lexicographic on unsigned bytes. */
  predicate Less(a: Str, b: Str) {
    if b == [] then false
    else if a == [] then true
    else a[0] < b[0] || (a[0] == b[0] && Less(a[1..], b[1..]))
  }

  /** The first difference between two strings has the smaller byte, or the end, in the first. */
  ghost predicate Precedes(a: Str, b: Str) {
    exists k :: DifferAt(a, b, k)
  }

  ghost predicate DifferAt(a: Str, b: Str, k: nat) {
    k <= |a| && k < |b| && a[..k] == b[..k] && (k == |a| || a[k] < b[k])
  }

  ghost predicate InByteOrder(ss: seq<Str>) {
    forall i, j :: 0 <= i < j < |ss| ==> Precedes(ss[i], ss[j])
  }

  lemma {:induction false} LessMeaning(a: Str, b: Str)
    ensures Less(a, b) <==> Precedes(a, b)
  {
    if a != [] && b != [] {
      LessMeaning(a[1..], b[1..]);
      if k: nat :| DifferAt(a[1..], b[1..], k) {
        if a[0] == b[0] {
          assert a[..k + 1] == [a[0]] + a[1..][..k] && b[..k + 1] == [b[0]] + b[1..][..k];
          assert DifferAt(a, b, k + 1);
        }
      }
      if k: nat :| DifferAt(a, b, k) {
        if k > 0 {
          assert a[0] == a[..k][0] == b[..k][0] == b[0];
          assert a[1..][..k - 1] == a[..k][1..] && b[1..][..k - 1] == b[..k][1..];
          assert DifferAt(a[1..], b[1..], k - 1);
        }
      }
      if a[0] < b[0] {
        assert DifferAt(a, b, 0);
      }
    } else if b != [] {
      assert DifferAt(a, b, 0);
    }
  }

  lemma {:induction false} LessIrreflexive(a: Str)
    ensures !Less(a, a)
  {
    if a != [] {
      LessIrreflexive(a[1..]);
    }
  }

  lemma {:induction false} LessTransitive(a: Str, b: Str, c: Str)
    requires Less(a, b) && Less(b, c)
    ensures Less(a, c)
  {
    if a != [] && a[0] == b[0] == c[0] {
      LessTransitive(a[1..], b[1..], c[1..]);
    }
  }

  lemma {:induction false} LessTotal(a: Str, b: Str)
    ensures Less(a, b) || a == b || Less(b, a)
  {
    if a != [] && b != [] && a[0] == b[0] {
      LessTotal(a[1..], b[1..]);
      assert a == [a[0]] + a[1..] && b == [b[0]] + b[1..];
    }
  }

  lemma LessStrictTotal()
    ensures StrictTotal(Less)
  {
    forall a
      ensures !Less(a, a)
    {
      LessIrreflexive(a);
    }
    forall a, b, c | Less(a, b) && Less(b, c)
      ensures Less(a, c)
    {
      LessTransitive(a, b, c);
    }
    forall a, b
      ensures Less(a, b) || a == b || Less(b, a)
    {
      LessTotal(a, b);
    }
  }

  // ---- Label sets ------------------------------------------------------------

  /** A label: its name is the key, its value the entry. */
  type Label = Entry<Str, Str>

  ghost predicate Canonical(ls: seq<Label>) {
    Ascending(Less, ls)
  }

  type Labels = ls: seq<Label> | Canonical(ls) witness []

  /** Sorting by name and keeping the last value given for each. */
  function Canonicalized(entries: seq<Label>): (ls: Labels) {
    LessStrictTotal();
    CollapseMeaning(Less, entries);
    Collapse(Less, entries)
  }

  method Canonicalize(entries: seq<Label>) returns (ls: Labels)
    ensures ls == Canonicalized(entries)
  {
    var sorted := StableSort(Less, entries);
    LessStrictTotal();
    CollapseMeaning(Less, entries);
    ls := SkipRepeated(sorted);
  }

  /** Canonical label sets are equal exactly when they give the same value to each name, and
      a list means the last value it gives each name. */
  lemma CanonicalMeaning(entries: seq<Label>, ls: Labels)
    ensures ls == Canonicalized(entries) <==> LastWins(ls) == LastWins(entries)
  {
    LessStrictTotal();
    CollapseMeaning(Less, entries);
    if LastWins(ls) == LastWins(entries) {
      AscendingUnique(Less, ls, Canonicalized(entries));
    }
  }

  /** In a label set every name comes byte by byte before every later one. */
  lemma NamesInOrder(ls: Labels, i: nat, j: nat)
    requires i < j < |ls|
    ensures Precedes(ls[i].key, ls[j].key)
  {
    LessMeaning(ls[i].key, ls[j].key);
  }

  lemma CanonicalStays(ls: Labels)
    ensures Canonicalized(ls) == ls
  {
    CanonicalMeaning(ls, ls);
  }

  /** The value of a name, absent names having none. */
  function Get(ls: Labels, name: Str): Option<Str> {
    if name in LastWins(ls) then Some(LastWins(ls)[name]) else None
  }

  /** Absent and empty are the same to a matcher. */
  function ValueOr(ls: Labels, name: Str): Str {
    match Get(ls, name)
    case Some(v) => v
    case None => []
  }

  /** Lookup by binary search for the first name not below the wanted one. */
  method Lookup(ls: Labels, name: Str) returns (r: Option<Str>)
    ensures r == Get(ls, name)
  {
    LessStrictTotal();
    var lo, hi := 0, |ls|;
    while lo < hi
      invariant 0 <= lo <= hi <= |ls|
      invariant forall i :: 0 <= i < lo ==> Less(ls[i].key, name)
      invariant forall i :: hi <= i < |ls| ==> !Less(ls[i].key, name)
    {
      var mid := lo + (hi - lo) / 2;
      if Less(ls[mid].key, name) {
        BelowAll(ls, mid, name);
        lo := mid + 1;
      } else {
        AboveAll(ls, mid, name);
        hi := mid;
      }
    }
    if lo < |ls| && ls[lo].key == name {
      AscendingLookup(Less, ls, lo);
      return Some(ls[lo].val);
    }
    forall i | 0 <= i < |ls|
      ensures ls[i].key != name
    {
      if lo < i {
        assert Less(ls[lo].key, ls[i].key);
      }
    }
    AbsentKey(ls, name);
    return None;
  }

  lemma BelowAll(ls: Labels, mid: nat, name: Str)
    requires mid < |ls| && Less(ls[mid].key, name)
    ensures forall i :: 0 <= i <= mid ==> Less(ls[i].key, name)
  {
    forall i | 0 <= i < mid
      ensures Less(ls[i].key, name)
    {
      LessTransitive(ls[i].key, ls[mid].key, name);
    }
  }

  lemma AboveAll(ls: Labels, mid: nat, name: Str)
    requires mid < |ls| && !Less(ls[mid].key, name)
    ensures forall i :: mid <= i < |ls| ==> !Less(ls[i].key, name)
  {
    forall i | mid < i < |ls|
      ensures !Less(ls[i].key, name)
    {
      if Less(ls[i].key, name) {
        LessTransitive(ls[mid].key, ls[i].key, name);
      }
    }
  }

  // ---- Matchers --------------------------------------------------------------

  /** The regular expression of a matcher is any predicate on values. */
  datatype Matcher =
    | Eq(name: Str, value: Str)
    | Neq(name: Str, value: Str)
    | Re(name: Str, regex: Str -> bool)
    | Nre(name: Str, regex: Str -> bool)

  predicate Matches(m: Matcher, v: Str) {
    match m
    case Eq(_, value) => v == value
    case Neq(_, value) => v != value
    case Re(_, regex) => regex(v)
    case Nre(_, regex) => !regex(v)
  }

  predicate Accepts(m: Matcher, ls: Labels) {
    Matches(m, ValueOr(ls, m.name))
  }

  /** There is a label of this name with a value that passes, or none of this name and the empty
      string passes. */
  ghost predicate SomeValue(ls: Labels, name: Str, passes: Str -> bool) {
    || (exists k :: 0 <= k < |ls| && ls[k].key == name && passes(ls[k].val))
    || ((forall k :: 0 <= k < |ls| ==> ls[k].key != name) && passes([]))
  }

  /** A matcher asks for one value or for any of a language, an absent label counting as empty; the
      negated forms accept exactly what the others refuse. */
  lemma AcceptsMeaning(ls: Labels, name: Str, value: Str, regex: Str -> bool)
    ensures Accepts(Eq(name, value), ls) <==> SomeValue(ls, name, v => v == value)
    ensures Accepts(Neq(name, value), ls) <==> !Accepts(Eq(name, value), ls)
    ensures Accepts(Re(name, regex), ls) <==> SomeValue(ls, name, regex)
    ensures Accepts(Nre(name, regex), ls) <==> !Accepts(Re(name, regex), ls)
  {
    hide LastWins, Less;
    LessStrictTotal();
    if k :| 0 <= k < |ls| && ls[k].key == name {
      AscendingLookup(Less, ls, k);
      forall j | 0 <= j < |ls| && ls[j].key == name
        ensures ls[j].val == ls[k].val
      {
        AscendingLookup(Less, ls, j);
      }
    } else {
      AbsentKey(ls, name);
    }
  }

  predicate AcceptedByAll(ms: seq<Matcher>, ls: Labels) {
    forall i :: 0 <= i < |ms| ==> Accepts(ms[i], ls)
  }

  /** The loop over the matchers, stopping at the first that refuses. */
  method LabelsMatchAll(ls: Labels, ms: seq<Matcher>) returns (ok: bool)
    ensures ok <==> AcceptedByAll(ms, ls)
  {
    for i := 0 to |ms|
      invariant forall k :: 0 <= k < i ==> Accepts(ms[k], ls)
    {
      var v := Lookup(ls, ms[i].name);
      var s := match v case Some(x) => x case None => [];
      if !Matches(ms[i], s) {
        return false;
      }
    }
    return true;
  }
}
