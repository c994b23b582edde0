/** Resolving matchers on an index by posting lists. */
module PostingAlgebra {
  import opened Words
  import opened Wrappers
  import opened Sorting
  import opened SortedSets
  import opened LabelSets
  import opened IndexFormat
  import opened IndexFiles
  import opened IndexReaders

  // ---- Rows and what can be asked of them ------------------------------------

  /** One series of a block: its identifier and its labels. */
  datatype Row = Row(id: nat, labels: Labels)

  type Pairs = seq<(Str, Str)>

  /** Tests that go by the table of an index carry its pairs. */
  datatype Test =
    | Pair(name: Str, value: Str)
    | Keyed(ps: Pairs, name: Str, value: Str)
    | HasName(name: Str)
    | Labelled
    | Lacks(name: Str)
    | RegexOn(ps: Pairs, name: Str, regex: Str -> bool)
    | ByBlock(ps: Pairs, m: Matcher)
    | ByAll(ps: Pairs, ms: seq<Matcher>)

  predicate HasLabel(ls: Labels, name: Str, value: Str) {
    Get(ls, name) == Some(value)
  }

  /** The series has the pair that stands for this one in the table. */
  predicate Finds(ps: Pairs, ls: Labels, name: Str, value: Str) {
    match Standing(ps, name, value) case None => false case Some(p) => HasLabel(ls, p.0, p.1)
  }

  /** The series is found by a listed value that the expression accepts, or lacks the label when it
      accepts the empty string. */
  predicate RegexFinds(ps: Pairs, ls: Labels, name: Str, regex: Str -> bool) {
    || (regex([]) && Get(ls, name).None?)
    || exists j :: 0 <= j < |ps| && ps[j].0 == name && regex(ps[j].1) && Finds(ps, ls, name, ps[j].1)
  }

  /** What a block makes of a matcher: with an empty value, `Eq` asks for the absence of the label
      and `Neq` for its presence; all else goes by pairs of the table. */
  predicate BlockAccepts(ps: Pairs, m: Matcher, ls: Labels) {
    match m
    case Eq(n, v) => if v == [] then Get(ls, n).None? else Finds(ps, ls, n, v)
    case Neq(n, v) => if v == [] then Get(ls, n).Some? else !Finds(ps, ls, n, v)
    case Re(n, r) => RegexFinds(ps, ls, n, r)
    case Nre(n, r) => !RegexFinds(ps, ls, n, r)
  }

  predicate Holds(t: Test, ls: Labels) {
    match t
    case Pair(n, v) => Get(ls, n) == Some(v)
    case Keyed(ps, n, v) => Finds(ps, ls, n, v)
    case HasName(n) => Get(ls, n).Some?
    case Labelled => ls != []
    case Lacks(n) => ls != [] && Get(ls, n).None?
    case RegexOn(ps, n, r) => ls != [] && RegexFinds(ps, ls, n, r)
    case ByBlock(ps, m) => ls != [] && BlockAccepts(ps, m, ls)
    case ByAll(ps, ms) => ls != [] && forall i :: 0 <= i < |ms| ==> BlockAccepts(ps, ms[i], ls)
  }

  /** The identifiers of the rows that pass a test, in order. */
  function IdsOf(rows: seq<Row>, t: Test): seq<nat> {
    if rows == [] then []
    else IdsOf(rows[..|rows| - 1], t) + (if Holds(t, rows[|rows| - 1].labels) then [rows[|rows| - 1].id] else [])
  }

  ghost predicate RowsAscend(rows: seq<Row>) {
    forall i, j :: 0 <= i < j < |rows| ==> rows[i].id < rows[j].id
  }

  ghost predicate Passes(rows: seq<Row>, t: Test, x: nat) {
    exists i :: 0 <= i < |rows| && rows[i].id == x && Holds(t, rows[i].labels)
  }

  lemma {:induction false} IdsMembers(rows: seq<Row>, t: Test)
    requires RowsAscend(rows)
    ensures Ascends(Below, IdsOf(rows, t))
    ensures forall x :: x in IdsOf(rows, t) <==> Passes(rows, t, x)
  {
    hide Holds;
    if rows != [] {
      var init, last := rows[..|rows| - 1], rows[|rows| - 1];
      IdsMembers(init, t);
      forall x
        ensures Passes(rows, t, x) <==> Passes(init, t, x) || (x == last.id && Holds(t, last.labels))
      {
        PassesSnoc(rows, t, x);
      }
      forall x | x in IdsOf(init, t)
        ensures x < last.id
      {
        assert Passes(init, t, x);
      }
      AscendsSnoc(IdsOf(init, t), last.id);
    }
  }

  lemma PassesSnoc(rows: seq<Row>, t: Test, x: nat)
    requires rows != []
    ensures var init, last := rows[..|rows| - 1], rows[|rows| - 1];
      Passes(rows, t, x) <==> Passes(init, t, x) || (x == last.id && Holds(t, last.labels))
  {
    hide Holds;
    var init, last := rows[..|rows| - 1], rows[|rows| - 1];
    if Passes(init, t, x) {
      var i :| 0 <= i < |init| && init[i].id == x && Holds(t, init[i].labels);
      assert rows[i] == init[i];
    }
    if x == last.id && Holds(t, last.labels) {
      assert rows[|rows| - 1] == last;
    }
  }

  lemma AscendsSnoc(xs: seq<nat>, x: nat)
    requires Ascends(Below, xs) && forall y :: y in xs ==> y < x
    ensures Ascends(Below, xs + [x])
  {
    var r := xs + [x];
    forall i, j | 0 <= i < j < |r|
      ensures Below(r[i], r[j])
    {
      assert r[i] in xs;
    }
  }

  /** An identifier belongs to one row. */
  lemma OneRow(rows: seq<Row>, t: Test, i: nat)
    requires RowsAscend(rows) && i < |rows|
    ensures Passes(rows, t, rows[i].id) <==> Holds(t, rows[i].labels)
  {
    hide Holds;
    if Passes(rows, t, rows[i].id) {
      var k :| 0 <= k < |rows| && rows[k].id == rows[i].id && Holds(t, rows[k].labels);
      assert k < i || i < k || k == i;
    }
  }

  /** An ascending list with the right members is the list of a test. */
  lemma IdsAre(rows: seq<Row>, t: Test, ids: seq<nat>)
    requires RowsAscend(rows) && Ascends(Below, ids)
    requires forall x :: x in ids <==> Passes(rows, t, x)
    ensures ids == IdsOf(rows, t)
  {
    hide Holds, Passes;
    IdsMembers(rows, t);
    BelowStrictTotal();
    AscendsUnique(Below, ids, IdsOf(rows, t));
  }

  lemma SortedIdsAre(rows: seq<Row>, t: Test, ids: seq<nat>)
    requires RowsAscend(rows)
    requires forall x :: x in ids <==> Passes(rows, t, x)
    ensures SortUnique(Below, ids) == IdsOf(rows, t)
  {
    hide Holds, Passes, SortUnique;
    BelowStrictTotal();
    SortUniqueMeaning(Below, ids);
    IdsAre(rows, t, SortUnique(Below, ids));
  }

  lemma DifferenceOf(rows: seq<Row>, s: Test, t: Test, u: Test)
    requires RowsAscend(rows)
    requires forall i :: 0 <= i < |rows| ==> (Holds(u, rows[i].labels) <==> Holds(s, rows[i].labels) && !Holds(t, rows[i].labels))
    ensures Difference(IdsOf(rows, s), IdsOf(rows, t)) == IdsOf(rows, u)
  {
    hide Holds;
    IdsMembers(rows, s);
    IdsMembers(rows, t);
    DifferenceMeaning(IdsOf(rows, s), IdsOf(rows, t));
    forall x
      ensures Passes(rows, u, x) <==> Passes(rows, s, x) && !Passes(rows, t, x)
    {
      if i :| 0 <= i < |rows| && rows[i].id == x {
        OneRow(rows, s, i);
        OneRow(rows, t, i);
        OneRow(rows, u, i);
      }
    }
    IdsAre(rows, u, Difference(IdsOf(rows, s), IdsOf(rows, t)));
  }

  lemma IntersectionOf(rows: seq<Row>, s: Test, t: Test, u: Test)
    requires RowsAscend(rows)
    requires forall i :: 0 <= i < |rows| ==> (Holds(u, rows[i].labels) <==> Holds(s, rows[i].labels) && Holds(t, rows[i].labels))
    ensures Intersection(IdsOf(rows, s), IdsOf(rows, t)) == IdsOf(rows, u)
  {
    hide Holds;
    IdsMembers(rows, s);
    IdsMembers(rows, t);
    IntersectionMeaning(IdsOf(rows, s), IdsOf(rows, t));
    forall x
      ensures Passes(rows, u, x) <==> Passes(rows, s, x) && Passes(rows, t, x)
    {
      if i :| 0 <= i < |rows| && rows[i].id == x {
        OneRow(rows, s, i);
        OneRow(rows, t, i);
        OneRow(rows, u, i);
      }
    }
    IdsAre(rows, u, Intersection(IdsOf(rows, s), IdsOf(rows, t)));
  }

  lemma {:induction false} SameIds(rows: seq<Row>, s: Test, t: Test)
    requires forall i :: 0 <= i < |rows| ==> (Holds(s, rows[i].labels) <==> Holds(t, rows[i].labels))
    ensures IdsOf(rows, s) == IdsOf(rows, t)
  {
    hide Holds;
    if rows != [] {
      SameIds(rows[..|rows| - 1], s, t);
    }
  }

  // ---- An index that holds the posting lists of its rows ---------------------

  ghost predicate HasEntry(es: seq<TableEntry>, name: Str, value: Str) {
    exists j :: 0 <= j < |es| && es[j].name == name && es[j].value == value
  }

  ghost predicate Represents(x: Index, rows: seq<Row>) {
    && RowsAscend(rows)
    && (forall j :: 0 <= j < |x.table| ==> Readable(x, rows, x.table[j]))
    && (forall i :: 0 <= i < |rows| ==> AllListed(x.table, rows[i].labels))
  }

  /** The list of an entry is exactly the rows with that label. */
  ghost predicate Readable(x: Index, rows: seq<Row>, e: TableEntry) {
    ReadPostingList(x.file, e.offset) == Ok(IdsOf(rows, Pair(e.name, e.value)))
  }

  ghost predicate AllListed(es: seq<TableEntry>, ls: Labels) {
    forall k :: 0 <= k < |ls| ==> HasEntry(es, ls[k].key, ls[k].val)
  }

  lemma LabelValue(ls: Labels, k: nat)
    requires k < |ls|
    ensures Get(ls, ls[k].key) == Some(ls[k].val)
  {
    LessStrictTotal();
    AscendingLookup(Less, ls, k);
  }

  lemma LabelThere(ls: Labels, n: Str) returns (k: nat)
    requires Get(ls, n).Some?
    ensures k < |ls| && ls[k].key == n && Some(ls[k].val) == Get(ls, n)
  {
    k := KeysOf(ls, n);
    LabelValue(ls, k);
  }

  /** The union of the lists of some entries. */
  lemma {:induction false} CollectedMembers(x: Index, rows: seq<Row>, es: seq<TableEntry>)
    requires RowsAscend(rows) && forall j :: 0 <= j < |es| ==> Readable(x, rows, es[j])
    ensures Collected(x.file, es).Ok?
    ensures forall id :: id in Collected(x.file, es).value <==>
      exists j :: 0 <= j < |es| && Passes(rows, Pair(es[j].name, es[j].value), id)
  {
    hide Holds, Passes, ReadPostingList;
    if es != [] {
      var init, e := es[..|es| - 1], es[|es| - 1];
      CollectedMembers(x, rows, init);
      assert Readable(x, rows, e);
      IdsMembers(rows, Pair(e.name, e.value));
      var ids := Collected(x.file, init).value;
      assert Collected(x.file, es).value == ids + IdsOf(rows, Pair(e.name, e.value));
      forall id
        ensures (exists j :: 0 <= j < |es| && Passes(rows, Pair(es[j].name, es[j].value), id)) <==>
          id in ids || Passes(rows, Pair(e.name, e.value), id)
      {
        if j :| 0 <= j < |es| && Passes(rows, Pair(es[j].name, es[j].value), id) {
          assert j < |init| ==> init[j] == es[j];
        }
        if j :| 0 <= j < |init| && Passes(rows, Pair(init[j].name, init[j].value), id) {
          assert init[j] == es[j];
        }
        if Passes(rows, Pair(e.name, e.value), id) {
          assert es[|es| - 1] == e;
        }
      }
    }
  }

  /** Every series that has a label is in some list. */
  lemma AllIds(x: Index, rows: seq<Row>)
    requires Represents(x, rows)
    ensures Uniquely(Collected(x.file, x.table)) == Ok(IdsOf(rows, Labelled))
  {
    hide Get, SortUnique, Collected, ReadPostingList;
    CollectedMembers(x, rows, x.table);
    var ids := Collected(x.file, x.table).value;
    forall id
      ensures id in ids <==> Passes(rows, Labelled, id)
    {
      if id in ids {
        var j :| 0 <= j < |x.table| && Passes(rows, Pair(x.table[j].name, x.table[j].value), id);
        var i :| 0 <= i < |rows| && rows[i].id == id && Holds(Pair(x.table[j].name, x.table[j].value), rows[i].labels);
        var k := LabelThere(rows[i].labels, x.table[j].name);
        assert Holds(Labelled, rows[i].labels);
      }
      if Passes(rows, Labelled, id) {
        var i :| 0 <= i < |rows| && rows[i].id == id && Holds(Labelled, rows[i].labels);
        LabelValue(rows[i].labels, 0);
        assert AllListed(x.table, rows[i].labels);
        var l := rows[i].labels[0];
        var j :| 0 <= j < |x.table| && x.table[j].name == l.key && x.table[j].value == l.val;
        assert Holds(Pair(x.table[j].name, x.table[j].value), rows[i].labels);
        assert Passes(rows, Pair(x.table[j].name, x.table[j].value), id);
      }
    }
    SortedIdsAre(rows, Labelled, ids);
  }

  /** The entry for the value a series has under a name. */
  lemma EntryOfName(x: Index, rows: seq<Row>, name: Str, i: nat) returns (q: nat)
    requires Represents(x, rows) && i < |rows| && Get(rows[i].labels, name).Some?
    ensures q < |Named(x.table, name)| && Named(x.table, name)[q].name == name
    ensures Some(Named(x.table, name)[q].value) == Get(rows[i].labels, name)
  {
    hide Get, Named, Readable, RowsAscend;
    var k := LabelThere(rows[i].labels, name);
    assert AllListed(x.table, rows[i].labels);
    assert HasEntry(x.table, rows[i].labels[k].key, rows[i].labels[k].val);
    var j :| 0 <= j < |x.table| && x.table[j].name == name && x.table[j].value == rows[i].labels[k].val;
    NamedMembers(x.table, name);
    assert x.table[j] in Named(x.table, name);
    q :| 0 <= q < |Named(x.table, name)| && Named(x.table, name)[q] == x.table[j];
  }

  /** The lists of a name together are the series that have it. */
  lemma NameIds(x: Index, rows: seq<Row>, name: Str)
    requires Represents(x, rows)
    ensures Uniquely(Collected(x.file, Named(x.table, name))) == Ok(IdsOf(rows, HasName(name)))
  {
    hide Get, SortUnique, Collected, ReadPostingList, Named;
    var es := Named(x.table, name);
    NamedMembers(x.table, name);
    forall j | 0 <= j < |es|
      ensures Readable(x, rows, es[j]) && es[j].name == name
    {
      assert es[j] in x.table;
    }
    CollectedMembers(x, rows, es);
    var ids := Collected(x.file, es).value;
    forall id
      ensures id in ids <==> Passes(rows, HasName(name), id)
    {
      if id in ids {
        var j :| 0 <= j < |es| && Passes(rows, Pair(es[j].name, es[j].value), id);
        var i :| 0 <= i < |rows| && rows[i].id == id && Holds(Pair(es[j].name, es[j].value), rows[i].labels);
        assert Holds(HasName(name), rows[i].labels);
      }
      if Passes(rows, HasName(name), id) {
        var i :| 0 <= i < |rows| && rows[i].id == id && Holds(HasName(name), rows[i].labels);
        var q := EntryOfName(x, rows, name, i);
        assert Holds(Pair(es[q].name, es[q].value), rows[i].labels);
        assert Passes(rows, Pair(es[q].name, es[q].value), id);
      }
    }
    SortedIdsAre(rows, HasName(name), ids);
  }

  /** The list found for any pair is the series with the pair that stands for it. */
  lemma KeyIds(x: Index, rows: seq<Row>, name: Str, value: Str)
    requires Represents(x, rows)
    ensures PostingsOf(x, name, value) == Ok(IdsOf(rows, Keyed(TablePairs(x.table), name, value)))
  {
    hide Get, ReadPostingList, LookupPair, Key, IdsOf, Standing, TablePairs;
    var ps := TablePairs(x.table);
    var j := LookupStanding(x.table, name, value);
    if Standing(ps, name, value).Some? {
      var e := x.table[j];
      assert Readable(x, rows, e);
      SameIds(rows, Keyed(ps, name, value), Pair(e.name, e.value));
    } else {
      assert forall id :: !Passes(rows, Keyed(ps, name, value), id);
      IdsAre(rows, Keyed(ps, name, value), []);
    }
  }

  // ---- Matchers --------------------------------------------------------------

  function AllOf(x: Index): Result<seq<nat>, IndexError> {
    Uniquely(Collected(x.file, x.table))
  }

  function NameOf(x: Index, name: Str): Result<seq<nat>, IndexError> {
    Uniquely(Collected(x.file, Named(x.table, name)))
  }

  function ValuesOf(x: Index, name: Str): seq<Str> {
    SortUnique(Less, Values(Named(x.table, name)))
  }

  function Minus(a: Result<seq<nat>, IndexError>, b: Result<seq<nat>, IndexError>): Result<seq<nat>, IndexError> {
    if a.Err? then a else if b.Err? then b else Ok(Difference(a.value, b.value))
  }

  /** The lists of the values that a regular expression accepts. */
  function UnionWhere(x: Index, name: Str, regex: Str -> bool, vs: seq<Str>): Result<seq<nat>, IndexError> {
    if vs == [] then Ok([])
    else
      var v := vs[|vs| - 1];
      match UnionWhere(x, name, regex, vs[..|vs| - 1])
      case Err(e) => Err(e)
      case Ok(ids) =>
        if !regex(v) then Ok(ids)
        else match PostingsOf(x, name, v) case Err(e) => Err(e) case Ok(more) => Ok(ids + more)
  }

  /** Those, and the series without the label when the empty string is accepted. */
  function RegexIds(x: Index, name: Str, regex: Str -> bool): Result<seq<nat>, IndexError> {
    match UnionWhere(x, name, regex, ValuesOf(x, name))
    case Err(e) => Err(e)
    case Ok(ids) =>
      if !regex([]) then Ok(SortUnique(Below, ids))
      else match Minus(AllOf(x), NameOf(x, name)) case Err(e) => Err(e) case Ok(more) => Ok(SortUnique(Below, ids + more))
  }

  function PostingsFor(x: Index, m: Matcher): Result<seq<nat>, IndexError> {
    match m
    case Eq(n, v) => if v == [] then Minus(AllOf(x), NameOf(x, n)) else PostingsOf(x, n, v)
    case Neq(n, v) => if v == [] then NameOf(x, n) else Minus(AllOf(x), PostingsOf(x, n, v))
    case Re(n, r) => RegexIds(x, n, r)
    case Nre(n, r) =>
      match RegexIds(x, n, r) case Err(e) => Err(e) case Ok(ids) => Minus(AllOf(x), Ok(ids))
  }

  ghost predicate RegexPair(rows: seq<Row>, ps: Pairs, name: Str, regex: Str -> bool, vs: seq<Str>, id: nat) {
    exists k :: 0 <= k < |vs| && regex(vs[k]) && Passes(rows, Keyed(ps, name, vs[k]), id)
  }

  lemma {:induction false} UnionMembers(x: Index, rows: seq<Row>, name: Str, regex: Str -> bool, vs: seq<Str>)
    requires Represents(x, rows)
    ensures UnionWhere(x, name, regex, vs).Ok?
    ensures forall id :: id in UnionWhere(x, name, regex, vs).value <==> RegexPair(rows, TablePairs(x.table), name, regex, vs, id)
  {
    hide Represents, PostingsOf, Passes, Holds, TablePairs;
    var ps := TablePairs(x.table);
    if vs != [] {
      var init, v := vs[..|vs| - 1], vs[|vs| - 1];
      UnionMembers(x, rows, name, regex, init);
      KeyIds(x, rows, name, v);
      RowsInOrder(x, rows);
      IdsMembers(rows, Keyed(ps, name, v));
      forall id
        ensures RegexPair(rows, ps, name, regex, vs, id) <==>
          RegexPair(rows, ps, name, regex, init, id) || (regex(v) && Passes(rows, Keyed(ps, name, v), id))
      {
        RegexPairSnoc(rows, ps, name, regex, vs, id);
      }
    }
  }

  lemma RowsInOrder(x: Index, rows: seq<Row>)
    requires Represents(x, rows)
    ensures RowsAscend(rows)
  {
  }

  lemma RegexPairSnoc(rows: seq<Row>, ps: Pairs, name: Str, regex: Str -> bool, vs: seq<Str>, id: nat)
    requires vs != []
    ensures var init, v := vs[..|vs| - 1], vs[|vs| - 1];
      RegexPair(rows, ps, name, regex, vs, id) <==>
        RegexPair(rows, ps, name, regex, init, id) || (regex(v) && Passes(rows, Keyed(ps, name, v), id))
  {
    hide Passes;
    var init, v := vs[..|vs| - 1], vs[|vs| - 1];
    if RegexPair(rows, ps, name, regex, init, id) {
      var k :| 0 <= k < |init| && regex(init[k]) && Passes(rows, Keyed(ps, name, init[k]), id);
      assert vs[k] == init[k];
    }
    if regex(v) && Passes(rows, Keyed(ps, name, v), id) {
      assert vs[|vs| - 1] == v;
    }
  }

  /** The values of a name are those of its pairs in the table. */
  lemma ValuesListed(x: Index, name: Str)
    ensures forall v :: v in ValuesOf(x, name) <==> exists j :: 0 <= j < |x.table| && x.table[j].name == name && x.table[j].value == v
  {
    hide SortUnique, Named, Values;
    ValuesInOrder(x.table, name);
  }

  /** Resolving a regular expression by values finds the series that have the pair standing for an
      accepted value, and those without the label when the empty string is accepted. */
  lemma RegexIdsAre(x: Index, rows: seq<Row>, name: Str, regex: Str -> bool)
    requires Represents(x, rows)
    ensures RegexIds(x, name, regex) == Ok(IdsOf(rows, RegexOn(TablePairs(x.table), name, regex)))
  {
    hide Get, SortUnique, Represents, UnionWhere, ValuesOf, AllOf, NameOf, TablePairs;
    RowsInOrder(x, rows);
    AllOfIs(x, rows);
    NameOfIs(x, rows, name);
    LacksIds(rows, name);
    UnionMembers(x, rows, name, regex, ValuesOf(x, name));
    IdsMembers(rows, Lacks(name));
    var ids := UnionWhere(x, name, regex, ValuesOf(x, name)).value;
    var out := if regex([]) then ids + IdsOf(rows, Lacks(name)) else ids;
    forall id
      ensures id in out <==> Passes(rows, RegexOn(TablePairs(x.table), name, regex), id)
    {
      RegexMember(x, rows, name, regex, id);
    }
    SortedIdsAre(rows, RegexOn(TablePairs(x.table), name, regex), out);
  }

  lemma AllOfIs(x: Index, rows: seq<Row>)
    requires Represents(x, rows)
    ensures AllOf(x) == Ok(IdsOf(rows, Labelled))
  {
    hide Represents, Collected, SortUnique;
    AllIds(x, rows);
  }

  lemma NameOfIs(x: Index, rows: seq<Row>, name: Str)
    requires Represents(x, rows)
    ensures NameOf(x, name) == Ok(IdsOf(rows, HasName(name)))
  {
    hide Represents, Collected, SortUnique, Named;
    NameIds(x, rows, name);
  }

  lemma NamedIsLabelled(ls: Labels, name: Str)
    requires Get(ls, name).Some?
    ensures ls != []
  {
    var k := LabelThere(ls, name);
  }

  lemma LacksIds(rows: seq<Row>, name: Str)
    requires RowsAscend(rows)
    ensures Difference(IdsOf(rows, Labelled), IdsOf(rows, HasName(name))) == IdsOf(rows, Lacks(name))
  {
    hide Get, Difference, IdsOf;
    DifferenceOf(rows, Labelled, HasName(name), Lacks(name));
  }

  lemma FoundIsLabelled(ps: Pairs, ls: Labels, name: Str, value: Str)
    requires Finds(ps, ls, name, value)
    ensures ls != []
  {
    hide Get, Standing;
    NamedIsLabelled(ls, Standing(ps, name, value).value.0);
  }

  lemma RegexMember(x: Index, rows: seq<Row>, name: Str, regex: Str -> bool, id: nat)
    ensures var ps := TablePairs(x.table);
      Passes(rows, RegexOn(ps, name, regex), id) <==>
        RegexPair(rows, ps, name, regex, ValuesOf(x, name), id) || (regex([]) && Passes(rows, Lacks(name), id))
  {
    hide Get, ValuesOf, Finds, RegexFinds;
    var ps := TablePairs(x.table);
    var vs := ValuesOf(x, name);
    if i :| 0 <= i < |rows| && rows[i].id == id && Holds(RegexOn(ps, name, regex), rows[i].labels) {
      var v := RegexFound(x, rows[i].labels, name, regex);
      if v.Some? {
        var k :| 0 <= k < |vs| && vs[k] == v.value;
        assert Holds(Keyed(ps, name, vs[k]), rows[i].labels);
        assert Passes(rows, Keyed(ps, name, vs[k]), id);
      } else {
        assert Holds(Lacks(name), rows[i].labels);
      }
    }
    if RegexPair(rows, ps, name, regex, vs, id) {
      var k :| 0 <= k < |vs| && regex(vs[k]) && Passes(rows, Keyed(ps, name, vs[k]), id);
      var i :| 0 <= i < |rows| && rows[i].id == id && Holds(Keyed(ps, name, vs[k]), rows[i].labels);
      assert vs[k] in vs;
      ListedFinds(x, rows[i].labels, name, regex, vs[k]);
      assert Holds(RegexOn(ps, name, regex), rows[i].labels);
    }
    if regex([]) && Passes(rows, Lacks(name), id) {
      var i :| 0 <= i < |rows| && rows[i].id == id && Holds(Lacks(name), rows[i].labels);
      LackingFinds(ps, rows[i].labels, name, regex);
      assert Holds(RegexOn(ps, name, regex), rows[i].labels);
    }
  }

  /** The accepted value a series was found by, if it was not for lacking the label. */
  lemma RegexFound(x: Index, ls: Labels, name: Str, regex: Str -> bool) returns (v: Option<Str>)
    requires RegexFinds(TablePairs(x.table), ls, name, regex)
    ensures match v
      case None => regex([]) && Get(ls, name).None?
      case Some(w) => w in ValuesOf(x, name) && regex(w) && Finds(TablePairs(x.table), ls, name, w)
  {
    hide Get, ValuesOf, Finds;
    var ps := TablePairs(x.table);
    if regex([]) && Get(ls, name).None? {
      v := None;
    } else {
      var j :| 0 <= j < |ps| && ps[j].0 == name && regex(ps[j].1) && Finds(ps, ls, name, ps[j].1);
      ValuesListed(x, name);
      assert x.table[j].name == name && x.table[j].value == ps[j].1;
      v := Some(ps[j].1);
    }
  }

  lemma ListedFinds(x: Index, ls: Labels, name: Str, regex: Str -> bool, v: Str)
    requires v in ValuesOf(x, name) && regex(v) && Finds(TablePairs(x.table), ls, name, v)
    ensures RegexFinds(TablePairs(x.table), ls, name, regex) && ls != []
  {
    hide Get, ValuesOf, Finds;
    ValuesListed(x, name);
    var j :| 0 <= j < |x.table| && x.table[j].name == name && x.table[j].value == v;
    assert TablePairs(x.table)[j] == (name, v);
    FoundIsLabelled(TablePairs(x.table), ls, name, v);
  }

  lemma LackingFinds(ps: Pairs, ls: Labels, name: Str, regex: Str -> bool)
    requires regex([]) && Get(ls, name).None?
    ensures RegexFinds(ps, ls, name, regex)
  {
  }

  /** The posting algebra: union, complement and intersection of posting lists give, in ascending
      order and without repetition, exactly the labelled series the block's reading of the matcher
      accepts. */
  lemma PostingsForIs(x: Index, rows: seq<Row>, m: Matcher)
    requires Represents(x, rows)
    ensures PostingsFor(x, m) == Ok(IdsOf(rows, ByBlock(TablePairs(x.table), m)))
  {
    hide Get, Represents, RegexIds, AllOf, NameOf, PostingsOf, Difference, IdsOf, Finds, TablePairs, RegexFinds;
    var ps := TablePairs(x.table);
    RowsInOrder(x, rows);
    AllOfIs(x, rows);
    forall i | 0 <= i < |rows|
      ensures Get(rows[i].labels, m.name).Some? ==> rows[i].labels != []
    {
      if Get(rows[i].labels, m.name).Some? {
        NamedIsLabelled(rows[i].labels, m.name);
      }
    }
    match m
    case Eq(n, v) =>
      if v == [] {
        NameOfIs(x, rows, n);
        DifferenceOf(rows, Labelled, HasName(n), ByBlock(ps, m));
      } else {
        KeyIds(x, rows, n, v);
        KeyedIsLabelled(rows, ps, n, v);
        SameIds(rows, Keyed(ps, n, v), ByBlock(ps, m));
      }
    case Neq(n, v) =>
      if v == [] {
        NameOfIs(x, rows, n);
        SameIds(rows, HasName(n), ByBlock(ps, m));
      } else {
        KeyIds(x, rows, n, v);
        DifferenceOf(rows, Labelled, Keyed(ps, n, v), ByBlock(ps, m));
      }
    case Re(n, r) =>
      RegexIdsAre(x, rows, n, r);
      SameIds(rows, RegexOn(ps, n, r), ByBlock(ps, m));
    case Nre(n, r) =>
      RegexIdsAre(x, rows, n, r);
      DifferenceOf(rows, Labelled, RegexOn(ps, n, r), ByBlock(ps, m));
  }

  lemma KeyedIsLabelled(rows: seq<Row>, ps: Pairs, n: Str, v: Str)
    ensures forall i :: 0 <= i < |rows| ==> (Finds(ps, rows[i].labels, n, v) ==> rows[i].labels != [])
  {
    hide Finds;
    forall i | 0 <= i < |rows| && Finds(ps, rows[i].labels, n, v)
      ensures rows[i].labels != []
    {
      FoundIsLabelled(ps, rows[i].labels, n, v);
    }
  }

  // ---- Several matchers ------------------------------------------------------

  /** The first list, cut down matcher by matcher until nothing is left. */
  function Narrowed(x: Index, ms: seq<Matcher>): Result<seq<nat>, IndexError>
    requires ms != []
  {
    if |ms| == 1 then PostingsFor(x, ms[0])
    else match Narrowed(x, ms[..|ms| - 1])
      case Err(e) => Err(e)
      case Ok(ids) =>
        if ids == [] then Ok([])
        else match PostingsFor(x, ms[|ms| - 1]) case Err(e) => Err(e) case Ok(next) => Ok(Intersection(ids, next))
  }

  /** All matchers together leave exactly the labelled series that every one of them accepts. */
  lemma {:induction false} NarrowedIs(x: Index, rows: seq<Row>, ms: seq<Matcher>)
    requires Represents(x, rows) && ms != []
    ensures Narrowed(x, ms) == Ok(IdsOf(rows, ByAll(TablePairs(x.table), ms)))
    decreases |ms|
  {
    hide Represents, PostingsFor, BlockAccepts, IdsOf, Intersection, TablePairs;
    var ps := TablePairs(x.table);
    RowsInOrder(x, rows);
    var init, last := ms[..|ms| - 1], ms[|ms| - 1];
    PostingsForIs(x, rows, last);
    if |ms| == 1 {
      SameIds(rows, ByBlock(ps, last), ByAll(ps, ms));
    } else {
      NarrowedIs(x, rows, init);
      forall i | 0 <= i < |rows|
        ensures Holds(ByAll(ps, ms), rows[i].labels) <==> Holds(ByAll(ps, init), rows[i].labels) && Holds(ByBlock(ps, last), rows[i].labels)
      {
        AllSnoc(ps, ms, rows[i].labels);
      }
      IntersectionOf(rows, ByAll(ps, init), ByBlock(ps, last), ByAll(ps, ms));
      NothingLeft(IdsOf(rows, ByBlock(ps, last)));
    }
  }

  lemma NothingLeft(ids: seq<nat>)
    ensures Intersection([], ids) == []
  {
  }

  lemma AllSnoc(ps: Pairs, ms: seq<Matcher>, ls: Labels)
    requires ms != []
    ensures Holds(ByAll(ps, ms), ls) <==> Holds(ByAll(ps, ms[..|ms| - 1]), ls) && Holds(ByBlock(ps, ms[|ms| - 1]), ls)
  {
    hide BlockAccepts;
    var init := ms[..|ms| - 1];
    assert forall i :: 0 <= i < |init| ==> ms[i] == init[i];
  }

  // ---- When a block reads matchers as they are meant ---------------------------

  /** Every label is among the pairs. */
  ghost predicate Covers(ps: Pairs, ls: Labels) {
    forall k :: 0 <= k < |ls| ==> (ls[k].key, ls[k].val) in ps
  }

  ghost predicate NoneEmpty(ps: Pairs) {
    forall j :: 0 <= j < |ps| ==> ps[j].1 != []
  }

  /** Of a pair and the one that stands for it, the series has only one. */
  predicate Mixed(ps: Pairs, ls: Labels, name: Str, value: Str) {
    match Standing(ps, name, value) case None => false case Some(p) => HasLabel(ls, p.0, p.1) != HasLabel(ls, name, value)
  }

  /** A listed value that the expression accepts finds the series, which does not have it. */
  predicate Strays(ps: Pairs, ls: Labels, name: Str, regex: Str -> bool) {
    exists j :: 0 <= j < |ps| && ps[j].0 == name && regex(ps[j].1)
      && Finds(ps, ls, name, ps[j].1) && !HasLabel(ls, name, ps[j].1)
  }

  /** `Eq` and `Neq` are misread when they ask for an empty value that the label has, or the series
      has only one of the pair and its stand-in. A regular expression is misread when it accepts
      the value and no value finds the series, or it does not and one finds the series. */
  predicate Misread(ps: Pairs, m: Matcher, ls: Labels) {
    match m
    case Eq(n, v) => if v == [] then Get(ls, n) == Some([]) else Mixed(ps, ls, n, v)
    case Neq(n, v) => if v == [] then Get(ls, n) == Some([]) else Mixed(ps, ls, n, v)
    case Re(n, r) => RegexMisread(ps, ls, n, r)
    case Nre(n, r) => RegexMisread(ps, ls, n, r)
  }

  predicate RegexMisread(ps: Pairs, ls: Labels, name: Str, regex: Str -> bool) {
    if regex(ValueOr(ls, name)) then Get(ls, name).Some? && Mixed(ps, ls, name, ValueOr(ls, name)) && !Strays(ps, ls, name, regex)
    else Strays(ps, ls, name, regex)
  }

  /** The block reads a matcher on a label set as it is meant exactly unless it misreads it. */
  lemma BlockAcceptsIff(ps: Pairs, m: Matcher, ls: Labels)
    requires Covers(ps, ls)
    ensures (BlockAccepts(ps, m, ls) <==> Accepts(m, ls)) <==> !Misread(ps, m, ls)
  {
    hide Get, Standing, Key, RegexMisread, RegexFinds, Mixed, Finds, HasLabel;
    match m
    case Eq(n, v) => MixedTells(ps, ls, n, v);
    case Neq(n, v) => MixedTells(ps, ls, n, v);
    case Re(n, r) => RegexFindsIff(ps, ls, n, r);
    case Nre(n, r) => RegexFindsIff(ps, ls, n, r);
  }

  lemma MixedTells(ps: Pairs, ls: Labels, name: Str, value: Str)
    requires Covers(ps, ls)
    ensures (Finds(ps, ls, name, value) <==> Get(ls, name) == Some(value)) <==> !Mixed(ps, ls, name, value)
  {
    hide Get, Standing, Key;
    StandingIs(ps, name, value);
    if HasLabel(ls, name, value) {
      var k := LabelThere(ls, name);
      assert (ls[k].key, ls[k].val) in ps;
    }
  }

  lemma RegexFindsIff(ps: Pairs, ls: Labels, name: Str, regex: Str -> bool)
    requires Covers(ps, ls)
    ensures (RegexFinds(ps, ls, name, regex) <==> regex(ValueOr(ls, name))) <==> !RegexMisread(ps, ls, name, regex)
  {
    hide Get, Standing, Key, Mixed, Finds, Strays, Covers;
    StraysFind(ps, ls, name, regex);
    if Get(ls, name).Some? {
      var v := ValueOr(ls, name);
      MixedTells(ps, ls, name, v);
      ValueListed(ps, ls, name);
      if RegexFinds(ps, ls, name, regex) && !Strays(ps, ls, name, regex) {
        NoStrays(ps, ls, name, regex);
      }
    } else if RegexFinds(ps, ls, name, regex) && !Strays(ps, ls, name, regex) {
      NoStrays(ps, ls, name, regex);
    }
  }

  lemma StraysFind(ps: Pairs, ls: Labels, name: Str, regex: Str -> bool)
    ensures Strays(ps, ls, name, regex) ==> RegexFinds(ps, ls, name, regex)
  {
    hide Get, Finds;
  }

  lemma ValueListed(ps: Pairs, ls: Labels, name: Str)
    requires Covers(ps, ls) && Get(ls, name).Some?
    ensures exists j :: 0 <= j < |ps| && ps[j].0 == name && ps[j].1 == ValueOr(ls, name)
  {
    hide Get;
    var k := LabelThere(ls, name);
    assert (ls[k].key, ls[k].val) in ps;
  }

  lemma NoStrays(ps: Pairs, ls: Labels, name: Str, regex: Str -> bool)
    requires RegexFinds(ps, ls, name, regex) && !Strays(ps, ls, name, regex)
    ensures regex(ValueOr(ls, name)) && (Get(ls, name).Some? ==> Finds(ps, ls, name, ValueOr(ls, name)))
  {
    hide Get, Finds;
    if !(regex([]) && Get(ls, name).None?) {
      var j :| 0 <= j < |ps| && ps[j].0 == name && regex(ps[j].1) && Finds(ps, ls, name, ps[j].1);
      assert HasLabel(ls, name, ps[j].1);
    }
  }

  /** Where the key of a label could be split, the series has that label too. A split that leaves no
      value does not matter. */
  ghost predicate Closed(ls: Labels) {
    forall k, p :: 0 <= k < |ls| && SplitsAt(ls[k], p) ==> SplitThere(ls, ls[k], p)
  }

  predicate SplitsAt(l: Label, p: int) {
    0 <= p < |Key(l.key, l.val)| - 1 && Key(l.key, l.val)[p] == 0
  }

  predicate SplitThere(ls: Labels, l: Label, p: int)
    requires SplitsAt(l, p)
  {
    HasLabel(ls, Key(l.key, l.val)[..p], Key(l.key, l.val)[p + 1..])
  }

  /** A pair with the key of a label is a split of it. */
  lemma SameKeySplits(l: Label, name: Str, value: Str)
    requires Key(l.key, l.val) == Key(name, value) && value != []
    ensures SplitsAt(l, |name|) && Key(l.key, l.val)[..|name|] == name && Key(l.key, l.val)[|name| + 1..] == value
  {
  }

  /** With its labels closed under splitting, a series has a pair exactly when it has any other one
      of the same key. */
  lemma ClosedSame(ls: Labels, n: Str, v: Str, m: Str, w: Str)
    requires Closed(ls) && Key(n, v) == Key(m, w) && w != [] && HasLabel(ls, n, v)
    ensures HasLabel(ls, m, w)
  {
    hide Get, Key;
    var k := LabelThere(ls, n);
    SameKeySplits(ls[k], m, w);
    assert SplitThere(ls, ls[k], |m|);
  }

  lemma ClosedUnmixed(ps: Pairs, ls: Labels, name: Str, value: Str)
    requires Closed(ls) && NoneEmpty(ps)
    ensures value != [] ==> !Mixed(ps, ls, name, value)
  {
    hide Get, Standing, Key, Closed;
    StandingIs(ps, name, value);
    match Standing(ps, name, value)
    case None =>
    case Some(p) =>
      assert p.1 != [];
      if value != [] && HasLabel(ls, p.0, p.1) {
        ClosedSame(ls, p.0, p.1, name, value);
      }
      if HasLabel(ls, name, value) {
        ClosedSame(ls, name, value, p.0, p.1);
      }
  }

  /** Where no value is empty: a block reads all matchers on a label set as they are meant exactly
      when the labels are closed under splitting. */
  lemma AllAgreeIff(ps: Pairs, ls: Labels)
    requires NoneEmpty(ps) && Covers(ps, ls)
    ensures (forall m :: BlockAccepts(ps, m, ls) <==> Accepts(m, ls)) <==> Closed(ls)
  {
    hide Closed, BlockAccepts, Accepts, SplitThere;
    if Closed(ls) {
      forall m
        ensures BlockAccepts(ps, m, ls) <==> Accepts(m, ls)
      {
        ClosedAgrees(ps, m, ls);
      }
    } else {
      var k, p := FirstSplit(ls);
      assert (ls[k].key, ls[k].val) in ps;
      var m := SplitTells(ps, ls, k, p);
    }
  }

  lemma FirstSplit(ls: Labels) returns (k: nat, p: nat)
    requires !Closed(ls)
    ensures k < |ls| && SplitsAt(ls[k], p) && !SplitThere(ls, ls[k], p)
  {
    k, p :| 0 <= k < |ls| && SplitsAt(ls[k], p) && !SplitThere(ls, ls[k], p);
  }

  lemma ClosedAgrees(ps: Pairs, m: Matcher, ls: Labels)
    requires NoneEmpty(ps) && Covers(ps, ls) && Closed(ls)
    ensures BlockAccepts(ps, m, ls) <==> Accepts(m, ls)
  {
    hide Get, Standing, Closed, Mixed, Strays, BlockAccepts, Accepts;
    BlockAcceptsIff(ps, m, ls);
    FilledLabels(ps, ls, m.name);
    match m
    case Eq(n, v) => ClosedUnmixed(ps, ls, n, v);
    case Neq(n, v) => ClosedUnmixed(ps, ls, n, v);
    case Re(n, r) => ClosedKeepsRegex(ps, ls, n, r);
    case Nre(n, r) => ClosedKeepsRegex(ps, ls, n, r);
  }

  lemma ClosedKeepsRegex(ps: Pairs, ls: Labels, name: Str, regex: Str -> bool)
    requires NoneEmpty(ps) && Covers(ps, ls) && Closed(ls)
    ensures !RegexMisread(ps, ls, name, regex)
  {
    hide Get, Standing, Closed, Mixed, Finds;
    FilledLabels(ps, ls, name);
    ClosedUnmixed(ps, ls, name, ValueOr(ls, name));
    forall j | 0 <= j < |ps|
      ensures Finds(ps, ls, name, ps[j].1) ==> HasLabel(ls, name, ps[j].1)
    {
      ClosedUnmixed(ps, ls, name, ps[j].1);
      MixedTells(ps, ls, name, ps[j].1);
    }
  }

  lemma FilledLabels(ps: Pairs, ls: Labels, name: Str)
    requires NoneEmpty(ps) && Covers(ps, ls)
    ensures Get(ls, name) != Some([])
  {
    hide Get;
    if Get(ls, name).Some? {
      var k := LabelThere(ls, name);
      assert (ls[k].key, ls[k].val) in ps;
    }
  }

  /** A split of a label that is not there: the block answers alike for the two pairs, and only one
      of them is meant to match. */
  lemma SplitTells(ps: Pairs, ls: Labels, k: nat, p: nat) returns (m: Matcher)
    requires k < |ls| && ls[k].val != [] && SplitsAt(ls[k], p) && !SplitThere(ls, ls[k], p)
    ensures m in {Eq(ls[k].key, ls[k].val), Eq(Key(ls[k].key, ls[k].val)[..p], Key(ls[k].key, ls[k].val)[p + 1..])}
    ensures BlockAccepts(ps, m, ls) != Accepts(m, ls)
  {
    hide Get, Standing;
    var l := ls[k];
    var n, v := Key(l.key, l.val)[..p], Key(l.key, l.val)[p + 1..];
    assert Key(n, v) == Key(l.key, l.val);
    LabelValue(ls, k);
    StandingByKey(ps, n, v, l.key, l.val);
    m := if Finds(ps, ls, n, v) then Eq(n, v) else Eq(l.key, l.val);
  }

  // ---- The source's loops ----------------------------------------------------

  /** Appends the lists of the accepted values. */
  method CollectValues(reader: IndexReader, name: Str, regex: Str -> bool) returns (r: Result<seq<nat>, IndexError>)
    requires reader.Valid()
    ensures r == UnionWhere(reader.index, name, regex, ValuesOf(reader.index, name))
  {
    hide PostingsOf, SortUnique, Values, UnionWhere;
    var vs := reader.LabelValues(name);
    var out: seq<nat> := [];
    StartUnion(reader.index, name, regex, vs);
    for i := 0 to |vs|
      invariant UnionWhere(reader.index, name, regex, vs[..i]) == Ok(out)
    {
      UnionStep(reader.index, name, regex, vs, i);
      if !regex(vs[i]) {
        continue;
      }
      var ids := reader.Postings(name, vs[i]);
      if ids.Err? {
        UnionStops(reader.index, name, regex, vs, i + 1);
        return Err(ids.error);
      }
      out := out + ids.value;
    }
    assert vs[..|vs|] == vs;
    return Ok(out);
  }

  lemma StartUnion(x: Index, name: Str, regex: Str -> bool, vs: seq<Str>)
    ensures UnionWhere(x, name, regex, vs[..0]) == Ok([])
  {
  }

  lemma UnionStep(x: Index, name: Str, regex: Str -> bool, vs: seq<Str>, i: nat)
    requires i < |vs|
    ensures UnionWhere(x, name, regex, vs[..i + 1]) == match UnionWhere(x, name, regex, vs[..i])
      case Err(e) => Err(e)
      case Ok(ids) =>
        if !regex(vs[i]) then Ok(ids)
        else match PostingsOf(x, name, vs[i]) case Err(e) => Err(e) case Ok(more) => Ok(ids + more)
  {
    hide PostingsOf;
    assert vs[..i + 1][..i] == vs[..i];
  }

  lemma {:induction false} UnionStops(x: Index, name: Str, regex: Str -> bool, vs: seq<Str>, i: nat)
    requires i <= |vs| && UnionWhere(x, name, regex, vs[..i]).Err?
    ensures UnionWhere(x, name, regex, vs) == UnionWhere(x, name, regex, vs[..i])
    decreases |vs|
  {
    hide PostingsOf;
    if i < |vs| {
      assert vs[..|vs| - 1][..i] == vs[..i];
      UnionStops(x, name, regex, vs[..|vs| - 1], i);
    } else {
      assert vs[..i] == vs;
    }
  }

  /** The series without a label. */
  method WithoutName(reader: IndexReader, name: Str) returns (r: Result<seq<nat>, IndexError>)
    ensures r == Minus(AllOf(reader.index), NameOf(reader.index, name))
  {
    hide Collected, SortUnique, Difference;
    var all := reader.AllPostings();
    if all.Err? {
      return all;
    }
    var with := reader.PostingsForName(name);
    if with.Err? {
      return with;
    }
    return Ok(Difference(all.value, with.value));
  }

  method CollectRegex(reader: IndexReader, name: Str, regex: Str -> bool) returns (r: Result<seq<nat>, IndexError>)
    requires reader.Valid()
    ensures r == RegexIds(reader.index, name, regex)
  {
    hide UnionWhere, ValuesOf, AllOf, NameOf, SortUnique, Difference;
    var out := CollectValues(reader, name, regex);
    if out.Err? {
      return out;
    }
    var ids := out.value;
    if regex([]) {
      var without := WithoutName(reader, name);
      if without.Err? {
        return without;
      }
      ids := ids + without.value;
    }
    return Ok(SortUnique(Below, ids));
  }

  /** Resolves one matcher to its posting list. */
  method PostingsForMatcher(reader: IndexReader, m: Matcher) returns (r: Result<seq<nat>, IndexError>)
    requires reader.Valid()
    ensures r == PostingsFor(reader.index, m)
  {
    hide RegexIds, PostingsOf, Collected, SortUnique, Difference, Named;
    match m
    case Eq(name, value) =>
      if value == [] {
        r := WithoutName(reader, name);
      } else {
        r := reader.Postings(name, value);
      }
    case Neq(name, value) =>
      if value == [] {
        r := reader.PostingsForName(name);
      } else {
        var all := reader.AllPostings();
        if all.Err? {
          return all;
        }
        var eq := reader.Postings(name, value);
        if eq.Err? {
          return eq;
        }
        return Ok(Difference(all.value, eq.value));
      }
    case Re(name, regex) => r := CollectRegex(reader, name, regex);
    case Nre(name, regex) =>
      var matching := CollectRegex(reader, name, regex);
      if matching.Err? {
        return matching;
      }
      var all := reader.AllPostings();
      if all.Err? {
        return all;
      }
      return Ok(Difference(all.value, matching.value));
  }

  /** Intersects the posting lists of all matchers, stopping when nothing is left. */
  method Narrow(reader: IndexReader, ms: seq<Matcher>) returns (r: Result<seq<nat>, IndexError>)
    requires reader.Valid() && ms != []
    ensures r == Narrowed(reader.index, ms)
  {
    hide PostingsFor, Intersection, Narrowed;
    NarrowedFirst(reader.index, ms);
    var first := PostingsForMatcher(reader, ms[0]);
    if first.Err? {
      NarrowedStops(reader.index, ms, 1);
      return first;
    }
    var ids := first.value;
    var i := 1;
    while i < |ms| && ids != []
      invariant 1 <= i <= |ms| && Narrowed(reader.index, ms[..i]) == Ok(ids)
    {
      NarrowedStep(reader.index, ms, i);
      var next := PostingsForMatcher(reader, ms[i]);
      if next.Err? {
        NarrowedStops(reader.index, ms, i + 1);
        return next;
      }
      ids := Intersection(ids, next.value);
      i := i + 1;
    }
    NarrowedEmpty(reader.index, ms, i);
    return Ok(ids);
  }

  lemma NarrowedFirst(x: Index, ms: seq<Matcher>)
    requires ms != []
    ensures Narrowed(x, ms[..1]) == PostingsFor(x, ms[0])
  {
    hide PostingsFor;
  }

  lemma NarrowedStep(x: Index, ms: seq<Matcher>, i: nat)
    requires 0 < i < |ms|
    ensures Narrowed(x, ms[..i + 1]) == match Narrowed(x, ms[..i])
      case Err(e) => Err(e)
      case Ok(ids) =>
        if ids == [] then Ok([])
        else match PostingsFor(x, ms[i]) case Err(e) => Err(e) case Ok(next) => Ok(Intersection(ids, next))
  {
    hide PostingsFor;
    assert ms[..i + 1][..i] == ms[..i];
  }

  lemma {:induction false} NarrowedStops(x: Index, ms: seq<Matcher>, i: nat)
    requires 0 < i <= |ms| && Narrowed(x, ms[..i]).Err?
    ensures Narrowed(x, ms) == Narrowed(x, ms[..i])
    decreases |ms|
  {
    hide PostingsFor;
    if i < |ms| {
      assert ms[..|ms| - 1][..i] == ms[..i];
      NarrowedStops(x, ms[..|ms| - 1], i);
    } else {
      assert ms[..i] == ms;
    }
  }

  lemma {:induction false} NarrowedEmpty(x: Index, ms: seq<Matcher>, i: nat)
    requires 0 < i <= |ms| && Narrowed(x, ms[..i]).Ok? && (i == |ms| || Narrowed(x, ms[..i]) == Ok([]))
    ensures Narrowed(x, ms) == Narrowed(x, ms[..i])
    decreases |ms|
  {
    hide PostingsFor;
    if i < |ms| {
      assert ms[..|ms| - 1][..i] == ms[..i];
      NarrowedEmpty(x, ms[..|ms| - 1], i);
    } else {
      assert ms[..i] == ms;
    }
  }
}
