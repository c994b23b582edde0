/** The head's series by reference and by label set. */
module SeriesStores {
  import opened Words
  import opened Wrappers
  import opened XorCode
  import opened LabelSets
  import opened MemSeriesModel

  type Positive = n: int | n > 0 witness 1

  /** Slot `r - 1` holds the series of reference `r`; reference 0 is reserved. */
  datatype Store = Store(byRef: seq<Option<Series>>, byLabels: map<Labels, nat>, nextRef: Positive)

  const EMPTY := Store([], map[], 1)

  function Resized(byRef: seq<Option<Series>>, n: nat): (r: seq<Option<Series>>)
    ensures |r| == if n > |byRef| then n else |byRef|
    ensures forall i :: 0 <= i < |byRef| ==> r[i] == byRef[i]
    ensures forall i :: |byRef| <= i < |r| ==> r[i] == None
  {
    if n > |byRef| then byRef + seq(n - |byRef|, _ => None) else byRef
  }

  /** A new series under a reference not in use. */
  function Placed(st: Store, ref: nat, labels: Labels): Store
    requires ref > 0
  {
    Store(Resized(st.byRef, ref)[ref - 1 := Some(Series(ref, labels, []))], st.byLabels[labels := ref],
          if st.nextRef > ref + 1 then st.nextRef else ref + 1)
  }

  function SeriesAt(st: Store, ref: nat): Option<Series> {
    if ref == 0 || ref - 1 >= |st.byRef| then None else st.byRef[ref - 1]
  }

  /** The store afterwards, the reference, and whether the series is new. */
  function Created(st: Store, labels: Labels): (Store, nat, bool) {
    if labels in st.byLabels then (st, st.byLabels[labels], false)
    else (Placed(st, st.nextRef, labels), st.nextRef, true)
  }

  /** Nothing when the reference or the label set is taken otherwise. */
  function Inserted(st: Store, ref: nat, labels: Labels): Option<Store> {
    if ref == 0 then None
    else match SeriesAt(st, ref)
      case Some(s) => if s.labels == labels then Some(st) else None
      case None =>
        if labels in st.byLabels then (if st.byLabels[labels] == ref then Some(st) else None)
        else Some(Placed(st, ref, labels))
  }

  /** Nothing when there is no such series or it refuses the sample. */
  function WithSample(st: Store, ref: nat, x: Sample): Option<Store> {
    match SeriesAt(st, ref)
    case None => None
    case Some(s) =>
      if Refuses(s, x.t) then None else Some(st.(byRef := st.byRef[ref - 1 := Some(Appended(s, x))]))
  }

  /** Both indexes agree, references are dense up to the next one, and every series is sound. */
  ghost predicate Consistent(st: Store) {
    && st.nextRef == |st.byRef| + 1
    && (forall i :: 0 <= i < |st.byRef| && st.byRef[i].Some? ==> SlotSound(st, i))
    && (forall ls :: ls in st.byLabels ==> SeriesAt(st, st.byLabels[ls]).Some? && SeriesAt(st, st.byLabels[ls]).value.labels == ls)
  }

  ghost predicate SlotSound(st: Store, i: nat)
    requires i < |st.byRef| && st.byRef[i].Some?
  {
    var s := st.byRef[i].value;
    s.ref == i + 1 && s.labels in st.byLabels && st.byLabels[s.labels] == i + 1 && WellFormedSeries(s)
  }

  // ---- What every operation keeps --------------------------------------------

  lemma EmptyConsistent()
    ensures Consistent(EMPTY)
  {
  }

  lemma NoSamples(ref: nat, labels: Labels)
    ensures Samples(Series(ref, labels, [])) == [] && WellFormedSeries(Series(ref, labels, []))
  {
  }

  lemma PlacedConsistent(st: Store, ref: nat, labels: Labels)
    requires Consistent(st) && ref > 0 && SeriesAt(st, ref).None? && labels !in st.byLabels
    ensures Consistent(Placed(st, ref, labels))
    ensures SeriesAt(Placed(st, ref, labels), ref) == Some(Series(ref, labels, []))
    ensures forall r: nat :: r != ref ==> SeriesAt(Placed(st, ref, labels), r) == SeriesAt(st, r)
  {
    hide WellFormedSeries;
    NoSamples(ref, labels);
    var p := Placed(st, ref, labels);
    forall i | 0 <= i < |p.byRef| && p.byRef[i].Some?
      ensures SlotSound(p, i)
    {
      if i != ref - 1 {
        assert SlotSound(st, i);
      }
    }
  }

  /** Creating on demand keeps the store consistent, gives the one reference of the label set and
      leaves every other series alone. */
  lemma CreatedKeeps(st: Store, labels: Labels)
    requires Consistent(st)
    ensures var (st', ref, isNew) := Created(st, labels);
      && Consistent(st') && SeriesAt(st', ref).Some? && SeriesAt(st', ref).value.labels == labels
      && (isNew <==> labels !in st.byLabels) && (isNew ==> SeriesAt(st', ref).value.chunks == [] && SeriesAt(st, ref).None?)
      && st' == (if isNew then Placed(st, ref, labels) else st)
      && forall r: nat :: r != ref || !isNew ==> SeriesAt(st', r) == SeriesAt(st, r)
  {
    hide Placed;
    if labels !in st.byLabels {
      PlacedConsistent(st, st.nextRef, labels);
    }
  }

  /** With both indexes in step, an insertion is refused exactly when the reference is reserved
      or one side of the pair is already bound elsewhere. */
  lemma InsertedKeeps(st: Store, ref: nat, labels: Labels)
    requires Consistent(st)
    ensures Inserted(st, ref, labels).Some? <==>
      && ref > 0
      && (SeriesAt(st, ref).Some? ==> SeriesAt(st, ref).value.labels == labels)
      && (labels in st.byLabels ==> st.byLabels[labels] == ref)
    ensures var r := Inserted(st, ref, labels);
      r.Some? ==> Consistent(r.value) && SeriesAt(r.value, ref).Some? && SeriesAt(r.value, ref).value.labels == labels
  {
    hide Placed;
    if ref > 0 {
      match SeriesAt(st, ref)
      case Some(s) => assert SlotSound(st, ref - 1);
      case None =>
        if labels !in st.byLabels {
          PlacedConsistent(st, ref, labels);
        }
    }
  }

  /** A sample reaches its series and nothing else, and is refused exactly when the series does
      not exist or has a later sample. */
  lemma WithSampleKeeps(st: Store, ref: nat, x: Sample)
    requires Consistent(st)
    ensures WithSample(st, ref, x).Some? <==> SeriesAt(st, ref).Some? && !Refuses(SeriesAt(st, ref).value, x.t)
    ensures var r := WithSample(st, ref, x);
      r.Some? ==>
        && Consistent(r.value)
        && SeriesAt(r.value, ref).Some? && Samples(SeriesAt(r.value, ref).value) == Samples(SeriesAt(st, ref).value) + [x]
        && forall k: nat :: k != ref ==> SeriesAt(r.value, k) == SeriesAt(st, k)
  {
    hide WellFormedSeries, Appended, Samples, Refuses;
    var r := WithSample(st, ref, x);
    if r.Some? {
      var s, st' := SeriesAt(st, ref).value, r.value;
      assert SlotSound(st, ref - 1);
      AppendedMeaning(s, x);
      AppendedKeepsName(s, x);
      forall i | 0 <= i < |st'.byRef| && st'.byRef[i].Some?
        ensures SlotSound(st', i)
      {
        assert SlotSound(st, i);
      }
      forall ls | ls in st'.byLabels
        ensures SeriesAt(st', st'.byLabels[ls]).Some? && SeriesAt(st', st'.byLabels[ls]).value.labels == ls
      {
        assert SeriesAt(st, st.byLabels[ls]).value.labels == ls;
      }
    }
  }

  lemma AppendedKeepsName(s: Series, x: Sample)
    ensures Appended(s, x).ref == s.ref && Appended(s, x).labels == s.labels
  {
    hide ByteSize;
  }

  /** A new series and a sample of another one can enter in either order. */
  lemma PlaceAppendCommute(st: Store, ref: nat, labels: Labels, r: nat, x: Sample)
    requires Consistent(st) && ref > 0 && SeriesAt(st, ref).None? && WithSample(st, r, x).Some?
    ensures WithSample(Placed(st, ref, labels), r, x) == Some(Placed(WithSample(st, r, x).value, ref, labels))
  {
    hide Appended, Refuses;
    var s' := Appended(SeriesAt(st, r).value, x);
    assert Resized(st.byRef, ref)[ref - 1 := Some(Series(ref, labels, []))][r - 1 := Some(s')]
        == Resized(st.byRef[r - 1 := Some(s')], ref)[ref - 1 := Some(Series(ref, labels, []))];
  }

  lemma KnownSlot(st: Store, labels: Labels)
    requires Consistent(st) && labels in st.byLabels
    ensures var r := st.byLabels[labels]; 0 < r <= |st.byRef| && st.byRef[r - 1].Some? && st.byRef[r - 1].value.ref == r
  {
    hide WellFormedSeries;
    assert SeriesAt(st, st.byLabels[labels]).Some?;
    assert SlotSound(st, st.byLabels[labels] - 1);
  }

  // ---- The class -------------------------------------------------------------

  /** References are given out from 1 on, one by one. */
  lemma {:induction false} RefsInOrder(names: seq<Labels>)
    requires forall i, j :: 0 <= i < j < |names| ==> names[i] != names[j]
    ensures var st := CreatedAll(names);
      && Consistent(st) && st.nextRef == |names| + 1 && st.byLabels.Keys == (set i | 0 <= i < |names| :: names[i])
      && forall i :: 0 <= i < |names| ==> st.byLabels[names[i]] == i + 1
  {
    hide Consistent, Placed;
    if names == [] {
      EmptyConsistent();
    } else {
      var init, last := names[..|names| - 1], names[|names| - 1];
      RefsInOrder(init);
      var st := CreatedAll(init);
      assert forall i :: 0 <= i < |init| ==> init[i] == names[i];
      CreatedKeeps(st, last);
      NewName(st, last);
    }
  }

  lemma NewName(st: Store, labels: Labels)
    requires labels !in st.byLabels
    ensures var m := Created(st, labels).0;
      m.nextRef == st.nextRef + 1 && m.byLabels == st.byLabels[labels := st.nextRef]
  {
  }

  /** The store after creating some series one by one. */
  function CreatedAll(names: seq<Labels>): Store {
    if names == [] then EMPTY else Created(CreatedAll(names[..|names| - 1]), names[|names| - 1]).0
  }

  class SeriesStore {
    var byRef: seq<MemSeries?>
    var byLabels: map<Labels, nat>
    var nextRef: Positive
    ghost var Repr: set<object>

    ghost predicate Valid()
      reads this, Repr
    {
      Owned() && Consistent(Content())
    }

    /** Every series has its own part of the store's objects. */
    ghost predicate Owned()
      reads this, Repr
    {
      && this in Repr
      && (forall i :: 0 <= i < |byRef| && byRef[i] != null ==>
            byRef[i] in Repr && byRef[i] in byRef[i].Repr && byRef[i].Repr <= Repr && this !in byRef[i].Repr && byRef[i].Valid())
      && (forall i, j :: 0 <= i < j < |byRef| && byRef[i] != null && byRef[j] != null ==> byRef[i].Repr !! byRef[j].Repr)
    }

    /** The store as a value. */
    ghost function Content(): Store
      reads this, byRef
    {
      Store(seq(|byRef|, i requires 0 <= i < |byRef| reads this, byRef => if byRef[i] == null then None else Some(byRef[i].content)),
            byLabels, nextRef)
    }

    constructor ()
      ensures Valid() && fresh(Repr) && Content() == EMPTY
    {
      byRef, byLabels, nextRef := [], map[], 1;
      Repr := {this};
      new;
      assert Content() == EMPTY;
      EmptyConsistent();
    }

    method EnsureRefSlot(ref: nat)
      requires Owned() && ref > 0
      modifies this`byRef
      ensures Owned() && ref <= |byRef|
      ensures Content() == old(Content()).(byRef := Resized(old(Content()).byRef, ref))
    {
      hide MemSeries.Valid;
      ghost var was := Content().byRef;
      if ref - 1 >= |byRef| {
        byRef := byRef + seq(ref - |byRef|, _ => null);
      }
      assert Content().byRef == Resized(was, ref);
    }

    /** Puts a new series under a free reference. */
    method Place(ref: nat, labels: Labels) returns (s: MemSeries)
      requires Valid() && ref > 0 && SeriesAt(Content(), ref).None? && labels !in byLabels
      modifies this
      ensures Valid() && fresh(Repr - old(Repr)) && fresh(s)
      ensures Content() == Placed(old(Content()), ref, labels)
      ensures s.ref == ref && ref - 1 < |byRef| && byRef[ref - 1] == s
    {
      hide Consistent, MemSeries.Valid;
      ghost var before := Content();
      PlacedConsistent(before, ref, labels);
      EnsureRefSlot(ref);
      ghost var grown := Content().byRef;
      s := new MemSeries(ref, labels);
      SameName(s);
      byRef := byRef[ref - 1 := s];
      byLabels := byLabels[labels := ref];
      nextRef := if nextRef > ref + 1 then nextRef else ref + 1;
      Repr := Repr + s.Repr;
      assert Content().byRef == grown[ref - 1 := Some(Series(ref, labels, []))];
    }

    /** The series of a label set, created with the next reference when there is none. */
    method GetOrCreate(labels: Labels) returns (s: MemSeries, isNew: bool)
      requires Valid()
      modifies this
      ensures Valid() && fresh(Repr - old(Repr))
      ensures var (st, ref, created) := Created(old(Content()), labels);
        Content() == st && isNew == created && s.ref == ref && 0 < ref <= |byRef| && byRef[ref - 1] == s
    {
      hide Placed, MemSeries.Valid, Consistent;
      CreatedKeeps(Content(), labels);
      if labels in byLabels {
        var ref := byLabels[labels];
        KnownSlot(Content(), labels);
        SameName(byRef[ref - 1]);
        return byRef[ref - 1], false;
      }
      s := Place(nextRef, labels);
      isNew := true;
    }

    function Get(ref: nat): MemSeries?
      reads this
    {
      if ref == 0 || ref - 1 >= |byRef| then null else byRef[ref - 1]
    }

    lemma ContentConsistent()
      requires Valid()
      ensures Consistent(Content())
    {
    }

    lemma GetIsSeriesAt(ref: nat)
      ensures Get(ref) == null <==> SeriesAt(Content(), ref).None?
    {
    }

    /** Inserts a series under the reference a log record gives it. */
    method InsertWithRef(ref: nat, labels: Labels) returns (ok: bool)
      requires Valid()
      modifies this
      ensures Valid() && fresh(Repr - old(Repr))
      ensures match Inserted(old(Content()), ref, labels)
        case Some(st) => ok && Content() == st
        case None => !ok && Content() == old(Content())
    {
      hide Placed, MemSeries.Valid, WellFormedSeries;
      if ref == 0 {
        return false;
      }
      if ref - 1 < |byRef| && byRef[ref - 1] != null {
        SameName(byRef[ref - 1]);
        return byRef[ref - 1].labels == labels;
      }
      if labels in byLabels {
        return byLabels[labels] == ref;
      }
      var s := Place(ref, labels);
      return true;
    }

    /** Appends a sample to one of the store's series. */
    method AppendSample(ref: nat, t: i64, v: u64) returns (ok: bool)
      requires Valid() && SeriesAt(Content(), ref).Some?
      modifies Repr
      ensures Valid() && fresh(Repr - old(Repr))
      ensures match WithSample(old(Content()), ref, Sample(t, v))
        case Some(st) => ok && Content() == st
        case None => !ok && Content() == old(Content())
    {
      hide Appended, Consistent, Refuses, MemSeries.Valid;
      WithSampleKeeps(Content(), ref, Sample(t, v));
      ghost var before := Content();
      var s := byRef[ref - 1];
      ok := s.Append(t, v);
      SameName(s);
      Repr := Repr + s.Repr;
      assert Content().byRef == before.byRef[ref - 1 := Some(s.content)];
      if !ok {
        assert Content() == before;
      }
    }

    /** Every series by ascending reference. */
    method AllSeries() returns (out: seq<MemSeries>)
      requires Valid()
      ensures |out| == |Live(Content().byRef)|
      ensures forall i :: 0 <= i < |out| ==> out[i] in byRef && out[i].content == Live(Content().byRef)[i]
    {
      hide Consistent, MemSeries.Valid;
      ghost var slots := Content().byRef;
      out := [];
      for i := 0 to |byRef|
        invariant |out| == |Live(slots[..i])|
        invariant forall k :: 0 <= k < |out| ==> out[k] in byRef && out[k].content == Live(slots[..i])[k]
      {
        assert slots[..i + 1][..i] == slots[..i];
        if byRef[i] != null {
          out := out + [byRef[i]];
        }
      }
      assert slots[..|byRef|] == slots;
    }
  }

  /** The series that are there, by ascending reference. */
  function Live(slots: seq<Option<Series>>): seq<Series> {
    if slots == [] then []
    else Live(slots[..|slots| - 1]) + (match slots[|slots| - 1] case Some(s) => [s] case None => [])
  }

  /** Series with their slots among the first `n`, in slot order. */
  ghost predicate InSlots(slots: seq<Option<Series>>, live: seq<Series>, n: nat) {
    && n <= |slots|
    && (forall i :: 0 <= i < |live| ==> 0 < live[i].ref <= n && slots[live[i].ref - 1] == Some(live[i]))
    && (forall i, j :: 0 <= i < j < |live| ==> live[i].ref < live[j].ref)
  }

  /** Each live series has its slot, and slots keep their order. */
  lemma {:induction false} LiveSlots(st: Store, n: nat)
    requires Consistent(st) && n <= |st.byRef|
    ensures InSlots(st.byRef, Live(st.byRef[..n]), n)
  {
    hide *;
    if n == 0 {
      NoSlots(st.byRef);
    } else {
      LiveSlots(st, n - 1);
      LiveStep(st.byRef, n);
      OwnSlot(st, n);
      InSlotsStep(st.byRef, Live(st.byRef[..n - 1]), n);
    }
  }

  lemma NoSlots(slots: seq<Option<Series>>)
    ensures InSlots(slots, Live(slots[..0]), 0)
  {
  }

  lemma OwnSlot(st: Store, n: nat)
    requires Consistent(st) && 0 < n <= |st.byRef|
    ensures st.byRef[n - 1].Some? ==> st.byRef[n - 1].value.ref == n
  {
    hide WellFormedSeries;
    if st.byRef[n - 1].Some? {
      assert SlotSound(st, n - 1);
    }
  }

  lemma LiveStep(slots: seq<Option<Series>>, n: nat)
    requires 0 < n <= |slots|
    ensures Live(slots[..n]) == Live(slots[..n - 1]) + (match slots[n - 1] case Some(s) => [s] case None => [])
  {
    assert slots[..n][..n - 1] == slots[..n - 1];
  }

  lemma InSlotsStep(slots: seq<Option<Series>>, live: seq<Series>, n: nat)
    requires 0 < n <= |slots| && InSlots(slots, live, n - 1) && (slots[n - 1].Some? ==> slots[n - 1].value.ref == n)
    ensures InSlots(slots, live + (match slots[n - 1] case Some(s) => [s] case None => []), n)
  {
  }

  lemma SameName(s: MemSeries)
    requires s.Valid()
    ensures s.content.ref == s.ref && s.content.labels == s.labels && s in s.Repr
  {
  }
}
