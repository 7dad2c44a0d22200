/**
 Atomic mode-set requests of xf86drmMode.c.

 A request is a growing array of (object, property, value) items with a cursor that can be rolled
 back.  Its meaning is "last write wins".  Committing sorts a copy, removes duplicates in place and
 regroups the rest into the parallel arrays the kernel reads; none of that may change the meaning.
 */
module AtomicItems {

  const TWO_31 := 0x8000_0000
  const TWO_32 := 0x1_0000_0000

  // The ids and the cursor are uint32_t, the value is a uint64_t.
  datatype Item = Item(objectId: nat, propertyId: nat, value: nat, cursor: nat) {
    function Key(): (nat, nat) { (objectId, propertyId) }
  }

  type Settings = map<(nat, nat), nat>

  // What a list of items sets, applied in order on top of m: the last write wins.
  function Apply(m: Settings, s: seq<Item>): Settings
    decreases |s|
  {
    if s == [] then m else Apply(m[s[0].Key() := s[0].value], s[1..])
  }

  function Meaning(s: seq<Item>): Settings {
    Apply(map[], s)
  }

  lemma {:induction false} ApplyLast(m: Settings, s: seq<Item>, x: Item)
    ensures Apply(m, s + [x]) == Apply(m, s)[x.Key() := x.value]
    decreases |s|
  {
    if s == [] {
      assert (s + [x])[1..] == [];
    } else {
      assert (s + [x])[1..] == s[1..] + [x];
      ApplyLast(m[s[0].Key() := s[0].value], s[1..], x);
    }
  }

  // ----- the comparator -----

  // `unsigned int` subtraction read back as an `int`.
  function Difference(a: nat, b: nat): int {
    var d := (a - b) % TWO_32;
    if d < TWO_31 then d else d - TWO_32
  }

  // sort_req_list
  function Compare(first: Item, second: Item): int {
    if first.objectId != second.objectId then Difference(first.objectId, second.objectId)
    else if first.propertyId != second.propertyId then Difference(first.propertyId, second.propertyId)
    else Difference(first.cursor, second.cursor)
  }

  // The sign of the difference is the order of the ids exactly when they lie within 2^31.
  lemma DifferenceOrders(a: nat, b: nat)
    requires a < TWO_32 && b < TWO_32
    ensures ((Difference(a, b) < 0 <==> a < b) && (Difference(a, b) == 0 <==> a == b)) <==>
            -TWO_31 <= a - b < TWO_31
  {
  }

  // Beyond that the comparator is not even an order: three ids can be in a cycle.
  lemma CompareCanCycle()
    ensures var a, b, c := Item(1, 1, 0, 0), Item(0x6000_0000, 1, 0, 1), Item(0xc000_0000, 1, 0, 2);
      Compare(a, b) < 0 && Compare(b, c) < 0 && Compare(c, a) < 0
  {
  }

  // Two numbers of which the wrapped difference tells the order, either way round.
  predicate Near(a: nat, b: nat) {
    -TWO_31 < a - b < TWO_31
  }

  // Where two items differ first, they are that near.
  predicate Close(a: Item, b: Item) {
    if a.objectId != b.objectId then Near(a.objectId, b.objectId)
    else if a.propertyId != b.propertyId then Near(a.propertyId, b.propertyId)
    else Near(a.cursor, b.cursor)
  }

  predicate WordItem(x: Item) {
    x.objectId < TWO_32 && x.propertyId < TWO_32 && x.cursor < TWO_32
  }

  ghost predicate AllClose(s: seq<Item>) {
    && (forall k :: 0 <= k < |s| ==> WordItem(s[k]))
    && (forall j, k :: 0 <= j < |s| && 0 <= k < |s| ==> Close(s[j], s[k]))
  }

  // The order commit needs: by object, then by property, then by age.
  ghost predicate Before(a: Item, b: Item) {
    || a.objectId < b.objectId
    || (a.objectId == b.objectId && a.propertyId < b.propertyId)
    || (a.Key() == b.Key() && a.cursor < b.cursor)
  }

  // The comparator puts two items into that order, whichever comes first, exactly if they are close.
  lemma CompareIsBeforeIff(a: Item, b: Item)
    requires WordItem(a) && WordItem(b)
    ensures ((Compare(a, b) < 0 <==> Before(a, b)) && (Compare(b, a) < 0 <==> Before(b, a))) <==> Close(a, b)
    ensures Compare(a, b) == 0 <==> a.Key() == b.Key() && a.cursor == b.cursor
  {
  }

  ghost predicate Sorted(s: seq<Item>) {
    forall j, k :: 0 <= j < k < |s| ==> Before(s[j], s[k])
  }

  ghost predicate DistinctCursors(s: seq<Item>) {
    forall j, k :: 0 <= j < k < |s| ==> s[j].cursor != s[k].cursor
  }

  // ----- last write wins, whatever the order of different keys -----

  // The youngest item of each key comes after the older ones.
  ghost predicate AgeOrdered(s: seq<Item>) {
    forall j, k :: 0 <= j < k < |s| && s[j].Key() == s[k].Key() ==> s[j].cursor < s[k].cursor
  }

  ghost predicate Youngest(s: seq<Item>, x: Item) {
    && x in s
    && forall y :: y in s && y.Key() == x.Key() ==> y.cursor <= x.cursor
  }

  ghost predicate HasKey(s: seq<Item>, key: (nat, nat)) {
    exists x :: x in s && x.Key() == key
  }

  lemma {:induction false} MeaningHasKeys(s: seq<Item>, key: (nat, nat))
    ensures key in Meaning(s) <==> HasKey(s, key)
  {
    if s != [] {
      var init, last := s[..|s| - 1], s[|s| - 1];
      MeaningHasKeys(init, key);
      assert s == init + [last];
      ApplyLast(map[], init, last);
    }
  }

  // In an age-ordered list the value of a key is that of its youngest item.
  lemma {:induction false} MeaningOfYoungest(s: seq<Item>, x: Item)
    requires AgeOrdered(s) && Youngest(s, x)
    ensures x.Key() in Meaning(s) && Meaning(s)[x.Key()] == x.value
  {
    var init, last := s[..|s| - 1], s[|s| - 1];
    assert s == init + [last];
    ApplyLast(map[], init, last);
    var k :| 0 <= k < |s| && s[k] == x;
    if x.Key() == last.Key() {
      assert last in s;
    } else {
      assert init[k] == x;
      MeaningOfYoungest(init, x);
    }
  }

  lemma YoungestExists(s: seq<Item>, key: (nat, nat)) returns (x: Item)
    requires HasKey(s, key)
    ensures x.Key() == key && Youngest(s, x)
  {
    var rest := s[1..];
    assert forall y :: y in s <==> y == s[0] || y in rest;
    if HasKey(rest, key) {
      x := YoungestExists(rest, key);
      if s[0].Key() == key && s[0].cursor > x.cursor {
        x := s[0];
      }
    } else {
      x := s[0];
    }
  }

  // Two age-ordered arrangements of the same items mean the same.
  lemma ArrangementsMeanTheSame(s: seq<Item>, t: seq<Item>)
    requires AgeOrdered(s) && AgeOrdered(t) && forall x :: x in s <==> x in t
    ensures Meaning(s) == Meaning(t)
  {
    forall key
      ensures key in Meaning(s) <==> key in Meaning(t)
      ensures key in Meaning(s) ==> Meaning(s)[key] == Meaning(t)[key]
    {
      MeaningHasKeys(s, key);
      MeaningHasKeys(t, key);
      if HasKey(s, key) {
        var x := YoungestExists(s, key);
        MeaningOfYoungest(s, x);
        MeaningOfYoungest(t, x);
      }
    }
  }

  // ----- duplicate removal -----

  // What the in-place loop leaves of a sorted list: an item directly followed by another setting of
  // the same property is dropped, and the loop then steps past the survivor.
  function Reduce(s: seq<Item>): seq<Item> {
    if |s| < 2 then s
    else if s[0].Key() == s[1].Key() then [s[1]] + Reduce(s[2..])
    else [s[0]] + Reduce(s[1..])
  }

  lemma {:induction false} ReduceKeepsMeaning(m: Settings, s: seq<Item>)
    ensures Apply(m, Reduce(s)) == Apply(m, s)
    decreases |s|
  {
    if |s| >= 2 {
      var m0 := m[s[0].Key() := s[0].value];
      if s[0].Key() == s[1].Key() {
        var m1 := m[s[1].Key() := s[1].value];
        assert m0[s[1].Key() := s[1].value] == m1;
        ReduceKeepsMeaning(m1, s[2..]);
        assert s[1..][1..] == s[2..];
        assert ([s[1]] + Reduce(s[2..]))[1..] == Reduce(s[2..]);
      } else {
        ReduceKeepsMeaning(m0, s[1..]);
        assert ([s[0]] + Reduce(s[1..]))[1..] == Reduce(s[1..]);
      }
    }
  }

  // The number of times the object changes along the list, starting after object `last`.
  function CountGroups(last: nat, s: seq<Item>): nat
    decreases |s|
  {
    if s == [] then 0
    else (if s[0].objectId != last then 1 else 0) + CountGroups(s[0].objectId, s[1..])
  }

  // The first pass counts before it removes, and still counts the groups of what remains.
  lemma {:induction false} ReduceKeepsGroups(last: nat, s: seq<Item>)
    ensures CountGroups(last, Reduce(s)) == CountGroups(last, s)
    decreases |s|
  {
    if |s| >= 2 {
      if s[0].Key() == s[1].Key() {
        ReduceKeepsGroups(s[1].objectId, s[2..]);
        assert s[1..][1..] == s[2..];
        assert ([s[1]] + Reduce(s[2..]))[1..] == Reduce(s[2..]);
      } else {
        ReduceKeepsGroups(s[0].objectId, s[1..]);
        assert ([s[0]] + Reduce(s[1..]))[1..] == Reduce(s[1..]);
      }
    }
  }

  // ----- when is every property sent at most once? -----

  // Some key occurs n times in a row.
  ghost predicate TwoInARow(s: seq<Item>) {
    exists k :: 0 <= k < |s| - 1 && s[k].Key() == s[k + 1].Key()
  }

  ghost predicate Triple(s: seq<Item>, k: int) {
    0 <= k < |s| - 2 && s[k].Key() == s[k + 1].Key() == s[k + 2].Key()
  }

  ghost predicate ThreeInARow(s: seq<Item>) {
    exists k :: Triple(s, k)
  }

  lemma TwoInARowStep(x: Item, s: seq<Item>)
    ensures TwoInARow([x] + s) <==> (s != [] && s[0].Key() == x.Key()) || TwoInARow(s)
  {
    var t := [x] + s;
    if k :| 0 <= k < |t| - 1 && t[k].Key() == t[k + 1].Key() {
      if k > 0 { assert s[k - 1].Key() == s[k].Key(); }
    }
    if s != [] && s[0].Key() == x.Key() {
      assert t[0].Key() == t[1].Key();
    }
    if k :| 0 <= k < |s| - 1 && s[k].Key() == s[k + 1].Key() {
      assert t[k + 1].Key() == t[k + 2].Key();
    }
  }

  lemma ThreeInARowStep(s: seq<Item>)
    requires s != []
    ensures ThreeInARow(s) <==> Triple(s, 0) || ThreeInARow(s[1..])
  {
    var t := s[1..];
    if k :| Triple(s, k) {
      if k > 0 { assert Triple(t, k - 1); }
    }
    if k :| Triple(t, k) {
      assert Triple(s, k + 1);
    }
  }

  lemma ReduceKeepsHead(s: seq<Item>)
    ensures Reduce(s) == [] <==> s == []
    ensures s != [] ==> Reduce(s)[0].Key() == s[0].Key()
  {
  }

  // A pair survives exactly where there were three in a row.
  lemma {:induction false} ReduceLeavesPairs(s: seq<Item>)
    ensures TwoInARow(Reduce(s)) <==> ThreeInARow(s)
    decreases |s|
  {
    if |s| >= 2 {
      ThreeInARowStep(s);
      if s[0].Key() == s[1].Key() {
        ThreeInARowStep(s[1..]);
        assert s[1..][1..] == s[2..];
        ReduceLeavesPairs(s[2..]);
        ReduceKeepsHead(s[2..]);
        TwoInARowStep(s[1], Reduce(s[2..]));
      } else {
        ReduceLeavesPairs(s[1..]);
        ReduceKeepsHead(s[1..]);
        TwoInARowStep(s[0], Reduce(s[1..]));
      }
    }
  }

  function CountKey(s: seq<Item>, key: (nat, nat)): nat {
    if s == [] then 0 else (if s[0].Key() == key then 1 else 0) + CountKey(s[1..], key)
  }

  // Some property is set at least n times.
  ghost predicate SetTimes(s: seq<Item>, n: nat) {
    exists key :: CountKey(s, key) >= n
  }

  // Keys do not come back once passed.
  ghost predicate Grouped(s: seq<Item>) {
    forall i, j, k :: 0 <= i < j < k < |s| && s[i].Key() == s[k].Key() ==> s[j].Key() == s[k].Key()
  }

  lemma SortedIsGrouped(s: seq<Item>)
    requires Sorted(s)
    ensures Grouped(s) && AgeOrdered(s)
  {
  }

  lemma CountPositive(s: seq<Item>, key: (nat, nat))
    ensures CountKey(s, key) > 0 <==> exists k :: 0 <= k < |s| && s[k].Key() == key
  {
  }

  // Of n settings of one property that stand together the pass keeps every other one.
  lemma {:induction false} ReduceHalves(s: seq<Item>, key: (nat, nat))
    requires Grouped(s)
    ensures CountKey(Reduce(s), key) == (CountKey(s, key) + 1) / 2
    decreases |s|
  {
    if |s| >= 2 {
      if s[0].Key() == s[1].Key() {
        assert s[1..][1..] == s[2..];
        ReduceHalves(s[2..], key);
      } else {
        ReduceHalves(s[1..], key);
        CountPositive(s[1..], s[0].Key());
      }
    }
  }

  lemma {:induction false} ReduceKeepsOrder(s: seq<Item>)
    requires Sorted(s)
    ensures Sorted(Reduce(s)) && forall x :: x in Reduce(s) ==> x in s
    decreases |s|
  {
    if |s| >= 2 {
      var skip := if s[0].Key() == s[1].Key() then 1 else 0;
      var rest, r := s[skip + 1..], Reduce(s[skip + 1..]);
      ReduceKeepsOrder(rest);
      assert Reduce(s) == [s[skip]] + r;
      forall k | 0 <= k < |r|
        ensures Before(s[skip], r[k]) && r[k] in s
      {
        assert r[k] in rest;
        var j :| 0 <= j < |rest| && rest[j] == r[k];
        assert rest[j] == s[j + skip + 1];
      }
    }
  }

  // The duplicate removal leaves one setting of each property exactly when none was set more than
  // twice.
  lemma SentTwiceIffSetThrice(s: seq<Item>)
    requires Sorted(s)
    ensures SetTimes(Reduce(s), 2) <==> SetTimes(s, 3)
  {
    SortedIsGrouped(s);
    forall key
      ensures CountKey(Reduce(s), key) >= 2 <==> CountKey(s, key) >= 3
    {
      ReduceHalves(s, key);
    }
  }

  // Three settings of one property leave two copies behind.
  lemma ThreeSettingsLeaveTwo(v0: nat, v1: nat, v2: nat)
    ensures var s := [Item(1, 1, v0, 0), Item(1, 1, v1, 1), Item(1, 1, v2, 2)];
      Sorted(s) && Reduce(s) == [s[1], s[2]] && CountKey(Reduce(s), (1, 1)) == 2
  {
    var s := [Item(1, 1, v0, 0), Item(1, 1, v1, 1), Item(1, 1, v2, 2)];
    assert s[2..] == [s[2]];
    assert Reduce(s) == [s[1]] + Reduce(s[2..]);
    assert Reduce(s)[1..] == [s[2]] && [s[2]][1..] == [];
    assert CountKey([s[2]], (1, 1)) == 1;
  }
}

/** The arrays handed to the kernel, and how the kernel reads them. */
module AtomicArrays {
  import opened AtomicItems

  datatype Write = Write(objectId: nat, propertyId: nat, value: nat)

  function Writes(s: seq<Item>): (w: seq<Write>)
    ensures |w| == |s|
    ensures forall k :: 0 <= k < |s| ==> w[k] == Write(s[k].objectId, s[k].propertyId, s[k].value)
  {
    seq(|s|, k requires 0 <= k < |s| => Write(s[k].objectId, s[k].propertyId, s[k].value))
  }

  function Sum(counts: seq<nat>): nat {
    if counts == [] then 0 else Sum(counts[..|counts| - 1]) + counts[|counts| - 1]
  }

  // Each object owns the next counts[i] entries of props and values.
  function Expand(objs: seq<nat>, counts: seq<nat>, props: seq<nat>, values: seq<nat>): (w: seq<Write>)
    requires |objs| == |counts| && |props| == |values| == Sum(counts)
    ensures |w| == |props|
  {
    if objs == [] then [] else
      var g := |objs| - 1;
      var from := Sum(counts[..g]);
      Expand(objs[..g], counts[..g], props[..from], values[..from]) +
      seq(counts[g], k requires 0 <= k < counts[g] => Write(objs[g], props[from + k], values[from + k]))
  }

  // One more property for the current object.
  lemma ExpandSameObject(objs: seq<nat>, counts: seq<nat>, props: seq<nat>, values: seq<nat>, prop: nat, value: nat)
    requires |objs| == |counts| > 0 && |props| == |values| == Sum(counts)
    ensures var g := |objs| - 1;
      && Sum(counts[g := counts[g] + 1]) == Sum(counts) + 1
      && Expand(objs, counts[g := counts[g] + 1], props + [prop], values + [value]) ==
         Expand(objs, counts, props, values) + [Write(objs[g], prop, value)]
  {
    var g := |objs| - 1;
    var counts', from := counts[g := counts[g] + 1], Sum(counts[..g]);
    assert counts'[..g] == counts[..g];
    assert (props + [prop])[..from] == props[..from] && (values + [value])[..from] == values[..from];
  }

  // The first property of a new object.
  lemma ExpandNewObject(objs: seq<nat>, counts: seq<nat>, props: seq<nat>, values: seq<nat>,
                        obj: nat, prop: nat, value: nat)
    requires |objs| == |counts| && |props| == |values| == Sum(counts)
    ensures Sum(counts + [1]) == Sum(counts) + 1
    ensures Expand(objs + [obj], counts + [1], props + [prop], values + [value]) ==
            Expand(objs, counts, props, values) + [Write(obj, prop, value)]
  {
  }

  // What the kernel sets when it takes the writes in order.
  function ApplyWrites(m: Settings, w: seq<Write>): Settings
    decreases |w|
  {
    if w == [] then m else ApplyWrites(m[(w[0].objectId, w[0].propertyId) := w[0].value], w[1..])
  }

  lemma {:induction false} WritesMean(m: Settings, s: seq<Item>)
    ensures ApplyWrites(m, Writes(s)) == Apply(m, s)
    decreases |s|
  {
    if s != [] {
      assert Writes(s)[1..] == Writes(s[1..]);
      WritesMean(m[s[0].Key() := s[0].value], s[1..]);
    }
  }

  // Groups are opened one at a time as the list is read.
  lemma CountGroupsLast(last: nat, s: seq<Item>, x: Item)
    ensures CountGroups(last, s + [x]) ==
            CountGroups(last, s) + (if x.objectId != LastObject(last, s) then 1 else 0)
    decreases |s|
  {
    if s == [] {
      assert (s + [x])[1..] == [];
    } else {
      assert (s + [x])[1..] == s[1..] + [x];
      CountGroupsLast(s[0].objectId, s[1..], x);
    }
  }

  function LastObject(last: nat, s: seq<Item>): nat {
    if s == [] then last else s[|s| - 1].objectId
  }

  lemma CountGroupsPrefix(last: nat, s: seq<Item>, i: nat)
    requires i <= |s|
    ensures CountGroups(last, s[..i]) <= CountGroups(last, s)
    decreases |s| - i
  {
    if i < |s| {
      CountGroupsPrefix(last, s, i + 1);
      assert s[..i + 1] == s[..i] + [s[i]];
      CountGroupsLast(last, s[..i], s[i]);
    } else {
      assert s[..i] == s;
    }
  }

  // The arrays after the first i items: the groups opened so far and the entries filled so far.
  ghost predicate Grouping(items: seq<Item>, i: nat, os: seq<nat>, cs: seq<nat>, ps: seq<nat>, vs: seq<nat>) {
    && i <= |items| && |os| == |cs| == CountGroups(0, items[..i])
    && |ps| == |vs| == i == Sum(cs)
    && Expand(os, cs, ps, vs) == Writes(items[..i])
    && (i > 0 ==> os != [] && os[|os| - 1] == LastObject(0, items[..i]))
  }

  lemma {:induction false} GroupingStep(items: seq<Item>, i: nat, os: seq<nat>, cs: seq<nat>, ps: seq<nat>,
                                        vs: seq<nat>)
    requires Grouping(items, i, os, cs, ps, vs) && i < |items| && items[i].objectId != 0
    ensures var x, g := items[i], |os|;
      && CountGroups(0, items[..i + 1]) <= CountGroups(0, items)
      && if x.objectId != LastObject(0, items[..i])
         then Grouping(items, i + 1, os + [x.objectId], cs + [1], ps + [x.propertyId], vs + [x.value])
         else g > 0 && Grouping(items, i + 1, os, cs[g - 1 := cs[g - 1] + 1], ps + [x.propertyId], vs + [x.value])
  {
    var x := items[i];
    assert items[..i + 1] == items[..i] + [x];
    CountGroupsLast(0, items[..i], x);
    CountGroupsPrefix(0, items, i + 1);
    assert Writes(items[..i + 1]) == Writes(items[..i]) + [Write(x.objectId, x.propertyId, x.value)];
    if x.objectId != LastObject(0, items[..i]) {
      ExpandNewObject(os, cs, ps, vs, x.objectId, x.propertyId, x.value);
    } else {
      ExpandSameObject(os, cs, ps, vs, x.propertyId, x.value);
    }
  }

  // An item that opens a group finds room for it, and one that does not has a group to join.
  lemma RoomForGroup(items: seq<Item>, i: nat, os: seq<nat>, cs: seq<nat>, ps: seq<nat>, vs: seq<nat>)
    requires Grouping(items, i, os, cs, ps, vs) && i < |items| && items[i].objectId != 0
    ensures if items[i].objectId != LastObject(0, items[..i]) then |os| < CountGroups(0, items) else |os| > 0
  {
    GroupingStep(items, i, os, cs, ps, vs);
  }

  lemma GroupingNext(items: seq<Item>, i: nat, os: seq<nat>, cs: seq<nat>, ps: seq<nat>, vs: seq<nat>,
                     os': seq<nat>, cs': seq<nat>, ps': seq<nat>, vs': seq<nat>)
    requires Grouping(items, i, os, cs, ps, vs) && i < |items| && items[i].objectId != 0
    requires ps' == ps + [items[i].propertyId] && vs' == vs + [items[i].value]
    requires if items[i].objectId != LastObject(0, items[..i])
             then os' == os + [items[i].objectId] && cs' == cs + [1]
             else os' == os && |cs| > 0 && cs' == cs[|cs| - 1 := cs[|cs| - 1] + 1]
    ensures Grouping(items, i + 1, os', cs', ps', vs')
    ensures LastObject(0, items[..i + 1]) == items[i].objectId
  {
    GroupingStep(items, i, os, cs, ps, vs);
  }

  ghost predicate ByObject(items: seq<Item>) {
    forall j, k :: 0 <= j < k < |items| ==> items[j].objectId <= items[k].objectId
  }

  ghost predicate Increasing(ids: seq<nat>) {
    forall j, k :: 0 <= j < k < |ids| ==> ids[j] < ids[k]
  }

  ghost predicate HasObject(items: seq<Item>, id: nat) {
    exists x :: x in items && x.objectId == id
  }

  // The groups of these items: none is empty, each object has one, and they ascend if the items do.
  ghost predicate Tight(items: seq<Item>, os: seq<nat>, cs: seq<nat>) {
    && |os| == |cs| && (forall k :: 0 <= k < |cs| ==> cs[k] > 0)
    && (forall id :: id in os <==> HasObject(items, id))
    && (ByObject(items) ==> Increasing(os))
  }

  lemma TightNext(items: seq<Item>, x: Item, os: seq<nat>, cs: seq<nat>, os': seq<nat>, cs': seq<nat>)
    requires Tight(items, os, cs) && (items != [] ==> os != [] && os[|os| - 1] == items[|items| - 1].objectId)
    requires x.objectId != 0
    requires if x.objectId != LastObject(0, items)
             then os' == os + [x.objectId] && cs' == cs + [1]
             else os' == os && |cs| > 0 && cs' == cs[|cs| - 1 := cs[|cs| - 1] + 1]
    ensures Tight(items + [x], os', cs')
  {
    NoObjects(items, os);
    OneMoreObject(items, x, os, os');
    if ByObject(items + [x]) {
      AscendingNext(items, x, os, os');
    }
  }

  lemma NoObjects(items: seq<Item>, os: seq<nat>)
    requires forall id :: id in os <==> HasObject(items, id)
    ensures items == [] ==> os == []
  {
    if os != [] {
      assert os[0] in os;
    }
  }

  lemma OneMoreObject(items: seq<Item>, x: Item, os: seq<nat>, os': seq<nat>)
    requires forall id :: id in os <==> HasObject(items, id)
    requires os' == os + [x.objectId] || (os' == os && x.objectId in os)
    ensures forall id :: id in os' <==> HasObject(items + [x], id)
  {
    forall id
      ensures HasObject(items + [x], id) <==> HasObject(items, id) || x.objectId == id
    {
      if y :| y in items && y.objectId == id { assert y in items + [x]; }
      assert x in items + [x];
    }
  }

  lemma AscendingNext(items: seq<Item>, x: Item, os: seq<nat>, os': seq<nat>)
    requires ByObject(items + [x]) && (ByObject(items) ==> Increasing(os))
    requires items != [] ==> os != [] && os[|os| - 1] == items[|items| - 1].objectId
    requires items == [] ==> os == []
    requires os' == os || (os' == os + [x.objectId] && (items != [] ==> x.objectId != items[|items| - 1].objectId))
    ensures Increasing(os')
  {
    var all := items + [x];
    forall j, k | 0 <= j < k < |items|
      ensures items[j].objectId <= items[k].objectId
    {
      assert all[j].objectId <= all[k].objectId;
    }
    if items != [] {
      assert all[|items| - 1].objectId <= all[|items|].objectId;
    }
  }

  // The second pass of the commit: regroup a reduced list into the kernel's arrays.  The arrays for
  // the objects have the size the first pass counted, so obj_idx has to stay below it.
  method Regroup(items: seq<Item>, countObjs: nat)
    returns (objs: array<nat>, counts: array<nat>, props: array<nat>, values: array<nat>)
    requires forall k :: 0 <= k < |items| ==> items[k].objectId != 0
    requires countObjs == CountGroups(0, items)
    ensures fresh(objs) && fresh(counts) && fresh(props) && fresh(values)
    ensures objs.Length == counts.Length == countObjs && props.Length == values.Length == |items| == Sum(counts[..])
    ensures Expand(objs[..], counts[..], props[..], values[..]) == Writes(items)
    ensures Tight(items, objs[..], counts[..])
  {
    objs := new nat[countObjs](_ => 0);
    counts := new nat[countObjs](_ => 0);
    props := new nat[|items|](_ => 0);
    values := new nat[|items|](_ => 0);
    var objIdx, lastObjId, i := -1, 0, 0;
    while i < |items|
      invariant 0 <= i <= |items| && -1 <= objIdx < countObjs
      invariant lastObjId == LastObject(0, items[..i])
      invariant forall k :: objIdx < k < countObjs ==> counts[k] == 0
      invariant Grouping(items, i, objs[..objIdx + 1], counts[..objIdx + 1], props[..i], values[..i])
      invariant Tight(items[..i], objs[..objIdx + 1], counts[..objIdx + 1])
    {
      objIdx, lastObjId := EnterNext(items, i, objIdx, lastObjId, objs, counts, props, values);
      i := i + 1;
    }
    assert items[..i] == items;
    assert props[..] == props[..i] && values[..] == values[..i];
    assert objs[..] == objs[..objIdx + 1] && counts[..] == counts[..objIdx + 1];
  }

  // The body of that loop: the arrays now group one item more.
  method EnterNext(items: seq<Item>, i: nat, idx: int, last: nat,
                   objs: array<nat>, counts: array<nat>, props: array<nat>, values: array<nat>)
    returns (objIdx: int, lastObjId: nat)
    requires objs != counts && objs != props && objs != values && counts != props && counts != values && props != values
    requires objs.Length == counts.Length == CountGroups(0, items) && props.Length == values.Length == |items|
    requires i < |items| && items[i].objectId != 0 && -1 <= idx < objs.Length && last == LastObject(0, items[..i])
    requires forall k :: idx < k < counts.Length ==> counts[k] == 0
    requires Grouping(items, i, objs[..idx + 1], counts[..idx + 1], props[..i], values[..i])
    requires Tight(items[..i], objs[..idx + 1], counts[..idx + 1])
    modifies objs, counts, props, values
    ensures -1 <= objIdx < objs.Length && lastObjId == LastObject(0, items[..i + 1])
    ensures forall k :: objIdx < k < counts.Length ==> counts[k] == 0
    ensures Grouping(items, i + 1, objs[..objIdx + 1], counts[..objIdx + 1], props[..i + 1], values[..i + 1])
    ensures Tight(items[..i + 1], objs[..objIdx + 1], counts[..objIdx + 1])
  {
    ghost var os, cs, ps, vs := objs[..idx + 1], counts[..idx + 1], props[..i], values[..i];
    RoomForGroup(items, i, os, cs, ps, vs);
    objIdx, lastObjId := Enter(items[i], i, idx, last, objs, counts, props, values);
    GroupingNext(items, i, os, cs, ps, vs, objs[..objIdx + 1], counts[..objIdx + 1], props[..i + 1], values[..i + 1]);
    TightNext(items[..i], items[i], os, cs, objs[..objIdx + 1], counts[..objIdx + 1]);
    assert items[..i + 1] == items[..i] + [items[i]];
  }

  method Enter(x: Item, i: nat, idx: int, last: nat,
               objs: array<nat>, counts: array<nat>, props: array<nat>, values: array<nat>)
    returns (objIdx: int, lastObjId: nat)
    requires objs != counts && objs != props && objs != values && counts != props && counts != values && props != values
    requires objs.Length == counts.Length && i < props.Length == values.Length
    requires -1 <= idx < objs.Length && (x.objectId == last ==> idx >= 0)
    requires x.objectId != last ==> idx + 1 < objs.Length && counts[idx + 1] == 0
    modifies objs, counts, props, values
    ensures lastObjId == x.objectId
    ensures objIdx == if x.objectId != last then idx + 1 else idx
    ensures objs[..objIdx + 1] ==
            if x.objectId != last then old(objs[..idx + 1]) + [x.objectId] else old(objs[..idx + 1])
    ensures counts[..objIdx + 1] ==
            if x.objectId != last then old(counts[..idx + 1]) + [1]
            else old(counts[..idx + 1])[idx := old(counts[idx]) + 1]
    ensures forall k :: objIdx < k < counts.Length ==> counts[k] == old(counts[k])
    ensures props[..i + 1] == old(props[..i]) + [x.propertyId]
    ensures values[..i + 1] == old(values[..i]) + [x.value]
  {
    objIdx, lastObjId := idx, last;
    if x.objectId != lastObjId {
      objIdx := objIdx + 1;
      objs[objIdx] := x.objectId;
      lastObjId := objs[objIdx];
    }
    counts[objIdx] := counts[objIdx] + 1;
    props[i] := x.propertyId;
    values[i] := x.value;
  }
}

module AtomicRequest {
  import opened AtomicItems
  import opened AtomicArrays

  const EINVAL := 22
  const ENOMEM := 12

  function Renumbered(s: seq<Item>, from: nat): (t: seq<Item>)
    ensures |t| == |s| && forall k :: 0 <= k < |s| ==> t[k] == s[k].(cursor := from + k)
  {
    seq(|s|, k requires 0 <= k < |s| => s[k].(cursor := from + k))
  }

  // Ids are never zero, and every item is stamped with its own position.
  ghost predicate Stamped(s: seq<Item>) {
    forall k :: 0 <= k < |s| ==> s[k].objectId != 0 && s[k].propertyId != 0 && s[k].cursor == k
  }

  lemma StampedIsAgeOrdered(s: seq<Item>)
    requires Stamped(s)
    ensures AgeOrdered(s) && DistinctCursors(s)
  {
  }

  // Merging applies the second request on top of the first.
  lemma {:induction false} MergedMeaning(m: Settings, a: seq<Item>, b: seq<Item>, from: nat)
    ensures Apply(m, a + Renumbered(b, from)) == Apply(Apply(m, a), b)
    decreases |b|
  {
    if b == [] {
      assert a + Renumbered(b, from) == a;
    } else {
      var init, last := b[..|b| - 1], b[|b| - 1];
      MergedMeaning(m, a, init, from);
      assert a + Renumbered(b, from) == (a + Renumbered(init, from)) + [last.(cursor := from + |b| - 1)];
      ApplyLast(m, a + Renumbered(init, from), last.(cursor := from + |b| - 1));
      assert b == init + [last];
      ApplyLast(Apply(m, a), init, last);
    }
  }

  class AtomicReq {
    var cursor: nat
    var items: seq<Item>        // |items| is size_items; what lies beyond `filled` was never written
    ghost var filled: nat

    ghost predicate Valid()
      reads this
    {
      cursor <= filled <= |items| && Stamped(items[..filled])
    }

    ghost function Contents(): (s: seq<Item>)
      requires Valid()
      reads this
      ensures Stamped(s)
    {
      assert Stamped(items[..filled]);
      assert forall k :: 0 <= k < cursor ==> items[k] == items[..filled][k];
      items[..cursor]
    }

    // drmModeAtomicAlloc
    constructor ()
      ensures Valid() && Contents() == [] && items == []
    {
      cursor, items, filled := 0, [], 0;
    }

    // realloc: the old items, followed by memory nobody has written.
    method Grow(size: nat, ok: bool) returns (done: bool)
      requires Valid() && size >= |items|
      modifies this`items
      ensures done == ok && Valid() && Contents() == old(Contents())
      ensures if ok then |items| == size && items[..filled] == old(items[..filled]) else items == old(items)
    {
      if ok {
        var junk: seq<Item> := seq(size - |items|, _ => Item(0, 0, 0, 0));
        items := items + junk;
      }
      done := ok;
    }

    // drmModeAtomicDuplicate copies the items up to the cursor only.
    method Duplicate() returns (r: AtomicReq)
      requires Valid()
      ensures fresh(r) && r.Valid() && r.Contents() == Contents()
      ensures r.cursor == cursor && |r.items| == |items|
    {
      r := new AtomicReq();
      r.cursor := cursor;
      r.items := seq(|items|, _ => Item(0, 0, 0, 0));
      r.items := items[..cursor] + r.items[cursor..];
      r.filled := cursor;
      assert r.items[..cursor] == Contents();
    }

    // drmModeAtomicAddProperty; pageItems is getpagesize() / sizeof(item).
    method AddProperty(objectId: nat, propertyId: nat, value: nat, pageItems: nat, reallocOk: bool) returns (r: int)
      requires Valid() && pageItems > 0
      modifies this
      ensures Valid()
      ensures objectId == 0 || propertyId == 0 ==> r == -EINVAL
      ensures objectId != 0 && propertyId != 0 ==>
        r == if old(cursor >= |items|) && !reallocOk then -ENOMEM else cursor
      ensures r < 0 ==> Contents() == old(Contents()) && filled == old(filled) && items == old(items)
      ensures r >= 0 ==> Contents() == old(Contents()) + [Item(objectId, propertyId, value, old(cursor))]
      ensures r >= 0 ==> filled == if old(filled) > cursor then old(filled) else cursor
      ensures r >= 0 ==> forall k :: 0 <= k < old(filled) && k != old(cursor) ==> items[k] == old(items[k])
    {
      if objectId == 0 || propertyId == 0 {
        return -EINVAL;
      }
      if cursor >= |items| {
        var done := Grow(|items| + pageItems, reallocOk);
        if !done {
          return -ENOMEM;
        }
      }
      assert forall k :: 0 <= k < filled ==> items[k] == items[..filled][k];
      items := items[cursor := Item(objectId, propertyId, value, cursor)];
      cursor := cursor + 1;
      if cursor > filled { filled := cursor; }
      r := cursor;
    }

    method GetCursor() returns (c: nat)
      ensures c == cursor
    {
      c := cursor;
    }

    // drmModeAtomicSetCursor, to a position the request has had before.
    method SetCursor(c: nat)
      requires Valid() && c <= filled
      modifies this`cursor
      ensures Valid() && cursor == c
      ensures Contents() == items[..c]
      ensures c <= old(cursor) ==> Contents() == old(Contents())[..c]
    {
      cursor := c;
    }

    // drmModeAtomicMerge; augment may be this very request.
    method Merge(augment: AtomicReq?, reallocOk: bool) returns (r: int)
      requires Valid() && (augment != null ==> augment.Valid())
      modifies this
      ensures Valid()
      ensures augment == null || old(augment.cursor) == 0 ==> r == 0 && Contents() == old(Contents())
      ensures augment != null && old(augment.cursor) > 0 ==>
        r == if !reallocOk && old(cursor + augment.cursor >= |items|) then -ENOMEM else 0
      ensures r != 0 ==> Contents() == old(Contents())
      ensures r == 0 && augment != null ==>
        Contents() == old(Contents()) + Renumbered(old(augment.Contents()), old(cursor))
    {
      if augment == null || augment.cursor == 0 {
        assert augment != null ==> Contents() == Contents() + Renumbered(augment.Contents(), cursor);
        return 0;
      }
      ghost var before := Contents();
      ghost var added := augment.Contents();
      var count := augment.cursor;
      var start := cursor;
      if cursor + count >= |items| {
        var done := Grow(cursor + count, reallocOk);
        if !done {
          return -ENOMEM;
        }
      }
      assert augment.Contents() == added && augment.cursor == count;
      ghost var grown := items;
      items := items[..start] + augment.items[..count] + items[start + count..];
      forall k | start + count <= k < filled
        ensures items[k].objectId != 0 && items[k].propertyId != 0 && items[k].cursor == k
      {
        assert items[k] == grown[k] == grown[..filled][k];
      }
      Stamp(start, start + count, before, added);
      cursor := cursor + count;
      r := 0;
    }

    // The copied items are stamped with their new positions.
    method Stamp(from: nat, to: nat, ghost before: seq<Item>, ghost added: seq<Item>)
      requires from == |before| == cursor && to == from + |added| <= |items| && filled <= |items|
      requires items[..from] == before && items[from..to] == added
      requires Stamped(before) && Stamped(added)
      requires forall k :: to <= k < filled ==>
                 items[k].objectId != 0 && items[k].propertyId != 0 && items[k].cursor == k
      modifies this`items, this`filled
      ensures |items| == old(|items|)
      ensures filled == if to > old(filled) then to else old(filled)
      ensures filled <= |items| && Stamped(items[..filled])
      ensures items[..to] == before + Renumbered(added, from)
    {
      ghost var copied := items;
      var i := from;
      while i < to
        invariant from <= i <= to && |items| == |copied| && filled == old(filled)
        invariant forall k :: 0 <= k < |items| ==>
          items[k] == if from <= k < i then copied[k].(cursor := k) else copied[k]
      {
        items := items[i := items[i].(cursor := i)];
        i := i + 1;
      }
      if to > filled { filled := to; }
      StampedItems(before, added, copied, items, from, to);
    }

    static lemma StampedItems(before: seq<Item>, added: seq<Item>, copied: seq<Item>, all: seq<Item>,
                              from: nat, to: nat)
      requires from == |before| && to == from + |added| <= |copied| == |all|
      requires copied[..from] == before && copied[from..to] == added
      requires forall k :: 0 <= k < |all| ==>
        all[k] == if from <= k < to then copied[k].(cursor := k) else copied[k]
      ensures all[..to] == before + Renumbered(added, from)
      ensures forall k :: to <= k < |all| ==> all[k] == copied[k]
      ensures forall k :: 0 <= k < from ==> all[k] == before[k]
      ensures forall k :: from <= k < to ==> all[k] == added[k - from].(cursor := k)
    {
      forall k | from <= k < to
        ensures all[k] == added[k - from].(cursor := k)
      {
        assert copied[from..to][k - from] == added[k - from];
      }
      forall k | 0 <= k < from
        ensures all[k] == before[k]
      {
        assert copied[..from][k] == before[k];
      }
    }

    // qsort(3) with sort_req_list, here as an insertion sort; only the contract is relied on.
    static method QSort(s: seq<Item>) returns (t: seq<Item>)
      requires AllClose(s) && DistinctCursors(s)
      ensures Sorted(t) && multiset(t) == multiset(s) && |t| == |s|
    {
      t := [];
      var i := 0;
      while i < |s|
        invariant i <= |s| == |s| && |t| == i
        invariant Sorted(t) && multiset(t) == multiset(s[..i])
      {
        assert s[..i + 1] == s[..i] + [s[i]];
        SameElements(t, s[..i]);
        forall k | 0 <= k < |t|
          ensures WordItem(t[k]) && Close(t[k], s[i]) && t[k].cursor != s[i].cursor
        {
          assert t[k] in s[..i];
        }
        t := Place(t, s[i]);
        i := i + 1;
      }
      assert s[..i] == s;
    }

    static method Place(t: seq<Item>, x: Item) returns (u: seq<Item>)
      requires Sorted(t) && WordItem(x)
      requires forall y :: y in t ==> WordItem(y) && Close(y, x) && y.cursor != x.cursor
      ensures Sorted(u) && multiset(u) == multiset(t) + multiset{x} && |u| == |t| + 1
    {
      var k: nat := |t|;
      while k > 0 && Compare(x, t[k - 1]) < 0
        invariant k <= |t| && forall j :: k <= j < |t| ==> Before(x, t[j])
      {
        CompareIsBeforeIff(x, t[k - 1]);
        k := k - 1;
      }
      if k > 0 {
        CompareIsBeforeIff(x, t[k - 1]);
        assert Before(t[k - 1], x);
      }
      u := t[..k] + [x] + t[k..];
      PlacedIsSorted(t, x, k, u);
    }

    // memmove of everything after item i one place down
    method DropItem(i: nat)
      requires i < cursor <= |items|
      modifies this
      ensures cursor == old(cursor) - 1 && |items| == old(|items|)
      ensures items[..cursor] == old(items[..cursor])[..i] + old(items[..cursor])[i + 1..]
    {
      items := items[..i] + items[i + 1..cursor] + items[cursor - 1..];
      cursor := cursor - 1;
    }

    // The first pass of the commit, on the sorted copy: count the objects and drop an item that is
    // directly followed by a newer setting of the same property.
    method Deduplicate() returns (countObjs: nat)
      requires cursor <= |items| && forall k :: 0 <= k < cursor ==> items[k].objectId != 0
      modifies this
      ensures cursor <= |items| && items[..cursor] == Reduce(old(items[..cursor]))
      ensures countObjs == CountGroups(0, Reduce(old(items[..cursor])))
    {
      ghost var s := items[..cursor];
      var lastObjId, i := 0, 0;
      countObjs := 0;
      while i < cursor
        invariant i <= cursor <= |items|
        invariant Reduce(s) == items[..cursor][..i] + Reduce(items[..cursor][i..])
        invariant CountGroups(0, s) == countObjs + CountGroups(lastObjId, items[..cursor][i..])
        decreases cursor - i
      {
        DedupStep(items[..cursor], i, lastObjId);
        if items[i].objectId != lastObjId {
          countObjs := countObjs + 1;
          lastObjId := items[i].objectId;
        }
        if i == cursor - 1 {
        } else if items[i].objectId != items[i + 1].objectId || items[i].propertyId != items[i + 1].propertyId {
        } else {
          DropItem(i);
        }
        i := i + 1;
      }
      ReduceKeepsGroups(0, s);
      assert items[..cursor][i..] == [];
      assert items[..cursor][..i] + [] == items[..cursor];
    }

    // drmModeAtomicCommit up to the ioctl; the request itself is untouched.
    method Commit()
      returns (sent: bool, objs: array<nat>, counts: array<nat>, props: array<nat>, values: array<nat>)
      requires Valid() && AllClose(Contents())
      ensures sent <==> cursor > 0
      ensures sent ==> objs.Length == counts.Length && props.Length == values.Length == Sum(counts[..])
      ensures sent ==> Sends(Contents(), objs[..], counts[..], props[..], values[..])
      ensures Valid() && Contents() == old(Contents())
    {
      if cursor == 0 {
        sent := false;
        objs, counts, props, values := new nat[0], new nat[0], new nat[0], new nat[0];
        return;
      }
      var sorted := Duplicate();
      objs, counts, props, values := sorted.Arrange();
      sent := true;
    }

    // What the commit does with its copy of the request.
    method Arrange() returns (objs: array<nat>, counts: array<nat>, props: array<nat>, values: array<nat>)
      requires Valid() && AllClose(Contents())
      modifies this
      ensures objs.Length == counts.Length && props.Length == values.Length == Sum(counts[..])
      ensures Sends(old(Contents()), objs[..], counts[..], props[..], values[..])
    {
      ghost var contents := Contents();
      StampedIsAgeOrdered(contents);
      var order := QSort(items[..cursor]);
      SortedArrangement(contents, order);
      items := order + items[cursor..];
      assert items[..cursor] == order;
      var countObjs := Deduplicate();
      ReduceKeepsOrder(order);
      objs, counts, props, values := Regroup(items[..cursor], countObjs);
      SortedIsSent(contents, order, objs[..], counts[..], props[..], values[..]);
    }
  }

  // What the kernel is sent for a request, as the four arrays of the ioctl: applied in order it means what
  // the request means, and it is the reduced request in some sorted order.  Its objects are those of the
  // request, each once, ascending and with at least one property.  How often each property is sent is
  // SentHalf below.
  ghost predicate Sends(contents: seq<Item>, objs: seq<nat>, counts: seq<nat>, props: seq<nat>, values: seq<nat>)
    requires |objs| == |counts| && |props| == |values| == Sum(counts)
  {
    && ApplyWrites(map[], Expand(objs, counts, props, values)) == Meaning(contents)
    && (exists order :: Sorted(order) && multiset(order) == multiset(contents)
          && Expand(objs, counts, props, values) == Writes(Reduce(order)))
    && (forall j, k :: 0 <= j < k < |objs| ==> objs[j] < objs[k])
    && (forall k :: 0 <= k < |counts| ==> counts[k] > 0)
    && (forall id :: id in objs <==> exists x :: x in contents && x.objectId == id)
  }

  lemma SortedIsSent(contents: seq<Item>, order: seq<Item>, os: seq<nat>, cs: seq<nat>, ps: seq<nat>, vs: seq<nat>)
    requires Stamped(contents) && Sorted(order) && multiset(order) == multiset(contents)
    requires Tight(Reduce(order), os, cs)
    requires |ps| == |vs| == Sum(cs) && Expand(os, cs, ps, vs) == Writes(Reduce(order))
    ensures Sends(contents, os, cs, ps, vs)
  {
    SortedArrangement(contents, order);
    ReduceKeepsMeaning(map[], order);
    WritesMean(map[], Reduce(order));
    SentObjects(contents, order, os, cs);
  }

  // The groups of the reduced list are those of the request.
  lemma SentObjects(contents: seq<Item>, order: seq<Item>, os: seq<nat>, cs: seq<nat>)
    requires Sorted(order) && multiset(order) == multiset(contents) && Tight(Reduce(order), os, cs)
    ensures Increasing(os) && forall id :: id in os <==> exists x :: x in contents && x.objectId == id
  {
    ReduceKeepsOrder(order);
    SameElements(order, contents);
    forall id
      ensures HasObject(Reduce(order), id) <==> exists x :: x in contents && x.objectId == id
    {
      if x :| x in contents && x.objectId == id {
        ReduceKeepsKey(order, x);
      }
    }
  }

  lemma ReduceKeepsKey(s: seq<Item>, x: Item)
    requires x in s
    ensures HasObject(Reduce(s), x.objectId)
  {
    assert HasKey(s, x.Key());
    MeaningHasKeys(s, x.Key());
    ReduceKeepsMeaning(map[], s);
    MeaningHasKeys(Reduce(s), x.Key());
    var y :| y in Reduce(s) && y.Key() == x.Key();
  }

  // Sorting is a rearrangement that keeps the meaning.
  lemma SortedArrangement(contents: seq<Item>, order: seq<Item>)
    requires Stamped(contents) && Sorted(order) && multiset(order) == multiset(contents)
    ensures Meaning(order) == Meaning(contents) && |order| == |contents|
    ensures forall k :: 0 <= k < |order| ==> order[k].objectId != 0
  {
    SameElements(order, contents);
    SortedIsGrouped(order);
    StampedIsAgeOrdered(contents);
    ArrangementsMeanTheSame(order, contents);
    forall k | 0 <= k < |order|
      ensures order[k].objectId != 0
    {
      assert order[k] in contents;
    }
  }

  // qsort does not promise how it sorts; with distinct positions there is only one result.
  lemma {:induction false} SortIsDetermined(s: seq<Item>, t: seq<Item>)
    requires Sorted(s) && Sorted(t) && multiset(s) == multiset(t)
    ensures s == t
  {
    SameElements(s, t);
    if s != [] {
      SameHead(s, t);
      assert s == [s[0]] + s[1..] && t == [t[0]] + t[1..];
      assert multiset(s[1..]) == multiset(s) - multiset{s[0]};
      assert multiset(t[1..]) == multiset(t) - multiset{t[0]};
      SortIsDetermined(s[1..], t[1..]);
    }
  }

  lemma SameHead(s: seq<Item>, t: seq<Item>)
    requires Sorted(s) && Sorted(t) && s != [] && t != [] && forall x :: x in s <==> x in t
    ensures s[0] == t[0]
  {
    assert s[0] in t && t[0] in s;
    var i :| 0 <= i < |t| && t[i] == s[0];
    var j :| 0 <= j < |s| && s[j] == t[0];
  }

  // A count does not depend on the order, so the caller can tell from the request itself whether
  // some property will be sent twice.
  lemma {:induction false} CountOfRearranged(s: seq<Item>, t: seq<Item>, key: (nat, nat))
    requires multiset(s) == multiset(t)
    ensures CountKey(s, key) == CountKey(t, key)
    decreases |s|
  {
    SameElements(s, t);
    if s != [] {
      assert s[0] in t;
      var p :| 0 <= p < |t| && t[p] == s[0];
      MultisetWithout(s, 0);
      MultisetWithout(t, p);
      assert s[..0] + s[1..] == s[1..];
      CountOfRearranged(s[1..], t[..p] + t[p + 1..], key);
      CountWithout(t, p, key);
    }
  }

  lemma MultisetWithout<T>(t: seq<T>, p: nat)
    requires p < |t|
    ensures multiset(t[..p] + t[p + 1..]) == multiset(t) - multiset{t[p]}
  {
    assert t == t[..p] + [t[p]] + t[p + 1..];
  }

  lemma {:induction false} CountWithout(t: seq<Item>, p: nat, key: (nat, nat))
    requires p < |t|
    ensures CountKey(t, key) == (if t[p].Key() == key then 1 else 0) + CountKey(t[..p] + t[p + 1..], key)
    decreases p
  {
    if p == 0 {
      assert t[..p] + t[p + 1..] == t[1..];
    } else {
      CountWithout(t[1..], p - 1, key);
      assert (t[..p] + t[p + 1..])[1..] == t[1..][..p - 1] + t[1..][p..];
    }
  }

  // Of n settings of a property in the request, (n + 1) / 2 are sent.
  lemma SentHalf(contents: seq<Item>, order: seq<Item>, key: (nat, nat))
    requires Sorted(order) && multiset(order) == multiset(contents)
    ensures CountKey(Reduce(order), key) == (CountKey(contents, key) + 1) / 2
  {
    SortedIsGrouped(order);
    ReduceHalves(order, key);
    CountOfRearranged(order, contents, key);
  }

  lemma SentTwiceIffRequestedThrice(contents: seq<Item>, order: seq<Item>)
    requires Sorted(order) && multiset(order) == multiset(contents)
    ensures SetTimes(Reduce(order), 2) <==> SetTimes(contents, 3)
  {
    SentTwiceIffSetThrice(order);
    forall key
      ensures CountKey(order, key) == CountKey(contents, key)
    {
      CountOfRearranged(order, contents, key);
    }
  }

  // Rolling the cursor back undoes everything added since.
  method AddThenRollBack(req: AtomicReq, objectId: nat, propertyId: nat, value: nat, pageItems: nat, ok: bool)
    requires req.Valid() && pageItems > 0
    modifies req
    ensures req.Valid() && req.Contents() == old(req.Contents())
  {
    var c := req.GetCursor();
    var r := req.AddProperty(objectId, propertyId, value, pageItems, ok);
    req.SetCursor(c);
  }

  lemma PlacedIsSorted(t: seq<Item>, x: Item, k: nat, u: seq<Item>)
    requires Sorted(t) && k <= |t| && u == t[..k] + [x] + t[k..]
    requires k > 0 ==> Before(t[k - 1], x)
    requires forall j :: k <= j < |t| ==> Before(x, t[j])
    ensures Sorted(u) && multiset(u) == multiset(t) + multiset{x}
  {
    assert t == t[..k] + t[k..];
    forall i, j | 0 <= i < j < |u|
      ensures Before(u[i], u[j])
    {
      if i < k && j == k {
        assert i < k - 1 ==> Before(t[i], t[k - 1]);
      }
    }
  }

  // How many items the iteration drops.
  function Dropped(rest: seq<Item>): nat {
    if |rest| >= 2 && rest[0].Key() == rest[1].Key() then 1 else 0
  }

  lemma {:induction false} ReduceStep(rest: seq<Item>, last: nat)
    requires rest != []
    ensures var d := Dropped(rest);
      && Reduce(rest) == [rest[d]] + Reduce(rest[d + 1..])
      && CountGroups(last, rest) ==
         (if rest[0].objectId != last then 1 else 0) + CountGroups(rest[0].objectId, rest[d + 1..])
  {
  }

  // One iteration: item i survives, or makes way for the item after it, which then does.
  lemma {:induction false} DedupStep(s: seq<Item>, i: nat, last: nat)
    requires i < |s|
    ensures var rest := s[i..];
      var s' := if Dropped(rest) == 1 then s[..i] + s[i + 1..] else s;
      && i < |s'| && s'[..i + 1] + Reduce(s'[i + 1..]) == s[..i] + Reduce(rest)
      && CountGroups(last, rest) ==
         (if rest[0].objectId != last then 1 else 0) + CountGroups(rest[0].objectId, s'[i + 1..])
  {
    var rest := s[i..];
    var d := Dropped(rest);
    var s' := if d == 1 then s[..i] + s[i + 1..] else s;
    ReduceStep(rest, last);
    assert s'[..i + 1] == s[..i] + [rest[d]];
    assert s'[i + 1..] == rest[d + 1..];
  }

  lemma SameElements<T>(s: seq<T>, t: seq<T>)
    requires multiset(s) == multiset(t)
    ensures |s| == |t|
    ensures forall x :: x in s <==> x in t
  {
    assert |multiset(s)| == |s| && |multiset(t)| == |t|;
    forall x
      ensures x in s <==> x in t
    {
      assert x in s <==> x in multiset(s);
      assert x in t <==> x in multiset(t);
    }
  }
}
